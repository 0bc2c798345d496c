/**
 * The declaration a command works on: an ordered list of repositories,
 * each one a working-copy directory, the remote it is cloned from and the
 * revision it is pinned to.
 */
module Config {
  import opened Wrappers

  /** One entry of the configuration file. */
  datatype Repository = Repository(directory: string, remote: string, refspec: string)

  /** The repositories in file order; that order is the order of every command. */
  type Config = seq<Repository>

  /**
   * The configuration file as a command sees it after trying to read and
   * decode it. Reading either fails with an error, or yields the list the
   * decoder left behind together with the decoder's error, if it had one.
   * File reading and YAML decoding themselves are not modelled.
   */
  datatype ConfigFile =
    | Unreadable(error: string)
    | Read(config: Config, decodeError: Option<string>)
}
