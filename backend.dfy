/**
 * What the version-control library and the shell answer. Their behaviour is
 * not modelled: every command receives these answers as an oracle indexed by
 * the repository's position in the list.
 */
module Backend {
  /** The answer to a call whose result the commands only test for an error. */
  datatype Answer = Done | Error(message: string)

  /** The answer to resolving a revision expression to a commit hash. */
  datatype Resolution = Resolved(hash: string) | Unresolved(message: string)

  /** The answer to computing the working-tree status: whether it is clean, or an error. */
  datatype StatusAnswer = Listed(clean: bool) | StatusError(message: string)
}
