# crepo: a verified model of the repository-set commands

crepo keeps a declared set of git working copies. Its configuration file is
an ordered list of repositories. Each repository has a `directory`, a
`remote` and a `refspec`. Four commands work on that list:

- `validate` checks that every repository has all three fields.
- `init` clones each remote, resolves the refspec and checks that commit out.
- `check` fails on the first working copy that is not clean.
- `foreach` runs one shell command in every directory.

Every batch command walks the list in order. The first failure ends the
run with its message and exit status 1.

This project models that logic in Dafny and proves what it decides:

- which message a command ends with;
- which repositories it acts on;
- which steps it takes for each of them, and in which order;
- when it succeeds.

git and the shell are not modelled. Each command receives their answers as
an oracle, `nat -> Answers`, which gives the answers for the repository at
each list position. A command returns an `Outcome` in place of calling
`os.Exit`. `Success` means exit status 0. `Failure(message)` means the
message is printed and the exit status is 1. A command also returns the
trace of what it did: every backend call it made, or every field it
inspected, tagged with the list position of its repository.

Modules, one per component:

- `Config`: the repository record, the list and the file as a command sees
  it once it has tried to read and decode it (`Unreadable`, or `Read` with
  the decoded list and the decoder's error, if there was one).
- `Backend`: the shapes of the answers from git and the shell.
- `Batch`: the fail-fast policy the commands share. It defines the first
  failing position, how many repositories are reached, the outcome, and the
  trace, with lemmas about the order and the content of the trace.
- `ArgJoin`: Go's `strings.Join`. The program never splits; `Split`, a model of Go's `strings.Split`, is the inverse that the join is proved against.
- `ValidateCommand`, `InitCommand`, `CheckCommand`, `ForeachCommand`: one
  module per command. Each has a `while` loop over the list and a `Run`
  method that handles the file. `validate`, `init` and `check` also have a
  per-repository method with the source's early exits, which the loop calls.
  `foreach` takes a single step per repository, the shell run, and that step
  is written inline in the loop of `RunAll`, as it is in crepo.go:144-154.
  Each method is proved equal to specification functions that are built
  from `Batch`.

The model keeps these behaviours of crepo.go as written:

- An empty refspec is reported as "Remote missing for repo"
  (crepo.go:183-184).
- `init`, `check` and `foreach` ignore the decoder's error
  (crepo.go:45, 96, 142). They go on with whatever list the decoder left.
  Only `validate` fails on it (crepo.go:168-172).
- `init` clones every repository of the list, whether or not its directory
  already exists (crepo.go:56-62). A failing clone ends the run.

The `Batch` members state the fail-fast policy that all four loops share:
`init` (crepo.go:49-82), `check` (crepo.go:98-122), `foreach`
(crepo.go:144-154) and `validate` (crepo.go:174-187). Each `Batch` row below
cites one of these loops, and applies to the other three in the same way.

## Model

| member | source | states |
|---|---|---|
| `Batch.FirstFailure` | crepo.go:49-82 | the first failing position: every repository before it succeeded, and the one at it failed (or it is the list length) |
| `Batch.Reached` | crepo.go:98-122 | a repository is acted on exactly when every repository before it succeeded |
| `Batch.BatchOutcome` | crepo.go:144-154 | a loop succeeds exactly when every repository succeeds; otherwise it fails with the message of a repository whose predecessors all succeeded |
| `Batch.FirstFailureAt` | crepo.go:174-187 | if every repository before `k` succeeded and `k` fails or ends the list, the first failure is at `k` |
| `Batch.StopAt` | crepo.go:56-62 | a loop that passed the first `i` repositories and fails at `i` ends with that repository's error, and its trace stops after that repository's steps |
| `Batch.RunToEnd` | crepo.go:122 | a loop in which every repository succeeded ends with success, after acting on every repository |
| `Batch.TraceShape` | crepo.go:49-82 | the trace visits repositories in list order; for each reached repository it holds exactly that repository's steps, and for each repository not reached it holds none |
| `Batch.TouchedIffEarlierSucceeded` | crepo.go:98-122 | when every repository's pass takes at least one step (true of all four commands), a repository is acted on if and only if every repository before it succeeded |
| `Batch.StepInTrace` | crepo.go:144-154 | every step of the trace belongs to a reached repository and is one of that repository's steps |
| `Batch.ActionsOfStepsBefore` | crepo.go:49-82 | the steps for one repository, taken from the steps of the first `n` repositories, are all of its steps if it comes before `n`, and none otherwise |
| `Batch.StepsBeforeOrdered` | crepo.go:98-122 | the steps of the first `n` repositories belong to those repositories and come in list order |
| `Batch.ActionsOfConcat` | crepo.go:144-154 | picking out one repository's steps distributes over joining two traces |
| `Batch.ActionsOfTagged` | crepo.go:144-154 | the steps of one repository hold its actions for that repository and nothing for any other |
| `Batch.ExitStatus` | crepo.go:117-122 | exit status is 0 exactly on success and 1 exactly on failure |
| `ArgJoin.Join` | crepo.go:135 | Go's `strings.Join`: no arguments give the empty string, and otherwise the result starts with the first argument; `SplitJoin`, `JoinLength` and `JoinAppend` below prove its other properties |
| `ArgJoin.SplitJoin` | crepo.go:135 | joining at least one argument with a one-character separator that no argument contains, then splitting at that character, gives the arguments back |
| `ArgJoin.JoinLength` | crepo.go:135 | the joined string is the arguments' total length plus one separator per gap |
| `ArgJoin.JoinAppend` | crepo.go:135 | joining a concatenation of two non-empty lists is joining each and putting one separator between them |
| `ValidateCommand.MissingMessage` | crepo.go:175-186 | the directory message is used for the directory only, and the remote message for both the remote and the refspec |
| `ValidateCommand.CheckFieldsStopsAtFirstEmpty` | crepo.go:175-186 | fields are inspected in the order directory, remote, refspec; every field before the last one inspected is present; the message is that of the last one; a repository passes exactly when all three are non-empty |
| `ValidateCommand.EmptyRefspecReadsAsMissingRemote` | crepo.go:183-185 | a repository with only an empty refspec is rejected with "Remote missing for repo" after all three fields were inspected |
| `ValidateCommand.StopsAtFirstIncomplete` | crepo.go:174-187 | the first incomplete repository decides the message ("Directory missing for repo" if its directory is empty, "Remote missing for repo" otherwise), and its fields are inspected up to the empty one |
| `ValidateCommand.NothingAfterFirstIncomplete` | crepo.go:174-187 | no repository after the first incomplete one is inspected |
| `ValidateCommand.VerdictAccepts` | crepo.go:162-188 | validation succeeds if and only if the file is readable, it decodes without error, and every repository is complete |
| `ValidateCommand.InspectFields` | crepo.go:175-186 | the checks on one repository, with an early exit at each empty field, are the specified pass over that repository |
| `ValidateCommand.CheckAll` | crepo.go:174-188 | the validation loop returns the fail-fast outcome over the list and inspects exactly the fields of the specified trace |
| `ValidateCommand.Run` | crepo.go:162-188 | `validate` fails on read and decode errors before inspecting anything, succeeds exactly on complete lists, and prints "Config file is valid" on success or the error otherwise |
| `InitCommand.SyncStopsAtFirstError` | crepo.go:56-81 | for one repository the calls are a prefix of clone, resolve, worktree, checkout-of-the-resolved-hash; all calls before the last succeeded; the error is the last call's; the repository succeeds exactly when all four calls do |
| `InitCommand.SyncRepo` | crepo.go:56-81 | the calls for one repository, with an early exit after each failing call, are the specified ones |
| `InitCommand.SyncAll` | crepo.go:49-82 | the `init` loop returns the fail-fast outcome and makes exactly the calls of the specified trace |
| `InitCommand.Run` | crepo.go:40-82 | `init` fails on an unreadable file before any call, ignores the decoder's error, and succeeds exactly when every call for every repository succeeds |
| `InitCommand.FailedCloneStopsRepository` | crepo.go:56-62 | when the first failing repository's clone fails, `init` reports the clone's error, and the clone is the only call made for that repository |
| `InitCommand.FailedResolveStopsRepository` | crepo.go:64-68 | when the clone succeeds but the refspec does not resolve, `init` reports the resolver's error and makes no worktree or checkout call for that repository |
| `InitCommand.NothingAfterFirstFailing` | crepo.go:49-82 | after the first failing repository, `init` makes no call for any later repository |
| `InitCommand.CheckoutOfResolvedHash` | crepo.go:64-77 | every checkout is of the hash that its own repository's refspec resolved to |
| `InitCommand.ReachesFirstFailing` | crepo.go:49-82 | when every repository before `k` succeeds and `k` does not, the run reaches exactly `k + 1` repositories and ends with `k`'s error |
| `CheckCommand.InspectStopsAtFirstError` | crepo.go:99-120 | for one repository the steps are a prefix of open, worktree, status, clean test; the error is the last step's, with "<directory> is dirty" for an unclean tree; the repository passes exactly when it opens and is clean |
| `CheckCommand.InspectRepo` | crepo.go:99-120 | the steps for one repository, with an early exit after each failing step, are the specified ones |
| `CheckCommand.InspectAll` | crepo.go:98-122 | the `check` loop returns the fail-fast outcome and takes exactly the steps of the specified trace |
| `CheckCommand.Run` | crepo.go:91-122 | `check` exits with status 0 exactly when the file is readable and every repository is clean, and it ignores the decoder's error |
| `CheckCommand.ReportsFirstDirty` | crepo.go:117-120 | the first repository that opens but is not clean is reported as "<directory> is dirty" with exit status 1, after all four of its steps |
| `CheckCommand.NothingAfterFirstFailing` | crepo.go:98-121 | after the first failing or dirty repository, `check` takes no step for any later repository |
| `CheckCommand.ReachesFirstFailing` | crepo.go:98-121 | when every repository before `k` is clean and `k` is not, the run reaches exactly `k + 1` repositories and ends with `k`'s error |
| `ForeachCommand.ShellCommandSplitsBack` | crepo.go:135 | the shell command is the arguments separated by single spaces: split at spaces, it gives back arguments that contain no space |
| `ForeachCommand.RunAll` | crepo.go:144-154 | the `foreach` loop returns the fail-fast outcome and starts exactly the shell runs of the specified trace |
| `ForeachCommand.Run` | crepo.go:130-154 | with no arguments `foreach` fails with "Please provide a shell command to execute" and runs nothing, whatever the file; otherwise every run is the space-joined command in its own repository's directory, and it succeeds exactly when the file is readable and every run succeeds |
| `ForeachCommand.NothingAfterFirstFailing` | crepo.go:149-153 | the first failing run is reported as "Error running command in <directory>: <error>", and nothing runs in any later repository |

## Left out

- git itself: cloning, revision resolution, worktrees, checkout, opening a repository and computing status (crepo.go:56-117). These belong to an external library. Each call is an answer from an oracle.
- Process execution for `foreach` (crepo.go:145-149): the `sh -c` spawn and the inherited stdout and stderr. Only the command, the directory and whether the run failed are modelled.
- File reading and YAML decoding (crepo.go:40-45, 91-96, 137-142, 162-168). These are I/O and a library. The file arrives as `Unreadable(error)` or `Read(list, decodeError)`.
- Progress and verbose printing (crepo.go:39, 47, 50-54) is output only and is left out. The model keeps the error messages, the dirty report and the confirmation.
- Command-line wiring and `main` (crepo.go:29-32, 192-201) are plumbing. The config path is replaced by the `ConfigFile` value, the verbose flag only changes printing, and the global `config` becomes a parameter.
- The oracle gives the answers for a repository before the run starts. This is a modelling choice: a real backend's answer may depend on what earlier calls did, for example two entries with the same directory. An oracle indexed by list position allows any such sequence of answers.
- The shell splitting the joined command again, for arguments that contain spaces or quotes, belongs to the shell and is not modelled.
