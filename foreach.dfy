/**
 * The `foreach` command: with no command-line arguments it fails at once;
 * otherwise it joins the arguments with single spaces into one shell
 * command and runs that command in each repository's directory, in list
 * order, stopping at the first repository where it fails. An error from
 * decoding the file is not looked at.
 */
module ForeachCommand {
  import opened Wrappers
  import opened Config
  import opened Backend
  import opened Batch
  import opened ArgJoin

  /** Running `command` through the shell with `directory` as working directory. */
  datatype Call = Shell(directory: string, command: string)

  const NoCommand: string := "Please provide a shell command to execute"

  /** The shell command `foreach` runs for its arguments. */
  function ShellCommand(args: seq<string>): string
  {
    Join(args, " ")
  }

  /**
   * The shell command holds the arguments separated by single spaces: when
   * no argument contains a space, splitting it at spaces gives them back.
   */
  lemma ShellCommandSplitsBack(args: seq<string>)
    requires |args| > 0
    requires forall i :: 0 <= i < |args| ==> ' ' !in args[i]
    ensures Split(ShellCommand(args), ' ') == args
  {
    SplitJoin(args, ' ');
  }

  /** The report for a command that failed in `directory`. */
  function RunError(directory: string, error: string): string
  {
    "Error running command in " + directory + ": " + error
  }

  /** Running the command in one repository, and the error it ends with. */
  function RunIn(repo: Repository, command: string, answer: Answer): RepoRun<Call>
  {
    var call := Shell(repo.directory, command);
    if answer.Error? then RepoRun([call], Some(RunError(repo.directory, answer.message)))
    else RepoRun([call], None)
  }

  /** `foreach`'s pass over each repository of the list. */
  function Runs(config: Config, command: string, answers: nat -> Answer): (runs: seq<RepoRun<Call>>)
    ensures |runs| == |config|
    ensures forall i :: 0 <= i < |config| ==> runs[i] == RunIn(config[i], command, answers(i))
  {
    seq(|config|, i requires 0 <= i < |config| => RunIn(config[i], command, answers(i)))
  }

  /** The outcome of `foreach`: the argument check first, then the file, then the loop. */
  function Verdict(args: seq<string>, file: ConfigFile, answers: nat -> Answer): Outcome
  {
    if |args| == 0 then Failure(NoCommand)
    else match file
      case Unreadable(error) => Failure(error)
      case Read(config, _) => BatchOutcome(Runs(config, ShellCommand(args), answers))
  }

  /** The shell runs `foreach` starts, tagged with their repository's position. */
  function Calls(args: seq<string>, file: ConfigFile, answers: nat -> Answer): seq<Step<Call>>
  {
    if |args| > 0 && file.Read? then BatchTrace(Runs(file.config, ShellCommand(args), answers)) else []
  }

  /** The loop of `foreach`: fail fast on the first repository where the command fails. */
  method RunAll(config: Config, command: string, answers: nat -> Answer) returns (outcome: Outcome, calls: seq<Step<Call>>)
    ensures outcome == BatchOutcome(Runs(config, command, answers))
    ensures calls == BatchTrace(Runs(config, command, answers))
  {
    calls := [];
    ghost var runs := Runs(config, command, answers);
    var i := 0;
    while i < |config|
      invariant 0 <= i <= |config|
      invariant SucceededBefore(runs, i)
      invariant calls == StepsBefore(runs, i)
    {
      var repo := config[i];
      calls := calls + Tagged(i, [Shell(repo.directory, command)]);
      var answer := answers(i);
      if answer.Error? {
        outcome := Failure(RunError(repo.directory, answer.message));
        StopAt(runs, i);
        return;
      }
      i := i + 1;
    }
    RunToEnd(runs);
    outcome := Success;
  }

  /**
   * The `foreach` command. Without arguments it fails before looking at the
   * file; otherwise every run is of the joined command in its own
   * repository's directory, and it succeeds exactly when the file is
   * readable and the command succeeds in every repository.
   */
  method Run(args: seq<string>, file: ConfigFile, answers: nat -> Answer) returns (outcome: Outcome, calls: seq<Step<Call>>)
    ensures outcome == Verdict(args, file, answers) && calls == Calls(args, file, answers)
    ensures |args| == 0 ==> outcome == Failure(NoCommand) && calls == []
    ensures outcome.Success? <==>
      |args| > 0 && file.Read? && forall i :: 0 <= i < |file.config| ==> answers(i).Done?
    ensures forall s :: s in calls ==>
      s.repo < |file.config| && s.action == Shell(file.config[s.repo].directory, Join(args, " "))
  {
    if |args| == 0 {
      return Failure(NoCommand), [];
    }
    var command := Join(args, " ");
    if file.Unreadable? {
      return Failure(file.error), [];
    }
    outcome, calls := RunAll(file.config, command, answers);
    forall s | s in calls ensures s.repo < |file.config| && s.action == Shell(file.config[s.repo].directory, command) {
      StepInTrace(Runs(file.config, command, answers), s);
    }
  }

  /** Once the command fails in a repository, `foreach` runs nothing in any repository after it. */
  lemma NothingAfterFirstFailing(args: seq<string>, file: ConfigFile, answers: nat -> Answer, k: nat, j: nat)
    requires |args| > 0 && file.Read? && k < |file.config| && answers(k).Error?
    requires forall i :: 0 <= i < k ==> answers(i).Done?
    requires k < j
    ensures Verdict(args, file, answers) ==
      Failure("Error running command in " + file.config[k].directory + ": " + answers(k).message)
    ensures ActionsOf(Calls(args, file, answers), j) == []
  {
    var runs := Runs(file.config, ShellCommand(args), answers);
    assert SucceededBefore(runs, k) && runs[k].failure.Some?;
    FirstFailureAt(runs, k);
    ActionsOfStepsBefore(runs, k + 1, j);
  }
}
