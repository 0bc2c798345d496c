/**
 * The `check` command: for each repository in list order, open its working
 * copy, get the worktree, compute its status and test whether it is clean.
 * The first call that fails, or the first repository that is not clean,
 * ends the command with exit status 1; a full pass ends with exit status 0.
 * An error from decoding the file is not looked at.
 */
module CheckCommand {
  import opened Wrappers
  import opened Config
  import opened Backend
  import opened Batch

  /** What `check` does for one repository: three version-control calls and the cleanliness test. */
  datatype Call =
    | PlainOpen(directory: string)
    | Worktree
    | Status
    | IsClean

  /** The backend's answers for one repository. */
  datatype Answers = Answers(open: Answer, worktree: Answer, status: StatusAnswer)

  /** The report for a working copy with changes. */
  function DirtyMessage(directory: string): string
  {
    directory + " is dirty"
  }

  /** The steps for one repository when none of them fails, in order. */
  function Plan(repo: Repository): seq<Call>
  {
    [PlainOpen(repo.directory), Worktree, Status, IsClean]
  }

  /** The error `call` ends with for this repository, if any. */
  function ErrorOf(repo: Repository, answers: Answers, call: Call): Option<string>
  {
    match call
    case PlainOpen(_) => if answers.open.Error? then Some(answers.open.message) else None
    case Worktree => if answers.worktree.Error? then Some(answers.worktree.message) else None
    case Status => if answers.status.StatusError? then Some(answers.status.message) else None
    case IsClean =>
      if answers.status.Listed? && !answers.status.clean then Some(DirtyMessage(repo.directory)) else None
  }

  /** The working copy opens and its status is clean. */
  predicate Clean(answers: Answers)
  {
    answers.open.Done? && answers.worktree.Done? && answers.status == Listed(true)
  }

  /** The steps `check` takes for one repository and the error it stops on. */
  function Inspect(repo: Repository, answers: Answers): RepoRun<Call>
  {
    var open := PlainOpen(repo.directory);
    if answers.open.Error? then RepoRun([open], Some(answers.open.message))
    else if answers.worktree.Error? then RepoRun([open, Worktree], Some(answers.worktree.message))
    else if answers.status.StatusError? then RepoRun([open, Worktree, Status], Some(answers.status.message))
    else if !answers.status.clean then RepoRun(Plan(repo), Some(DirtyMessage(repo.directory)))
    else RepoRun(Plan(repo), None)
  }

  /**
   * For one repository `check` takes a prefix of the planned steps, every
   * step before the last one taken succeeded, the repository's error is the
   * verdict of the last one, and the repository passes exactly when it is
   * clean, after all four steps.
   */
  lemma InspectStopsAtFirstError(repo: Repository, answers: Answers)
    ensures var run := Inspect(repo, answers);
      && 1 <= |run.actions| && run.actions <= Plan(repo)
      && (forall j :: 0 <= j < |run.actions| - 1 ==> ErrorOf(repo, answers, run.actions[j]).None?)
      && run.failure == ErrorOf(repo, answers, run.actions[|run.actions| - 1])
      && (run.failure.None? <==> Clean(answers))
      && (run.failure.None? ==> run.actions == Plan(repo))
  {
  }

  /** `check`'s pass over each repository of the list. */
  function Inspections(config: Config, answers: nat -> Answers): (runs: seq<RepoRun<Call>>)
    ensures |runs| == |config|
    ensures forall i :: 0 <= i < |config| ==> runs[i] == Inspect(config[i], answers(i))
  {
    seq(|config|, i requires 0 <= i < |config| => Inspect(config[i], answers(i)))
  }

  /** The outcome of `check`; a decode error does not stop it. */
  function Verdict(file: ConfigFile, answers: nat -> Answers): Outcome
  {
    match file
    case Unreadable(error) => Failure(error)
    case Read(config, _) => BatchOutcome(Inspections(config, answers))
  }

  /** The steps `check` takes, tagged with their repository's position. */
  function Calls(file: ConfigFile, answers: nat -> Answers): seq<Step<Call>>
  {
    if file.Read? then BatchTrace(Inspections(file.config, answers)) else []
  }

  /** The steps for one repository, stopping at the first one that fails. */
  method InspectRepo(repo: Repository, answers: Answers) returns (calls: seq<Call>, error: Option<string>)
    ensures RepoRun(calls, error) == Inspect(repo, answers)
  {
    calls := [PlainOpen(repo.directory)];
    if answers.open.Error? {
      return calls, Some(answers.open.message);
    }
    calls := calls + [Worktree];
    if answers.worktree.Error? {
      return calls, Some(answers.worktree.message);
    }
    calls := calls + [Status];
    if answers.status.StatusError? {
      return calls, Some(answers.status.message);
    }
    calls := calls + [IsClean];
    if !answers.status.clean {
      return calls, Some(DirtyMessage(repo.directory));
    }
    error := None;
  }

  /** The loop of `check`: fail fast on the first repository that fails or is dirty. */
  method InspectAll(config: Config, answers: nat -> Answers) returns (outcome: Outcome, calls: seq<Step<Call>>)
    ensures outcome == BatchOutcome(Inspections(config, answers))
    ensures calls == BatchTrace(Inspections(config, answers))
  {
    calls := [];
    ghost var runs := Inspections(config, answers);
    var i := 0;
    while i < |config|
      invariant 0 <= i <= |config|
      invariant SucceededBefore(runs, i)
      invariant calls == StepsBefore(runs, i)
    {
      var repoCalls, error := InspectRepo(config[i], answers(i));
      calls := calls + Tagged(i, repoCalls);
      if error.Some? {
        outcome := Failure(error.value);
        StopAt(runs, i);
        return;
      }
      i := i + 1;
    }
    RunToEnd(runs);
    outcome := Success;
  }

  /**
   * The `check` command. It exits with status 0 exactly when the file is
   * readable and every repository is clean, and it runs the same whether or
   * not decoding reported an error.
   */
  method Run(file: ConfigFile, answers: nat -> Answers) returns (outcome: Outcome, calls: seq<Step<Call>>)
    ensures outcome == Verdict(file, answers) && calls == Calls(file, answers)
    ensures ExitStatus(outcome) == 0 <==> file.Read? && forall i :: 0 <= i < |file.config| ==> Clean(answers(i))
    ensures file.Read? ==> outcome == Verdict(Read(file.config, None), answers)
    ensures file.Unreadable? ==> outcome == Failure(file.error) && calls == []
  {
    if file.Unreadable? {
      return Failure(file.error), [];
    }
    outcome, calls := InspectAll(file.config, answers);
    forall i | 0 <= i < |file.config| ensures Inspect(file.config[i], answers(i)).failure.None? <==> Clean(answers(i)) {
      InspectStopsAtFirstError(file.config[i], answers(i));
    }
  }

  /** The run reaches the repository at `k` and fails there, when every earlier repository was clean. */
  lemma ReachesFirstFailing(config: Config, answers: nat -> Answers, k: nat)
    requires k < |config| && !Clean(answers(k))
    requires forall j :: 0 <= j < k ==> Clean(answers(j))
    ensures Reached(Inspections(config, answers)) == k + 1
    ensures BatchOutcome(Inspections(config, answers)) == Failure(Inspect(config[k], answers(k)).failure.value)
  {
    var runs := Inspections(config, answers);
    forall j | 0 <= j <= k ensures runs[j].failure.None? <==> Clean(answers(j)) {
      InspectStopsAtFirstError(config[j], answers(j));
    }
    assert SucceededBefore(runs, k) && runs[k].failure.Some?;
    FirstFailureAt(runs, k);
  }

  /**
   * The first repository that opens but is not clean is reported as
   * "<directory> is dirty" after all four of its steps, and the run ends
   * there with exit status 1.
   */
  lemma ReportsFirstDirty(file: ConfigFile, answers: nat -> Answers, k: nat)
    requires file.Read? && k < |file.config|
    requires forall j :: 0 <= j < k ==> Clean(answers(j))
    requires answers(k).open.Done? && answers(k).worktree.Done? && answers(k).status == Listed(false)
    ensures Verdict(file, answers) == Failure(file.config[k].directory + " is dirty")
    ensures ExitStatus(Verdict(file, answers)) == 1
    ensures ActionsOf(Calls(file, answers), k) == Plan(file.config[k])
  {
    ReachesFirstFailing(file.config, answers, k);
    ActionsOfStepsBefore(Inspections(file.config, answers), k + 1, k);
  }

  /** Once a repository fails or is dirty, `check` takes no step for any repository after it. */
  lemma NothingAfterFirstFailing(file: ConfigFile, answers: nat -> Answers, k: nat, j: nat)
    requires file.Read? && k < |file.config| && !Clean(answers(k))
    requires forall i :: 0 <= i < k ==> Clean(answers(i))
    requires k < j
    ensures ActionsOf(Calls(file, answers), j) == []
  {
    ReachesFirstFailing(file.config, answers, k);
    ActionsOfStepsBefore(Inspections(file.config, answers), k + 1, j);
  }
}
