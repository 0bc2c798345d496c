/**
 * The `init` command: for each repository in list order, clone its remote
 * into its directory, resolve its refspec to a commit hash, open the
 * worktree and check that hash out. The first call that fails ends the
 * command with that call's error. An error from decoding the file is not
 * looked at: the command goes on with whatever list the decoder left.
 */
module InitCommand {
  import opened Wrappers
  import opened Config
  import opened Backend
  import opened Batch

  /** The version-control calls `init` makes for one repository. */
  datatype Call =
    | PlainClone(directory: string, remote: string)
    | ResolveRevision(refspec: string)
    | Worktree
    | Checkout(hash: string)

  /** The backend's answers for one repository, one per call. */
  datatype Answers = Answers(clone: Answer, resolve: Resolution, worktree: Answer, checkout: Answer)

  /** The hash a checkout is asked for; only used once the refspec resolved. */
  function HashOf(answers: Answers): string
  {
    if answers.resolve.Resolved? then answers.resolve.hash else ""
  }

  /** The calls for one repository when every one of them succeeds, in order. */
  function Plan(repo: Repository, hash: string): seq<Call>
  {
    [PlainClone(repo.directory, repo.remote), ResolveRevision(repo.refspec), Worktree, Checkout(hash)]
  }

  /** The error the backend answers to `call`, if any. */
  function ErrorOf(answers: Answers, call: Call): Option<string>
  {
    match call
    case PlainClone(_, _) => if answers.clone.Error? then Some(answers.clone.message) else None
    case ResolveRevision(_) => if answers.resolve.Unresolved? then Some(answers.resolve.message) else None
    case Worktree => if answers.worktree.Error? then Some(answers.worktree.message) else None
    case Checkout(_) => if answers.checkout.Error? then Some(answers.checkout.message) else None
  }

  /** Every call for the repository succeeds. */
  predicate Succeeds(answers: Answers)
  {
    answers.clone.Done? && answers.resolve.Resolved? && answers.worktree.Done? && answers.checkout.Done?
  }

  /** The calls `init` makes for one repository and the error it stops on. */
  function Sync(repo: Repository, answers: Answers): RepoRun<Call>
  {
    var plan := Plan(repo, HashOf(answers));
    if ErrorOf(answers, plan[0]).Some? then RepoRun(plan[..1], ErrorOf(answers, plan[0]))
    else if ErrorOf(answers, plan[1]).Some? then RepoRun(plan[..2], ErrorOf(answers, plan[1]))
    else if ErrorOf(answers, plan[2]).Some? then RepoRun(plan[..3], ErrorOf(answers, plan[2]))
    else RepoRun(plan, ErrorOf(answers, plan[3]))
  }

  /**
   * For one repository `init` makes a prefix of the planned calls, every call
   * before the last one made succeeded, the repository's error is the answer
   * to the last one, and the repository succeeds exactly when every call
   * does, after all four were made.
   */
  lemma SyncStopsAtFirstError(repo: Repository, answers: Answers)
    ensures var run := Sync(repo, answers);
      && 1 <= |run.actions| && run.actions <= Plan(repo, HashOf(answers))
      && (forall j :: 0 <= j < |run.actions| - 1 ==> ErrorOf(answers, run.actions[j]).None?)
      && run.failure == ErrorOf(answers, run.actions[|run.actions| - 1])
      && (run.failure.None? <==> Succeeds(answers))
      && (run.failure.None? ==> run.actions == Plan(repo, HashOf(answers)))
  {
  }

  /** `init`'s pass over each repository of the list. */
  function Syncs(config: Config, answers: nat -> Answers): (runs: seq<RepoRun<Call>>)
    ensures |runs| == |config|
    ensures forall i :: 0 <= i < |config| ==> runs[i] == Sync(config[i], answers(i))
  {
    seq(|config|, i requires 0 <= i < |config| => Sync(config[i], answers(i)))
  }

  /** The outcome of `init`; a decode error does not stop it. */
  function Verdict(file: ConfigFile, answers: nat -> Answers): Outcome
  {
    match file
    case Unreadable(error) => Failure(error)
    case Read(config, _) => BatchOutcome(Syncs(config, answers))
  }

  /** The calls `init` makes, tagged with their repository's position. */
  function Calls(file: ConfigFile, answers: nat -> Answers): seq<Step<Call>>
  {
    if file.Read? then BatchTrace(Syncs(file.config, answers)) else []
  }

  /** The calls for one repository, stopping at the first one that fails. */
  method SyncRepo(repo: Repository, answers: Answers) returns (calls: seq<Call>, error: Option<string>)
    ensures RepoRun(calls, error) == Sync(repo, answers)
  {
    calls := [PlainClone(repo.directory, repo.remote)];
    if answers.clone.Error? {
      return calls, Some(answers.clone.message);
    }
    calls := calls + [ResolveRevision(repo.refspec)];
    if answers.resolve.Unresolved? {
      return calls, Some(answers.resolve.message);
    }
    var hash := answers.resolve.hash;
    calls := calls + [Worktree];
    if answers.worktree.Error? {
      return calls, Some(answers.worktree.message);
    }
    calls := calls + [Checkout(hash)];
    if answers.checkout.Error? {
      return calls, Some(answers.checkout.message);
    }
    error := None;
  }

  /** The loop of `init`: fail fast on the first repository with a failing call. */
  method SyncAll(config: Config, answers: nat -> Answers) returns (outcome: Outcome, calls: seq<Step<Call>>)
    ensures outcome == BatchOutcome(Syncs(config, answers))
    ensures calls == BatchTrace(Syncs(config, answers))
  {
    calls := [];
    ghost var runs := Syncs(config, answers);
    var i := 0;
    while i < |config|
      invariant 0 <= i <= |config|
      invariant SucceededBefore(runs, i)
      invariant calls == StepsBefore(runs, i)
    {
      var repoCalls, error := SyncRepo(config[i], answers(i));
      calls := calls + Tagged(i, repoCalls);
      if error.Some? {
        outcome := Failure(error.value);
        StopAt(runs, i);
        return;
      }
      i := i + 1;
    }
    RunToEnd(runs);
    outcome := Success;
  }

  /**
   * The `init` command. It succeeds exactly when the file is readable and
   * every call for every repository succeeds, and it runs the same whether
   * or not decoding reported an error.
   */
  method Run(file: ConfigFile, answers: nat -> Answers) returns (outcome: Outcome, calls: seq<Step<Call>>)
    ensures outcome == Verdict(file, answers) && calls == Calls(file, answers)
    ensures outcome.Success? <==> file.Read? && forall i :: 0 <= i < |file.config| ==> Succeeds(answers(i))
    ensures file.Read? ==> outcome == Verdict(Read(file.config, None), answers)
    ensures file.Unreadable? ==> outcome == Failure(file.error) && calls == []
  {
    if file.Unreadable? {
      return Failure(file.error), [];
    }
    outcome, calls := SyncAll(file.config, answers);
    forall i | 0 <= i < |file.config| ensures Sync(file.config[i], answers(i)).failure.None? <==> Succeeds(answers(i)) {
      SyncStopsAtFirstError(file.config[i], answers(i));
    }
  }

  /** The run reaches the repository at `k` and fails there, when every earlier repository succeeded. */
  lemma ReachesFirstFailing(config: Config, answers: nat -> Answers, k: nat)
    requires k < |config| && !Succeeds(answers(k))
    requires forall j :: 0 <= j < k ==> Succeeds(answers(j))
    ensures Reached(Syncs(config, answers)) == k + 1
    ensures BatchOutcome(Syncs(config, answers)) == Failure(Sync(config[k], answers(k)).failure.value)
  {
    var runs := Syncs(config, answers);
    forall j | 0 <= j <= k ensures runs[j].failure.None? <==> Succeeds(answers(j)) {
      SyncStopsAtFirstError(config[j], answers(j));
    }
    assert SucceededBefore(runs, k) && runs[k].failure.Some?;
    FirstFailureAt(runs, k);
  }

  /**
   * When the clone of the first failing repository fails, `init` reports the
   * clone's error, and for that repository it never resolves the refspec nor
   * checks anything out.
   */
  lemma FailedCloneStopsRepository(file: ConfigFile, answers: nat -> Answers, k: nat)
    requires file.Read? && k < |file.config|
    requires forall j :: 0 <= j < k ==> Succeeds(answers(j))
    requires answers(k).clone.Error?
    ensures Verdict(file, answers) == Failure(answers(k).clone.message)
    ensures ActionsOf(Calls(file, answers), k) == [PlainClone(file.config[k].directory, file.config[k].remote)]
  {
    ReachesFirstFailing(file.config, answers, k);
    ActionsOfStepsBefore(Syncs(file.config, answers), k + 1, k);
  }

  /**
   * When the clone succeeds but the refspec does not resolve, `init` reports
   * the resolver's error, and for that repository it never checks anything out.
   */
  lemma FailedResolveStopsRepository(file: ConfigFile, answers: nat -> Answers, k: nat)
    requires file.Read? && k < |file.config|
    requires forall j :: 0 <= j < k ==> Succeeds(answers(j))
    requires answers(k).clone.Done? && answers(k).resolve.Unresolved?
    ensures Verdict(file, answers) == Failure(answers(k).resolve.message)
    ensures ActionsOf(Calls(file, answers), k) ==
      [PlainClone(file.config[k].directory, file.config[k].remote), ResolveRevision(file.config[k].refspec)]
  {
    ReachesFirstFailing(file.config, answers, k);
    ActionsOfStepsBefore(Syncs(file.config, answers), k + 1, k);
  }

  /** Once a repository fails, `init` makes no call for any repository after it. */
  lemma NothingAfterFirstFailing(file: ConfigFile, answers: nat -> Answers, k: nat, j: nat)
    requires file.Read? && k < |file.config| && !Succeeds(answers(k))
    requires forall i :: 0 <= i < k ==> Succeeds(answers(i))
    requires k < j
    ensures ActionsOf(Calls(file, answers), j) == []
  {
    ReachesFirstFailing(file.config, answers, k);
    ActionsOfStepsBefore(Syncs(file.config, answers), k + 1, j);
  }

  /** Every checkout `init` makes is of the hash its own repository's refspec resolved to. */
  lemma CheckoutOfResolvedHash(file: ConfigFile, answers: nat -> Answers, s: Step<Call>)
    requires s in Calls(file, answers) && s.action.Checkout?
    ensures answers(s.repo).resolve == Resolved(s.action.hash)
  {
    var runs := Syncs(file.config, answers);
    StepInTrace(runs, s);
    CheckoutInSync(file.config[s.repo], answers(s.repo), s.action);
  }

  /** A checkout among one repository's calls is only made once its refspec resolved, and is of that hash. */
  lemma CheckoutInSync(repo: Repository, answers: Answers, call: Call)
    requires call in Sync(repo, answers).actions && call.Checkout?
    ensures answers.resolve == Resolved(call.hash)
  {
    var plan := Plan(repo, HashOf(answers));
    assert plan[..3] == [plan[0], plan[1], plan[2]];
  }
}
