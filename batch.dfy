/**
 * The fail-fast policy every command shares: repositories are handled one
 * after another in list order, the first repository that fails ends the
 * whole run with that repository's error message and exit status 1, and a
 * run in which every repository succeeds ends with exit status 0.
 *
 * What one command did for one repository is a RepoRun: the actions it took
 * in order (backend calls, or fields inspected) and the error it stopped on.
 * What a whole command did is a trace of Steps, each an action tagged with
 * the position of its repository in the list.
 */
module Batch {
  import opened Wrappers

  /** The result of a whole command: `Failure` prints its message. */
  datatype Outcome = Success | Failure(message: string)

  /** The process exit status an outcome ends with. */
  function ExitStatus(outcome: Outcome): (code: int)
    ensures code == 0 <==> outcome.Success?
    ensures code == 1 <==> outcome.Failure?
  {
    match outcome
    case Success => 0
    case Failure(_) => 1
  }

  /** The actions taken for one repository and the error that stopped them, if any. */
  datatype RepoRun<T> = RepoRun(actions: seq<T>, failure: Option<string>)

  /** One action of a command, tagged with the list position of its repository. */
  datatype Step<T> = Step(repo: nat, action: T)

  /** Every repository before position `k` succeeded. */
  predicate SucceededBefore<T>(runs: seq<RepoRun<T>>, k: nat)
    requires k <= |runs|
  {
    forall i :: 0 <= i < k ==> runs[i].failure.None?
  }

  /** Position of the first failing repository, or the length of the list when none fails. */
  function FirstFailure<T>(runs: seq<RepoRun<T>>): (k: nat)
    ensures k <= |runs|
    ensures SucceededBefore(runs, k)
    ensures k < |runs| ==> runs[k].failure.Some?
  {
    if runs == [] || runs[0].failure.Some? then 0
    else
      var k := 1 + FirstFailure(runs[1..]);
      assert forall i :: 1 <= i < k ==> runs[i] == runs[1..][i - 1];
      k
  }

  /** The first failure is at `k` when every repository before `k` succeeded and `k` fails or ends the list. */
  lemma {:induction false} FirstFailureAt<T>(runs: seq<RepoRun<T>>, k: nat)
    requires k <= |runs| && SucceededBefore(runs, k)
    requires k < |runs| ==> runs[k].failure.Some?
    ensures FirstFailure(runs) == k
  {
    if k > 0 {
      assert runs[0].failure.None?;
      assert forall j :: 0 <= j < k - 1 ==> runs[1..][j] == runs[j + 1];
      FirstFailureAt(runs[1..], k - 1);
    }
  }

  /**
   * How many repositories a fail-fast loop acts on: a repository is reached
   * exactly when every repository before it succeeded.
   */
  function Reached<T>(runs: seq<RepoRun<T>>): (n: nat)
    ensures n <= |runs|
    ensures forall i :: 0 <= i < |runs| ==> (i < n <==> SucceededBefore(runs, i))
  {
    var k := FirstFailure(runs);
    if k < |runs| then k + 1 else k
  }

  /** The outcome of a fail-fast loop over the list. */
  function BatchOutcome<T>(runs: seq<RepoRun<T>>): (outcome: Outcome)
    ensures outcome.Success? <==> SucceededBefore(runs, |runs|)
    ensures outcome.Failure? ==>
      exists k :: 0 <= k < |runs| && SucceededBefore(runs, k) && runs[k].failure == Some(outcome.message)
  {
    var k := FirstFailure(runs);
    if k < |runs| then Failure(runs[k].failure.value) else Success
  }

  /** The actions of the repository at position `repo`, as steps. */
  function Tagged<T>(repo: nat, actions: seq<T>): (steps: seq<Step<T>>)
    ensures |steps| == |actions|
    ensures forall j :: 0 <= j < |steps| ==> steps[j] == Step(repo, actions[j])
  {
    if actions == [] then [] else [Step(repo, actions[0])] + Tagged(repo, actions[1..])
  }

  /** The steps of the first `n` repositories, in list order. */
  function StepsBefore<T>(runs: seq<RepoRun<T>>, n: nat): seq<Step<T>>
    requires n <= |runs|
  {
    if n == 0 then [] else StepsBefore(runs, n - 1) + Tagged(n - 1, runs[n - 1].actions)
  }

  /** The steps a fail-fast loop over the list takes. */
  function BatchTrace<T>(runs: seq<RepoRun<T>>): seq<Step<T>>
  {
    StepsBefore(runs, Reached(runs))
  }

  /** A loop that passed the first `i` repositories and fails at repository `i` ends there. */
  lemma StopAt<T>(runs: seq<RepoRun<T>>, i: nat)
    requires i < |runs| && SucceededBefore(runs, i) && runs[i].failure.Some?
    ensures BatchOutcome(runs) == Failure(runs[i].failure.value)
    ensures BatchTrace(runs) == StepsBefore(runs, i) + Tagged(i, runs[i].actions)
  {
    FirstFailureAt(runs, i);
  }

  /** A loop that passed every repository succeeds, having acted on all of them. */
  lemma RunToEnd<T>(runs: seq<RepoRun<T>>)
    requires SucceededBefore(runs, |runs|)
    ensures BatchOutcome(runs) == Success
    ensures BatchTrace(runs) == StepsBefore(runs, |runs|)
  {
    FirstFailureAt(runs, |runs|);
  }

  /** The actions a trace takes for the repository at position `repo`, in order. */
  function ActionsOf<T>(trace: seq<Step<T>>, repo: nat): seq<T>
  {
    if trace == [] then []
    else (if trace[0].repo == repo then [trace[0].action] else []) + ActionsOf(trace[1..], repo)
  }

  lemma {:induction false} ActionsOfConcat<T>(s: seq<Step<T>>, t: seq<Step<T>>, repo: nat)
    ensures ActionsOf(s + t, repo) == ActionsOf(s, repo) + ActionsOf(t, repo)
  {
    if s != [] {
      assert (s + t)[1..] == s[1..] + t;
      ActionsOfConcat(s[1..], t, repo);
    } else {
      assert s + t == t;
    }
  }

  lemma {:induction false} ActionsOfTagged<T>(i: nat, actions: seq<T>, repo: nat)
    ensures ActionsOf(Tagged(i, actions), repo) == if i == repo then actions else []
  {
    if actions != [] {
      ActionsOfTagged(i, actions[1..], repo);
      assert Tagged(i, actions)[1..] == Tagged(i, actions[1..]);
    }
  }

  lemma {:induction false} ActionsOfStepsBefore<T>(runs: seq<RepoRun<T>>, n: nat, repo: nat)
    requires n <= |runs|
    ensures ActionsOf(StepsBefore(runs, n), repo) == if repo < n then runs[repo].actions else []
  {
    if n > 0 {
      ActionsOfStepsBefore(runs, n - 1, repo);
      ActionsOfConcat(StepsBefore(runs, n - 1), Tagged(n - 1, runs[n - 1].actions), repo);
      ActionsOfTagged(n - 1, runs[n - 1].actions, repo);
    }
  }

  lemma {:induction false} StepsBeforeOrdered<T>(runs: seq<RepoRun<T>>, n: nat)
    requires n <= |runs|
    ensures forall p :: 0 <= p < |StepsBefore(runs, n)| ==> StepsBefore(runs, n)[p].repo < n
    ensures forall p, q :: 0 <= p < q < |StepsBefore(runs, n)| ==>
      StepsBefore(runs, n)[p].repo <= StepsBefore(runs, n)[q].repo
  {
    if n > 0 {
      StepsBeforeOrdered(runs, n - 1);
      var s, t := StepsBefore(runs, n - 1), Tagged(n - 1, runs[n - 1].actions);
      assert StepsBefore(runs, n) == s + t;
      assert forall p :: |s| <= p < |s + t| ==> (s + t)[p] == t[p - |s|];
    }
  }

  /**
   * The trace of a fail-fast loop visits repositories in list order, and
   * for each repository takes exactly that repository's actions when it is
   * reached, and none at all when it is not.
   */
  lemma TraceShape<T>(runs: seq<RepoRun<T>>)
    ensures forall p, q :: 0 <= p < q < |BatchTrace(runs)| ==> BatchTrace(runs)[p].repo <= BatchTrace(runs)[q].repo
    ensures forall repo: nat :: ActionsOf(BatchTrace(runs), repo) == if repo < Reached(runs) then runs[repo].actions else []
  {
    StepsBeforeOrdered(runs, Reached(runs));
    forall repo: nat
      ensures ActionsOf(BatchTrace(runs), repo) == if repo < Reached(runs) then runs[repo].actions else []
    {
      ActionsOfStepsBefore(runs, Reached(runs), repo);
    }
  }

  /**
   * A repository is acted on exactly when every repository before it
   * succeeded, provided every reached repository takes at least one action.
   */
  lemma TouchedIffEarlierSucceeded<T>(runs: seq<RepoRun<T>>, repo: nat)
    requires repo < |runs|
    requires forall i :: 0 <= i < |runs| ==> runs[i].actions != []
    ensures ActionsOf(BatchTrace(runs), repo) != [] <==> SucceededBefore(runs, repo)
  {
    TraceShape(runs);
  }

  /** Every step of the trace is one of the actions of a reached repository. */
  lemma {:induction false} StepInTrace<T>(runs: seq<RepoRun<T>>, s: Step<T>)
    requires s in BatchTrace(runs)
    ensures s.repo < Reached(runs) && s.action in runs[s.repo].actions
  {
    InActionsOf(BatchTrace(runs), s);
    TraceShape(runs);
  }

  lemma {:induction false} InActionsOf<T>(trace: seq<Step<T>>, s: Step<T>)
    requires s in trace
    ensures s.action in ActionsOf(trace, s.repo)
  {
    if trace[0] != s {
      InActionsOf(trace[1..], s);
    }
  }
}
