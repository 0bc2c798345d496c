/**
 * The `validate` command: after the file has been read and decoded, every
 * repository must have a directory, a remote and a refspec. The fields are
 * checked in that order, the first empty one decides the message, and the
 * first incomplete repository ends the command.
 */
module ValidateCommand {
  import opened Wrappers
  import opened Config
  import opened Batch

  /** The fields of a repository, as the validator inspects them. */
  datatype Field = Directory | Remote | Refspec

  const DirectoryMissing: string := "Directory missing for repo"
  const RemoteMissing: string := "Remote missing for repo"
  const Confirmation: string := "Config file is valid"

  /** The order in which the fields of one repository are checked. */
  const FieldOrder: seq<Field> := [Directory, Remote, Refspec]

  function Value(repo: Repository, field: Field): string
  {
    match field
    case Directory => repo.directory
    case Remote => repo.remote
    case Refspec => repo.refspec
  }

  /**
   * The message for an empty field. An empty refspec is reported with the
   * same message as an empty remote, as the program does.
   */
  function MissingMessage(field: Field): (message: string)
    ensures message == DirectoryMissing <==> field == Directory
    ensures message == RemoteMissing <==> field != Directory
  {
    match field
    case Directory => DirectoryMissing
    case Remote => RemoteMissing
    case Refspec => RemoteMissing
  }

  /** What inspecting `field` of `repo` reports: its message if it is empty. */
  function FieldError(repo: Repository, field: Field): Option<string>
  {
    if Value(repo, field) == "" then Some(MissingMessage(field)) else None
  }

  /** A repository the validator accepts. */
  predicate Complete(repo: Repository)
  {
    repo.directory != "" && repo.remote != "" && repo.refspec != ""
  }

  /** The validator's pass over one repository: the fields it inspects and the message it stops on. */
  function CheckFields(repo: Repository): RepoRun<Field>
  {
    if FieldError(repo, Directory).Some? then RepoRun(FieldOrder[..1], FieldError(repo, Directory))
    else if FieldError(repo, Remote).Some? then RepoRun(FieldOrder[..2], FieldError(repo, Remote))
    else RepoRun(FieldOrder, FieldError(repo, Refspec))
  }

  /**
   * The pass over one repository inspects a prefix of the field order,
   * every field before the last one inspected is present, the result is the
   * verdict on the last one, and the repository passes exactly when it is
   * complete, after all three fields were inspected.
   */
  lemma CheckFieldsStopsAtFirstEmpty(repo: Repository)
    ensures var run := CheckFields(repo);
      && 1 <= |run.actions| && run.actions <= FieldOrder
      && (forall j :: 0 <= j < |run.actions| - 1 ==> Value(repo, run.actions[j]) != "")
      && run.failure == FieldError(repo, run.actions[|run.actions| - 1])
      && (run.failure.None? <==> Complete(repo))
      && (run.failure.None? ==> run.actions == FieldOrder)
  {
  }

  /** The validator's pass over each repository of the list. */
  function Checks(config: Config): (runs: seq<RepoRun<Field>>)
    ensures |runs| == |config|
    ensures forall i :: 0 <= i < |config| ==> runs[i] == CheckFields(config[i])
  {
    seq(|config|, i requires 0 <= i < |config| => CheckFields(config[i]))
  }

  /** The outcome of `validate`: read and decode errors first, then the fail-fast pass. */
  function Verdict(file: ConfigFile): Outcome
  {
    match file
    case Unreadable(error) => Failure(error)
    case Read(config, decodeError) =>
      if decodeError.Some? then Failure(decodeError.value) else BatchOutcome(Checks(config))
  }

  /** The fields `validate` inspects, tagged with their repository's position. */
  function Inspected(file: ConfigFile): seq<Step<Field>>
  {
    if file.Read? && file.decodeError.None? then BatchTrace(Checks(file.config)) else []
  }

  /**
   * When the first incomplete repository is at position `k`, `validate`
   * fails with the message of that repository's first empty field (an empty
   * refspec reads as a missing remote) after inspecting that repository's
   * fields up to the empty one.
   */
  lemma StopsAtFirstIncomplete(config: Config, k: nat)
    requires k < |config| && !Complete(config[k])
    requires forall j :: 0 <= j < k ==> Complete(config[j])
    ensures Verdict(Read(config, None)) ==
      Failure(if config[k].directory == "" then DirectoryMissing else RemoteMissing)
    ensures ActionsOf(Inspected(Read(config, None)), k) == CheckFields(config[k]).actions
  {
    FailsAtFirstIncomplete(config, k);
    InspectsFirstIncomplete(config, k);
  }

  /** The message half of `StopsAtFirstIncomplete`. */
  lemma FailsAtFirstIncomplete(config: Config, k: nat)
    requires k < |config| && !Complete(config[k])
    requires forall j :: 0 <= j < k ==> Complete(config[j])
    ensures Verdict(Read(config, None)) ==
      Failure(if config[k].directory == "" then DirectoryMissing else RemoteMissing)
  {
    ReachesFirstIncomplete(config, k);
    IncompleteMessage(config[k]);
  }

  /** The trace half of `StopsAtFirstIncomplete`. */
  lemma InspectsFirstIncomplete(config: Config, k: nat)
    requires k < |config| && !Complete(config[k])
    requires forall j :: 0 <= j < k ==> Complete(config[j])
    ensures ActionsOf(Inspected(Read(config, None)), k) == CheckFields(config[k]).actions
  {
    ReachesFirstIncomplete(config, k);
    ActionsOfStepsBefore(Checks(config), k + 1, k);
  }

  /** An incomplete repository is rejected for its directory if that is empty, and for its remote otherwise. */
  lemma IncompleteMessage(repo: Repository)
    requires !Complete(repo)
    ensures CheckFields(repo).failure == Some(if repo.directory == "" then DirectoryMissing else RemoteMissing)
  {
  }

  /** When the first incomplete repository is at position `k`, no repository after it is inspected. */
  lemma NothingAfterFirstIncomplete(config: Config, k: nat, j: nat)
    requires k < |config| && !Complete(config[k])
    requires forall i :: 0 <= i < k ==> Complete(config[i])
    requires k < j
    ensures ActionsOf(Inspected(Read(config, None)), j) == []
  {
    var runs := Checks(config);
    ReachesFirstIncomplete(config, k);
    ActionsOfStepsBefore(runs, k + 1, j);
  }

  lemma ReachesFirstIncomplete(config: Config, k: nat)
    requires k < |config| && !Complete(config[k])
    requires forall j :: 0 <= j < k ==> Complete(config[j])
    ensures Reached(Checks(config)) == k + 1
    ensures BatchOutcome(Checks(config)) == Failure(CheckFields(config[k]).failure.value)
  {
    var runs := Checks(config);
    assert SucceededBefore(runs, k) && runs[k].failure.Some?;
    FirstFailureAt(runs, k);
  }

  /** A repository whose only empty field is the refspec is rejected with the missing-remote message. */
  lemma EmptyRefspecReadsAsMissingRemote(repo: Repository)
    requires repo.directory != "" && repo.remote != "" && repo.refspec == ""
    ensures CheckFields(repo) == RepoRun(FieldOrder, Some("Remote missing for repo"))
  {
  }

  /** `validate` accepts exactly the readable, decodable files whose every repository is complete. */
  lemma VerdictAccepts(file: ConfigFile)
    ensures Verdict(file).Success? <==>
      file.Read? && file.decodeError.None? && forall i :: 0 <= i < |file.config| ==> Complete(file.config[i])
  {
  }

  /**
   * The `validate` command. `printed` is the line it prints: the
   * confirmation when the configuration is valid, the error otherwise.
   */
  method Run(file: ConfigFile) returns (outcome: Outcome, printed: string, inspected: seq<Step<Field>>)
    ensures outcome == Verdict(file) && inspected == Inspected(file)
    ensures outcome.Success? <==>
      file.Read? && file.decodeError.None? && forall i :: 0 <= i < |file.config| ==> Complete(file.config[i])
    ensures file.Read? && file.decodeError.Some? ==> outcome == Failure(file.decodeError.value) && inspected == []
    ensures printed == if outcome.Success? then Confirmation else outcome.message
  {
    VerdictAccepts(file);
    if file.Unreadable? {
      outcome, inspected := Failure(file.error), [];
    } else if file.decodeError.Some? {
      outcome, inspected := Failure(file.decodeError.value), [];
    } else {
      outcome, inspected := CheckAll(file.config);
    }
    printed := if outcome.Success? then Confirmation else outcome.message;
  }

  /** The checks `validate` makes on one repository, stopping at the first empty field. */
  method InspectFields(repo: Repository) returns (fields: seq<Field>, error: Option<string>)
    ensures RepoRun(fields, error) == CheckFields(repo)
  {
    fields := [Directory];
    if repo.directory == "" {
      return fields, Some(DirectoryMissing);
    }
    fields := fields + [Remote];
    if repo.remote == "" {
      return fields, Some(RemoteMissing);
    }
    fields := fields + [Refspec];
    if repo.refspec == "" {
      return fields, Some(RemoteMissing);
    }
    error := None;
  }

  /** The loop of `validate` over a decoded list: fail fast on the first incomplete repository. */
  method CheckAll(config: Config) returns (outcome: Outcome, inspected: seq<Step<Field>>)
    ensures outcome == BatchOutcome(Checks(config))
    ensures inspected == BatchTrace(Checks(config))
  {
    inspected := [];
    ghost var runs := Checks(config);
    var i := 0;
    while i < |config|
      invariant 0 <= i <= |config|
      invariant SucceededBefore(runs, i)
      invariant inspected == StepsBefore(runs, i)
    {
      var fields, error := InspectFields(config[i]);
      inspected := inspected + Tagged(i, fields);
      if error.Some? {
        outcome := Failure(error.value);
        StopAt(runs, i);
        return;
      }
      i := i + 1;
    }
    RunToEnd(runs);
    outcome := Success;
  }
}
