/**
 * The mojo's parameters and their validation (initializeAndCheckMojoContext):
 * the repository root must exist and be writable, no retention knob may be
 * below -1, a non-empty regular expression must compile, and when nothing at
 * all is configured a default retention policy is filled in.
 */
module Configuration {
  import opened Wrappers

  /** The value that switches a retention knob off. */
  const Disabled := -1

  const DefaultRetentionDelay := 7
  const DefaultVersionsRetention := 1

  datatype Settings = Settings(
    deleteCurrentSnapshot: bool,
    deleteAllSnapshots: bool,
    deleteCurrentRelease: bool,
    snapshotRetentionDelay: int,
    snapshotVersionsRetention: int,
    releaseRetentionDelay: int,
    releaseVersionsRetention: int,
    deleteFromRegularExpression: Option<string>,
    deleteEmptyFolders: bool,
    deleteWholeLocalRepository: bool,
    executeDeleteOnExit: bool)

  /** The plugin parameters an error message can name. */
  datatype MojoOption =
    | SnapshotRetentionDelay
    | SnapshotVersionsRetention
    | ReleaseRetentionDelay
    | ReleaseVersionsRetention
    | DeleteFromRegularExpression

  /**
   * RepositoryUnavailable is thrown as MojoExecutionException, the others as
   * MojoFailureException.
   */
  datatype MojoError =
    | RepositoryUnavailable
    | PermissionDenied
    | NegativeNumber(option: MojoOption, value: int)
    | PatternSyntax(expression: string)
  {
    predicate IsExecutionException() { RepositoryUnavailable? }
  }

  /** The value of a retention knob. */
  function KnobValue(s: Settings, o: MojoOption): int
  {
    match o
    case SnapshotRetentionDelay => s.snapshotRetentionDelay
    case SnapshotVersionsRetention => s.snapshotVersionsRetention
    case ReleaseRetentionDelay => s.releaseRetentionDelay
    case ReleaseVersionsRetention => s.releaseVersionsRetention
    case DeleteFromRegularExpression => 0
  }

  /** The four knobs in the order they are checked. */
  const Knobs := [SnapshotRetentionDelay, SnapshotVersionsRetention, ReleaseRetentionDelay, ReleaseVersionsRetention]

  /** Every knob is -1 or more. */
  predicate KnobsInRange(s: Settings)
  {
    s.snapshotRetentionDelay >= Disabled && s.snapshotVersionsRetention >= Disabled
    && s.releaseRetentionDelay >= Disabled && s.releaseVersionsRetention >= Disabled
  }

  /** The condition of lines 497-499: no regular expression and every knob switched off. */
  predicate DefaultPolicyApplies(s: Settings)
  {
    s.deleteFromRegularExpression.None?
    && s.snapshotRetentionDelay == Disabled && s.snapshotVersionsRetention == Disabled
    && s.releaseRetentionDelay == Disabled && s.releaseVersionsRetention == Disabled
  }

  /** Lines 501-505: 7 days and one version for both subsets of the current artifact. */
  function WithDefaultPolicy(s: Settings): Settings
  {
    s.(snapshotRetentionDelay := DefaultRetentionDelay, releaseRetentionDelay := DefaultRetentionDelay,
       snapshotVersionsRetention := DefaultVersionsRetention, releaseVersionsRetention := DefaultVersionsRetention,
       deleteCurrentSnapshot := true, deleteCurrentRelease := true)
  }

  /**
   * The option named in the message of a knob's error, as written at lines
   * 461-480: the release knobs' messages name the snapshot options.
   */
  function MessageOptionAsWritten(o: MojoOption): MojoOption
  {
    match o
    case ReleaseRetentionDelay => SnapshotRetentionDelay
    case ReleaseVersionsRetention => SnapshotVersionsRetention
    case _ => o
  }

  /** The first knob below -1, checked in source order, with the option its message names. */
  function KnobError(s: Settings, naming: MojoOption -> MojoOption): Option<MojoError>
  {
    if s.snapshotRetentionDelay < Disabled then Some(NegativeNumber(naming(SnapshotRetentionDelay), s.snapshotRetentionDelay))
    else if s.snapshotVersionsRetention < Disabled then Some(NegativeNumber(naming(SnapshotVersionsRetention), s.snapshotVersionsRetention))
    else if s.releaseRetentionDelay < Disabled then Some(NegativeNumber(naming(ReleaseRetentionDelay), s.releaseRetentionDelay))
    else if s.releaseVersionsRetention < Disabled then Some(NegativeNumber(naming(ReleaseVersionsRetention), s.releaseVersionsRetention))
    else None
  }

  /**
   * initializeAndCheckMojoContext with a given naming of the knobs in the
   * error messages. `compiles` stands for Pattern.compile succeeding.
   */
  function CheckContext(s: Settings, rootExists: bool, rootWritable: bool, compiles: string -> bool,
                        naming: MojoOption -> MojoOption): Result<Settings, MojoError>
  {
    if !rootExists then Failure(RepositoryUnavailable)
    else if !rootWritable then Failure(PermissionDenied)
    else if KnobError(s, naming).Some? then Failure(KnobError(s, naming).value)
    else if s.deleteFromRegularExpression.Some? && s.deleteFromRegularExpression.value != ""
            && !compiles(s.deleteFromRegularExpression.value)
    then Failure(PatternSyntax(s.deleteFromRegularExpression.value))
    else if DefaultPolicyApplies(s) then Success(WithDefaultPolicy(s))
    else Success(s)
  }

  /** Validation as written, release knobs reported under the snapshot options. */
  function ValidateAsWritten(s: Settings, rootExists: bool, rootWritable: bool, compiles: string -> bool): Result<Settings, MojoError>
  {
    CheckContext(s, rootExists, rootWritable, compiles, MessageOptionAsWritten)
  }

  /** Validation with each knob's error naming that knob: the model's validation. */
  function Validate(s: Settings, rootExists: bool, rootWritable: bool, compiles: string -> bool): Result<Settings, MojoError>
  {
    CheckContext(s, rootExists, rootWritable, compiles, o => o)
  }

  /**
   * Validation fails exactly when the root is missing or unwritable, a knob
   * is below -1, or a non-empty expression does not compile; a missing root
   * is the one execution error.
   */
  lemma ValidationFailsExactly(s: Settings, rootExists: bool, rootWritable: bool, compiles: string -> bool)
    ensures var r := Validate(s, rootExists, rootWritable, compiles);
            r.Failure? <==> !rootExists || !rootWritable || !KnobsInRange(s)
                            || (s.deleteFromRegularExpression.Some? && s.deleteFromRegularExpression.value != ""
                                && !compiles(s.deleteFromRegularExpression.value))
    ensures var r := Validate(s, rootExists, rootWritable, compiles);
            r.Failure? ==> (r.error.IsExecutionException() <==> !rootExists)
  {
  }

  /** -1 is the only negative value a knob accepts: every value below it is refused. */
  lemma MinusOneIsTheOnlySentinel(s: Settings, o: MojoOption, compiles: string -> bool)
    requires o in Knobs
    ensures KnobValue(s, o) < Disabled ==> Validate(s, true, true, compiles) == Failure(KnobError(s, x => x).value)
  {
  }

  /** A knob error names the knob that is out of range and carries its value. */
  lemma KnobErrorNamesOffendingKnob(s: Settings, compiles: string -> bool)
    ensures var r := Validate(s, true, true, compiles);
            r.Failure? && r.error.NegativeNumber? ==>
              r.error.option in Knobs && KnobValue(s, r.error.option) == r.error.value && r.error.value < Disabled
  {
  }

  /** As written, a negative releaseRetentionDelay is reported as a bad snapshotRetentionDelay. */
  lemma ReleaseDelayReportedAsSnapshotDelay(s: Settings, compiles: string -> bool)
    requires s.snapshotRetentionDelay == 0 && s.snapshotVersionsRetention == 0 && s.releaseRetentionDelay == -2
    ensures ValidateAsWritten(s, true, true, compiles) == Failure(NegativeNumber(SnapshotRetentionDelay, -2))
    ensures KnobValue(s, SnapshotRetentionDelay) != -2
  {
  }

  /**
   * The default policy is filled in exactly when nothing is configured; it
   * sets 7 days and one version for both subsets of the current artifact and
   * changes nothing else. Otherwise validation leaves the settings alone.
   */
  lemma DefaultPolicyExactly(s: Settings, compiles: string -> bool)
    requires Validate(s, true, true, compiles).Success?
    ensures var v := Validate(s, true, true, compiles).value;
            (v != s <==> DefaultPolicyApplies(s))
            && (DefaultPolicyApplies(s) ==>
                  v.snapshotRetentionDelay == 7 && v.releaseRetentionDelay == 7
                  && v.snapshotVersionsRetention == 1 && v.releaseVersionsRetention == 1
                  && v.deleteCurrentSnapshot && v.deleteCurrentRelease
                  && v.deleteAllSnapshots == s.deleteAllSnapshots
                  && v.deleteFromRegularExpression == s.deleteFromRegularExpression
                  && v.deleteEmptyFolders == s.deleteEmptyFolders
                  && v.deleteWholeLocalRepository == s.deleteWholeLocalRepository
                  && v.executeDeleteOnExit == s.executeDeleteOnExit)
  {
  }

  /** Validating validated settings changes nothing: a second run sees the same policy. */
  lemma ValidateIdempotent(s: Settings, compiles: string -> bool)
    requires Validate(s, true, true, compiles).Success?
    ensures Validate(Validate(s, true, true, compiles).value, true, true, compiles)
            == Validate(s, true, true, compiles)
  {
  }
}
