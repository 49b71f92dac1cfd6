/**
 * Properties of a whole invocation of executeCleanLocalRepositoryGoals: a
 * failed validation changes nothing, the list goal never touches the disk and
 * can be repeated, deferred deletion leaves the disk for shutdown, the whole
 * repository purge stops every other pass, a project that is not the
 * execution root only touches its own version folders, the clean goal with
 * immediate deletion deletes exactly what it logs, and the default policy is
 * the explicit one.
 */
module RunLaws {
  import opened Wrappers
  import opened Paths
  import opened Disks
  import opened Configuration
  import opened Retention
  import opened SweepLaws
  import opened PassLaws

  /** The validation an invocation performs on the disk it starts from. */
  function Validated(s: Settings, env: Env, st: RunState): Result<Settings, MojoError>
  {
    Validate(s, RootExists(st.disk, env.root), RootWritable(st.disk, env.root), env.compiles)
  }

  /**
   * A failed validation raises its error before any pass: the state is
   * untouched. A successful one runs the passes on the validated settings.
   */
  lemma FailureChangesNothing(s: Settings, env: Env, st: RunState)
    ensures var r := Execute(s, env, st);
            (r.failure.Some? <==> Validated(s, env, st).Failure?)
            && (r.failure.Some? ==> r.failure.value == Validated(s, env, st).error && r.state == st)
            && (r.failure.None? ==> r.settings == Validated(s, env, st).value)
  {
  }

  lemma CurrentRulesRelog(st: RunState, g: Gate, s: seq<Path>, k: int, delay: int, now: int, earlier: seq<LogEntry>)
    ensures CurrentRules(Relog(st, earlier), g, s, k, delay, now) == Relog(CurrentRules(st, g, s, k, delay, now), earlier)
  {
    SweepRelog(st, g, CountCandidates(s, k), CountExpired, earlier);
    var counted := VersionExpiration(st, g, s, k);
    SweepRelog(counted, g, if delay >= 0 then s else [], DelayExpired(delay, now), earlier);
  }

  lemma RepositoryPassesRelog(v: Settings, env: Env, st: RunState, earlier: seq<LogEntry>)
    ensures RepositoryPasses(v, env, Relog(st, earlier)) == Relog(RepositoryPasses(v, env, st), earlier)
  {
    var version := Gate(env.mode, v.executeDeleteOnExit, Artifact);
    var files := FilesBeneath(st.disk, env.root);
    var afterExpression :=
      match v.deleteFromRegularExpression
      case Some(e) => RegularExpression(st, version, e, env.matches, env.separator, files)
      case None => st;
    if v.deleteFromRegularExpression.Some? {
      SweepRelog(st, version, files, PatternMatch(v.deleteFromRegularExpression.value, env.matches, env.separator), earlier);
    }
    var afterSnapshots :=
      if v.deleteAllSnapshots
      then AllSnapshots(afterExpression, version, SnapshotArtifacts(files), v.snapshotVersionsRetention, v.snapshotRetentionDelay, env.now)
      else afterExpression;
    AllSnapshotsRelog(afterExpression, version, SnapshotArtifacts(files), v.snapshotVersionsRetention, v.snapshotRetentionDelay, env.now, earlier);
    var empty := Gate(env.mode, v.executeDeleteOnExit, Empty);
    SweepRelog(afterSnapshots, empty, Reversed(FoldersBeneath(afterSnapshots.disk, env.root)), NoFiles, earlier);
  }

  /** The passes do not read the log: an earlier log is only kept in front. */
  lemma PassesRelog(v: Settings, env: Env, st: RunState, earlier: seq<LogEntry>)
    ensures Passes(v, env, Relog(st, earlier)) == Relog(Passes(v, env, st), earlier)
  {
    if !v.deleteWholeLocalRepository {
      var version := Gate(env.mode, v.executeDeleteOnExit, Artifact);
      var folders := SubFolders(st.disk, ArtifactFolder(env.root, env.groupId, env.artifactId));
      CurrentRulesRelog(st, version, Snapshots(folders), v.snapshotVersionsRetention, v.snapshotRetentionDelay, env.now, earlier);
      var afterSnapshots :=
        if v.deleteCurrentSnapshot
        then CurrentRules(st, version, Snapshots(folders), v.snapshotVersionsRetention, v.snapshotRetentionDelay, env.now)
        else st;
      CurrentRulesRelog(afterSnapshots, version, Releases(folders), v.releaseVersionsRetention, v.releaseRetentionDelay, env.now, earlier);
      var afterReleases :=
        if v.deleteCurrentRelease
        then CurrentRules(afterSnapshots, version, Releases(folders), v.releaseVersionsRetention, v.releaseRetentionDelay, env.now)
        else afterSnapshots;
      RepositoryPassesRelog(v, env, afterReleases, earlier);
    }
  }

  /** One gate that does not delete during the run, at each pass. */
  predicate KeepsDisk(v: Settings, env: Env)
  {
    env.mode == ListGoal || v.executeDeleteOnExit
  }

  lemma CurrentRulesWithoutDeletion(st: RunState, g: Gate, s: seq<Path>, k: int, delay: int, now: int)
    requires !g.Mutates()
    ensures CurrentRules(st, g, s, k, delay, now).disk == st.disk
    ensures g.mode == ListGoal ==> CurrentRules(st, g, s, k, delay, now).pending == st.pending
  {
    SweepWithoutDeletion(st, g, CountCandidates(s, k), CountExpired);
    var counted := VersionExpiration(st, g, s, k);
    SweepWithoutDeletion(counted, g, if delay >= 0 then s else [], DelayExpired(delay, now));
  }

  lemma RepositoryPassesWithoutDeletion(v: Settings, env: Env, st: RunState)
    requires KeepsDisk(v, env)
    ensures RepositoryPasses(v, env, st).disk == st.disk
    ensures env.mode == ListGoal ==> RepositoryPasses(v, env, st).pending == st.pending
  {
    var version := Gate(env.mode, v.executeDeleteOnExit, Artifact);
    var files := FilesBeneath(st.disk, env.root);
    var afterExpression :=
      match v.deleteFromRegularExpression
      case Some(e) => RegularExpression(st, version, e, env.matches, env.separator, files)
      case None => st;
    if v.deleteFromRegularExpression.Some? {
      SweepWithoutDeletion(st, version, files, PatternMatch(v.deleteFromRegularExpression.value, env.matches, env.separator));
    }
    var afterSnapshots :=
      if v.deleteAllSnapshots
      then AllSnapshots(afterExpression, version, SnapshotArtifacts(files), v.snapshotVersionsRetention, v.snapshotRetentionDelay, env.now)
      else afterExpression;
    assert afterExpression.disk == st.disk && (env.mode == ListGoal ==> afterExpression.pending == st.pending);
    AllSnapshotsWithoutDeletion(afterExpression, version, SnapshotArtifacts(files), v.snapshotVersionsRetention, v.snapshotRetentionDelay, env.now);
    assert afterSnapshots.disk == st.disk && (env.mode == ListGoal ==> afterSnapshots.pending == st.pending);
    var empty := Gate(env.mode, v.executeDeleteOnExit, Empty);
    SweepWithoutDeletion(afterSnapshots, empty, Reversed(FoldersBeneath(afterSnapshots.disk, env.root)), NoFiles);
    assert RepositoryPasses(v, env, st)
           == if v.deleteEmptyFolders then EmptyFolders(afterSnapshots, empty, env.root) else afterSnapshots;
  }

  /** With the list goal or deferred deletion the passes leave the disk as it was; the list goal queues nothing. */
  lemma PassesWithoutDeletion(v: Settings, env: Env, st: RunState)
    requires KeepsDisk(v, env)
    ensures Passes(v, env, st).disk == st.disk
    ensures env.mode == ListGoal ==> Passes(v, env, st).pending == st.pending
  {
    if !v.deleteWholeLocalRepository {
      var version := Gate(env.mode, v.executeDeleteOnExit, Artifact);
      var folders := SubFolders(st.disk, ArtifactFolder(env.root, env.groupId, env.artifactId));
      CurrentRulesWithoutDeletion(st, version, Snapshots(folders), v.snapshotVersionsRetention, v.snapshotRetentionDelay, env.now);
      var afterSnapshots :=
        if v.deleteCurrentSnapshot
        then CurrentRules(st, version, Snapshots(folders), v.snapshotVersionsRetention, v.snapshotRetentionDelay, env.now)
        else st;
      CurrentRulesWithoutDeletion(afterSnapshots, version, Releases(folders), v.releaseVersionsRetention, v.releaseRetentionDelay, env.now);
      var afterReleases :=
        if v.deleteCurrentRelease
        then CurrentRules(afterSnapshots, version, Releases(folders), v.releaseVersionsRetention, v.releaseRetentionDelay, env.now)
        else afterSnapshots;
      RepositoryPassesWithoutDeletion(v, env, afterReleases);
    }
  }

  lemma CurrentRulesDeletesLogged(st: RunState, g: Gate, s: seq<Path>, k: int, delay: int, now: int)
    requires g.Mutates()
    ensures DeletesLogged(st, CurrentRules(st, g, s, k, delay, now))
  {
    var counted := VersionExpiration(st, g, s, k);
    SweepPrunes(st, g, CountCandidates(s, k), CountExpired);
    SweepPrunes(counted, g, if delay >= 0 then s else [], DelayExpired(delay, now));
    DeletesLoggedChain(st, counted, CurrentRules(st, g, s, k, delay, now));
  }

  lemma RepositoryPassesDeletesLogged(v: Settings, env: Env, st: RunState)
    requires env.mode == CleanGoal && !v.executeDeleteOnExit
    ensures DeletesLogged(st, RepositoryPasses(v, env, st))
  {
    var version := Gate(env.mode, v.executeDeleteOnExit, Artifact);
    var files := FilesBeneath(st.disk, env.root);
    var afterExpression :=
      match v.deleteFromRegularExpression
      case Some(e) => RegularExpression(st, version, e, env.matches, env.separator, files)
      case None => st;
    if v.deleteFromRegularExpression.Some? {
      SweepPrunes(st, version, files, PatternMatch(v.deleteFromRegularExpression.value, env.matches, env.separator));
    } else {
      DeletesLoggedRefl(st);
    }
    var afterSnapshots :=
      if v.deleteAllSnapshots
      then AllSnapshots(afterExpression, version, SnapshotArtifacts(files), v.snapshotVersionsRetention, v.snapshotRetentionDelay, env.now)
      else afterExpression;
    AllSnapshotsDeletesLogged(afterExpression, version, SnapshotArtifacts(files), v.snapshotVersionsRetention, v.snapshotRetentionDelay, env.now);
    DeletesLoggedRefl(afterExpression);
    DeletesLoggedChain(st, afterExpression, afterSnapshots);
    var empty := Gate(env.mode, v.executeDeleteOnExit, Empty);
    SweepPrunes(afterSnapshots, empty, Reversed(FoldersBeneath(afterSnapshots.disk, env.root)), NoFiles);
    DeletesLoggedRefl(afterSnapshots);
    var r := if v.deleteEmptyFolders then EmptyFolders(afterSnapshots, empty, env.root) else afterSnapshots;
    assert RepositoryPasses(v, env, st) == r;
    DeletesLoggedChain(st, afterSnapshots, r);
  }

  lemma PassesDeletesLogged(v: Settings, env: Env, st: RunState)
    requires env.mode == CleanGoal && !v.executeDeleteOnExit
    ensures DeletesLogged(st, Passes(v, env, st))
  {
    if v.deleteWholeLocalRepository {
      if env.executionRoot {
        RouteDeletesLogged(st, Gate(env.mode, v.executeDeleteOnExit, All), env.root);
      } else {
        DeletesLoggedRefl(st);
      }
    } else {
      var version := Gate(env.mode, v.executeDeleteOnExit, Artifact);
      var folders := SubFolders(st.disk, ArtifactFolder(env.root, env.groupId, env.artifactId));
      var afterSnapshots :=
        if v.deleteCurrentSnapshot
        then CurrentRules(st, version, Snapshots(folders), v.snapshotVersionsRetention, v.snapshotRetentionDelay, env.now)
        else st;
      CurrentRulesDeletesLogged(st, version, Snapshots(folders), v.snapshotVersionsRetention, v.snapshotRetentionDelay, env.now);
      DeletesLoggedRefl(st);
      var afterReleases :=
        if v.deleteCurrentRelease
        then CurrentRules(afterSnapshots, version, Releases(folders), v.releaseVersionsRetention, v.releaseRetentionDelay, env.now)
        else afterSnapshots;
      CurrentRulesDeletesLogged(afterSnapshots, version, Releases(folders), v.releaseVersionsRetention, v.releaseRetentionDelay, env.now);
      DeletesLoggedRefl(afterSnapshots);
      DeletesLoggedChain(st, afterSnapshots, afterReleases);
      RepositoryPassesDeletesLogged(v, env, afterReleases);
      DeletesLoggedRefl(afterReleases);
      DeletesLoggedChain(st, afterReleases, Passes(v, env, st));
    }
  }

  /**
   * The clean goal with immediate deletion removes from the disk exactly the
   * paths it logs, each with everything beneath it, and nothing else.
   */
  lemma CleanDeletesExactlyLogged(s: Settings, env: Env, st: RunState)
    requires env.mode == CleanGoal && !s.executeDeleteOnExit
    ensures DeletesLogged(st, Execute(s, env, st).state)
  {
    if Validated(s, env, st).Success? {
      PassesDeletesLogged(Validated(s, env, st).value, env, st);
    } else {
      DeletesLoggedRefl(st);
    }
  }

  /** The list goal never changes the disk and queues no deletion, whatever the settings. */
  lemma ListGoalLeavesDiskAlone(s: Settings, env: Env, st: RunState)
    requires env.mode == ListGoal
    ensures Execute(s, env, st).state.disk == st.disk
    ensures Execute(s, env, st).state.pending == st.pending
  {
    if Validated(s, env, st).Success? {
      PassesWithoutDeletion(Validated(s, env, st).value, env, st);
    }
  }

  /** With executeDeleteOnExit every deletion waits for shutdown: the disk stays as it was during the run. */
  lemma DeferredLeavesDiskAlone(s: Settings, env: Env, st: RunState)
    requires s.executeDeleteOnExit
    ensures Execute(s, env, st).state.disk == st.disk
  {
    if Validated(s, env, st).Success? {
      PassesWithoutDeletion(Validated(s, env, st).value, env, st);
    }
  }

  /**
   * Running the list goal a second time, on what the first run left, gives
   * the same outcome and logs the same entries again.
   */
  lemma ListGoalRepeatable(s: Settings, env: Env, st: RunState)
    requires env.mode == ListGoal
    ensures var first := Execute(s, env, st);
            var second := Execute(first.settings, env, first.state);
            |st.log| <= |first.state.log|
            && second.failure == first.failure
            && second.state.disk == st.disk && second.state.pending == st.pending
            && second.state.log == first.state.log + first.state.log[|st.log|..]
  {
    var first := Execute(s, env, st);
    if Validated(s, env, st).Success? {
      var v := Validated(s, env, st).value;
      ValidateIdempotent(s, env.compiles);
      var blank := RunState(st.disk, st.pending, []);
      var once := Passes(v, env, blank);
      PassesWithoutDeletion(v, env, blank);
      PassesRelog(v, env, blank, st.log);
      assert Relog(blank, st.log) == st;
      var added := once.log;
      assert first.state == RunState(st.disk, st.pending, st.log + added);
      assert first.state == Relog(blank, st.log + added);
      PassesRelog(v, env, blank, st.log + added);
      assert first.state.log[|st.log|..] == added;
    }
  }

  /**
   * deleteWholeLocalRepository stops every other pass: from the execution
   * root the one entry is the repository root, deleted at once or at
   * shutdown in the clean goal; from any other project nothing happens.
   */
  lemma WholeRepositoryPurge(s: Settings, env: Env, st: RunState)
    requires Validated(s, env, st).Success? && Validated(s, env, st).value.deleteWholeLocalRepository
    ensures var v := Validated(s, env, st).value;
            var r := Execute(s, env, st).state;
            (!env.executionRoot ==> r == st)
            && (env.executionRoot ==>
                  r.log == st.log + [LogEntry(VerbOf(All, env.mode), env.root)]
                  && (env.mode == CleanGoal && !v.executeDeleteOnExit ==> forall x :: x in r.disk ==> !AtOrBeneath(x.path, env.root))
                  && (env.mode == CleanGoal && v.executeDeleteOnExit ==> r.disk == st.disk && r.pending == st.pending + [env.root])
                  && (env.mode == ListGoal ==> r.disk == st.disk && r.pending == st.pending))
  {
  }

  lemma ExtendsWiden(before: seq<LogEntry>, after: seq<LogEntry>, v: Verb, paths: seq<Path>, wider: seq<Path>)
    requires Extends(before, after, v, paths)
    requires forall p :: p in paths ==> p in wider
    ensures Extends(before, after, v, wider)
  {
  }

  lemma ExtendsChain(a: seq<LogEntry>, b: seq<LogEntry>, c: seq<LogEntry>, v: Verb, paths: seq<Path>)
    requires Extends(a, b, v, paths) && Extends(b, c, v, paths)
    ensures Extends(a, c, v, paths)
  {
    assert c[..|a|] == c[..|b|][..|a|];
  }

  lemma OutsideOfChild(p: Path, q: Path, dir: Path)
    requires ChildOf(q, dir) && !AtOrBeneath(p, dir)
    ensures !AtOrBeneath(p, q)
  {
  }

  /** Both rules over children of dir log only those children and change nothing outside dir. */
  lemma CurrentRulesScope(st: RunState, g: Gate, s: seq<Path>, dir: Path, k: int, delay: int, now: int)
    requires forall q :: q in s ==> ChildOf(q, dir)
    ensures var r := CurrentRules(st, g, s, k, delay, now);
            Extends(st.log, r.log, g.Verb(), s)
            && forall p :: !AtOrBeneath(p, dir) ==> Find(r.disk, p) == Find(st.disk, p)
  {
    var c := CountCandidates(s, k);
    var counted := VersionExpiration(st, g, s, k);
    var ds := if delay >= 0 then s else [];
    var r := CurrentRules(st, g, s, k, delay, now);
    SweepExtends(st, g, c, CountExpired);
    ExtendsWiden(st.log, counted.log, g.Verb(), c, s);
    SweepExtends(counted, g, ds, DelayExpired(delay, now));
    ExtendsWiden(counted.log, r.log, g.Verb(), ds, s);
    ExtendsChain(st.log, counted.log, r.log, g.Verb(), s);
    forall p | !AtOrBeneath(p, dir) ensures Find(r.disk, p) == Find(st.disk, p) {
      forall q | q in c ensures !AtOrBeneath(p, q) {
        OutsideOfChild(p, q, dir);
      }
      SweepKeepsOutside(st, g, c, CountExpired, p);
      forall q | q in ds ensures !AtOrBeneath(p, q) {
        OutsideOfChild(p, q, dir);
      }
      SweepKeepsOutside(counted, g, ds, DelayExpired(delay, now), p);
    }
  }

  /**
   * From a project that is not the execution root only the current
   * artifact's rules run: every entry names one of its snapshot folders
   * (when deleteCurrentSnapshot) or release folders (when
   * deleteCurrentRelease), and nothing outside its folder changes.
   */
  lemma NonRootTouchesOnlyCurrentArtifact(s: Settings, env: Env, st: RunState)
    requires !env.executionRoot
    requires Validated(s, env, st).Success? && !Validated(s, env, st).value.deleteWholeLocalRepository
    ensures var v := Validated(s, env, st).value;
            var dir := ArtifactFolder(env.root, env.groupId, env.artifactId);
            var folders := SubFolders(st.disk, dir);
            var r := Execute(s, env, st).state;
            Extends(st.log, r.log, VerbOf(Artifact, env.mode),
                    (if v.deleteCurrentSnapshot then Snapshots(folders) else [])
                    + (if v.deleteCurrentRelease then Releases(folders) else []))
            && forall p :: !AtOrBeneath(p, dir) ==> Find(r.disk, p) == Find(st.disk, p)
  {
    var v := Validated(s, env, st).value;
    var dir := ArtifactFolder(env.root, env.groupId, env.artifactId);
    var folders := SubFolders(st.disk, dir);
    var version := Gate(env.mode, v.executeDeleteOnExit, Artifact);
    var snapshots := if v.deleteCurrentSnapshot then Snapshots(folders) else [];
    var releases := if v.deleteCurrentRelease then Releases(folders) else [];
    var all := snapshots + releases;
    var afterSnapshots :=
      if v.deleteCurrentSnapshot
      then CurrentRules(st, version, Snapshots(folders), v.snapshotVersionsRetention, v.snapshotRetentionDelay, env.now)
      else st;
    var afterReleases :=
      if v.deleteCurrentRelease
      then CurrentRules(afterSnapshots, version, Releases(folders), v.releaseVersionsRetention, v.releaseRetentionDelay, env.now)
      else afterSnapshots;
    assert Execute(s, env, st).state == afterReleases;
    if v.deleteCurrentSnapshot {
      CurrentRulesScope(st, version, Snapshots(folders), dir, v.snapshotVersionsRetention, v.snapshotRetentionDelay, env.now);
    }
    assert Extends(st.log, afterSnapshots.log, version.Verb(), snapshots);
    ExtendsWiden(st.log, afterSnapshots.log, version.Verb(), snapshots, all);
    if v.deleteCurrentRelease {
      CurrentRulesScope(afterSnapshots, version, Releases(folders), dir, v.releaseVersionsRetention, v.releaseRetentionDelay, env.now);
    }
    assert Extends(afterSnapshots.log, afterReleases.log, version.Verb(), releases);
    ExtendsWiden(afterSnapshots.log, afterReleases.log, version.Verb(), releases, all);
    ExtendsChain(st.log, afterSnapshots.log, afterReleases.log, version.Verb(), all);
  }

  /**
   * With nothing configured the run is the run with snapshot and release
   * delay 7 and count 1 set explicitly for the current artifact.
   */
  lemma DefaultPolicyIsExplicitPolicy(s: Settings, env: Env, st: RunState)
    requires DefaultPolicyApplies(s)
    ensures Execute(s, env, st).failure == Execute(WithDefaultPolicy(s), env, st).failure
    ensures Execute(s, env, st).state == Execute(WithDefaultPolicy(s), env, st).state
  {
  }
}
