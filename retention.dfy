/**
 * The retention-decision engine as functions over the run state: each pass
 * walks a list of paths, flags some of them by its rule, logs every flagged
 * path with the goal's verb and, in the clean goal, deletes it at once or
 * queues it for deletion at shutdown. These functions are the specification
 * the mojo's methods are proved against.
 */
module Retention {
  import opened Wrappers
  import opened Paths
  import opened Disks
  import opened Ordering
  import opened Configuration

  /** The goal run: `list` only reports, `clean` reports and deletes (isDeleteModeActivated). */
  datatype Mode = ListGoal | CleanGoal

  /** Which pair of log verbs a pass uses. */
  datatype Kind = Artifact | Empty | All

  /** The log verbs: the first word of every info line the passes write. */
  datatype Verb = Delete | List | DeleteEmpty | ListEmpty | DeleteAll | ListAll

  function VerbOf(kind: Kind, mode: Mode): Verb
  {
    match kind
    case Artifact => if mode == CleanGoal then Delete else List
    case Empty => if mode == CleanGoal then DeleteEmpty else ListEmpty
    case All => if mode == CleanGoal then DeleteAll else ListAll
  }

  datatype LogEntry = LogEntry(verb: Verb, path: Path)

  /** How a flagged path is handled: the goal, deletion deferred to shutdown or not, and the verb pair. */
  datatype Gate = Gate(mode: Mode, deferred: bool, kind: Kind)
  {
    /** Only the clean goal with immediate deletion changes the disk during the run. */
    predicate Mutates() { mode == CleanGoal && !deferred }

    function Verb(): Verb { VerbOf(kind, mode) }
  }

  /** The disk, the deletions queued for shutdown and the log. */
  datatype RunState = RunState(disk: Disk, pending: seq<Path>, log: seq<LogEntry>)

  /** Log p; in the clean goal delete it now or queue it for shutdown. */
  function Route(st: RunState, g: Gate, p: Path): RunState
  {
    RunState(
      if g.Mutates() then Removed(st.disk, p) else st.disk,
      if g.mode == CleanGoal && g.deferred then st.pending + [p] else st.pending,
      st.log + [LogEntry(g.Verb(), p)])
  }

  /** The same state after a log that already held `earlier`. */
  function Relog(st: RunState, earlier: seq<LogEntry>): RunState
  {
    st.(log := earlier + st.log)
  }

  /** `after` is `before` followed by entries that all carry verb v and name a path of `paths`. */
  predicate Extends(before: seq<LogEntry>, after: seq<LogEntry>, v: Verb, paths: seq<Path>)
  {
    |before| <= |after| && after[..|before|] == before
    && forall i :: |before| <= i < |after| ==> after[i].verb == v && after[i].path in paths
  }

  /** Distinct children of one folder: the version folders of one artifact. */
  predicate Siblings(s: seq<Path>, dir: Path)
  {
    (forall i :: 0 <= i < |s| ==> ChildOf(s[i], dir))
    && forall i, j :: 0 <= i < j < |s| ==> s[i] != s[j]
  }

  /** What flags a path. */
  datatype Rule =
    | CountExpired
    | DelayExpired(retentionDelay: int, now: int)
    | PatternMatch(expression: string, matches: (string, string) -> bool, separator: char)
    | NoFiles

  function Flags(rule: Rule, d: Disk, p: Path): bool
  {
    match rule
    case CountExpired => true
    case DelayExpired(delay, now) => ElapsedDays(d, p, now) > delay
    case PatternMatch(expression, matches, sep) => matches(expression, Render(p, sep))
    case NoFiles => FilesBeneath(d, p) == []
  }

  /** One pass: the items in order, each judged on the disk as the earlier ones left it. */
  function Sweep(st: RunState, g: Gate, items: seq<Path>, rule: Rule): RunState
    decreases |items|
  {
    if items == [] then st
    else
      var before := Sweep(st, g, items[..|items| - 1], rule);
      var p := items[|items| - 1];
      if Flags(rule, before.disk, p) then Route(before, g, p) else before
  }

  /** One more item of a listing swept: the rule is asked about it on the disk the earlier ones left. */
  lemma SweepStep(st: RunState, g: Gate, items: seq<Path>, lo: int, i: int, rule: Rule)
    requires 0 <= lo <= i < |items|
    ensures var before := Sweep(st, g, items[lo..i], rule);
            Sweep(st, g, items[lo..i + 1], rule)
            == if Flags(rule, before.disk, items[i]) then Route(before, g, items[i]) else before
  {
    assert items[lo..i + 1] == items[lo..i] + [items[i]];
    SweepSnoc(st, g, items[lo..i], items[i], rule);
  }

  lemma SweepSnoc(st: RunState, g: Gate, items: seq<Path>, p: Path, rule: Rule)
    ensures var before := Sweep(st, g, items, rule);
            Sweep(st, g, items + [p], rule) == if Flags(rule, before.disk, p) then Route(before, g, p) else before
  {
    assert (items + [p])[..|items|] == items;
  }

  /** The items the rule flags on a fixed disk, in order. */
  function Flagged(d: Disk, items: seq<Path>, rule: Rule): (r: seq<Path>)
    ensures forall p :: p in r <==> p in items && Flags(rule, d, p)
    decreases |items|
  {
    if items == [] then []
    else
      var pre := items[..|items| - 1];
      var p := items[|items| - 1];
      assert items == pre + [p];
      if Flags(rule, d, p) then Flagged(d, pre, rule) + [p] else Flagged(d, pre, rule)
  }

  /** One log entry per path, in order. */
  function Entries(v: Verb, ps: seq<Path>): (r: seq<LogEntry>)
    ensures |r| == |ps|
    ensures forall i :: 0 <= i < |ps| ==> r[i] == LogEntry(v, ps[i])
    decreases |ps|
  {
    if ps == [] then [] else Entries(v, ps[..|ps| - 1]) + [LogEntry(v, ps[|ps| - 1])]
  }

  /** getSnapshots / getReleases: the version folders whose name ends with -SNAPSHOT, and the others. */
  predicate IsSnapshot(name: string)
  {
    |name| >= 9 && name[|name| - 9..] == "-SNAPSHOT"
  }

  predicate IsSnapshotFolder(p: Path)
  {
    |p| >= 1 && IsSnapshot(p[|p| - 1])
  }

  function Snapshots(folders: seq<Path>): (r: seq<Path>)
    ensures forall p :: p in r <==> p in folders && IsSnapshotFolder(p)
  {
    if folders == [] then []
    else if IsSnapshotFolder(folders[0]) then [folders[0]] + Snapshots(folders[1..])
    else Snapshots(folders[1..])
  }

  function Releases(folders: seq<Path>): (r: seq<Path>)
    ensures forall p :: p in r <==> p in folders && !IsSnapshotFolder(p)
  {
    if folders == [] then []
    else if !IsSnapshotFolder(folders[0]) then [folders[0]] + Releases(folders[1..])
    else Releases(folders[1..])
  }

  /** A file in a snapshot version folder: artifact / version / file. */
  predicate IsSnapshotFile(f: Path)
  {
    |f| >= 2 && IsSnapshot(f[|f| - 2])
  }

  /**
   * getSnapshotArtifacts: the artifact folders holding a snapshot version,
   * each once, in the order their first file is listed.
   */
  function SnapshotArtifacts(files: seq<Path>): seq<Path>
    decreases |files|
  {
    if files == [] then []
    else
      var r := SnapshotArtifacts(files[..|files| - 1]);
      var f := files[|files| - 1];
      if IsSnapshotFile(f) && f[..|f| - 2] !in r then r + [f[..|f| - 2]] else r
  }

  /** Each artifact folder is listed once. */
  lemma {:induction false} SnapshotArtifactsDistinct(files: seq<Path>)
    ensures Distinct(SnapshotArtifacts(files))
    decreases |files|
  {
    if files != [] {
      var pre := files[..|files| - 1];
      var f := files[|files| - 1];
      SnapshotArtifactsDistinct(pre);
      var r := SnapshotArtifacts(pre);
      if IsSnapshotFile(f) && f[..|f| - 2] !in r {
        SnocDistinct(r, f[..|f| - 2]);
      }
    }
  }

  /** Every snapshot file's artifact folder is listed. */
  lemma {:induction false} SnapshotArtifactsComplete(files: seq<Path>)
    ensures forall f :: f in files && IsSnapshotFile(f) ==> f[..|f| - 2] in SnapshotArtifacts(files)
    decreases |files|
  {
    if files != [] {
      var pre := files[..|files| - 1];
      var f := files[|files| - 1];
      SnapshotArtifactsComplete(pre);
      forall x | x in files && IsSnapshotFile(x) ensures x[..|x| - 2] in SnapshotArtifacts(files) {
        if x != f {
          var m :| 0 <= m < |files| && files[m] == x;
          assert pre[m] == x;
        }
      }
    }
  }

  /** Every listed folder is the artifact folder of a snapshot file. */
  lemma {:induction false} SnapshotArtifactsSound(files: seq<Path>)
    ensures forall a :: a in SnapshotArtifacts(files) ==> exists f :: f in files && IsSnapshotFile(f) && a == f[..|f| - 2]
    decreases |files|
  {
    if files != [] {
      var pre := files[..|files| - 1];
      var f := files[|files| - 1];
      SnapshotArtifactsSound(pre);
      var r := SnapshotArtifacts(pre);
      forall a | a in SnapshotArtifacts(files) ensures exists x :: x in files && IsSnapshotFile(x) && a == x[..|x| - 2] {
        if a in r {
          var x :| x in pre && IsSnapshotFile(x) && a == x[..|x| - 2];
          var m :| 0 <= m < |pre| && pre[m] == x;
          assert files[m] == x;
        } else {
          assert files[|files| - 1] == f;
        }
      }
    }
  }

  /** deleteArtifactOnVersionExpiration: the folders from position k on; none for k < 0. */
  function CountCandidates(s: seq<Path>, k: int): seq<Path>
  {
    if 0 <= k < |s| then s[k..] else []
  }

  function VersionExpiration(st: RunState, g: Gate, s: seq<Path>, k: int): RunState
  {
    Sweep(st, g, CountCandidates(s, k), CountExpired)
  }

  /** deleteArtifactOnDelayExpiration: every folder older than the delay; none for a delay below 0. */
  function DelayExpiration(st: RunState, g: Gate, s: seq<Path>, delay: int, now: int): RunState
  {
    Sweep(st, g, if delay >= 0 then s else [], DelayExpired(delay, now))
  }

  /** The count rule, then the delay rule over the same list. */
  function CurrentRules(st: RunState, g: Gate, s: seq<Path>, k: int, delay: int, now: int): RunState
  {
    DelayExpiration(VersionExpiration(st, g, s, k), g, s, delay, now)
  }

  /** One artifact of deleteAllSnapshots: both rules over its snapshot folders, listed afresh for each rule. */
  function ArtifactSnapshots(st: RunState, g: Gate, a: Path, k: int, delay: int, now: int): RunState
  {
    var counted := VersionExpiration(st, g, Snapshots(SubFolders(st.disk, a)), k);
    DelayExpiration(counted, g, Snapshots(SubFolders(counted.disk, a)), delay, now)
  }

  /** deleteAllSnapshots: every artifact holding a snapshot, in turn. */
  function AllSnapshots(st: RunState, g: Gate, artifacts: seq<Path>, k: int, delay: int, now: int): RunState
    decreases |artifacts|
  {
    if artifacts == [] then st
    else
      var before := AllSnapshots(st, g, artifacts[..|artifacts| - 1], k, delay, now);
      ArtifactSnapshots(before, g, artifacts[|artifacts| - 1], k, delay, now)
  }

  /** One more artifact runs its rules on the state the earlier ones left. */
  lemma AllSnapshotsSnoc(st: RunState, g: Gate, artifacts: seq<Path>, j: int, k: int, delay: int, now: int)
    requires 0 <= j < |artifacts|
    ensures AllSnapshots(st, g, artifacts[..j + 1], k, delay, now)
            == ArtifactSnapshots(AllSnapshots(st, g, artifacts[..j], k, delay, now), g, artifacts[j], k, delay, now)
  {
    assert artifacts[..j + 1][..j] == artifacts[..j];
  }

  /** deleteFromRegularExpression: every listed file whose absolute path matches. */
  function RegularExpression(st: RunState, g: Gate, expression: string, matches: (string, string) -> bool,
                             sep: char, files: seq<Path>): RunState
  {
    Sweep(st, g, files, PatternMatch(expression, matches, sep))
  }

  /** deleteEmptyFolders: every folder beneath the root, deepest first, that holds no file. */
  function EmptyFolders(st: RunState, g: Gate, root: Path): RunState
  {
    Sweep(st, g, Reversed(FoldersBeneath(st.disk, root)), NoFiles)
  }

  /** deleteAll: the root itself, only from the execution root. */
  function WholeRepository(st: RunState, g: Gate, root: Path, executionRoot: bool): RunState
  {
    if executionRoot then Route(st, g, root) else st
  }

  /**
   * What the mojo reads besides its parameters: the repository root, the
   * current project, the goal, the clock, the separator and the regular
   * expression engine (Pattern.compile succeeding, and case-insensitive
   * matching of an absolute path).
   */
  datatype Env = Env(
    root: Path,
    groupId: string,
    artifactId: string,
    executionRoot: bool,
    mode: Mode,
    now: int,
    separator: char,
    compiles: string -> bool,
    matches: (string, string) -> bool)

  predicate RootExists(d: Disk, root: Path) { Find(d, root).Some? }

  predicate RootWritable(d: Disk, root: Path) { Find(d, root).Some? && Find(d, root).value.writable }

  /** The outcome of one invocation: the error raised, if any, the parameters after validation and the state. */
  datatype Run = Run(failure: Option<MojoError>, settings: Settings, state: RunState)

  /** executeCleanLocalRepositoryGoals. */
  function Execute(s: Settings, env: Env, st: RunState): Run
  {
    match Validate(s, RootExists(st.disk, env.root), RootWritable(st.disk, env.root), env.compiles)
    case Failure(e) => Run(Some(e), s, st)
    case Success(v) => Run(None, v, Passes(v, env, st))
  }

  /** The passes after validation. */
  function Passes(v: Settings, env: Env, st: RunState): RunState
  {
    if v.deleteWholeLocalRepository then
      WholeRepository(st, Gate(env.mode, v.executeDeleteOnExit, All), env.root, env.executionRoot)
    else
      var version := Gate(env.mode, v.executeDeleteOnExit, Artifact);
      var folders := SubFolders(st.disk, ArtifactFolder(env.root, env.groupId, env.artifactId));
      var afterSnapshots :=
        if v.deleteCurrentSnapshot
        then CurrentRules(st, version, Snapshots(folders), v.snapshotVersionsRetention, v.snapshotRetentionDelay, env.now)
        else st;
      var afterReleases :=
        if v.deleteCurrentRelease
        then CurrentRules(afterSnapshots, version, Releases(folders), v.releaseVersionsRetention, v.releaseRetentionDelay, env.now)
        else afterSnapshots;
      if env.executionRoot then RepositoryPasses(v, env, afterReleases) else afterReleases
  }

  /** The passes run from the execution root only: regular expression, all snapshots, empty folders. */
  function RepositoryPasses(v: Settings, env: Env, st: RunState): RunState
  {
    var version := Gate(env.mode, v.executeDeleteOnExit, Artifact);
    var files := FilesBeneath(st.disk, env.root);
    var afterExpression :=
      match v.deleteFromRegularExpression
      case Some(e) => RegularExpression(st, version, e, env.matches, env.separator, files)
      case None => st;
    var afterSnapshots :=
      if v.deleteAllSnapshots
      then AllSnapshots(afterExpression, version, SnapshotArtifacts(files), v.snapshotVersionsRetention, v.snapshotRetentionDelay, env.now)
      else afterExpression;
    if v.deleteEmptyFolders then EmptyFolders(afterSnapshots, Gate(env.mode, v.executeDeleteOnExit, Empty), env.root)
    else afterSnapshots
  }
}
