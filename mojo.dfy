/**
 * AbstractLocalRepositoryMojo as a class: the parameters are fields that
 * validation overwrites, the log is a field every pass appends to, and the
 * filesystem is an object with the delete primitive. Each method is proved to
 * leave the state that the matching function of Retention computes.
 */
module Mojo {
  import opened Wrappers
  import opened Paths
  import opened Disks
  import opened Configuration
  import opened Retention

  /** The host filesystem: the disk and the paths registered for deletion at shutdown. */
  class FileSystem {
    var disk: Disk
    var pending: seq<Path>

    constructor (d: Disk)
      ensures disk == d && pending == []
    {
      disk := d;
      pending := [];
    }

    /**
     * Tools.deleteQuietly / Tools.deleteFolderQuietly: delete p and everything
     * beneath it now, or register it for deletion when the JVM exits.
     */
    method Delete(p: Path, deferred: bool)
      modifies this
      ensures disk == if deferred then old(disk) else Removed(old(disk), p)
      ensures pending == if deferred then old(pending) + [p] else old(pending)
    {
      if deferred {
        pending := pending + [p];
      } else {
        disk := Removed(disk, p);
      }
    }
  }

  /** Collections.reverse: the list reversed in place. */
  method ReverseInPlace(a: array<Path>)
    modifies a
    ensures a[..] == Reversed(old(a[..]))
  {
    var lo, hi := 0, a.Length - 1;
    while lo < hi
      invariant 0 <= lo <= a.Length && -1 <= hi < a.Length && lo + hi == a.Length - 1
      invariant forall k :: 0 <= k < lo ==> a[k] == old(a[a.Length - 1 - k]) && a[a.Length - 1 - k] == old(a[k])
      invariant forall k :: lo <= k <= hi ==> a[k] == old(a[k])
    {
      a[lo], a[hi] := a[hi], a[lo];
      lo, hi := lo + 1, hi - 1;
    }
  }

  class LocalRepositoryMojo {
    var deleteCurrentSnapshot: bool
    var deleteAllSnapshots: bool
    var deleteCurrentRelease: bool
    var snapshotRetentionDelay: int
    var snapshotVersionsRetention: int
    var releaseRetentionDelay: int
    var releaseVersionsRetention: int
    var deleteFromRegularExpression: Option<string>
    var deleteEmptyFolders: bool
    var deleteWholeLocalRepository: bool
    var executeDeleteOnExit: bool

    /** localMavenRepository.getBasedir(), the current project, the goal and the clock. */
    const root: Path
    const groupId: string
    const artifactId: string
    const executionRoot: bool
    const mode: Mode
    const now: int
    const separator: char
    const compiles: string -> bool
    const matches: (string, string) -> bool

    /** The info lines written through getLog(). */
    var log: seq<LogEntry>
    const fs: FileSystem

    function Settings(): Settings
      reads this
    {
      Configuration.Settings(deleteCurrentSnapshot, deleteAllSnapshots, deleteCurrentRelease,
               snapshotRetentionDelay, snapshotVersionsRetention, releaseRetentionDelay, releaseVersionsRetention,
               deleteFromRegularExpression, deleteEmptyFolders, deleteWholeLocalRepository, executeDeleteOnExit)
    }

    function Env(): Env
    {
      Retention.Env(root, groupId, artifactId, executionRoot, mode, now, separator, compiles, matches)
    }

    function State(): RunState
      reads this, fs
    {
      RunState(fs.disk, fs.pending, log)
    }

    constructor (s: Settings, env: Env, fs: FileSystem)
      ensures Settings() == s && Env() == env && this.fs == fs && log == []
    {
      deleteCurrentSnapshot := s.deleteCurrentSnapshot;
      deleteAllSnapshots := s.deleteAllSnapshots;
      deleteCurrentRelease := s.deleteCurrentRelease;
      snapshotRetentionDelay := s.snapshotRetentionDelay;
      snapshotVersionsRetention := s.snapshotVersionsRetention;
      releaseRetentionDelay := s.releaseRetentionDelay;
      releaseVersionsRetention := s.releaseVersionsRetention;
      deleteFromRegularExpression := s.deleteFromRegularExpression;
      deleteEmptyFolders := s.deleteEmptyFolders;
      deleteWholeLocalRepository := s.deleteWholeLocalRepository;
      executeDeleteOnExit := s.executeDeleteOnExit;
      root := env.root;
      groupId := env.groupId;
      artifactId := env.artifactId;
      executionRoot := env.executionRoot;
      mode := env.mode;
      now := env.now;
      separator := env.separator;
      compiles := env.compiles;
      matches := env.matches;
      log := [];
      this.fs := fs;
    }

    /** isDeleteModeActivated: true for the clean goal only. */
    predicate IsDeleteModeActivated()
    {
      mode == CleanGoal
    }

    /** The gate of the passes over version folders and files. */
    function Versions(): Gate
      reads this
    {
      Gate(mode, executeDeleteOnExit, Artifact)
    }

    /** Log p with the verb of the goal, and delete it in the clean goal. */
    method Handle(p: Path, kind: Kind)
      modifies this, fs
      ensures State() == Route(old(State()), Gate(mode, executeDeleteOnExit, kind), p)
      ensures Settings() == old(Settings())
    {
      log := log + [LogEntry(VerbOf(kind, mode), p)];
      if IsDeleteModeActivated() {
        fs.Delete(p, executeDeleteOnExit);
      }
    }

    /** deleteArtifactOnDelayExpiration: every folder whose elapsed days exceed the delay. */
    method DeleteArtifactOnDelayExpiration(folders: seq<Path>, retentionDelay: int)
      modifies this, fs
      ensures State() == DelayExpiration(old(State()), Versions(), folders, retentionDelay, now)
      ensures Settings() == old(Settings())
    {
      var i := 0;
      while retentionDelay >= 0 && i < |folders|
        invariant 0 <= i <= |folders| && (retentionDelay < 0 ==> i == 0)
        invariant State() == Sweep(old(State()), Versions(), folders[..i], DelayExpired(retentionDelay, now))
        invariant Settings() == old(Settings())
      {
        var artifactFolder := folders[i];
        SweepStep(old(State()), Versions(), folders, 0, i, DelayExpired(retentionDelay, now));
        if ElapsedDays(fs.disk, artifactFolder, now) > retentionDelay {
          Handle(artifactFolder, Artifact);
        }
        i := i + 1;
      }
      assert retentionDelay >= 0 ==> folders[..i] == folders;
    }

    /** deleteArtifactOnVersionExpiration: every folder from position retentionVersion on. */
    method DeleteArtifactOnVersionExpiration(folders: seq<Path>, retentionVersion: int)
      modifies this, fs
      ensures State() == VersionExpiration(old(State()), Versions(), folders, retentionVersion)
      ensures Settings() == old(Settings())
    {
      var i := retentionVersion;
      while retentionVersion >= 0 && i < |folders|
        invariant retentionVersion >= 0 && retentionVersion < |folders| ==> retentionVersion <= i <= |folders|
        invariant State() == Sweep(old(State()), Versions(),
                                   if 0 <= retentionVersion < |folders| then folders[retentionVersion..i] else [], CountExpired)
        invariant Settings() == old(Settings())
      {
        var artifactFolder := folders[i];
        SweepStep(old(State()), Versions(), folders, retentionVersion, i, CountExpired);
        Handle(artifactFolder, Artifact);
        i := i + 1;
      }
      assert 0 <= retentionVersion < |folders| ==> folders[retentionVersion..i] == folders[retentionVersion..];
    }

    /** The body of deleteAllSnapshots' loop: both rules over one artifact's snapshot folders, listed for each rule. */
    method DeleteArtifactSnapshots(artifactFoldersWithSnapshot: Path)
      modifies this, fs
      ensures State() == ArtifactSnapshots(old(State()), Versions(), artifactFoldersWithSnapshot,
                                           snapshotVersionsRetention, snapshotRetentionDelay, now)
      ensures Settings() == old(Settings())
    {
      var snapshots := Snapshots(SubFolders(fs.disk, artifactFoldersWithSnapshot));
      DeleteArtifactOnVersionExpiration(snapshots, snapshotVersionsRetention);
      var relisted := Snapshots(SubFolders(fs.disk, artifactFoldersWithSnapshot));
      DeleteArtifactOnDelayExpiration(relisted, snapshotRetentionDelay);
    }

    /** deleteAllSnapshots: both rules over the snapshot folders of every artifact holding one. */
    method DeleteAllSnapshots(files: seq<Path>)
      modifies this, fs
      ensures State() == AllSnapshots(old(State()), Versions(), SnapshotArtifacts(files),
                                      snapshotVersionsRetention, snapshotRetentionDelay, now)
      ensures Settings() == old(Settings())
    {
      var artifacts := SnapshotArtifacts(files);
      for j := 0 to |artifacts|
        invariant State() == AllSnapshots(old(State()), Versions(), artifacts[..j],
                                          snapshotVersionsRetention, snapshotRetentionDelay, now)
        invariant Settings() == old(Settings())
      {
        AllSnapshotsSnoc(old(State()), Versions(), artifacts, j, snapshotVersionsRetention, snapshotRetentionDelay, now);
        DeleteArtifactSnapshots(artifacts[j]);
      }
      assert artifacts[..|artifacts|] == artifacts;
    }

    /** deleteFromRegularExpression: every listed file whose absolute path matches. */
    method DeleteFromRegularExpression(expression: string, files: seq<Path>)
      modifies this, fs
      ensures State() == RegularExpression(old(State()), Versions(), expression, matches, separator, files)
      ensures Settings() == old(Settings())
    {
      for i := 0 to |files|
        invariant State() == Sweep(old(State()), Versions(), files[..i], PatternMatch(expression, matches, separator))
        invariant Settings() == old(Settings())
      {
        var file := files[i];
        SweepStep(old(State()), Versions(), files, 0, i, PatternMatch(expression, matches, separator));
        if matches(expression, Render(file, separator)) {
          Handle(file, Artifact);
        }
      }
      assert files[..|files|] == files;
    }

    /** deleteEmptyFolders: every folder beneath the repository, deepest first, whose file listing is empty. */
    method DeleteEmptyFolders(repositoryPath: Path)
      modifies this, fs
      ensures State() == EmptyFolders(old(State()), Gate(mode, executeDeleteOnExit, Empty), repositoryPath)
      ensures Settings() == old(Settings())
    {
      var listed := FoldersBeneath(fs.disk, repositoryPath);
      var foldersList := new Path[|listed|](i requires 0 <= i < |listed| => listed[i]);
      assert foldersList[..] == listed;
      ReverseInPlace(foldersList);
      for i := 0 to foldersList.Length
        invariant foldersList[..] == Reversed(listed)
        invariant State() == Sweep(old(State()), Gate(mode, executeDeleteOnExit, Empty), foldersList[..i], NoFiles)
        invariant Settings() == old(Settings())
      {
        var folder := foldersList[i];
        SweepStep(old(State()), Gate(mode, executeDeleteOnExit, Empty), foldersList[..], 0, i, NoFiles);
        if FilesBeneath(fs.disk, folder) == [] {
          Handle(folder, Empty);
        }
      }
      assert foldersList[..foldersList.Length] == foldersList[..];
    }

    /** deleteAll: the whole repository, from the execution root only. */
    method DeleteAll(localMavenRepositoryDirectory: Path)
      modifies this, fs
      ensures State() == WholeRepository(old(State()), Gate(mode, executeDeleteOnExit, All), localMavenRepositoryDirectory, executionRoot)
      ensures Settings() == old(Settings())
    {
      if executionRoot {
        Handle(localMavenRepositoryDirectory, All);
      }
    }

    /**
     * initializeAndCheckMojoContext: the checks in order, then the default
     * policy written into the fields when nothing is configured.
     */
    method InitializeAndCheckMojoContext() returns (r: Result<Path, MojoError>)
      modifies this
      ensures var checked := Validate(old(Settings()), RootExists(fs.disk, root), RootWritable(fs.disk, root), compiles);
              (checked.Failure? ==> r == Failure(checked.error) && Settings() == old(Settings()))
              && (checked.Success? ==> r == Success(root) && Settings() == checked.value)
      ensures log == old(log)
    {
      var localRepositoryFolder := root;
      var entry := Find(fs.disk, localRepositoryFolder);
      if entry.None? {
        return Failure(RepositoryUnavailable);
      }
      if !entry.value.writable {
        return Failure(PermissionDenied);
      }
      if snapshotRetentionDelay < Disabled {
        return Failure(NegativeNumber(SnapshotRetentionDelay, snapshotRetentionDelay));
      }
      if snapshotVersionsRetention < Disabled {
        return Failure(NegativeNumber(SnapshotVersionsRetention, snapshotVersionsRetention));
      }
      if releaseRetentionDelay < Disabled {
        return Failure(NegativeNumber(ReleaseRetentionDelay, releaseRetentionDelay));
      }
      if releaseVersionsRetention < Disabled {
        return Failure(NegativeNumber(ReleaseVersionsRetention, releaseVersionsRetention));
      }
      if deleteFromRegularExpression.Some? && deleteFromRegularExpression.value != ""
         && !compiles(deleteFromRegularExpression.value) {
        return Failure(PatternSyntax(deleteFromRegularExpression.value));
      }
      if deleteFromRegularExpression.None?
         && snapshotRetentionDelay == Disabled && snapshotVersionsRetention == Disabled
         && releaseRetentionDelay == Disabled && releaseVersionsRetention == Disabled {
        snapshotRetentionDelay, releaseRetentionDelay := DefaultRetentionDelay, DefaultRetentionDelay;
        snapshotVersionsRetention, releaseVersionsRetention := DefaultVersionsRetention, DefaultVersionsRetention;
        deleteCurrentSnapshot := true;
        deleteCurrentRelease := true;
      }
      return Success(localRepositoryFolder);
    }

    /** The rules over the current artifact's snapshot and release folders. */
    method DeleteCurrentArtifactVersions(folderList: seq<Path>)
      modifies this, fs
      ensures var s := old(Settings());
              var afterSnapshots :=
                if s.deleteCurrentSnapshot
                then CurrentRules(old(State()), Versions(), Snapshots(folderList), s.snapshotVersionsRetention, s.snapshotRetentionDelay, now)
                else old(State());
              State() == if s.deleteCurrentRelease
                         then CurrentRules(afterSnapshots, Versions(), Releases(folderList), s.releaseVersionsRetention, s.releaseRetentionDelay, now)
                         else afterSnapshots
      ensures Settings() == old(Settings())
    {
      if deleteCurrentSnapshot {
        var snapshotFoldersList := Snapshots(folderList);
        DeleteArtifactOnVersionExpiration(snapshotFoldersList, snapshotVersionsRetention);
        DeleteArtifactOnDelayExpiration(snapshotFoldersList, snapshotRetentionDelay);
      }
      if deleteCurrentRelease {
        var releaseFoldersList := Releases(folderList);
        DeleteArtifactOnVersionExpiration(releaseFoldersList, releaseVersionsRetention);
        DeleteArtifactOnDelayExpiration(releaseFoldersList, releaseRetentionDelay);
      }
    }

    /** The passes over the whole repository, run from the execution root. */
    method DeleteFromRepository(localRepository: Path)
      requires localRepository == root
      modifies this, fs
      ensures State() == RepositoryPasses(old(Settings()), Env(), old(State()))
      ensures Settings() == old(Settings())
    {
      var filesList := FilesBeneath(fs.disk, localRepository);
      if deleteFromRegularExpression.Some? {
        DeleteFromRegularExpression(deleteFromRegularExpression.value, filesList);
      }
      if deleteAllSnapshots {
        DeleteAllSnapshots(filesList);
      }
      if deleteEmptyFolders {
        DeleteEmptyFolders(localRepository);
      }
    }

    /**
     * executeCleanLocalRepositoryGoals: validation, then either the whole
     * repository purge or the current artifact's rules followed, from the
     * execution root, by the repository-wide passes.
     */
    method ExecuteCleanLocalRepositoryGoals() returns (failure: Option<MojoError>)
      modifies this, fs
      ensures var run := Execute(old(Settings()), Env(), old(State()));
              failure == run.failure && Settings() == run.settings && State() == run.state
    {
      var checked := InitializeAndCheckMojoContext();
      if checked.Failure? {
        return Some(checked.error);
      }
      var localRepository := checked.value;
      if deleteWholeLocalRepository {
        DeleteAll(localRepository);
        return None;
      }
      var folderList := SubFolders(fs.disk, ArtifactFolder(localRepository, groupId, artifactId));
      DeleteCurrentArtifactVersions(folderList);
      if executionRoot {
        DeleteFromRepository(localRepository);
      }
      return None;
    }
  }
}
