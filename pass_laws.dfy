/**
 * What each pass of the mojo logs and deletes, stated on the disk the pass
 * starts from.
 */
module PassLaws {
  import opened Paths
  import opened Ordering
  import opened Disks
  import opened Retention
  import opened SweepLaws

  lemma SiblingsApart(s: seq<Path>, dir: Path, i: int, j: int)
    requires Siblings(s, dir) && 0 <= i < |s| && 0 <= j < |s| && i != j
    ensures !AtOrBeneath(s[i], s[j]) && s[i] != s[j] && |s[i]| == |s[j]|
  {
    if i < j {
      assert s[i] != s[j];
    } else {
      assert s[j] != s[i];
    }
    assert s[i][..|s[j]|] == s[i];
  }

  lemma {:induction false} SubsetsSiblings(s: seq<Path>, dir: Path)
    requires Siblings(s, dir)
    ensures Siblings(Snapshots(s), dir) && Siblings(Releases(s), dir)
  {
    if s != [] {
      var rest := s[1..];
      assert Siblings(rest, dir) by {
        assert forall i :: 0 <= i < |rest| ==> rest[i] == s[i + 1];
      }
      assert s[0] !in rest by {
        forall i | 0 <= i < |rest| ensures rest[i] != s[0] {
          assert rest[i] == s[i + 1];
        }
      }
      SubsetsSiblings(rest, dir);
      var a := Snapshots(rest);
      if IsSnapshotFolder(s[0]) {
        var r := [s[0]] + a;
        forall i, j | 0 <= i < j < |r| ensures r[i] != r[j] {
          if i == 0 {
            assert r[j] in a;
          } else {
            assert r[i] == a[i - 1] && r[j] == a[j - 1];
          }
        }
      }
      var b := Releases(rest);
      if !IsSnapshotFolder(s[0]) {
        var r := [s[0]] + b;
        forall i, j | 0 <= i < j < |r| ensures r[i] != r[j] {
          if i == 0 {
            assert r[j] in b;
          } else {
            assert r[i] == b[i - 1] && r[j] == b[j - 1];
          }
        }
      }
    }
  }

  /** The snapshot and the release folders of an artifact are siblings. */
  lemma VersionFoldersSiblings(d: Disk, dir: Path)
    requires WellFormed(d)
    ensures Siblings(Snapshots(SubFolders(d, dir)), dir) && Siblings(Releases(SubFolders(d, dir)), dir)
  {
    SubFoldersDistinct(d, dir);
    var s := SubFolders(d, dir);
    assert forall i :: 0 <= i < |s| ==> s[i] in s;
    SubsetsSiblings(s, dir);
  }

  /** getSnapshots and getReleases keep the order of the listing by name. */
  lemma {:induction false} SubsetsSorted(s: seq<Path>)
    requires SortedByName(s)
    ensures SortedByName(Snapshots(s)) && SortedByName(Releases(s))
  {
    if s != [] {
      SortedTail(s);
      SubsetsSorted(s[1..]);
      if IsSnapshotFolder(s[0]) {
        ConsSorted(s[0], Snapshots(s[1..]));
      } else {
        ConsSorted(s[0], Releases(s[1..]));
      }
    }
  }

  /** The snapshot and the release folders of an artifact each come in ascending name order. */
  lemma VersionFoldersByName(d: Disk, dir: Path)
    ensures SortedByName(Snapshots(SubFolders(d, dir))) && SortedByName(Releases(SubFolders(d, dir)))
  {
    SortByNameSorted(ChildFolders(d, dir));
    SubsetsSorted(SubFolders(d, dir));
  }

  /**
   * The count rule over folders in name order keeps the lexically first
   * ones: every folder it keeps sorts before every folder it flags.
   */
  lemma CountKeepsFirstByName(s: seq<Path>, dir: Path, k: int)
    requires Siblings(s, dir) && SortedByName(s)
    ensures forall i, j :: 0 <= i < |s| && 0 <= j < |s| && s[i] !in CountCandidates(s, k) && s[j] in CountCandidates(s, k)
              ==> i < j && NameLe(Name(s[i]), Name(s[j]))
  {
    forall i, j | 0 <= i < |s| && 0 <= j < |s| && s[i] !in CountCandidates(s, k) && s[j] in CountCandidates(s, k)
      ensures i < j && NameLe(Name(s[i]), Name(s[j]))
    {
      CountCandidatesExactly(s, dir, k, i);
      CountCandidatesExactly(s, dir, k, j);
    }
  }

  /** Among siblings, the one at position i is a count candidate exactly when k >= 0 and i >= k. */
  lemma CountCandidatesExactly(s: seq<Path>, dir: Path, k: int, i: int)
    requires Siblings(s, dir) && 0 <= i < |s|
    ensures s[i] in CountCandidates(s, k) <==> 0 <= k <= i
  {
    var c := CountCandidates(s, k);
    if !(0 <= k <= i) {
      forall j | 0 <= j < |c| ensures c[j] != s[i] {
        SiblingsApart(s, dir, i, j + k);
      }
    } else {
      assert c[i - k] == s[i];
    }
  }

  /**
   * deleteArtifactOnVersionExpiration: the folders from position k on are
   * logged in order, whatever the goal; a folder of the list is flagged
   * exactly when k >= 0 and its position is k or more; the first k are left
   * as they were; in the clean goal with immediate deletion nothing of the
   * flagged ones is left.
   */
  lemma VersionExpirationExactly(st: RunState, g: Gate, s: seq<Path>, dir: Path, k: int)
    requires Siblings(s, dir)
    ensures VersionExpiration(st, g, s, k).log == st.log + Entries(g.Verb(), CountCandidates(s, k))
    ensures forall i :: 0 <= i < |s| ==> (s[i] in CountCandidates(s, k) <==> 0 <= k <= i)
    ensures forall i :: 0 <= i < |s| && !(0 <= k <= i) ==>
              Find(VersionExpiration(st, g, s, k).disk, s[i]) == Find(st.disk, s[i])
    ensures g.Mutates() ==> forall i :: 0 <= k <= i < |s| ==> Absent(VersionExpiration(st, g, s, k).disk, s[i])
    ensures g.Mutates() ==> VersionExpiration(st, g, s, k).disk == Pruned(st.disk, CountCandidates(s, k))
  {
    var c := CountCandidates(s, k);
    CountSweepLogsAll(st, g, c);
    if g.Mutates() {
      SweepDeletesLogged(st, g, c, CountExpired, c);
    }
    forall i | 0 <= i < |s| ensures s[i] in c <==> 0 <= k <= i {
      CountCandidatesExactly(s, dir, k, i);
    }
    forall i | 0 <= i < |s| && !(0 <= k <= i)
      ensures Find(VersionExpiration(st, g, s, k).disk, s[i]) == Find(st.disk, s[i])
    {
      forall q | q in c ensures !AtOrBeneath(s[i], q) {
        var j :| 0 <= j < |c| && c[j] == q;
        assert s[j + k] == q;
        SiblingsApart(s, dir, i, j + k);
      }
      SweepKeepsOutside(st, g, c, CountExpired, s[i]);
    }
    if g.Mutates() {
      forall i | 0 <= k <= i < |s| ensures Absent(VersionExpiration(st, g, s, k).disk, s[i]) {
        assert s[i] == c[i - k];
      }
    }
  }

  /** The folders the delay rule flags on a fixed disk: none for a delay below 0. */
  function Expired(d: Disk, s: seq<Path>, delay: int, now: int): seq<Path>
  {
    if delay >= 0 then Flagged(d, s, DelayExpired(delay, now)) else []
  }

  /**
   * deleteArtifactOnDelayExpiration: for a delay of 0 or more it logs, in
   * order, exactly the folders whose elapsed days on the starting disk exceed
   * the delay; for a delay below 0 it logs nothing. This holds in the clean
   * goal too when the folders are siblings, as version folders are.
   */
  lemma DelayExpirationExactly(st: RunState, g: Gate, s: seq<Path>, dir: Path, delay: int, now: int)
    requires Siblings(s, dir) || !g.Mutates()
    ensures DelayExpiration(st, g, s, delay, now).log == st.log + Entries(g.Verb(), Expired(st.disk, s, delay, now))
    ensures forall p :: p in Expired(st.disk, s, delay, now) <==> delay >= 0 && p in s && ElapsedDays(st.disk, p, now) > delay
    ensures g.Mutates() ==> DelayExpiration(st, g, s, delay, now).disk == Pruned(st.disk, Expired(st.disk, s, delay, now))
  {
    if delay >= 0 {
      if g.Mutates() {
        DelaySweepOverSiblings(st, g, s, dir, delay, now);
      } else {
        SweepWithoutDeletion(st, g, s, DelayExpired(delay, now));
      }
    }
    if g.Mutates() {
      SweepDeletesLogged(st, g, if delay >= 0 then s else [], DelayExpired(delay, now), Expired(st.disk, s, delay, now));
    }
  }

  /**
   * In the list goal the two rules over one subset are both judged on the
   * unchanged disk: the log is the count rule's suffix, then the folders
   * older than the delay, and a folder flagged by both is listed twice.
   */
  lemma ListCurrentRules(st: RunState, g: Gate, s: seq<Path>, k: int, delay: int, now: int)
    requires g.mode == ListGoal
    ensures CurrentRules(st, g, s, k, delay, now)
            == st.(log := st.log + Entries(g.Verb(), CountCandidates(s, k)) + Entries(g.Verb(), Expired(st.disk, s, delay, now)))
  {
    var counted := VersionExpiration(st, g, s, k);
    SweepWithoutDeletion(st, g, CountCandidates(s, k), CountExpired);
    CountSweepLogsAll(st, g, CountCandidates(s, k));
    SweepWithoutDeletion(counted, g, if delay >= 0 then s else [], DelayExpired(delay, now));
  }

  /**
   * In the clean goal with immediate deletion the delay rule runs after the
   * count rule has deleted s[k..]: each of those folders no longer exists,
   * reads as modified at time 0, and so is flagged and logged a second time
   * once the clock is past the delay.
   */
  lemma CleanRelogsCountExpired(st: RunState, g: Gate, s: seq<Path>, dir: Path, k: int, delay: int, now: int)
    requires g.Mutates() && Siblings(s, dir)
    requires 0 <= k < |s| && 0 <= delay < DaysBetween(0, now)
    ensures var counted := VersionExpiration(st, g, s, k);
            CurrentRules(st, g, s, k, delay, now).log
            == st.log + Entries(g.Verb(), s[k..]) + Entries(g.Verb(), Expired(counted.disk, s, delay, now))
    ensures forall i :: k <= i < |s| ==> s[i] in Expired(VersionExpiration(st, g, s, k).disk, s, delay, now)
  {
    var counted := VersionExpiration(st, g, s, k);
    VersionExpirationExactly(st, g, s, dir, k);
    DelayExpirationExactly(counted, g, s, dir, delay, now);
    forall i | k <= i < |s| ensures s[i] in Expired(counted.disk, s, delay, now) {
      ElapsedOfAbsent(counted.disk, s[i], now);
    }
  }

  /** deleteFromRegularExpression: exactly the listed files whose absolute path matches, in order, whatever the goal. */
  lemma RegularExpressionExactly(st: RunState, g: Gate, expression: string, matches: (string, string) -> bool,
                                 sep: char, files: seq<Path>)
    ensures var f := Flagged(st.disk, files, PatternMatch(expression, matches, sep));
            RegularExpression(st, g, expression, matches, sep, files).log == st.log + Entries(g.Verb(), f)
            && forall p :: p in f <==> p in files && matches(expression, Render(p, sep))
    ensures g.Mutates() ==> RegularExpression(st, g, expression, matches, sep, files).disk
                            == Pruned(st.disk, Flagged(st.disk, files, PatternMatch(expression, matches, sep)))
  {
    var rule := PatternMatch(expression, matches, sep);
    PatternSweep(st, g, files, expression, matches, sep);
    if g.Mutates() {
      SweepDeletesLogged(st, g, files, rule, Flagged(st.disk, files, rule));
    }
  }

  /**
   * deleteEmptyFolders: it logs exactly the folders beneath the root that
   * hold no file on the disk it starts from, deepest first when the host
   * lists parents first, and never deletes a file.
   */
  lemma EmptyFoldersExactly(st: RunState, g: Gate, root: Path)
    requires WellFormed(st.disk)
    ensures var f := Flagged(st.disk, Reversed(FoldersBeneath(st.disk, root)), NoFiles);
            EmptyFolders(st, g, root).log == st.log + Entries(g.Verb(), f)
            && (forall p :: p in f <==> (exists x :: x in st.disk && x.path == p && x.entry.Folder?)
                                        && Beneath(p, root) && FilesBeneath(st.disk, p) == [])
            && (ParentsFirst(st.disk) ==> DescendantsFirst(f))
    ensures FileItems(EmptyFolders(st, g, root).disk) == FileItems(st.disk)
    ensures g.Mutates() ==> EmptyFolders(st, g, root).disk
                            == Pruned(st.disk, Flagged(st.disk, Reversed(FoldersBeneath(st.disk, root)), NoFiles))
  {
    var items := Reversed(FoldersBeneath(st.disk, root));
    forall p, x | p in items && x in st.disk && x.entry.File? ensures x.path != p {
      FolderIsNoFile(st.disk, root, p);
    }
    NoFilesSweep(st, g, items);
    EmptyFlaggedExactly(st.disk, root);
    if g.Mutates() {
      SweepDeletesLogged(st, g, items, NoFiles, Flagged(st.disk, items, NoFiles));
    }
    NoFilesSweepKeepsFiles(st, g, items);
    if ParentsFirst(st.disk) {
      FoldersBeneathAncestorsFirst(st.disk, root);
      ReversedDescendantsFirst(FoldersBeneath(st.disk, root));
      FlaggedKeepsDescendantsFirst(st.disk, items, NoFiles);
    }
  }

  /** The folders the empty-folder rule flags: the folders beneath the root with no file beneath them. */
  lemma EmptyFlaggedExactly(d: Disk, root: Path)
    ensures forall p :: p in Flagged(d, Reversed(FoldersBeneath(d, root)), NoFiles)
                        <==> (exists x :: x in d && x.path == p && x.entry.Folder?) && Beneath(p, root) && FilesBeneath(d, p) == []
  {
  }

  /** One artifact of deleteAllSnapshots in the list goal or deferred: both rules judged on the unchanged disk. */
  lemma ArtifactSnapshotsWithoutDeletion(st: RunState, g: Gate, a: Path, k: int, delay: int, now: int)
    requires !g.Mutates()
    ensures var r := ArtifactSnapshots(st, g, a, k, delay, now);
            var s := Snapshots(SubFolders(st.disk, a));
            r.disk == st.disk
            && (g.mode == ListGoal ==> r.pending == st.pending)
            && r.log == st.log + Entries(g.Verb(), CountCandidates(s, k)) + Entries(g.Verb(), Expired(st.disk, s, delay, now))
  {
    var s := Snapshots(SubFolders(st.disk, a));
    var counted := VersionExpiration(st, g, s, k);
    SweepWithoutDeletion(st, g, CountCandidates(s, k), CountExpired);
    CountSweepLogsAll(st, g, CountCandidates(s, k));
    SweepWithoutDeletion(counted, g, if delay >= 0 then s else [], DelayExpired(delay, now));
  }

  /**
   * One artifact of deleteAllSnapshots with immediate deletion: the count
   * rule logs its suffix, then the snapshot folders are listed again, so the
   * delay rule no longer sees the ones just deleted and logs none of them twice.
   */
  lemma ArtifactSnapshotsWithDeletion(st: RunState, g: Gate, a: Path, k: int, delay: int, now: int)
    requires g.Mutates() && WellFormed(st.disk)
    ensures var s := Snapshots(SubFolders(st.disk, a));
            var counted := VersionExpiration(st, g, s, k);
            var t := Snapshots(SubFolders(counted.disk, a));
            ArtifactSnapshots(st, g, a, k, delay, now).log
            == st.log + Entries(g.Verb(), CountCandidates(s, k)) + Entries(g.Verb(), Expired(counted.disk, t, delay, now))
            && (forall p :: p in CountCandidates(s, k) ==> p !in t)
    ensures var s := Snapshots(SubFolders(st.disk, a));
            var counted := VersionExpiration(st, g, s, k);
            var t := Snapshots(SubFolders(counted.disk, a));
            ArtifactSnapshots(st, g, a, k, delay, now).disk
            == Pruned(st.disk, CountCandidates(s, k) + Expired(counted.disk, t, delay, now))
    ensures WellFormed(ArtifactSnapshots(st, g, a, k, delay, now).disk)
  {
    var s := Snapshots(SubFolders(st.disk, a));
    var counted := VersionExpiration(st, g, s, k);
    VersionFoldersSiblings(st.disk, a);
    VersionExpirationExactly(st, g, s, a, k);
    SweepWellFormed(st, g, CountCandidates(s, k), CountExpired);
    VersionFoldersSiblings(counted.disk, a);
    var t := Snapshots(SubFolders(counted.disk, a));
    DelayExpirationExactly(counted, g, t, a, delay, now);
    forall p | p in CountCandidates(s, k) ensures p !in t {
      CountedAbsent(st, g, s, a, k, p);
      AbsentNotListed(counted.disk, a, p);
    }
    SweepWellFormed(counted, g, if delay >= 0 then t else [], DelayExpired(delay, now));
    PrunedAppend(st.disk, CountCandidates(s, k), Expired(counted.disk, t, delay, now));
  }

  /** A folder the count rule flagged is gone once the rule has run with deletion. */
  lemma CountedAbsent(st: RunState, g: Gate, s: seq<Path>, dir: Path, k: int, p: Path)
    requires g.Mutates() && Siblings(s, dir) && p in CountCandidates(s, k)
    ensures Absent(VersionExpiration(st, g, s, k).disk, p)
  {
    VersionExpirationExactly(st, g, s, dir, k);
    var i :| 0 <= i < |CountCandidates(s, k)| && CountCandidates(s, k)[i] == p;
    assert p == s[i + k];
  }

  /** A folder no longer on disk is not among the version folders listed. */
  lemma AbsentNotListed(d: Disk, dir: Path, p: Path)
    requires Absent(d, p)
    ensures p !in Snapshots(SubFolders(d, dir))
  {
    assert p[..|p|] == p;
    forall x | x in d ensures x.path != p {
      assert !AtOrBeneath(x.path, p);
    }
  }

  lemma AppendAssociates(a: seq<LogEntry>, b: seq<LogEntry>, c: seq<LogEntry>, d: seq<LogEntry>)
    ensures (a + b) + c + d == a + (b + c + d)
  {
  }

  /** What deleteAllSnapshots logs on a disk it does not change: each artifact's two rules in turn. */
  function SnapshotReport(d: Disk, v: Verb, artifacts: seq<Path>, k: int, delay: int, now: int): seq<LogEntry>
    decreases |artifacts|
  {
    if artifacts == [] then []
    else
      var s := Snapshots(SubFolders(d, artifacts[|artifacts| - 1]));
      SnapshotReport(d, v, artifacts[..|artifacts| - 1], k, delay, now)
      + Entries(v, CountCandidates(s, k)) + Entries(v, Expired(d, s, delay, now))
  }

  /** deleteAllSnapshots in the list goal or deferred: the disk stays and the log is the report. */
  lemma {:induction false} AllSnapshotsWithoutDeletion(st: RunState, g: Gate, artifacts: seq<Path>, k: int, delay: int, now: int)
    requires !g.Mutates()
    ensures var r := AllSnapshots(st, g, artifacts, k, delay, now);
            r.disk == st.disk
            && (g.mode == ListGoal ==> r.pending == st.pending)
            && r.log == st.log + SnapshotReport(st.disk, g.Verb(), artifacts, k, delay, now)
    decreases |artifacts|
  {
    if artifacts != [] {
      var pre := artifacts[..|artifacts| - 1];
      var a := artifacts[|artifacts| - 1];
      AllSnapshotsWithoutDeletion(st, g, pre, k, delay, now);
      var before := AllSnapshots(st, g, pre, k, delay, now);
      var r := AllSnapshots(st, g, artifacts, k, delay, now);
      assert r == ArtifactSnapshots(before, g, a, k, delay, now);
      ArtifactSnapshotsWithoutDeletion(before, g, a, k, delay, now);
      var s := Snapshots(SubFolders(st.disk, a));
      var report := SnapshotReport(st.disk, g.Verb(), pre, k, delay, now);
      var e1 := Entries(g.Verb(), CountCandidates(s, k));
      var e2 := Entries(g.Verb(), Expired(st.disk, s, delay, now));
      assert SnapshotReport(st.disk, g.Verb(), artifacts, k, delay, now) == report + e1 + e2;
      assert r.log == (st.log + report) + e1 + e2;
      AppendAssociates(st.log, report, e1, e2);
    }
  }

  /** deleteAllSnapshots with immediate deletion: the disk it leaves lacks exactly what it logged. */
  lemma {:induction false} AllSnapshotsDeletesLogged(st: RunState, g: Gate, artifacts: seq<Path>, k: int, delay: int, now: int)
    requires g.Mutates()
    ensures DeletesLogged(st, AllSnapshots(st, g, artifacts, k, delay, now))
    decreases |artifacts|
  {
    if artifacts == [] {
      DeletesLoggedRefl(st);
    } else {
      var a := artifacts[|artifacts| - 1];
      AllSnapshotsDeletesLogged(st, g, artifacts[..|artifacts| - 1], k, delay, now);
      var before := AllSnapshots(st, g, artifacts[..|artifacts| - 1], k, delay, now);
      var s := Snapshots(SubFolders(before.disk, a));
      var counted := VersionExpiration(before, g, s, k);
      var t := Snapshots(SubFolders(counted.disk, a));
      SweepPrunes(before, g, CountCandidates(s, k), CountExpired);
      SweepPrunes(counted, g, if delay >= 0 then t else [], DelayExpired(delay, now));
      DeletesLoggedChain(before, counted, ArtifactSnapshots(before, g, a, k, delay, now));
      DeletesLoggedChain(st, before, ArtifactSnapshots(before, g, a, k, delay, now));
    }
  }

  /** deleteAllSnapshots does not read the log. */
  lemma {:induction false} AllSnapshotsRelog(st: RunState, g: Gate, artifacts: seq<Path>, k: int, delay: int, now: int,
                                             earlier: seq<LogEntry>)
    ensures AllSnapshots(Relog(st, earlier), g, artifacts, k, delay, now) == Relog(AllSnapshots(st, g, artifacts, k, delay, now), earlier)
    decreases |artifacts|
  {
    if artifacts != [] {
      var pre := artifacts[..|artifacts| - 1];
      var a := artifacts[|artifacts| - 1];
      AllSnapshotsRelog(st, g, pre, k, delay, now, earlier);
      var before := AllSnapshots(st, g, pre, k, delay, now);
      var s := Snapshots(SubFolders(before.disk, a));
      SweepRelog(before, g, CountCandidates(s, k), CountExpired, earlier);
      var counted := VersionExpiration(before, g, s, k);
      var t := Snapshots(SubFolders(counted.disk, a));
      SweepRelog(counted, g, if delay >= 0 then t else [], DelayExpired(delay, now), earlier);
    }
  }
}
