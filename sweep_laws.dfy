/**
 * What each pass logs and deletes, proved once for the generic sweep and
 * then for each rule: the count rule flags a suffix, the delay rule flags the
 * folders older than the delay even while siblings are deleted, the pattern
 * rule flags the matching files, and the empty-folder rule flags exactly the
 * folders without files, deepest first, without ever deleting a file.
 */
module SweepLaws {
  import opened Paths
  import opened Disks
  import opened Retention

  lemma EntriesSnoc(v: Verb, ps: seq<Path>, p: Path)
    ensures Entries(v, ps + [p]) == Entries(v, ps) + [LogEntry(v, p)]
  {
    assert (ps + [p])[..|ps|] == ps;
  }

  lemma SnocAssociates<T>(a: seq<T>, b: seq<T>, x: T)
    ensures (a + b) + [x] == a + (b + [x])
  {
  }

  /** A pass does not read the log: starting from a longer log only prefixes the result. */
  lemma {:induction false} SweepRelog(st: RunState, g: Gate, items: seq<Path>, rule: Rule, earlier: seq<LogEntry>)
    ensures Sweep(Relog(st, earlier), g, items, rule) == Relog(Sweep(st, g, items, rule), earlier)
    decreases |items|
  {
    if items != [] {
      var pre := items[..|items| - 1];
      SweepRelog(st, g, pre, rule, earlier);
      var before := Sweep(st, g, pre, rule);
      var e := LogEntry(g.Verb(), items[|items| - 1]);
      SnocAssociates(earlier, before.log, e);
    }
  }

  /**
   * In the list goal, or with deletion deferred to shutdown, a pass judges
   * every item on the disk it started from: the disk stays, the flagged items
   * are logged in order and, in the clean goal, queued in order.
   */
  lemma {:induction false} SweepWithoutDeletion(st: RunState, g: Gate, items: seq<Path>, rule: Rule)
    requires !g.Mutates()
    ensures var f := Flagged(st.disk, items, rule);
            Sweep(st, g, items, rule)
            == RunState(st.disk, st.pending + (if g.mode == CleanGoal then f else []), st.log + Entries(g.Verb(), f))
    decreases |items|
  {
    if items != [] {
      var pre := items[..|items| - 1];
      var p := items[|items| - 1];
      SweepWithoutDeletion(st, g, pre, rule);
      var f := Flagged(st.disk, pre, rule);
      if Flags(rule, st.disk, p) {
        EntriesSnoc(g.Verb(), f, p);
        SnocAssociates(st.pending, f, p);
        SnocAssociates(st.log, Entries(g.Verb(), f), LogEntry(g.Verb(), p));
      }
    }
  }

  /** Every entry a pass adds names one of its items, with the pass's verb. */
  lemma {:induction false} SweepExtends(st: RunState, g: Gate, items: seq<Path>, rule: Rule)
    ensures Extends(st.log, Sweep(st, g, items, rule).log, g.Verb(), items)
    decreases |items|
  {
    if items != [] {
      var pre := items[..|items| - 1];
      assert items == pre + [items[|items| - 1]];
      SweepExtends(st, g, pre, rule);
      var before := Sweep(st, g, pre, rule);
      var r := Sweep(st, g, items, rule);
      assert r.log[..|before.log|] == before.log;
      forall i | |st.log| <= i < |r.log| ensures r.log[i].verb == g.Verb() && r.log[i].path in items {
        if i < |before.log| {
          assert r.log[i] == before.log[i];
        }
      }
    }
  }

  /** The paths a stretch of the log names, in order. */
  function LoggedPaths(log: seq<LogEntry>): (r: seq<Path>)
    ensures |r| == |log| && forall i :: 0 <= i < |log| ==> r[i] == log[i].path
  {
    seq(|log|, i requires 0 <= i < |log| => log[i].path)
  }

  /**
   * `after` extends the log of `before`, and its disk is the disk of `before`
   * with exactly the newly logged paths deleted, in log order.
   */
  predicate DeletesLogged(before: RunState, after: RunState)
  {
    |before.log| <= |after.log| && after.log[..|before.log|] == before.log
    && after.disk == Pruned(before.disk, LoggedPaths(after.log[|before.log|..]))
  }

  lemma DeletesLoggedRefl(st: RunState)
    ensures DeletesLogged(st, st)
  {
    assert st.log[|st.log|..] == [];
  }

  /** Two stretches that each delete what they log delete, together, what they log together. */
  lemma DeletesLoggedChain(a: RunState, b: RunState, c: RunState)
    requires DeletesLogged(a, b) && DeletesLogged(b, c)
    ensures DeletesLogged(a, c)
  {
    var first := LoggedPaths(b.log[|a.log|..]);
    var second := LoggedPaths(c.log[|b.log|..]);
    assert c.log[..|a.log|] == b.log[..|a.log|];
    assert LoggedPaths(c.log[|a.log|..]) == first + second;
    PrunedAppend(a.disk, first, second);
  }

  /** With immediate deletion, routing a path deletes what it logs. */
  lemma RouteDeletesLogged(st: RunState, g: Gate, p: Path)
    requires g.Mutates()
    ensures DeletesLogged(st, Route(st, g, p))
  {
    var r := Route(st, g, p);
    assert LoggedPaths(r.log[|st.log|..]) == [p];
    assert [p][..0] == [];
  }

  /** With immediate deletion, what a pass leaves on the disk is the disk it started from less exactly what it logged. */
  lemma {:induction false} SweepPrunes(st: RunState, g: Gate, items: seq<Path>, rule: Rule)
    requires g.Mutates()
    ensures DeletesLogged(st, Sweep(st, g, items, rule))
    decreases |items|
  {
    if items == [] {
      DeletesLoggedRefl(st);
    } else {
      var pre := items[..|items| - 1];
      var p := items[|items| - 1];
      SweepPrunes(st, g, pre, rule);
      var before := Sweep(st, g, pre, rule);
      if Flags(rule, before.disk, p) {
        RouteDeletesLogged(before, g, p);
        DeletesLoggedChain(st, before, Route(before, g, p));
      }
    }
  }

  /** The disk after a pass whose log is known: the logged paths are gone, and nothing else. */
  lemma SweepDeletesLogged(st: RunState, g: Gate, items: seq<Path>, rule: Rule, f: seq<Path>)
    requires g.Mutates()
    requires Sweep(st, g, items, rule).log == st.log + Entries(g.Verb(), f)
    ensures Sweep(st, g, items, rule).disk == Pruned(st.disk, f)
  {
    var r := Sweep(st, g, items, rule);
    SweepPrunes(st, g, items, rule);
    assert r.log[|st.log|..] == Entries(g.Verb(), f);
    assert LoggedPaths(Entries(g.Verb(), f)) == f;
  }

  /** A pass keeps paths distinct. */
  lemma {:induction false} SweepWellFormed(st: RunState, g: Gate, items: seq<Path>, rule: Rule)
    requires WellFormed(st.disk)
    ensures WellFormed(Sweep(st, g, items, rule).disk)
    decreases |items|
  {
    if items != [] {
      var pre := items[..|items| - 1];
      SweepWellFormed(st, g, pre, rule);
      RemovedWellFormed(Sweep(st, g, pre, rule).disk, items[|items| - 1]);
    }
  }

  /** A pass leaves every path outside all of its items as it was. */
  lemma {:induction false} SweepKeepsOutside(st: RunState, g: Gate, items: seq<Path>, rule: Rule, p: Path)
    requires forall q :: q in items ==> !AtOrBeneath(p, q)
    ensures Find(Sweep(st, g, items, rule).disk, p) == Find(st.disk, p)
    decreases |items|
  {
    if items != [] {
      var pre := items[..|items| - 1];
      var q := items[|items| - 1];
      assert items == pre + [q];
      SweepKeepsOutside(st, g, pre, rule, p);
      RemovedKeepsOthers(Sweep(st, g, pre, rule).disk, q, p);
    }
  }

  /** A pass over other folders of p's depth leaves p's age as it was. */
  lemma {:induction false} SweepKeepsElapsed(st: RunState, g: Gate, items: seq<Path>, rule: Rule, p: Path, now: int)
    requires forall q :: q in items ==> q != p && |q| == |p|
    ensures ElapsedDays(Sweep(st, g, items, rule).disk, p, now) == ElapsedDays(st.disk, p, now)
    decreases |items|
  {
    if items != [] {
      var pre := items[..|items| - 1];
      var q := items[|items| - 1];
      assert items == pre + [q];
      SweepKeepsElapsed(st, g, pre, rule, p, now);
      assert p[..|q|] == p;
      ElapsedKeptByUnrelatedRemoval(Sweep(st, g, pre, rule).disk, q, p, now);
    }
  }

  lemma SiblingsPrefix(s: seq<Path>, dir: Path, n: nat)
    requires Siblings(s, dir) && n <= |s|
    ensures Siblings(s[..n], dir)
  {
    assert forall i :: 0 <= i < n ==> s[..n][i] == s[i];
  }

  /**
   * The delay rule over sibling folders logs exactly the folders older than
   * the delay on the disk it started from, even when it deletes some of them
   * on the way: deleting a sibling does not change another's age.
   */
  lemma {:induction false} DelaySweepOverSiblings(st: RunState, g: Gate, items: seq<Path>, dir: Path, delay: int, now: int)
    requires Siblings(items, dir)
    ensures Sweep(st, g, items, DelayExpired(delay, now)).log
            == st.log + Entries(g.Verb(), Flagged(st.disk, items, DelayExpired(delay, now)))
    decreases |items|
  {
    if items != [] {
      var rule := DelayExpired(delay, now);
      var n := |items| - 1;
      var pre := items[..n];
      var p := items[n];
      SiblingsPrefix(items, dir, n);
      DelaySweepOverSiblings(st, g, pre, dir, delay, now);
      forall q | q in pre ensures q != p && |q| == |p| {
        var i :| 0 <= i < n && pre[i] == q;
        assert items[i] == q;
      }
      SweepKeepsElapsed(st, g, pre, rule, p, now);
      var before := Sweep(st, g, pre, rule);
      assert Flags(rule, before.disk, p) == Flags(rule, st.disk, p);
      var f := Flagged(st.disk, pre, rule);
      if Flags(rule, st.disk, p) {
        assert Flagged(st.disk, items, rule) == f + [p];
        assert Sweep(st, g, items, rule).log == before.log + [LogEntry(g.Verb(), p)];
        EntriesSnoc(g.Verb(), f, p);
        SnocAssociates(st.log, Entries(g.Verb(), f), LogEntry(g.Verb(), p));
      } else {
        assert Flagged(st.disk, items, rule) == f;
      }
    }
  }

  /** The count rule flags every item it is given, whatever the goal; deleting them leaves nothing of them. */
  lemma {:induction false} CountSweepLogsAll(st: RunState, g: Gate, items: seq<Path>)
    ensures Sweep(st, g, items, CountExpired).log == st.log + Entries(g.Verb(), items)
    ensures g.Mutates() ==> forall p :: p in items ==> Absent(Sweep(st, g, items, CountExpired).disk, p)
    decreases |items|
  {
    if items != [] {
      var pre := items[..|items| - 1];
      var q := items[|items| - 1];
      assert items == pre + [q];
      CountSweepLogsAll(st, g, pre);
      EntriesSnoc(g.Verb(), pre, q);
      SnocAssociates(st.log, Entries(g.Verb(), pre), LogEntry(g.Verb(), q));
    }
  }

  /** The pattern rule does not look at the disk: it flags the listed files that match, whatever the goal. */
  lemma {:induction false} PatternSweep(st: RunState, g: Gate, items: seq<Path>, expression: string,
                                        matches: (string, string) -> bool, sep: char)
    ensures var rule := PatternMatch(expression, matches, sep);
            Sweep(st, g, items, rule).log == st.log + Entries(g.Verb(), Flagged(st.disk, items, rule))
    decreases |items|
  {
    if items != [] {
      var rule := PatternMatch(expression, matches, sep);
      var pre := items[..|items| - 1];
      var p := items[|items| - 1];
      PatternSweep(st, g, pre, expression, matches, sep);
      var before := Sweep(st, g, pre, rule);
      assert Flags(rule, before.disk, p) == Flags(rule, st.disk, p);
      var f := Flagged(st.disk, pre, rule);
      if Flags(rule, st.disk, p) {
        assert Flagged(st.disk, items, rule) == f + [p];
        EntriesSnoc(g.Verb(), f, p);
        SnocAssociates(st.log, Entries(g.Verb(), f), LogEntry(g.Verb(), p));
      } else {
        assert Flagged(st.disk, items, rule) == f;
      }
    }
  }

  /** Deleting a path that is no file and holds no file keeps every file. */
  lemma FilelessRemovalKeepsFiles(d: Disk, d0: Disk, p: Path)
    requires FileItems(d) == FileItems(d0)
    requires forall x :: x in d0 && x.entry.File? ==> x.path != p
    requires FilesBeneath(d, p) == []
    ensures FileItems(Removed(d, p)) == FileItems(d)
  {
    forall x | x in d && x.entry.File? ensures !AtOrBeneath(x.path, p) {
      assert x in FileItems(d);
      assert Beneath(x.path, p) ==> x.path in FilesBeneath(d, p);
    }
    RemovedFilelessKeepsFiles(d, p);
  }

  /** The empty-folder rule over paths that are not files never deletes a file. */
  lemma {:induction false} NoFilesSweepKeepsFiles(st: RunState, g: Gate, items: seq<Path>)
    requires forall p, x :: p in items && x in st.disk && x.entry.File? ==> x.path != p
    ensures FileItems(Sweep(st, g, items, NoFiles).disk) == FileItems(st.disk)
    decreases |items|
  {
    if items != [] {
      var pre := items[..|items| - 1];
      var p := items[|items| - 1];
      forall q, x | q in pre && x in st.disk && x.entry.File? ensures x.path != q {
        assert q in items;
      }
      NoFilesSweepKeepsFiles(st, g, pre);
      var before := Sweep(st, g, pre, NoFiles);
      if Flags(NoFiles, before.disk, p) && g.Mutates() {
        assert p in items;
        FilelessRemovalKeepsFiles(before.disk, st.disk, p);
      }
    }
  }

  /**
   * The empty-folder rule over paths that are not files flags exactly the
   * items with no file beneath them on the disk it started from: what it
   * deletes on the way holds no file, so no later verdict changes.
   */
  lemma {:induction false} NoFilesSweep(st: RunState, g: Gate, items: seq<Path>)
    requires forall p, x :: p in items && x in st.disk && x.entry.File? ==> x.path != p
    ensures Sweep(st, g, items, NoFiles).log == st.log + Entries(g.Verb(), Flagged(st.disk, items, NoFiles))
    decreases |items|
  {
    if items != [] {
      var pre := items[..|items| - 1];
      var p := items[|items| - 1];
      forall q, x | q in pre && x in st.disk && x.entry.File? ensures x.path != q {
        assert q in items;
      }
      NoFilesSweep(st, g, pre);
      NoFilesSweepKeepsFiles(st, g, pre);
      var before := Sweep(st, g, pre, NoFiles);
      FilesBeneathOfFileItems(before.disk, p);
      FilesBeneathOfFileItems(st.disk, p);
      assert Flags(NoFiles, before.disk, p) == Flags(NoFiles, st.disk, p);
      var f := Flagged(st.disk, pre, NoFiles);
      if Flags(NoFiles, st.disk, p) {
        assert Flagged(st.disk, items, NoFiles) == f + [p];
        EntriesSnoc(g.Verb(), f, p);
        SnocAssociates(st.log, Entries(g.Verb(), f), LogEntry(g.Verb(), p));
      } else {
        assert Flagged(st.disk, items, NoFiles) == f;
      }
    }
  }

  /** A deepest-first order stays one when a path lying beneath none of its members is appended. */
  lemma SnocDescendantsFirst(f: seq<Path>, p: Path)
    requires DescendantsFirst(f) && forall q :: q in f ==> !Beneath(p, q)
    ensures DescendantsFirst(f + [p])
  {
    var r := f + [p];
    forall i, j | 0 <= i < j < |r| ensures !Beneath(r[j], r[i]) {
      assert r[i] == f[i];
    }
  }

  /** The last path of a deepest-first listing lies beneath none of the earlier ones. */
  lemma LastOfDescendantsFirst(items: seq<Path>)
    requires DescendantsFirst(items) && items != []
    ensures var n := |items| - 1;
            DescendantsFirst(items[..n]) && forall q :: q in items[..n] ==> !Beneath(items[n], q)
  {
    var n := |items| - 1;
    forall i | 0 <= i < n ensures items[..n][i] == items[i] { }
  }

  /** Flagging keeps a deepest-first order. */
  lemma {:induction false} FlaggedKeepsDescendantsFirst(d: Disk, items: seq<Path>, rule: Rule)
    requires DescendantsFirst(items)
    ensures DescendantsFirst(Flagged(d, items, rule))
    decreases |items|
  {
    if items != [] {
      var n := |items| - 1;
      var pre := items[..n];
      var p := items[n];
      LastOfDescendantsFirst(items);
      FlaggedKeepsDescendantsFirst(d, pre, rule);
      if Flags(rule, d, p) {
        SnocDescendantsFirst(Flagged(d, pre, rule), p);
      }
    }
  }
}
