/**
 * The fixture of the plugin's own test case: the version folders of
 * org.maven.test:test-example, 1.0-SNAPSHOT, 2.0-SNAPSHOT and 3.0-SNAPSHOT,
 * whose jars were last changed 1, 2 and 3 days ago; and the release
 * folders of any artifact under a count of 0.
 */
module Scenarios {
  import opened Paths
  import opened Ordering
  import opened Disks
  import opened Retention
  import opened PassLaws

  const Artifact: Path := ["", "repo", "org", "maven", "test", "test-example"]

  function Version(name: string): Path
  {
    Artifact + [name]
  }

  /**
   * However the host lists the three snapshot folders, they come out by name,
   * and a count of 2 flags 3.0-SNAPSHOT alone: the two lexically first stay.
   */
  lemma FixtureCountKeepsTwo(listed: seq<Path>)
    requires multiset(listed) == multiset{Version("1.0-SNAPSHOT"), Version("2.0-SNAPSHOT"), Version("3.0-SNAPSHOT")}
    ensures SortByName(listed) == [Version("1.0-SNAPSHOT"), Version("2.0-SNAPSHOT"), Version("3.0-SNAPSHOT")]
    ensures CountCandidates(SortByName(listed), 2) == [Version("3.0-SNAPSHOT")]
  {
    var v1, v2, v3 := Version("1.0-SNAPSHOT"), Version("2.0-SNAPSHOT"), Version("3.0-SNAPSHOT");
    VersionName("1.0-SNAPSHOT");
    VersionName("2.0-SNAPSHOT");
    VersionName("3.0-SNAPSHOT");
    FixtureNamesOrdered();
    SortByNameSorted(listed);
    SortedOfThree(SortByName(listed), v1, v2, v3);
    CountOfTwoKeepsTwo(v1, v2, v3);
  }

  lemma CountOfTwoKeepsTwo(v1: Path, v2: Path, v3: Path)
    ensures CountCandidates([v1, v2, v3], 2) == [v3]
  {
    assert [v1, v2, v3][2..] == [v3];
  }

  /** Three paths whose names strictly increase have one order by name. */
  lemma SortedOfThree(r: seq<Path>, a: Path, b: Path, c: Path)
    requires SortedByName(r) && multiset(r) == multiset{a, b, c}
    requires !NameLe(Name(b), Name(a)) && !NameLe(Name(c), Name(a)) && !NameLe(Name(c), Name(b))
    ensures r == [a, b, c]
  {
    NameLeTotal(Name(a), Name(a));
    NameLeTotal(Name(b), Name(b));
    assert |r| == |multiset(r)| == 3;
    assert a in multiset(r) && b in multiset(r) && c in multiset(r);
    forall i | 0 <= i < 3 ensures r[i] == a || r[i] == b || r[i] == c {
      assert r[i] in multiset(r);
    }
  }

  lemma VersionName(name: string)
    ensures Name(Version(name)) == name
  {
  }

  lemma FixtureNamesOrdered()
    ensures !NameLe("2.0-SNAPSHOT", "1.0-SNAPSHOT")
    ensures !NameLe("3.0-SNAPSHOT", "1.0-SNAPSHOT") && !NameLe("3.0-SNAPSHOT", "2.0-SNAPSHOT")
  {
  }

  /** The order is not version-aware: 10.0 sorts before 9.0, so a count of 1 keeps 10.0. */
  lemma LexicalNotSemantic()
    ensures SortByName([Version("9.0"), Version("10.0")]) == [Version("10.0"), Version("9.0")]
    ensures CountCandidates(SortByName([Version("9.0"), Version("10.0")]), 1) == [Version("9.0")]
  {
    var nine, ten := Version("9.0"), Version("10.0");
    assert Name(nine) == "9.0" && Name(ten) == "10.0";
    assert !NameLe(Name(nine), Name(ten));
    assert [nine, ten][1..] == [ten];
    assert SortByName([ten]) == [ten];
    assert Insert(nine, [ten]) == [ten] + Insert(nine, []);
  }

  /** A version folder holding one jar whose last change was `age` days before `now`. */
  function Jar(name: string, now: int, age: int): seq<Item>
  {
    [Item(Version(name), Folder(now, true)),
     Item(Version(name) + ["test-example-" + name + ".jar"], File(now - age * MillisPerDay, true))]
  }

  lemma {:induction false} ChildrenAppend(a: Disk, b: Disk, dir: Path)
    ensures Children(a + b, dir) == Children(a, dir) + Children(b, dir)
  {
    if a == [] {
      assert a + b == b;
    } else {
      assert (a + b)[0] == a[0] && (a + b)[1..] == a[1..] + b;
      ChildrenAppend(a[1..], b, dir);
    }
  }

  /** Of a jar folder, only its own jar is a child. */
  lemma OwnJar(name: string, now: int, age: int)
    ensures Children(Jar(name, now, age), Version(name)) == [Jar(name, now, age)[1]]
  {
    var v := Version(name);
    var own := Jar(name, now, age);
    assert own[1].path[..|v|] == v;
    assert ChildOf(own[1].path, v) && !ChildOf(own[0].path, v);
    assert Children(own[1..], v) == [own[1]] + Children(own[1..][1..], v);
  }

  /** Another version's jar folder holds no child of this version folder. */
  lemma OtherJar(name: string, other: string, now: int, age: int)
    requires name != other
    ensures Children(Jar(other, now, age), Version(name)) == []
  {
    var v := Version(name);
    var w := Version(other);
    var theirs := Jar(other, now, age);
    assert w[|Artifact|] == other && v[|Artifact|] == name;
    assert theirs[1].path[..|v|] == w != v;
    assert !ChildOf(theirs[1].path, v) && !ChildOf(theirs[0].path, v);
    assert Children(theirs[1..], v) == Children(theirs[1..][1..], v);
  }

  lemma DaysAgo(now: int, age: int)
    ensures DaysBetween(now - age * MillisPerDay, now) == age
  {
    var q, rest := now / MillisPerDay, now % MillisPerDay;
    assert now == q * MillisPerDay + rest && 0 <= rest < MillisPerDay;
    assert now - age * MillisPerDay == (q - age) * MillisPerDay + rest;
    DayOf(q - age, rest);
  }

  lemma DayOf(q: int, rest: int)
    requires 0 <= rest < MillisPerDay
    ensures (q * MillisPerDay + rest) / MillisPerDay == q
  {
  }

  /** A jar folder among others that hold none of its children: its age is its jar's. */
  lemma AgeAmong(pre: Disk, name: string, now: int, age: int, post: Disk)
    requires Children(pre, Version(name)) == [] && Children(post, Version(name)) == []
    ensures ElapsedDays(pre + Jar(name, now, age) + post, Version(name), now) == age
  {
    ChildrenAppend(pre + Jar(name, now, age), post, Version(name));
    ChildrenAppend(pre, Jar(name, now, age), Version(name));
    OwnJar(name, now, age);
    DaysAgo(now, age);
  }

  /** The fixture's three snapshot folders, changed 1, 2 and 3 days before `now`. */
  function Fixture(now: int): Disk
  {
    Jar("1.0-SNAPSHOT", now, 1) + Jar("2.0-SNAPSHOT", now, 2) + Jar("3.0-SNAPSHOT", now, 3)
  }

  lemma FixtureAges(now: int)
    ensures ElapsedDays(Fixture(now), Version("1.0-SNAPSHOT"), now) == 1
    ensures ElapsedDays(Fixture(now), Version("2.0-SNAPSHOT"), now) == 2
    ensures ElapsedDays(Fixture(now), Version("3.0-SNAPSHOT"), now) == 3
  {
    var n1, n2, n3 := "1.0-SNAPSHOT", "2.0-SNAPSHOT", "3.0-SNAPSHOT";
    assert n1 != n2 && n1 != n3 && n2 != n3 by {
      assert n1[0] != n2[0] && n1[0] != n3[0] && n2[0] != n3[0];
    }
    ThreeAges(n1, n2, n3, now);
  }

  /** Three jar folders of distinct versions, changed 1, 2 and 3 days ago. */
  lemma ThreeAges(n1: string, n2: string, n3: string, now: int)
    requires n1 != n2 && n1 != n3 && n2 != n3
    ensures var d := Jar(n1, now, 1) + Jar(n2, now, 2) + Jar(n3, now, 3);
            ElapsedDays(d, Version(n1), now) == 1
            && ElapsedDays(d, Version(n2), now) == 2
            && ElapsedDays(d, Version(n3), now) == 3
  {
    var d1, d2, d3 := Jar(n1, now, 1), Jar(n2, now, 2), Jar(n3, now, 3);
    OtherJar(n1, n2, now, 2);
    OtherJar(n1, n3, now, 3);
    OtherJar(n2, n1, now, 1);
    OtherJar(n2, n3, now, 3);
    OtherJar(n3, n1, now, 1);
    OtherJar(n3, n2, now, 2);
    ChildrenAppend(d2, d3, Version(n1));
    ChildrenAppend(d1, d2, Version(n3));
    Regroup(d1, d2, d3);
    AgeAmong([], n1, now, 1, d2 + d3);
    AgeAmong(d1, n2, now, 2, d3);
    AgeAmong(d1 + d2, n3, now, 3, []);
  }

  lemma Regroup(d1: Disk, d2: Disk, d3: Disk)
    ensures d1 + d2 + d3 == [] + d1 + (d2 + d3) == (d1 + d2) + d3 + []
  {
  }

  /**
   * Snapshot folders changed 1, 2 and 3 days ago and a delay of 1: the two
   * older ones are flagged, the one changed yesterday stays.
   */
  lemma FixtureDelayOfOne(now: int)
    ensures Expired(Fixture(now), [Version("1.0-SNAPSHOT"), Version("2.0-SNAPSHOT"), Version("3.0-SNAPSHOT")], 1, now)
            == [Version("2.0-SNAPSHOT"), Version("3.0-SNAPSHOT")]
  {
    var v1, v2, v3 := Version("1.0-SNAPSHOT"), Version("2.0-SNAPSHOT"), Version("3.0-SNAPSHOT");
    var d := Fixture(now);
    var rule := DelayExpired(1, now);
    FixtureAges(now);
    assert !Flags(rule, d, v1) && Flags(rule, d, v2) && Flags(rule, d, v3);
    var s := [v1, v2, v3];
    assert s[..2] == [v1, v2] && [v1, v2][..1] == [v1] && [v1][..0] == [];
    assert Flagged(d, [v1], rule) == [];
    assert Flagged(d, [v1, v2], rule) == [v2];
    assert Flagged(d, s, rule) == [v2, v3];
  }

  /** Folders of distinct versions are siblings under the artifact folder, none beneath another. */
  lemma ThreeVersions(n1: string, n2: string, n3: string)
    requires n1 != n2 && n1 != n3 && n2 != n3
    ensures Siblings([Version(n1), Version(n2), Version(n3)], Artifact)
    ensures forall a, b :: a in [n1, n2, n3] && b in [n1, n2, n3] && a != b ==> !AtOrBeneath(Version(a), Version(b))
  {
    forall a, b | a in [n1, n2, n3] && b in [n1, n2, n3] && a != b ensures !AtOrBeneath(Version(a), Version(b)) {
      assert Version(a)[|Artifact|] == a && Version(b)[|Artifact|] == b;
    }
  }

  lemma FixtureNamesDistinct()
    ensures "1.0-SNAPSHOT" != "2.0-SNAPSHOT" && "1.0-SNAPSHOT" != "3.0-SNAPSHOT" && "2.0-SNAPSHOT" != "3.0-SNAPSHOT"
  {
    assert "1.0-SNAPSHOT"[0] != "2.0-SNAPSHOT"[0] && "1.0-SNAPSHOT"[0] != "3.0-SNAPSHOT"[0];
    assert "2.0-SNAPSHOT"[0] != "3.0-SNAPSHOT"[0];
  }

  /** Every item of a jar folder lies at or beneath that folder. */
  lemma JarItems(name: string, now: int, age: int)
    ensures forall x :: x in Jar(name, now, age) ==> AtOrBeneath(x.path, Version(name))
  {
    var j := Jar(name, now, age);
    assert j[1].path[..|Version(name)|] == Version(name);
  }

  /** Deleting version folders other than `name` keeps the jar folder of `name` whole. */
  lemma JarKept(pre: Disk, post: Disk, gone: seq<Path>, name: string, now: int, age: int)
    requires forall q :: q in gone ==> |q| == |Version(name)| && q[|Artifact|] != name
    ensures forall x :: x in Jar(name, now, age) ==> x in Pruned(pre + Jar(name, now, age) + post, gone)
  {
    var d := pre + Jar(name, now, age) + post;
    JarItems(name, now, age);
    forall x | x in Jar(name, now, age) ensures x in d && forall q :: q in gone ==> !AtOrBeneath(x.path, q) {
      forall q | q in gone ensures !AtOrBeneath(x.path, q) {
        assert x.path[..|q|] == Version(name);
        assert Version(name)[|Artifact|] == name;
      }
    }
  }

  /**
   * The count test on the disk, with immediate deletion: a count of 2 over the
   * fixture's folders by name deletes 3.0-SNAPSHOT with its jar and keeps
   * 1.0-SNAPSHOT and 2.0-SNAPSHOT with theirs.
   */
  lemma FixtureCountOnDisk(st: RunState, g: Gate, now: int)
    requires g.Mutates() && st.disk == Fixture(now)
    ensures var s := [Version("1.0-SNAPSHOT"), Version("2.0-SNAPSHOT"), Version("3.0-SNAPSHOT")];
            var r := VersionExpiration(st, g, s, 2).disk;
            Absent(r, Version("3.0-SNAPSHOT"))
            && (forall x :: x in Jar("1.0-SNAPSHOT", now, 1) ==> x in r)
            && (forall x :: x in Jar("2.0-SNAPSHOT", now, 2) ==> x in r)
  {
    FixtureNamesDistinct();
    CountOfTwoOnDisk(st, g, "1.0-SNAPSHOT", "2.0-SNAPSHOT", "3.0-SNAPSHOT", now);
  }

  lemma CountOfTwoOnDisk(st: RunState, g: Gate, n1: string, n2: string, n3: string, now: int)
    requires n1 != n2 && n1 != n3 && n2 != n3
    requires g.Mutates() && st.disk == Jar(n1, now, 1) + Jar(n2, now, 2) + Jar(n3, now, 3)
    ensures var r := VersionExpiration(st, g, [Version(n1), Version(n2), Version(n3)], 2).disk;
            Absent(r, Version(n3))
            && (forall x :: x in Jar(n1, now, 1) ==> x in r)
            && (forall x :: x in Jar(n2, now, 2) ==> x in r)
  {
    var v1, v2, v3 := Version(n1), Version(n2), Version(n3);
    ThreeVersions(n1, n2, n3);
    VersionExpirationExactly(st, g, [v1, v2, v3], Artifact, 2);
    CountOfTwoKeepsTwo(v1, v2, v3);
    LastOfThreeGone(n1, n2, n3, now);
  }

  lemma LastOfThreeGone(n1: string, n2: string, n3: string, now: int)
    requires n1 != n3 && n2 != n3
    ensures var d := Jar(n1, now, 1) + Jar(n2, now, 2) + Jar(n3, now, 3);
            (forall x :: x in Jar(n1, now, 1) ==> x in Pruned(d, [Version(n3)]))
            && forall x :: x in Jar(n2, now, 2) ==> x in Pruned(d, [Version(n3)])
  {
    var d1, d2, d3 := Jar(n1, now, 1), Jar(n2, now, 2), Jar(n3, now, 3);
    assert Version(n3)[|Artifact|] == n3;
    Regroup(d1, d2, d3);
    JarKept([], d2 + d3, [Version(n3)], n1, now, 1);
    JarKept(d1, d3, [Version(n3)], n2, now, 2);
  }

  /**
   * The delay test on the disk, with immediate deletion: a delay of 1 deletes
   * 2.0-SNAPSHOT and 3.0-SNAPSHOT with their jars and keeps 1.0-SNAPSHOT with its jar.
   */
  lemma FixtureDelayOnDisk(st: RunState, g: Gate, now: int)
    requires g.Mutates() && st.disk == Fixture(now)
    ensures var s := [Version("1.0-SNAPSHOT"), Version("2.0-SNAPSHOT"), Version("3.0-SNAPSHOT")];
            var r := DelayExpiration(st, g, s, 1, now).disk;
            Absent(r, Version("2.0-SNAPSHOT")) && Absent(r, Version("3.0-SNAPSHOT"))
            && forall x :: x in Jar("1.0-SNAPSHOT", now, 1) ==> x in r
  {
    FixtureNamesDistinct();
    FixtureDelayOfOne(now);
    DelayOfOneOnDisk(st, g, "1.0-SNAPSHOT", "2.0-SNAPSHOT", "3.0-SNAPSHOT", now);
  }

  lemma DelayOfOneOnDisk(st: RunState, g: Gate, n1: string, n2: string, n3: string, now: int)
    requires n1 != n2 && n1 != n3 && n2 != n3
    requires g.Mutates() && st.disk == Jar(n1, now, 1) + Jar(n2, now, 2) + Jar(n3, now, 3)
    requires Expired(st.disk, [Version(n1), Version(n2), Version(n3)], 1, now) == [Version(n2), Version(n3)]
    ensures var r := DelayExpiration(st, g, [Version(n1), Version(n2), Version(n3)], 1, now).disk;
            Absent(r, Version(n2)) && Absent(r, Version(n3))
            && forall x :: x in Jar(n1, now, 1) ==> x in r
  {
    var v1, v2, v3 := Version(n1), Version(n2), Version(n3);
    ThreeVersions(n1, n2, n3);
    DelayExpirationExactly(st, g, [v1, v2, v3], Artifact, 1, now);
    FirstOfThreeKept(n1, n2, n3, now);
  }

  lemma FirstOfThreeKept(n1: string, n2: string, n3: string, now: int)
    requires n1 != n2 && n1 != n3
    ensures var d := Jar(n1, now, 1) + Jar(n2, now, 2) + Jar(n3, now, 3);
            forall x :: x in Jar(n1, now, 1) ==> x in Pruned(d, [Version(n2), Version(n3)])
  {
    var d1, d2, d3 := Jar(n1, now, 1), Jar(n2, now, 2), Jar(n3, now, 3);
    assert Version(n2)[|Artifact|] == n2 && Version(n3)[|Artifact|] == n3;
    Regroup(d1, d2, d3);
    JarKept([], d2 + d3, [Version(n2), Version(n3)], n1, now, 1);
  }

  /**
   * A release count of 0: every release folder of the artifact is flagged and
   * logged in order and, with immediate deletion, deleted with all it holds.
   */
  lemma ReleaseCountZeroDeletesAll(st: RunState, g: Gate, dir: Path)
    requires WellFormed(st.disk)
    ensures var s := Releases(SubFolders(st.disk, dir));
            var r := VersionExpiration(st, g, s, 0);
            r.log == st.log + Entries(g.Verb(), s)
            && (g.Mutates() ==> r.disk == Pruned(st.disk, s) && forall p :: p in s ==> Absent(r.disk, p))
  {
    var s := Releases(SubFolders(st.disk, dir));
    VersionFoldersSiblings(st.disk, dir);
    VersionExpirationExactly(st, g, s, dir, 0);
    assert CountCandidates(s, 0) == s;
  }
}
