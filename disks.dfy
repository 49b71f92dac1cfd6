/**
 * The local repository as the host filesystem shows it: every folder and
 * file under the repository root, in the order the host lists them. The
 * listings the mojo asks for (File.listFiles, Tools.listFiles,
 * Tools.listFolders, Tools.listSubFoldersOrdered) are sub-sequences of that
 * order, and deleting a path removes it together with everything beneath it.
 */
module Disks {
  import opened Wrappers
  import opened Paths
  import opened Ordering

  const MillisPerDay := 86_400_000

  /** A folder or a file, its last-modified time in milliseconds and whether the process may write it. */
  datatype Entry = Folder(modified: int, writable: bool) | File(modified: int, writable: bool)

  datatype Item = Item(path: Path, entry: Entry)

  type Disk = seq<Item>

  /** No two items share a path. */
  predicate WellFormed(d: Disk)
  {
    forall i, j :: 0 <= i < j < |d| ==> d[i].path != d[j].path
  }

  /** The host lists a folder before anything beneath it. */
  predicate ParentsFirst(d: Disk)
  {
    forall i, j :: 0 <= i < j < |d| ==> !Beneath(d[i].path, d[j].path)
  }

  /** No path of s lies beneath a path that comes after it. */
  predicate AncestorsFirst(s: seq<Path>)
  {
    forall i, j :: 0 <= i < j < |s| ==> !Beneath(s[i], s[j])
  }

  /** No path of s lies beneath a path that comes before it: deepest first. */
  predicate DescendantsFirst(s: seq<Path>)
  {
    forall i, j :: 0 <= i < j < |s| ==> !Beneath(s[j], s[i])
  }

  /** The entry of the first item at p. */
  function Find(d: Disk, p: Path): (r: Option<Entry>)
    ensures r.Some? <==> exists i :: 0 <= i < |d| && d[i].path == p
    ensures r.Some? ==> Item(p, r.value) in d
  {
    if d == [] then None
    else if d[0].path == p then Some(d[0].entry)
    else Find(d[1..], p)
  }

  /** File.lastModified(): 0 for a path that does not exist. */
  function LastModified(d: Disk, p: Path): int
  {
    match Find(d, p)
    case Some(e) => e.modified
    case None => 0
  }

  /** File.listFiles(): the immediate children of dir, folders and files, in listing order. */
  function Children(d: Disk, dir: Path): (r: seq<Item>)
    ensures forall x :: x in r <==> x in d && ChildOf(x.path, dir)
  {
    if d == [] then []
    else if ChildOf(d[0].path, dir) then [d[0]] + Children(d[1..], dir) else Children(d[1..], dir)
  }

  /** The child folders of dir, in listing order. */
  function ChildFolders(d: Disk, dir: Path): (r: seq<Path>)
    ensures forall p :: p in r <==> (exists x :: x in d && x.path == p && x.entry.Folder?) && ChildOf(p, dir)
  {
    if d == [] then []
    else if d[0].entry.Folder? && ChildOf(d[0].path, dir) then [d[0].path] + ChildFolders(d[1..], dir) else ChildFolders(d[1..], dir)
  }

  /** Tools.listSubFoldersOrdered(): the child folders of dir, by name. */
  function SubFolders(d: Disk, dir: Path): (r: seq<Path>)
    ensures forall p :: p in r <==> (exists x :: x in d && x.path == p && x.entry.Folder?) && ChildOf(p, dir)
  {
    SortByNameMembers(ChildFolders(d, dir));
    SortByName(ChildFolders(d, dir))
  }

  /** Tools.listFiles(): every file beneath dir, in listing order. */
  function FilesBeneath(d: Disk, dir: Path): (r: seq<Path>)
    ensures forall p :: p in r <==> (exists x :: x in d && x.path == p && x.entry.File?) && Beneath(p, dir)
  {
    if d == [] then []
    else if d[0].entry.File? && Beneath(d[0].path, dir) then [d[0].path] + FilesBeneath(d[1..], dir) else FilesBeneath(d[1..], dir)
  }

  /** Tools.listFolders(): every folder beneath dir (the root itself excluded), in listing order. */
  function FoldersBeneath(d: Disk, dir: Path): (r: seq<Path>)
    ensures forall p :: p in r <==> (exists x :: x in d && x.path == p && x.entry.Folder?) && Beneath(p, dir)
  {
    if d == [] then []
    else if d[0].entry.Folder? && Beneath(d[0].path, dir) then [d[0].path] + FoldersBeneath(d[1..], dir) else FoldersBeneath(d[1..], dir)
  }

  /** The disk once p and everything beneath it are deleted. */
  function Removed(d: Disk, p: Path): (r: Disk)
    ensures forall x :: x in r <==> x in d && !AtOrBeneath(x.path, p)
  {
    if d == [] then []
    else if AtOrBeneath(d[0].path, p) then Removed(d[1..], p) else [d[0]] + Removed(d[1..], p)
  }

  /** The disk once every path of ps, in turn, is deleted with everything beneath it. */
  function Pruned(d: Disk, ps: seq<Path>): (r: Disk)
    ensures forall x :: x in r <==> x in d && forall q :: q in ps ==> !AtOrBeneath(x.path, q)
    decreases |ps|
  {
    if ps == [] then d
    else
      assert ps == ps[..|ps| - 1] + [ps[|ps| - 1]];
      Removed(Pruned(d, ps[..|ps| - 1]), ps[|ps| - 1])
  }

  /** Deleting a, then b, is deleting a + b. */
  lemma {:induction false} PrunedAppend(d: Disk, a: seq<Path>, b: seq<Path>)
    ensures Pruned(Pruned(d, a), b) == Pruned(d, a + b)
    decreases |b|
  {
    if b != [] {
      var n := |b| - 1;
      PrunedAppend(d, a, b[..n]);
      assert (a + b)[..|a + b| - 1] == a + b[..n];
      assert (a + b)[|a + b| - 1] == b[n];
      calc {
        Pruned(Pruned(d, a), b);
        Removed(Pruned(Pruned(d, a), b[..n]), b[n]);
        Removed(Pruned(d, a + b[..n]), b[n]);
        Pruned(d, a + b);
      }
    } else {
      assert a + b == a;
    }
  }

  /** Deletions leave the entry of a path outside every deleted subtree as it was. */
  lemma {:induction false} PrunedKeepsOthers(d: Disk, ps: seq<Path>, p: Path)
    requires forall q :: q in ps ==> !AtOrBeneath(p, q)
    ensures Find(Pruned(d, ps), p) == Find(d, p)
    decreases |ps|
  {
    if ps != [] {
      var n := |ps| - 1;
      PrunedKeepsOthers(d, ps[..n], p);
      assert ps[n] in ps;
      RemovedKeepsOthers(Pruned(d, ps[..n]), ps[n], p);
    }
  }

  /** Calendar days from one time to another: the difference of their day numbers. */
  function DaysBetween(from: int, to: int): int
  {
    to / MillisPerDay - from / MillisPerDay
  }

  /**
   * getArtifactElapsedDays: days since the last modification of the folder's
   * first listed child, or of the folder itself when it lists nothing.
   */
  function ElapsedDays(d: Disk, folder: Path, now: int): int
  {
    var content := Children(d, folder);
    DaysBetween(if content != [] then content[0].entry.modified else LastModified(d, folder), now)
  }

  /** The file items of d, in listing order. */
  function FileItems(d: Disk): (r: Disk)
    ensures forall x :: x in r <==> x in d && x.entry.File?
  {
    if d == [] then []
    else if d[0].entry.File? then [d[0]] + FileItems(d[1..]) else FileItems(d[1..])
  }

  /** Collections.reverse. */
  function Reversed(s: seq<Path>): (r: seq<Path>)
    ensures |r| == |s|
    ensures forall x :: x in r <==> x in s
  {
    var r := seq(|s|, i requires 0 <= i < |s| => s[|s| - 1 - i]);
    assert forall i :: 0 <= i < |s| ==> s[i] == r[|s| - 1 - i];
    r
  }

  /** Deleting q leaves every path outside it as it was. */
  lemma {:induction false} RemovedKeepsOthers(d: Disk, q: Path, p: Path)
    requires !AtOrBeneath(p, q)
    ensures Find(Removed(d, q), p) == Find(d, p)
  {
    if d != [] {
      RemovedKeepsOthers(d[1..], q, p);
    }
  }

  /** Deleting q leaves the listing of p as it was unless q is p, a child of p or above p. */
  lemma {:induction false} RemovedKeepsChildren(d: Disk, q: Path, p: Path)
    requires !AtOrBeneath(p, q) && !ChildOf(q, p)
    ensures Children(Removed(d, q), p) == Children(d, p)
  {
    if d != [] {
      RemovedKeepsChildren(d[1..], q, p);
    }
  }

  /**
   * The elapsed days of a folder do not depend on deleting a path that is
   * neither the folder, above it, nor one of its children: in particular on
   * deleting a sibling version folder.
   */
  lemma ElapsedKeptByUnrelatedRemoval(d: Disk, q: Path, p: Path, now: int)
    requires !AtOrBeneath(p, q) && !ChildOf(q, p)
    ensures ElapsedDays(Removed(d, q), p, now) == ElapsedDays(d, p, now)
  {
    RemovedKeepsChildren(d, q, p);
    RemovedKeepsOthers(d, q, p);
  }

  /** Nothing is left at or beneath p. */
  predicate Absent(d: Disk, p: Path)
  {
    forall x :: x in d ==> !AtOrBeneath(x.path, p)
  }

  /** A folder that no longer exists lists nothing and reads as modified at time 0. */
  lemma ElapsedOfAbsent(d: Disk, p: Path, now: int)
    requires Absent(d, p)
    ensures ElapsedDays(d, p, now) == DaysBetween(0, now)
  {
    if Children(d, p) != [] {
      assert Children(d, p)[0] in d;
    }
  }

  /** The recursive file listing depends only on the file items. */
  lemma {:induction false} FilesBeneathOfFileItems(d: Disk, dir: Path)
    ensures FilesBeneath(FileItems(d), dir) == FilesBeneath(d, dir)
  {
    if d != [] {
      FilesBeneathOfFileItems(d[1..], dir);
      if d[0].entry.File? {
        assert ([d[0]] + FileItems(d[1..]))[1..] == FileItems(d[1..]);
      }
    }
  }

  /** Deleting a path with no file at or beneath it keeps every file. */
  lemma {:induction false} RemovedFilelessKeepsFiles(d: Disk, q: Path)
    requires forall x :: x in d && x.entry.File? ==> !AtOrBeneath(x.path, q)
    ensures FileItems(Removed(d, q)) == FileItems(d)
  {
    if d != [] {
      RemovedFilelessKeepsFiles(d[1..], q);
      assert d[0] in d;
      if !AtOrBeneath(d[0].path, q) {
        assert ([d[0]] + Removed(d[1..], q))[1..] == Removed(d[1..], q);
      }
    }
  }

  lemma WellFormedTail(d: Disk)
    requires WellFormed(d) && d != []
    ensures WellFormed(d[1..])
    ensures forall x :: x in d[1..] ==> x.path != d[0].path
  {
    forall x | x in d[1..] ensures x.path != d[0].path {
      var m :| 0 <= m < |d[1..]| && d[1..][m] == x;
      assert d[m + 1] == x;
    }
  }

  /** Deleting keeps paths distinct. */
  lemma {:induction false} RemovedWellFormed(d: Disk, p: Path)
    requires WellFormed(d)
    ensures WellFormed(Removed(d, p))
  {
    if d != [] {
      WellFormedTail(d);
      RemovedWellFormed(d[1..], p);
      if !AtOrBeneath(d[0].path, p) {
        var rest := Removed(d[1..], p);
        var r := [d[0]] + rest;
        forall i, j | 0 <= i < j < |r| ensures r[i].path != r[j].path {
          if i == 0 {
            assert r[j] in rest;
          } else {
            assert r[i] == rest[i - 1] && r[j] == rest[j - 1];
          }
        }
      }
    }
  }

  /** In a well-formed disk the child folders of a folder are listed once each. */
  lemma {:induction false} ChildFoldersDistinct(d: Disk, dir: Path)
    requires WellFormed(d)
    ensures Distinct(ChildFolders(d, dir))
  {
    if d != [] {
      WellFormedTail(d);
      ChildFoldersDistinct(d[1..], dir);
      var rest := ChildFolders(d[1..], dir);
      if d[0].entry.Folder? && ChildOf(d[0].path, dir) {
        var r := [d[0].path] + rest;
        forall i, j | 0 <= i < j < |r| ensures r[i] != r[j] {
          if i == 0 {
            assert r[j] in rest;
          } else {
            assert r[i] == rest[i - 1] && r[j] == rest[j - 1];
          }
        }
      }
    }
  }

  /** The listing by name names each child folder once, too. */
  lemma SubFoldersDistinct(d: Disk, dir: Path)
    requires WellFormed(d)
    ensures Distinct(SubFolders(d, dir))
  {
    ChildFoldersDistinct(d, dir);
    SortByNameDistinct(ChildFolders(d, dir));
  }

  /** Tools.listFolders keeps the host's parents-first order. */
  lemma {:induction false} FoldersBeneathAncestorsFirst(d: Disk, dir: Path)
    requires ParentsFirst(d)
    ensures AncestorsFirst(FoldersBeneath(d, dir))
  {
    if d != [] {
      var rest := FoldersBeneath(d[1..], dir);
      assert ParentsFirst(d[1..]) by {
        forall i, j | 0 <= i < j < |d[1..]| ensures !Beneath(d[1..][i].path, d[1..][j].path) {
          assert d[1..][i] == d[i + 1] && d[1..][j] == d[j + 1];
        }
      }
      FoldersBeneathAncestorsFirst(d[1..], dir);
      if d[0].entry.Folder? && Beneath(d[0].path, dir) {
        var r := [d[0].path] + rest;
        forall i, j | 0 <= i < j < |r| ensures !Beneath(r[i], r[j]) {
          if i == 0 {
            assert r[j] in rest;
            var x :| x in d[1..] && x.path == r[j] && x.entry.Folder?;
            var k :| 0 <= k < |d[1..]| && d[1..][k] == x;
            assert d[k + 1] == x;
          } else {
            assert r[i] == rest[i - 1] && r[j] == rest[j - 1];
          }
        }
      }
    }
  }

  /** Reversing a parents-first listing gives a deepest-first one. */
  lemma ReversedDescendantsFirst(s: seq<Path>)
    requires AncestorsFirst(s)
    ensures DescendantsFirst(Reversed(s))
  {
    var r := Reversed(s);
    forall i, j | 0 <= i < j < |r| ensures !Beneath(r[j], r[i]) {
      assert r[j] == s[|s| - 1 - j] && r[i] == s[|s| - 1 - i];
    }
  }

  /** In a well-formed disk a folder path is not also the path of a file. */
  lemma FolderIsNoFile(d: Disk, dir: Path, p: Path)
    requires WellFormed(d)
    requires p in FoldersBeneath(d, dir)
    ensures forall x :: x in d && x.entry.File? ==> x.path != p
  {
    var y :| y in d && y.path == p && y.entry.Folder?;
    forall x | x in d && x.entry.File? ensures x.path != p {
      var i :| 0 <= i < |d| && d[i] == x;
      var j :| 0 <= j < |d| && d[j] == y;
      assert i != j;
    }
  }
}
