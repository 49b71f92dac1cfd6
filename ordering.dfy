/**
 * The order of version folders (Tools.listSubFoldersOrdered): ascending by
 * folder name, compared character by character as String.compareTo does,
 * a shorter name before any longer name it is a prefix of. No version
 * semantics: "10.0" comes before "9.0".
 */
module Ordering {
  import opened Paths

  /** The last segment of a path: a folder's name. */
  function Name(p: Path): string
  {
    if p == [] then "" else p[|p| - 1]
  }

  /** a <= b in the lexical order of String.compareTo. */
  predicate NameLe(a: string, b: string)
    decreases |a|
  {
    a == [] || (b != [] && (a[0] < b[0] || (a[0] == b[0] && NameLe(a[1..], b[1..]))))
  }

  predicate SortedByName(s: seq<Path>)
  {
    forall i, j :: 0 <= i < j < |s| ==> NameLe(Name(s[i]), Name(s[j]))
  }

  predicate Distinct(s: seq<Path>)
  {
    forall i, j :: 0 <= i < j < |s| ==> s[i] != s[j]
  }

  /** p placed before the first path whose name is not below its own. */
  function Insert(p: Path, s: seq<Path>): (r: seq<Path>)
    ensures multiset(r) == multiset(s) + multiset{p}
  {
    if s == [] then [p]
    else if NameLe(Name(p), Name(s[0])) then [p] + s
    else
      assert s == [s[0]] + s[1..];
      [s[0]] + Insert(p, s[1..])
  }

  /** Insertion sort by name. */
  function SortByName(s: seq<Path>): (r: seq<Path>)
    ensures multiset(r) == multiset(s)
  {
    if s == [] then []
    else
      assert s == [s[0]] + s[1..];
      Insert(s[0], SortByName(s[1..]))
  }

  /** Any two names are ordered one way or the other. */
  lemma {:induction false} NameLeTotal(a: string, b: string)
    ensures NameLe(a, b) || NameLe(b, a)
    decreases |a|
  {
    if a != [] && b != [] && a[0] == b[0] {
      NameLeTotal(a[1..], b[1..]);
    }
  }

  lemma {:induction false} NameLeTransitive(a: string, b: string, c: string)
    requires NameLe(a, b) && NameLe(b, c)
    ensures NameLe(a, c)
    decreases |a|
  {
    if a != [] && a[0] == b[0] && b[0] == c[0] {
      NameLeTransitive(a[1..], b[1..], c[1..]);
    }
  }

  /** The paths of Insert(p, s): p and those of s. */
  lemma InsertMembers(p: Path, s: seq<Path>)
    ensures forall q :: q in Insert(p, s) <==> q == p || q in s
  {
    forall q ensures q in Insert(p, s) <==> q == p || q in s {
      assert q in Insert(p, s) <==> q in multiset(Insert(p, s));
      assert q in s <==> q in multiset(s);
    }
  }

  lemma SortedTail(s: seq<Path>)
    requires SortedByName(s) && s != []
    ensures SortedByName(s[1..])
    ensures forall q :: q in s[1..] ==> NameLe(Name(s[0]), Name(q))
  {
    forall i, j | 0 <= i < j < |s[1..]| ensures NameLe(Name(s[1..][i]), Name(s[1..][j])) {
      assert s[1..][i] == s[i + 1] && s[1..][j] == s[j + 1];
    }
    forall q | q in s[1..] ensures NameLe(Name(s[0]), Name(q)) {
      var m :| 0 <= m < |s[1..]| && s[1..][m] == q;
      assert s[m + 1] == q;
    }
  }

  lemma ConsSorted(x: Path, t: seq<Path>)
    requires SortedByName(t) && forall q :: q in t ==> NameLe(Name(x), Name(q))
    ensures SortedByName([x] + t)
  {
    var r := [x] + t;
    forall i, j | 0 <= i < j < |r| ensures NameLe(Name(r[i]), Name(r[j])) {
      if i == 0 {
        assert r[j] == t[j - 1];
      } else {
        assert r[i] == t[i - 1] && r[j] == t[j - 1];
      }
    }
  }

  /** Inserting into a sorted list keeps it sorted. */
  lemma {:induction false} InsertSorted(p: Path, s: seq<Path>)
    requires SortedByName(s)
    ensures SortedByName(Insert(p, s))
  {
    if s != [] {
      SortedTail(s);
      if NameLe(Name(p), Name(s[0])) {
        forall q | q in s ensures NameLe(Name(p), Name(q)) {
          if q != s[0] {
            assert q in s[1..];
            NameLeTransitive(Name(p), Name(s[0]), Name(q));
          }
        }
        ConsSorted(p, s);
      } else {
        NameLeTotal(Name(p), Name(s[0]));
        InsertSorted(p, s[1..]);
        InsertMembers(p, s[1..]);
        ConsSorted(s[0], Insert(p, s[1..]));
      }
    }
  }

  /** The sort yields names in ascending order. */
  lemma {:induction false} SortByNameSorted(s: seq<Path>)
    ensures SortedByName(SortByName(s))
  {
    if s != [] {
      SortByNameSorted(s[1..]);
      InsertSorted(s[0], SortByName(s[1..]));
    }
  }

  lemma DistinctTail(s: seq<Path>)
    requires Distinct(s) && s != []
    ensures Distinct(s[1..]) && s[0] !in s[1..]
  {
    forall i, j | 0 <= i < j < |s[1..]| ensures s[1..][i] != s[1..][j] {
      assert s[1..][i] == s[i + 1] && s[1..][j] == s[j + 1];
    }
    forall m | 0 <= m < |s[1..]| ensures s[1..][m] != s[0] {
      assert s[1..][m] == s[m + 1];
    }
  }

  lemma ConsDistinct(x: Path, t: seq<Path>)
    requires Distinct(t) && x !in t
    ensures Distinct([x] + t)
  {
    var r := [x] + t;
    forall i, j | 0 <= i < j < |r| ensures r[i] != r[j] {
      if i == 0 {
        assert r[j] == t[j - 1];
      } else {
        assert r[i] == t[i - 1] && r[j] == t[j - 1];
      }
    }
  }

  lemma SnocDistinct(t: seq<Path>, x: Path)
    requires Distinct(t) && x !in t
    ensures Distinct(t + [x])
  {
    var r := t + [x];
    forall i, j | 0 <= i < j < |r| ensures r[i] != r[j] {
      assert r[i] == t[i];
    }
  }

  /** Inserting a path not yet present keeps the paths distinct. */
  lemma {:induction false} InsertDistinct(p: Path, s: seq<Path>)
    requires Distinct(s) && p !in s
    ensures Distinct(Insert(p, s))
  {
    if s == [] {
    } else if NameLe(Name(p), Name(s[0])) {
      ConsDistinct(p, s);
    } else {
      DistinctTail(s);
      InsertDistinct(p, s[1..]);
      InsertMembers(p, s[1..]);
      ConsDistinct(s[0], Insert(p, s[1..]));
    }
  }

  /** Sorting distinct paths keeps them distinct. */
  lemma {:induction false} SortByNameDistinct(s: seq<Path>)
    requires Distinct(s)
    ensures Distinct(SortByName(s))
  {
    if s != [] {
      DistinctTail(s);
      SortByNameDistinct(s[1..]);
      SortByNameMembers(s[1..]);
      InsertDistinct(s[0], SortByName(s[1..]));
    }
  }

  /** The sort keeps exactly the paths it is given. */
  lemma SortByNameMembers(s: seq<Path>)
    ensures forall p :: p in SortByName(s) <==> p in s
  {
    forall p ensures p in SortByName(s) <==> p in s {
      assert p in SortByName(s) <==> p in multiset(SortByName(s));
    }
  }
}
