/**
 * Paths of the local Maven repository and the construction of the current
 * artifact's folder path (getLocalRepositoryPathForCurrentArtefact).
 *
 * A path is the sequence of its name segments: the absolute path
 * "/home/u/.m2/repository" is ["", "home", "u", ".m2", "repository"] and is
 * rendered back to a string by joining the segments with the separator.
 */
module Paths {

  type Path = seq<string>

  /** p lies strictly beneath dir. */
  predicate Beneath(p: Path, dir: Path)
  {
    |dir| < |p| && p[..|dir|] == dir
  }

  /** p is dir itself or lies beneath it: what deleting dir removes. */
  predicate AtOrBeneath(p: Path, dir: Path)
  {
    |dir| <= |p| && p[..|dir|] == dir
  }

  /** p is an immediate child of dir. */
  predicate ChildOf(p: Path, dir: Path)
  {
    |p| == |dir| + 1 && p[..|dir|] == dir
  }

  /** String.replace(char, char): every `from` becomes `to`. */
  function Replace(s: string, from: char, to: char): (r: string)
    ensures |r| == |s|
    ensures forall i :: 0 <= i < |s| ==> r[i] == (if s[i] == from then to else s[i])
  {
    if s == [] then [] else [if s[0] == from then to else s[0]] + Replace(s[1..], from, to)
  }

  /** The pieces of s between occurrences of c; none of them contains c. */
  function Split(s: string, c: char): (parts: seq<string>)
    ensures |parts| >= 1
    ensures forall i :: 0 <= i < |parts| ==> c !in parts[i]
  {
    if s == [] then [""]
    else
      var rest := Split(s[1..], c);
      if s[0] == c then [""] + rest
      else [[s[0]] + rest[0]] + rest[1..]
  }

  /** The segments joined by sep. */
  function Join(parts: seq<string>, sep: char): string
    requires |parts| >= 1
  {
    if |parts| == 1 then parts[0] else parts[0] + [sep] + Join(parts[1..], sep)
  }

  /** File.getAbsolutePath() of a path. */
  function Render(p: Path, sep: char): string
  {
    if p == [] then "" else Join(p, sep)
  }

  /**
   * getLocalRepositoryPathForCurrentArtefact: the repository root, then the
   * groupId with every '.' replaced by the separator, then the artifactId.
   */
  function ArtifactPathString(root: string, groupId: string, artifactId: string, sep: char): string
  {
    root + [sep] + Replace(groupId, '.', sep) + [sep] + artifactId
  }

  /** The same folder as a path: one segment per dot-separated part of the groupId. */
  function ArtifactFolder(root: Path, groupId: string, artifactId: string): Path
  {
    root + Split(groupId, '.') + [artifactId]
  }

  lemma {:induction false} JoinPrepend(x: char, rest: seq<string>, sep: char)
    requires |rest| >= 1
    ensures Join([[x] + rest[0]] + rest[1..], sep) == [x] + Join(rest, sep)
  {
    var parts := [[x] + rest[0]] + rest[1..];
    if |rest| > 1 {
      assert parts[1..] == rest[1..];
    }
  }

  /** Joining the pieces of a split with sep replaces every c by sep. */
  lemma {:induction false} JoinSplit(s: string, c: char, sep: char)
    ensures Join(Split(s, c), sep) == Replace(s, c, sep)
  {
    if s != [] {
      var rest := Split(s[1..], c);
      JoinSplit(s[1..], c, sep);
      if s[0] == c {
        assert ([""] + rest)[1..] == rest;
      } else {
        JoinPrepend(s[0], rest, sep);
      }
    }
  }

  /** Splitting on c and joining with c gives the string back. */
  lemma SplitJoinRoundTrip(s: string, c: char)
    ensures Join(Split(s, c), c) == s
  {
    JoinSplit(s, c, c);
  }

  lemma {:induction false} JoinAppend(a: seq<string>, b: seq<string>, sep: char)
    requires |a| >= 1 && |b| >= 1
    ensures Join(a + b, sep) == Join(a, sep) + [sep] + Join(b, sep)
  {
    if |a| > 1 {
      assert (a + b)[1..] == a[1..] + b;
      JoinAppend(a[1..], b, sep);
    } else {
      assert (a + b)[1..] == b;
    }
  }

  /**
   * The string built by getLocalRepositoryPathForCurrentArtefact is the
   * rendering of the artifact folder: root segments, the groupId's parts,
   * then the artifactId.
   */
  lemma ArtifactPathNamesArtifactFolder(root: Path, groupId: string, artifactId: string, sep: char)
    requires |root| >= 1
    ensures ArtifactPathString(Render(root, sep), groupId, artifactId, sep)
            == Render(ArtifactFolder(root, groupId, artifactId), sep)
  {
    var parts := Split(groupId, '.');
    JoinAppend(root, parts, sep);
    JoinAppend(root + parts, [artifactId], sep);
    JoinSplit(groupId, '.', sep);
  }

  /** When the separator does not occur in the groupId, the dots can be recovered. */
  lemma ReplaceRoundTrip(groupId: string, sep: char)
    requires sep !in groupId
    ensures Replace(Replace(groupId, '.', sep), sep, '.') == groupId
  {
    var r := Replace(Replace(groupId, '.', sep), sep, '.');
    forall i | 0 <= i < |groupId| ensures r[i] == groupId[i] {
      assert groupId[i] != sep;
    }
  }
}
