/** The System.IO.Path operations the utility calls. The platform-dependent
    ones (GetFullPath, GetPathRoot, IsPathRooted, GetInvalidPathChars) are not
    re-derived: they arrive as a value of PathPrimitives. Combine and
    GetFileName are written out with the Windows separators. */
module Paths {
  import opened Wrappers

  /** The platform's path primitives, taken as given. */
  datatype PathPrimitives = PathPrimitives(
    getFullPath: string -> Option<string>,  // Path.GetFullPath; None where it throws
    getPathRoot: string -> string,          // Path.GetPathRoot, with null read as ""
    isPathRooted: string -> bool,           // Path.IsPathRooted
    invalidPathChars: set<char>)            // Path.GetInvalidPathChars()

  /** Path.DirectorySeparatorChar on Windows */
  const DirectorySeparator: char := '\\'

  /** Path.AltDirectorySeparatorChar */
  const AltDirectorySeparator: char := '/'

  predicate IsDirectorySeparator(c: char) {
    c == DirectorySeparator || c == AltDirectorySeparator
  }

  predicate HasNoSeparator(s: string) {
    forall k :: 0 <= k < |s| ==> !IsDirectorySeparator(s[k])
  }

  /** Path.Combine(a, b): `b` when it is empty-safe and rooted, otherwise `b`
      placed after `a` with one separator between them. */
  function Combine(prims: PathPrimitives, a: string, b: string): (r: string)
    ensures b == [] ==> r == a
    ensures b != [] && (a == [] || prims.isPathRooted(b)) ==> r == b
    ensures b != [] ==> |r| >= |b| && r[|r| - |b|..] == b
    ensures b != [] && a != [] && !prims.isPathRooted(b) ==>
      && |r| == |a| + |b| + (if IsDirectorySeparator(a[|a| - 1]) || IsDirectorySeparator(b[0]) then 0 else 1)
      && r[..|a|] == a
      && (IsDirectorySeparator(r[|r| - |b| - 1]) || IsDirectorySeparator(b[0]))
    ensures b != [] && a != [] && !prims.isPathRooted(b)
            && !IsDirectorySeparator(a[|a| - 1]) && !IsDirectorySeparator(b[0]) ==>
      r[|a|] == DirectorySeparator
  {
    if b == [] then a
    else if a == [] || prims.isPathRooted(b) then b
    else if IsDirectorySeparator(a[|a| - 1]) || IsDirectorySeparator(b[0]) then a + b
    else a + [DirectorySeparator] + b
  }

  /** Path.GetFileName(p): what follows the last separator. */
  function GetFileName(p: string): (r: string)
    ensures |r| <= |p|
  {
    if p == [] || IsDirectorySeparator(p[|p| - 1]) then []
    else GetFileName(p[..|p| - 1]) + [p[|p| - 1]]
  }

  /** The file name is a suffix of the path free of separators, with a
      separator (or nothing) in front of it. */
  lemma {:induction false} GetFileNameShape(p: string)
    ensures var r := GetFileName(p);
      && r == p[|p| - |r|..]
      && HasNoSeparator(r)
      && (|r| < |p| ==> IsDirectorySeparator(p[|p| - |r| - 1]))
    decreases |p|
  {
    if p != [] && !IsDirectorySeparator(p[|p| - 1]) {
      var p' := p[..|p| - 1];
      GetFileNameShape(p');
      var front := GetFileName(p');
      SuffixExtend(p, |front|);
      var r := front + [p[|p| - 1]];
      assert GetFileName(p) == r;
      forall k | 0 <= k < |r| ensures !IsDirectorySeparator(r[k]) {
        if k < |front| {
          assert r[k] == front[k];
        }
      }
      assert |r| < |p| ==> p[|p| - |r| - 1] == p'[|p'| - |front| - 1];
    }
  }

  /** A suffix of `p` without its last character, with that character put
      back, is a suffix of `p`. */
  lemma SuffixExtend(p: string, n: nat)
    requires n < |p|
    ensures p[..|p| - 1][|p| - 1 - n..] + [p[|p| - 1]] == p[|p| - 1 - n..]
  {
  }

  /** The file name of a separator-free, relative name put under a folder is
      that name: delivering keeps the temp file's own name. */
  lemma GetFileNameOfCombine(prims: PathPrimitives, dir: string, name: string)
    requires name != [] && HasNoSeparator(name)
    ensures !prims.isPathRooted(name) ==> GetFileName(Combine(prims, dir, name)) == name
  {
    if !prims.isPathRooted(name) {
      CombineSeparatorBefore(prims, dir, name);
      FileNameIsFreeSuffix(Combine(prims, dir, name), name);
    }
  }

  /** GetFileName returns exactly the separator-free suffix that has a
      separator (or nothing) in front of it. */
  lemma {:induction false} FileNameIsFreeSuffix(p: string, name: string)
    requires |name| <= |p| && name == p[|p| - |name|..] && HasNoSeparator(name)
    requires |name| < |p| ==> IsDirectorySeparator(p[|p| - |name| - 1])
    ensures GetFileName(p) == name
    decreases |name|
  {
    if name != [] {
      FreeSuffixDropLast(p, name);
      FileNameIsFreeSuffix(p[..|p| - 1], name[..|name| - 1]);
    }
  }

  /** Dropping the last character of the path and of a non-empty
      separator-free suffix keeps the suffix shape. */
  lemma FreeSuffixDropLast(p: string, name: string)
    requires 0 < |name| <= |p| && name == p[|p| - |name|..] && HasNoSeparator(name)
    requires |name| < |p| ==> IsDirectorySeparator(p[|p| - |name| - 1])
    ensures !IsDirectorySeparator(p[|p| - 1])
    ensures name == name[..|name| - 1] + [p[|p| - 1]]
    ensures var p', name' := p[..|p| - 1], name[..|name| - 1];
      && name' == p'[|p'| - |name'|..] && HasNoSeparator(name')
      && (|name'| < |p'| ==> IsDirectorySeparator(p'[|p'| - |name'| - 1]))
  {
    var p', name' := p[..|p| - 1], name[..|name| - 1];
    assert p[|p| - 1] == name[|name| - 1];
    assert name' == p'[|p'| - |name'|..];
    assert |name'| < |p'| ==> p'[|p'| - |name'| - 1] == p[|p| - |name| - 1];
    forall k | 0 <= k < |name'| ensures !IsDirectorySeparator(name'[k]) {
      assert name'[k] == name[k];
    }
  }

  /** When Combine puts a relative name that starts with no separator under
      a folder, a separator comes right before the name. */
  lemma CombineSeparatorBefore(prims: PathPrimitives, a: string, b: string)
    requires b != [] && !prims.isPathRooted(b) && !IsDirectorySeparator(b[0])
    ensures var r := Combine(prims, a, b);
      |b| < |r| ==> IsDirectorySeparator(r[|r| - |b| - 1])
  {
    if a != [] {
      var r := Combine(prims, a, b);
      if IsDirectorySeparator(a[|a| - 1]) {
        assert r == a + b;
        assert r[|r| - |b| - 1] == a[|a| - 1];
      } else {
        assert r == a + [DirectorySeparator] + b;
        assert r[|r| - |b| - 1] == DirectorySeparator;
      }
    }
  }
}
