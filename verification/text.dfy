/** The .NET string primitives the utility relies on, written out exactly:
    Char.IsWhiteSpace, String.IsNullOrWhiteSpace, String.Trim / TrimStart,
    String.IndexOf, String.Split and String.Join. Strings are never null here. */
module Text {

  /** Char.IsWhiteSpace: the controls U+0009..U+000D, U+0085, and the
      Unicode space, line and paragraph separators. */
  predicate IsWhiteSpace(c: char) {
    || '\t' <= c <= '\r'
    || c == ' ' || c == '\U{0085}' || c == '\U{00A0}' || c == '\U{1680}'
    || '\U{2000}' <= c <= '\U{200A}'
    || c == '\U{2028}' || c == '\U{2029}' || c == '\U{202F}' || c == '\U{205F}'
    || c == '\U{3000}'
  }

  /** String.IsNullOrWhiteSpace on a non-null string: empty or all white space. */
  predicate IsBlank(s: string) {
    forall k :: 0 <= k < |s| ==> IsWhiteSpace(s[k])
  }

  /** String.TrimStart: removes the longest prefix made of characters that
      `trims` accepts. */
  function TrimStart(s: string, trims: char -> bool): (r: string)
    ensures |r| <= |s| && r == s[|s| - |r|..]
    ensures forall k :: 0 <= k < |s| - |r| ==> trims(s[k])
    ensures r == [] || !trims(r[0])
  {
    if s == [] || !trims(s[0]) then s else TrimStart(s[1..], trims)
  }

  /** String.TrimEnd: removes the longest suffix made of characters that
      `trims` accepts. */
  function TrimEnd(s: string, trims: char -> bool): (r: string)
    ensures |r| <= |s| && r == s[..|r|]
    ensures forall k :: |r| <= k < |s| ==> trims(s[k])
    ensures r == [] || !trims(r[|r| - 1])
  {
    if s == [] || !trims(s[|s| - 1]) then s else TrimEnd(s[..|s| - 1], trims)
  }

  /** Trimming a prefix made of trimmed characters, when what follows does
      not start with one, leaves exactly what follows. */
  lemma {:induction false} TrimStartPrefix(a: string, b: string, trims: char -> bool)
    requires forall k :: 0 <= k < |a| ==> trims(a[k])
    requires b == [] || !trims(b[0])
    ensures TrimStart(a + b, trims) == b
    decreases |a|
  {
    if a != [] {
      assert (a + b)[1..] == a[1..] + b;
      TrimStartPrefix(a[1..], b, trims);
    } else {
      assert a + b == b;
    }
  }

  /** `r` is what is left of `s` once the blank run `s[..i]` in front of it and
      the blank run behind it are cut away. */
  ghost predicate IsBlankBoundedInfix(s: string, r: string, i: int) {
    0 <= i <= |s| - |r| && s[i..i + |r|] == r && IsBlank(s[..i]) && IsBlank(s[i + |r|..])
  }

  /** String.Trim(): removes leading and trailing white space. The result is
      empty exactly when `s` is blank, and otherwise neither starts nor ends
      with white space. */
  function Trim(s: string): (r: string)
    ensures r == [] <==> IsBlank(s)
    ensures r != [] ==> !IsWhiteSpace(r[0]) && !IsWhiteSpace(r[|r| - 1])
  {
    var t := TrimStart(s, IsWhiteSpace);
    var r := TrimEnd(t, IsWhiteSpace);
    TrimmedShape(s, t, r);
    r
  }

  /** What Trim keeps is an infix of `s` with only white space around it. */
  lemma TrimIsInfix(s: string)
    ensures exists i :: IsBlankBoundedInfix(s, Trim(s), i)
  {
    var t := TrimStart(s, IsWhiteSpace);
    var r := TrimEnd(t, IsWhiteSpace);
    TrimmedShape(s, t, r);
    assert Trim(s) == r;
  }

  /** `t` is `s` without its white prefix and `r` is `t` without its white
      suffix: then `r` sits in `s` between two blank runs, it is empty exactly
      when `s` is blank, and otherwise it has no white space at either end. */
  lemma TrimmedShape(s: string, t: string, r: string)
    requires |t| <= |s| && t == s[|s| - |t|..]
    requires forall k :: 0 <= k < |s| - |t| ==> IsWhiteSpace(s[k])
    requires t == [] || !IsWhiteSpace(t[0])
    requires |r| <= |t| && r == t[..|r|]
    requires forall k :: |r| <= k < |t| ==> IsWhiteSpace(t[k])
    requires r == [] || !IsWhiteSpace(r[|r| - 1])
    ensures r == [] <==> IsBlank(s)
    ensures r != [] ==> !IsWhiteSpace(r[0]) && !IsWhiteSpace(r[|r| - 1])
    ensures IsBlankBoundedInfix(s, r, |s| - |t|)
  {
    var i := |s| - |t|;
    assert s[i..i + |r|] == r by {
      forall k | 0 <= k < |r| ensures s[i..i + |r|][k] == r[k] {
        assert s[i + k] == t[k];
      }
    }
    var front, back := s[..i], s[i + |r|..];
    forall k | 0 <= k < |front| ensures IsWhiteSpace(front[k]) {
      assert front[k] == s[k];
    }
    forall k | 0 <= k < |back| ensures IsWhiteSpace(back[k]) {
      assert back[k] == t[|r| + k];
    }
    assert r != [] ==> r[0] == t[0] && s[i] == t[0];
  }

  /** Position of the first `c` in `s`, or |s| when `s` has none
      (String.IndexOf, with its -1 read as |s|). */
  function FirstIndex(s: string, c: char): (k: nat)
    ensures k <= |s|
    ensures k < |s| ==> s[k] == c
  {
    if s == [] || s[0] == c then 0
    else 1 + FirstIndex(s[1..], c)
  }

  /** There is no `c` before the position FirstIndex reports. */
  lemma {:induction false} FirstIndexFree(s: string, c: char)
    ensures c !in s[..FirstIndex(s, c)]
    decreases |s|
  {
    if s != [] && s[0] != c {
      FirstIndexFree(s[1..], c);
      var k' := FirstIndex(s[1..], c);
      assert s[..1 + k'] == [s[0]] + s[1..][..k'];
    }
  }

  /** The first `c` in `a + [c] + b` is the one after `a` when `a` holds none. */
  lemma {:induction false} FirstIndexAfterFree(a: string, c: char, b: string)
    requires c !in a
    ensures FirstIndex(a + [c] + b, c) == |a|
    decreases |a|
  {
    if a != [] {
      assert (a + [c] + b)[1..] == a[1..] + [c] + b;
      FirstIndexAfterFree(a[1..], c, b);
    }
  }

  /** No `c` comes before the first one. */
  lemma {:induction false} FirstIndexLeast(s: string, c: char, x: int)
    requires 0 <= x < |s| && s[x] == c
    ensures FirstIndex(s, c) <= x
    decreases x
  {
    if s[0] != c {
      assert s[1..][x - 1] == c;
      FirstIndexLeast(s[1..], c, x - 1);
    }
  }

  /** String.Join(c, parts). */
  function Join(parts: seq<string>, c: char): string
  {
    if |parts| == 0 then ""
    else if |parts| == 1 then parts[0]
    else parts[0] + [c] + Join(parts[1..], c)
  }

  /** String.Split(c) with no options: the pieces of `s` between occurrences
      of `c`, empty pieces kept. There is always at least one piece. */
  function Split(s: string, c: char): (parts: seq<string>)
    ensures |parts| >= 1
    decreases |s|
  {
    var k := FirstIndex(s, c);
    if k == |s| then [s]
    else [s[..k]] + Split(s[k + 1..], c)
  }

  /** No piece of a split holds `c`, and there is more than one piece exactly
      when `s` holds `c`. */
  lemma {:induction false} SplitPieces(s: string, c: char)
    ensures |Split(s, c)| == 1 <==> c !in s
    ensures forall n :: 0 <= n < |Split(s, c)| ==> c !in Split(s, c)[n]
    decreases |s|
  {
    var k := FirstIndex(s, c);
    if k == |s| {
      SplitWhole(s, c);
      FirstIndexFree(s, c);
      assert s[..k] == s;
    } else {
      var rest := Split(s[k + 1..], c);
      SplitPieces(s[k + 1..], c);
      SplitPiecesStep(s, c, k, rest);
    }
  }

  /** One step of SplitPieces: the first piece is `c`-free and the rest
      already are. */
  lemma SplitPiecesStep(s: string, c: char, k: nat, rest: seq<string>)
    requires k == FirstIndex(s, c) && k < |s| && rest == Split(s[k + 1..], c)
    requires forall n :: 0 <= n < |rest| ==> c !in rest[n]
    ensures |Split(s, c)| >= 2 && c in s
    ensures forall n :: 0 <= n < |Split(s, c)| ==> c !in Split(s, c)[n]
  {
    FirstIndexFree(s, c);
    SplitAt(s, c);
    PiecesFreeCons(s[..k], rest, c);
  }

  /** A `c`-free piece in front of `c`-free pieces keeps them all `c`-free. */
  lemma PiecesFreeCons(a: string, rest: seq<string>, c: char)
    requires c !in a
    requires forall n :: 0 <= n < |rest| ==> c !in rest[n]
    ensures forall n :: 0 <= n < |[a] + rest| ==> c !in ([a] + rest)[n]
  {
    forall n | 0 <= n < |[a] + rest|
      ensures c !in ([a] + rest)[n]
    {
      if n > 0 {
        assert ([a] + rest)[n] == rest[n - 1];
      }
    }
  }

  /** Joining the pieces of a split with the separator gives the text back. */
  lemma {:induction false} SplitJoin(s: string, c: char)
    ensures Join(Split(s, c), c) == s
    decreases |s|
  {
    var k := FirstIndex(s, c);
    if k == |s| {
      SplitWhole(s, c);
    } else {
      SplitJoin(s[k + 1..], c);
      SplitJoinStep(s, c, k);
    }
  }

  /** One step of SplitJoin: the first piece, the separator, and the rest. */
  lemma SplitJoinStep(s: string, c: char, k: nat)
    requires k == FirstIndex(s, c) && k < |s|
    requires Join(Split(s[k + 1..], c), c) == s[k + 1..]
    ensures Join(Split(s, c), c) == s
  {
    SplitAt(s, c);
    JoinAround(s[..k], s[k + 1..], Split(s[k + 1..], c), c);
    Reassemble(s, k);
  }

  /** Cutting `s` around position `k` and gluing the pieces back gives `s`. */
  lemma Reassemble(s: string, k: nat)
    requires k < |s|
    ensures s[..k] + [s[k]] + s[k + 1..] == s
  {
  }

  /** Without a `c`, the split is the text itself. */
  lemma SplitWhole(s: string, c: char)
    requires FirstIndex(s, c) == |s|
    ensures Split(s, c) == [s]
  {
    assert s[..|s|] == s;
  }

  /** With a `c`, the split is the text before the first one followed by the
      split of the text after it. */
  lemma SplitAt(s: string, c: char)
    requires FirstIndex(s, c) < |s|
    ensures var k := FirstIndex(s, c);
      Split(s, c) == [s[..k]] + Split(s[k + 1..], c)
  {
  }

  /** Joining one more piece in front puts it and a separator before the rest. */
  lemma JoinAround(a: string, tail: string, rest: seq<string>, c: char)
    requires |rest| >= 1 && Join(rest, c) == tail
    ensures Join([a] + rest, c) == a + [c] + tail
  {
    assert ([a] + rest)[1..] == rest;
  }

  /** Keeps the non-empty pieces (StringSplitOptions.RemoveEmptyEntries). */
  function RemoveEmpty(parts: seq<string>): (r: seq<string>)
    ensures |r| <= |parts|
    ensures forall p :: p in r <==> p in parts && p != []
  {
    if parts == [] then []
    else
      var rest := RemoveEmpty(parts[1..]);
      assert forall p :: p in parts <==> p == parts[0] || p in parts[1..];
      if parts[0] == [] then rest else [parts[0]] + rest
  }

  /** String.Split(new[] { c }, StringSplitOptions.RemoveEmptyEntries). */
  function SplitRemoveEmpty(s: string, c: char): seq<string>
  {
    RemoveEmpty(Split(s, c))
  }

  /** `s[i..j]` is a maximal run of `s` free of `c`: it is bounded on each
      side by an occurrence of `c` or by an end of `s`. */
  ghost predicate IsComponent(s: string, c: char, i: int, j: int) {
    && 0 <= i <= j <= |s|
    && (i == 0 || s[i - 1] == c)
    && (j == |s| || s[j] == c)
    && forall x :: i <= x < j ==> s[x] != c
  }

  /** Split is the unique decomposition of `s` into `c`-free pieces joined by `c`. */
  lemma {:induction false} SplitUnique(s: string, c: char, parts: seq<string>)
    requires |parts| >= 1
    requires forall n :: 0 <= n < |parts| ==> c !in parts[n]
    requires Join(parts, c) == s
    ensures parts == Split(s, c)
    decreases |parts|
  {
    if |parts| == 1 {
      assert c !in s;
      SplitWhole(s, c);
    } else {
      var rest := parts[1..];
      forall n | 0 <= n < |rest| ensures c !in rest[n] {
        assert rest[n] == parts[n + 1];
      }
      SplitUnique(Join(rest, c), c, rest);
      assert parts == [parts[0]] + rest;
      SplitUniqueStep(s, c, parts[0], Join(rest, c), rest);
    }
  }

  /** One step of SplitUnique: a `c`-free first piece is the text before the
      first `c`. */
  lemma SplitUniqueStep(s: string, c: char, a: string, tail: string, rest: seq<string>)
    requires c !in a && |rest| >= 1 && Join(rest, c) == tail
    requires s == Join([a] + rest, c) && rest == Split(tail, c)
    ensures [a] + rest == Split(s, c)
  {
    JoinAround(a, tail, rest, c);
    FirstIndexAfterFree(a, c, tail);
    CutAround(a, c, tail);
    SplitAt(s, c);
  }

  /** The pieces on either side of the middle character of `a + [c] + b`. */
  lemma CutAround(a: string, c: char, b: string)
    ensures (a + [c] + b)[..|a|] == a
    ensures (a + [c] + b)[|a| + 1..] == b
  {
  }

  /** The pieces Split returns are exactly the maximal `c`-free runs of `s`. */
  lemma SplitPartsAreComponents(s: string, c: char, p: string)
    ensures p in Split(s, c) <==> exists i, j :: IsComponent(s, c, i, j) && s[i..j] == p
  {
    if p in Split(s, c) {
      PartIsComponent(s, c, p);
    }
    if exists i, j :: IsComponent(s, c, i, j) && s[i..j] == p {
      var i, j :| IsComponent(s, c, i, j) && s[i..j] == p;
      ComponentIsPart(s, c, i, j, p);
    }
  }

  /** A component of the text after a `c` is a component of the whole. */
  lemma ComponentShift(s: string, c: char, k: nat, i: int, j: int)
    requires k < |s| && s[k] == c
    requires IsComponent(s[k + 1..], c, i, j)
    ensures s[i + k + 1..j + k + 1] == s[k + 1..][i..j]
    ensures IsComponent(s, c, i + k + 1, j + k + 1)
  {
    var t := s[k + 1..];
    assert i == 0 || s[i + k] == t[i - 1];
    assert j == |t| || s[j + k + 1] == t[j];
    assert s[i + k + 1..j + k + 1] == t[i..j];
  }

  /** A component that starts after a `c` is a component of the text after it. */
  lemma ComponentUnshift(s: string, c: char, k: nat, i: int, j: int)
    requires k < |s| && k < i && IsComponent(s, c, i, j)
    ensures IsComponent(s[k + 1..], c, i - k - 1, j - k - 1)
  {
    var t := s[k + 1..];
    assert i - k - 1 == 0 || t[i - k - 2] == s[i - 1];
    assert j == |s| || t[j - k - 1] == s[j];
    UnshiftSlice(s, k, i, j);
  }

  /** A slice after position `k` read in the text after `k`. */
  lemma UnshiftSlice(s: string, k: nat, i: int, j: int)
    requires k < i <= j <= |s|
    ensures s[k + 1..][i - k - 1..j - k - 1] == s[i..j]
  {
  }

  /** A position inside a `c`-free slice does not hold `c`. */
  lemma FreeAt(s: string, c: char, lo: int, hi: int, x: int)
    requires 0 <= lo <= x < hi <= |s| && c !in s[lo..hi]
    ensures s[x] != c
  {
    assert s[lo..hi][x - lo] == s[x];
  }

  /** Every piece of Split is a component. */
  lemma {:induction false} PartIsComponent(s: string, c: char, p: string)
    requires p in Split(s, c)
    ensures exists i, j :: IsComponent(s, c, i, j) && s[i..j] == p
    decreases |s|
  {
    var k := FirstIndex(s, c);
    if k == |s| {
      SplitWhole(s, c);
      FirstPieceIsComponent(s, c);
      assert s[..k] == p;
    } else if p == s[..k] {
      FirstPieceIsComponent(s, c);
    } else {
      PartInRest(s, c, k, p);
      PartIsComponent(s[k + 1..], c, p);
      var i, j :| IsComponent(s[k + 1..], c, i, j) && s[k + 1..][i..j] == p;
      ComponentShift(s, c, k, i, j);
    }
  }

  /** The text before the first `c` is a component. */
  lemma FirstPieceIsComponent(s: string, c: char)
    ensures var k := FirstIndex(s, c);
      IsComponent(s, c, 0, k) && s[0..k] == s[..k]
  {
    var k := FirstIndex(s, c);
    FirstIndexFree(s, c);
    forall x | 0 <= x < k ensures s[x] != c {
      FreeAt(s, c, 0, k, x);
    }
  }

  /** A piece other than the first is a piece of the split after the first `c`. */
  lemma PartInRest(s: string, c: char, k: nat, p: string)
    requires k == FirstIndex(s, c) && k < |s|
    requires p in Split(s, c) && p != s[..k]
    ensures p in Split(s[k + 1..], c)
  {
    SplitAt(s, c);
    InTail(s[..k], Split(s[k + 1..], c), p);
  }

  /** Something in `[a] + rest` other than `a` is in `rest`, and everything
      in `rest` is in `[a] + rest`. */
  lemma InTail(a: string, rest: seq<string>, p: string)
    ensures p in [a] + rest && p != a ==> p in rest
    ensures p in rest ==> p in [a] + rest
  {
    if p in [a] + rest && p != a {
      var n :| 0 <= n < |[a] + rest| && ([a] + rest)[n] == p;
      assert rest[n - 1] == p;
    }
    if p in rest {
      var n :| 0 <= n < |rest| && rest[n] == p;
      assert ([a] + rest)[n + 1] == p;
    }
  }

  /** Every component is a piece of Split. */
  lemma {:induction false} ComponentIsPart(s: string, c: char, i: int, j: int, p: string)
    requires IsComponent(s, c, i, j) && p == s[i..j]
    ensures p in Split(s, c)
    decreases |s|
  {
    var k := FirstIndex(s, c);
    if k == |s| {
      ComponentWhole(s, c, i, j);
    } else if i == 0 {
      ComponentFirst(s, c, k, j);
    } else {
      FirstIndexLeast(s, c, i - 1);
      ComponentUnshift(s, c, k, i, j);
      UnshiftSlice(s, k, i, j);
      ComponentIsPart(s[k + 1..], c, i - k - 1, j - k - 1, p);
      RestPartIsPart(s, c, k, p);
    }
  }

  /** Without a `c`, the only component is the whole text. */
  lemma ComponentWhole(s: string, c: char, i: int, j: int)
    requires IsComponent(s, c, i, j) && FirstIndex(s, c) == |s|
    ensures s[i..j] in Split(s, c)
  {
    FirstIndexFree(s, c);
    if i > 0 { FreeAt(s, c, 0, |s|, i - 1); }
    if j < |s| { FreeAt(s, c, 0, |s|, j); }
    SplitWhole(s, c);
    assert s[i..j] == s;
  }

  /** The component at the start runs up to the first `c`. */
  lemma ComponentFirst(s: string, c: char, k: nat, j: int)
    requires k == FirstIndex(s, c) && k < |s| && IsComponent(s, c, 0, j)
    ensures s[0..j] in Split(s, c)
  {
    FirstIndexFree(s, c);
    if j > k { FreeAt(s, c, 0, j, k); }
    if j < k { FreeAt(s, c, 0, k, j); }
    SplitAt(s, c);
    assert Split(s, c)[0] == s[..k];
  }

  /** A piece of the split after the first `c` is a piece of the whole split. */
  lemma RestPartIsPart(s: string, c: char, k: nat, p: string)
    requires k == FirstIndex(s, c) && k < |s|
    requires p in Split(s[k + 1..], c)
    ensures p in Split(s, c)
  {
    SplitAt(s, c);
    InTail(s[..k], Split(s[k + 1..], c), p);
  }
}
