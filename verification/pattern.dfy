/**
 * The placeholder regular expression `\{\{.+?}}` of src/placeholder.ts and
 * src/main.ts, without the `s`, `u` or `y` flags: two opening braces, the
 * shortest run of at least one character other than a line terminator, and
 * two closing braces. `IsMatch` states what a match is; `MatchAt` and
 * `FirstMatch` compute it the way the backtracking matcher finds it.
 */
module Pattern {
  import opened Wrappers
  import opened Text

  /** A match occupies `s[start..end]`. */
  datatype Span = Span(start: nat, end: nat)

  /** The characters `.` does not match: ECMAScript line terminators. */
  predicate IsLineTerminator(c: char) {
    c == '\n' || c == '\r' || c == '\U{2028}' || c == '\U{2029}'
  }

  /**
   * `s[q..e]` is the match of the placeholder pattern that starts at `q`:
   * `{{`, an inner text of at least one character without line terminators,
   * and the first `}}` that can close it.
   */
  predicate IsMatch(s: string, q: int, e: int) {
    && 0 <= q && q + 5 <= e <= |s|
    && s[q] == '{' && s[q + 1] == '{'
    && s[e - 2] == '}' && s[e - 1] == '}'
    && (forall k :: q + 2 <= k < e - 2 ==> !IsLineTerminator(s[k]))
    && (forall j :: q + 3 <= j < e - 2 ==> !(s[j] == '}' && s[j + 1] == '}'))
  }

  /** No match of the pattern starts at `q`. */
  ghost predicate NoMatchAt(s: string, q: int) {
    forall e :: !IsMatch(s, q, e)
  }

  /** The pattern matches nowhere in `x`. */
  ghost predicate NoMatchIn(x: string) {
    forall q :: NoMatchAt(x, q)
  }

  /** A match is a property of the matched characters alone. */
  lemma MatchLocal(s: string, a: nat, b: nat, q: int, e: int)
    requires a <= q <= e <= b <= |s|
    ensures IsMatch(s[a..b], q - a, e - a) <==> IsMatch(s, q, e)
  {
    var x := s[a..b];
    if IsMatch(s, q, e) {
      forall k | q - a + 2 <= k < e - a - 2 ensures !IsLineTerminator(x[k]) {
        assert x[k] == s[k + a];
      }
      forall j | q - a + 3 <= j < e - a - 2 ensures !(x[j] == '}' && x[j + 1] == '}') {
        assert x[j] == s[j + a] && x[j + 1] == s[j + 1 + a];
      }
    }
    if IsMatch(x, q - a, e - a) {
      forall k | q + 2 <= k < e - 2 ensures !IsLineTerminator(s[k]) {
        assert s[k] == x[k - a];
      }
      forall j | q + 3 <= j < e - 2 ensures !(s[j] == '}' && s[j + 1] == '}') {
        assert s[j] == x[j - a] && s[j + 1] == x[j + 1 - a];
      }
    }
  }

  /** At most one match starts at a given index: the lazy quantifier stops at the first `}}`. */
  lemma MatchUnique(s: string, q: int, e1: int, e2: int)
    requires IsMatch(s, q, e1) && IsMatch(s, q, e2)
    ensures e1 == e2
  {
  }

  /**
   * The backtracking search for the closing `}}` of a match that starts at
   * `q`, having tried every shorter inner text up to `s[q + 2..j - 1]`.
   */
  function CloseFrom(s: string, q: nat, j: nat): (r: Option<nat>)
    requires q + 2 <= |s| && s[q] == '{' && s[q + 1] == '{'
    requires q + 3 <= j <= |s| + 1
    requires forall k :: q + 2 <= k < j - 1 ==> !IsLineTerminator(s[k])
    requires forall i :: q + 3 <= i < j && i + 1 < |s| ==> !(s[i] == '}' && s[i + 1] == '}')
    ensures r.Some? ==> IsMatch(s, q, r.value)
    ensures r.None? ==> NoMatchAt(s, q)
    decreases |s| + 1 - j
  {
    if j > |s| then None
    else if IsLineTerminator(s[j - 1]) then None
    else if j + 2 <= |s| && s[j] == '}' && s[j + 1] == '}' then Some(j + 2)
    else CloseFrom(s, q, j + 1)
  }

  /** The end of the match starting at `q`, if the pattern matches there. */
  function MatchAt(s: string, q: nat): (r: Option<nat>)
    requires q <= |s|
    ensures r.Some? ==> IsMatch(s, q, r.value)
    ensures r.None? ==> NoMatchAt(s, q)
  {
    if q + 2 <= |s| && s[q] == '{' && s[q + 1] == '{' then CloseFrom(s, q, q + 3) else None
  }

  /**
   * The leftmost match starting at or after `p`: what `RegExp.prototype.exec`
   * finds with `lastIndex == p`, and where `String.prototype.split` cuts next.
   */
  function FirstMatch(s: string, p: nat): (r: Option<Span>)
    requires p <= |s|
    ensures r.Some? ==> p <= r.value.start && IsMatch(s, r.value.start, r.value.end)
    ensures r.Some? ==> forall i :: p <= i < r.value.start ==> NoMatchAt(s, i)
    ensures r.None? ==> forall i :: p <= i ==> NoMatchAt(s, i)
    decreases |s| - p
  {
    if p == |s| then None
    else
      match MatchAt(s, p)
      case Some(e) => Some(Span(p, e))
      case None => FirstMatch(s, p + 1)
  }

  /**
   * `s.split(/(\{\{.+?}})/)` from index `p` on: the text up to the next match,
   * the match itself (the capture group), and so on, ending with the text
   * after the last match. Concatenating the pieces gives back `s[p..]`.
   */
  function SplitFrom(s: string, p: nat): (r: seq<string>)
    requires p <= |s|
    ensures |r| % 2 == 1
    ensures Concat(r) == s[p..]
    decreases |s| - p
  {
    match FirstMatch(s, p)
    case None => [s[p..]]
    case Some(m) =>
      var rest := SplitFrom(s, m.end);
      assert Concat([s[p..m.start], s[m.start..m.end]] + rest) == s[p..] by {
        ConcatPair(s[p..m.start], s[m.start..m.end], rest);
        assert s[p..] == s[p..m.start] + s[m.start..m.end] + s[m.end..];
      }
      [s[p..m.start], s[m.start..m.end]] + rest
  }

  /** `s.split(/(\{\{.+?}})/)`. */
  function Split(s: string): (r: seq<string>)
    ensures Concat(r) == s
  {
    SplitFrom(s, 0)
  }

  /** No match of the pattern starts in `s` at an index in `[a, b)`. */
  ghost predicate NoMatchBetween(s: string, a: int, b: int) {
    forall i :: a <= i < b ==> NoMatchAt(s, i)
  }

  /** Where the `k`-th piece of `r` starts, counted from the start of the split. */
  function PieceStart(r: seq<string>, k: nat): nat
    requires k <= |r|
  {
    |Concat(r[..k])|
  }

  /**
   * The cut rule of `split`: every text piece of `r`, placed in `s` from `p`
   * on, covers only indices where no match of `s` starts, so each capture is
   * the leftmost match after the text before it.
   */
  ghost predicate LeftmostCuts(s: string, p: nat, r: seq<string>) {
    forall k :: 0 <= k < |r| && k % 2 == 0 ==> NoMatchBetween(s, p + PieceStart(r, k), p + PieceStart(r, k) + |r[k]|)
  }

  /** The offsets after two leading pieces. */
  lemma PieceStartPair(x: string, y: string, rest: seq<string>, k: nat)
    requires 2 <= k <= |rest| + 2
    ensures PieceStart([x, y] + rest, k) == |x| + |y| + PieceStart(rest, k - 2)
  {
    assert ([x, y] + rest)[..k] == [x, y] + rest[..k - 2];
    ConcatPair(x, y, rest[..k - 2]);
  }

  /** The `k`-th piece of a split: plain text when `k` is even, one whole match when odd. */
  ghost predicate PieceShape(x: string, k: int) {
    (k % 2 == 0 ==> NoMatchIn(x)) && (k % 2 == 1 ==> IsMatch(x, 0, |x|))
  }

  /**
   * The pieces alternate: the even ones are plain text in which the pattern
   * matches nowhere, the odd ones are each exactly one match, and no match
   * of the whole text starts inside a text piece.
   */
  lemma {:induction false} SplitFromShape(s: string, p: nat)
    requires p <= |s|
    ensures forall k :: 0 <= k < |SplitFrom(s, p)| ==> PieceShape(SplitFrom(s, p)[k], k)
    ensures LeftmostCuts(s, p, SplitFrom(s, p))
    decreases |s| - p
  {
    SplitFromCuts(s, p);
    var r := SplitFrom(s, p);
    var fm := FirstMatch(s, p);
    if fm.None? {
      GapHasNoMatch(s, p, |s|);
      assert s[p..|s|] == s[p..];
      assert PieceShape(r[0], 0);
    } else {
      var m := fm.value;
      SplitFromShape(s, m.end);
      GapHasNoMatch(s, p, m.start);
      MatchLocal(s, m.start, m.end, m.start, m.end);
      var rest := SplitFrom(s, m.end);
      assert r == [s[p..m.start], s[m.start..m.end]] + rest;
      forall k | 0 <= k < |r| ensures PieceShape(r[k], k) {
        if k >= 2 {
          assert r[k] == rest[k - 2];
          assert PieceShape(rest[k - 2], k - 2);
        } else if k == 0 {
          assert r[0] == s[p..m.start];
        } else {
          assert r[1] == s[m.start..m.end];
        }
      }
    }
  }

  /** Every cut of the split is at the leftmost match after the previous one. */
  lemma {:induction false} SplitFromCuts(s: string, p: nat)
    requires p <= |s|
    ensures LeftmostCuts(s, p, SplitFrom(s, p))
    decreases |s| - p
  {
    var r := SplitFrom(s, p);
    match FirstMatch(s, p)
    case None =>
      assert r[..0] == [];
    case Some(m) =>
      SplitFromCuts(s, m.end);
      assert NoMatchBetween(s, p, m.start);
      CutsCons(s, p, s[p..m.start], s[m.start..m.end], SplitFrom(s, m.end));
  }

  /** A text piece with no match starting in it, a match, and leftmost cuts after it: leftmost cuts. */
  lemma CutsCons(s: string, p: nat, x: string, y: string, rest: seq<string>)
    requires NoMatchBetween(s, p, p + |x|) && LeftmostCuts(s, p + |x| + |y|, rest)
    ensures LeftmostCuts(s, p, [x, y] + rest)
  {
    var r := [x, y] + rest;
    forall k | 0 <= k < |r| && k % 2 == 0
      ensures NoMatchBetween(s, p + PieceStart(r, k), p + PieceStart(r, k) + |r[k]|)
    {
      if k == 0 {
        assert r[..0] == [];
      } else {
        PieceStartPair(x, y, rest, k);
        assert r[k] == rest[k - 2];
      }
    }
  }

  /** Leftmost cuts of `[x, y] + rest`: none in `x`, and leftmost cuts of `rest` after `y`. */
  lemma CutsTail(s: string, p: nat, r: seq<string>)
    requires |r| >= 2 && LeftmostCuts(s, p, r)
    ensures NoMatchBetween(s, p, p + |r[0]|) && LeftmostCuts(s, p + |r[0]| + |r[1]|, r[2..])
  {
    var x, y, rest := r[0], r[1], r[2..];
    assert r == [x, y] + rest;
    assert r[..0] == [];
    assert r[0] == x;
    forall k | 0 <= k < |rest| && k % 2 == 0
      ensures NoMatchBetween(s, p + |x| + |y| + PieceStart(rest, k), p + |x| + |y| + PieceStart(rest, k) + |rest[k]|)
    {
      PieceStartPair(x, y, rest, k + 2);
      assert r[k + 2] == rest[k];
    }
  }

  /**
   * The split is the only way to cut the text into alternating text pieces
   * and whole matches with every cut leftmost: any such `r` is `SplitFrom(s, p)`.
   */
  lemma {:induction false} SplitFromUnique(s: string, p: nat, r: seq<string>)
    requires p <= |s| && |r| % 2 == 1 && Concat(r) == s[p..]
    requires forall k :: 0 <= k < |r| && k % 2 == 1 ==> IsMatch(r[k], 0, |r[k]|)
    requires LeftmostCuts(s, p, r)
    ensures r == SplitFrom(s, p)
    decreases |r|
  {
    if |r| == 1 {
      UniqueLast(s, p, r);
    } else {
      var q := p + |r[0]|;
      var e := q + |r[1]|;
      CutsTail(s, p, r);
      MatchesTail(r);
      UniqueHead(s, p, r);
      OddLess(|r|);
      SplitFromUnique(s, e, r[2..]);
      SplitFromAt(s, p, q, e);
      PairCons(r, s[p..q], s[q..e], SplitFrom(s, e));
    }
  }

  /** Removing two from an odd number leaves an odd number. */
  lemma OddLess(n: nat)
    requires n > 1 && n % 2 == 1
    ensures (n - 2) % 2 == 1
  {
  }

  /** A single piece with every cut leftmost is the text after `p`, and no match follows. */
  lemma UniqueLast(s: string, p: nat, r: seq<string>)
    requires p <= |s| && |r| == 1 && Concat(r) == s[p..]
    requires LeftmostCuts(s, p, r)
    ensures r == SplitFrom(s, p)
  {
    assert r[..0] == [];
    assert r[1..] == [];
    assert Concat(r) == r[0] + Concat(r[1..]) == r[0];
    assert r == [r[0]];
    assert NoMatchBetween(s, p, |s|);
    match FirstMatch(s, p)
    case None =>
    case Some(m) =>
      MatchOutside(s, p, |s|, m.start, m.end);
      assert false;
  }

  /** A match starts outside a range where none starts. */
  lemma MatchOutside(s: string, a: int, b: int, q: int, e: int)
    requires NoMatchBetween(s, a, b) && IsMatch(s, q, e)
    ensures !(a <= q < b)
  {
    assert !NoMatchAt(s, q);
  }

  /** The odd pieces after the first two are still whole matches. */
  lemma MatchesTail(r: seq<string>)
    requires |r| >= 2 && forall k :: 0 <= k < |r| && k % 2 == 1 ==> IsMatch(r[k], 0, |r[k]|)
    ensures IsMatch(r[1], 0, |r[1]|)
    ensures forall k :: 0 <= k < |r[2..]| && k % 2 == 1 ==> IsMatch(r[2..][k], 0, |r[2..][k]|)
  {
    var rest := r[2..];
    forall k | 0 <= k < |rest| && k % 2 == 1 ensures IsMatch(rest[k], 0, |rest[k]|) {
      assert r[k + 2] == rest[k];
    }
  }

  /**
   * Text without a match starting in it, then a whole match, then more: the
   * split takes the text and the match and goes on after them.
   */
  lemma UniqueHead(s: string, p: nat, r: seq<string>)
    requires p <= |s| && |r| >= 2 && Concat(r) == s[p..]
    requires IsMatch(r[1], 0, |r[1]|) && NoMatchBetween(s, p, p + |r[0]|)
    ensures p + |r[0]| + |r[1]| <= |s| && Concat(r[2..]) == s[p + |r[0]| + |r[1]|..]
    ensures s[p..p + |r[0]|] == r[0] && s[p + |r[0]|..p + |r[0]| + |r[1]|] == r[1]
    ensures FirstMatch(s, p) == Some(Span(p + |r[0]|, p + |r[0]| + |r[1]|))
  {
    var q := p + |r[0]|;
    var e := q + |r[1]|;
    HeadSlices(s, p, r);
    MatchLocal(s, q, e, q, e);
    LeftmostAt(s, p, q, e);
  }

  /** The first two pieces and the rest, read back as slices of the text. */
  lemma HeadSlices(s: string, p: nat, r: seq<string>)
    requires p <= |s| && |r| >= 2 && Concat(r) == s[p..]
    ensures p + |r[0]| + |r[1]| <= |s|
    ensures s[p..p + |r[0]|] == r[0] && s[p + |r[0]|..p + |r[0]| + |r[1]|] == r[1]
    ensures Concat(r[2..]) == s[p + |r[0]| + |r[1]|..]
  {
    var x, y, rest := r[0], r[1], r[2..];
    assert r == [x, y] + rest;
    ConcatPair(x, y, rest);
    SliceParts(s, p, x, y, Concat(rest));
  }

  /** A list of at least two elements is its first two followed by the rest. */
  lemma PairCons<T>(r: seq<T>, a: T, b: T, t: seq<T>)
    requires |r| >= 2 && r[0] == a && r[1] == b && r[2..] == t
    ensures r == [a, b] + t
  {
  }

  /** With its leftmost match known, the split takes the text before it and the match. */
  lemma SplitFromAt(s: string, p: nat, q: nat, e: nat)
    requires p <= |s| && FirstMatch(s, p) == Some(Span(q, e))
    ensures q <= e <= |s|
    ensures SplitFrom(s, p) == [s[p..q], s[q..e]] + SplitFrom(s, e)
  {
  }

  /** With a match at `q` and none starting in `[p, q)`, the leftmost match from `p` is `[q, e)`. */
  lemma LeftmostAt(s: string, p: nat, q: nat, e: nat)
    requires p <= q <= |s| && IsMatch(s, q, e) && NoMatchBetween(s, p, q)
    ensures FirstMatch(s, p) == Some(Span(q, e))
  {
    assert !NoMatchAt(s, q);
    match FirstMatch(s, p)
    case None =>
      assert false;
    case Some(m) =>
      assert !NoMatchAt(s, m.start);
      if m.start != q {
        assert false;
      }
      MatchUnique(s, q, m.end, e);
  }

  /** A text that is three parts one after the other, read back as slices. */
  lemma SliceParts(s: string, p: nat, a: string, b: string, c: string)
    requires p <= |s| && s[p..] == a + b + c
    ensures p + |a| + |b| <= |s|
    ensures s[p..p + |a|] == a && s[p + |a|..p + |a| + |b|] == b && s[p + |a| + |b|..] == c
  {
    var t := s[p..];
    assert t[..|a|] == a && t[|a|..|a| + |b|] == b && t[|a| + |b|..] == c;
  }

  /** Text between `p` and `q` where no match starts holds no match. */
  lemma GapHasNoMatch(s: string, p: nat, q: nat)
    requires p <= q <= |s|
    requires forall i :: p <= i < q ==> NoMatchAt(s, i)
    ensures NoMatchIn(s[p..q])
  {
    var x := s[p..q];
    forall i, e ensures !IsMatch(x, i, e) {
      if IsMatch(x, i, e) {
        assert NoMatchAt(s, i + p);
        MatchLocal(s, p, q, i + p, e + p);
      }
    }
  }

  /**
   * A third opening brace stays inside the match: the leftmost match of
   * `x{{{a}}` starts at the first `{`, so the capture is `{{{a}}`.
   */
  lemma TripleBraceExample()
    ensures Split("x{{{a}}") == ["x", "{{{a}}", ""]
  {
    var s := "x{{{a}}";
    assert MatchAt(s, 0) == None;
    assert CloseFrom(s, 1, 5) == Some(7);
    assert MatchAt(s, 1) == Some(7);
    assert FirstMatch(s, 0) == Some(Span(1, 7));
    assert FirstMatch(s, 7) == None;
    assert SplitFrom(s, 7) == [""];
    assert s[0..1] == "x" && s[1..7] == "{{{a}}";
  }

  /** Every piece of the split is plain text or exactly one match. */
  lemma SplitShape(s: string)
    ensures forall x :: x in Split(s) ==> NoMatchIn(x) || IsMatch(x, 0, |x|)
    ensures LeftmostCuts(s, 0, Split(s))
  {
    SplitFromShape(s, 0);
    var r := Split(s);
    forall x | x in r ensures NoMatchIn(x) || IsMatch(x, 0, |x|) {
      var k :| 0 <= k < |r| && r[k] == x;
      assert r == SplitFrom(s, 0);
      assert PieceShape(r[k], k);
    }
  }
}
