/**
 * String primitives the plugin relies on, with JavaScript's semantics:
 * `String.prototype.split` with a one-character or a longer literal
 * separator, `join`, `trim`, and occurrence search. A `char` is a Unicode
 * character; JavaScript counts UTF-16 code units instead, which differs only
 * for characters outside the Basic Multilingual Plane.
 */
module Text {
  import opened Wrappers

  /** Number of occurrences of `c` in `s`. */
  function Count(s: string, c: char): nat {
    multiset(s)[c]
  }

  lemma CountAbsent(s: string, c: char)
    requires c !in s
    ensures Count(s, c) == 0
  {
    assert c !in multiset(s);
  }

  /** Concatenation of a list of strings. */
  function Concat(xs: seq<string>): string {
    if xs == [] then "" else xs[0] + Concat(xs[1..])
  }

  lemma {:induction false} ConcatAppend(xs: seq<string>, ys: seq<string>)
    ensures Concat(xs + ys) == Concat(xs) + Concat(ys)
  {
    if xs == [] {
      assert xs + ys == ys;
    } else {
      assert (xs + ys)[1..] == xs[1..] + ys;
      ConcatAppend(xs[1..], ys);
    }
  }

  /** Concatenating two leading pieces and the rest. */
  lemma ConcatPair(a: string, b: string, rest: seq<string>)
    ensures Concat([a, b] + rest) == a + b + Concat(rest)
  {
    assert ([a, b] + rest)[1..] == [b] + rest;
    assert ([b] + rest)[1..] == rest;
  }

  /**
   * The non-empty strings of `xs`, in order (JavaScript's `filter(Boolean)`):
   * a one-element list keeps its element exactly when it is non-empty, and
   * `NonEmptyAppend` carries that over concatenation.
   */
  function NonEmpty(xs: seq<string>): (r: seq<string>)
    ensures forall i :: 0 <= i < |r| ==> r[i] != ""
    ensures Concat(r) == Concat(xs)
    ensures forall x :: x in r <==> x in xs && x != ""
    ensures |xs| == 1 ==> r == (if xs[0] == "" then [] else xs)
  {
    if xs == [] then []
    else if xs[0] == "" then NonEmpty(xs[1..])
    else [xs[0]] + NonEmpty(xs[1..])
  }

  lemma {:induction false} NonEmptyAppend(xs: seq<string>, ys: seq<string>)
    ensures NonEmpty(xs + ys) == NonEmpty(xs) + NonEmpty(ys)
  {
    if xs == [] {
      assert xs + ys == ys;
    } else {
      assert (xs + ys)[1..] == xs[1..] + ys;
      NonEmptyAppend(xs[1..], ys);
    }
  }

  /**
   * `s.split(c)` for a one-character separator: the maximal runs of
   * non-separator characters, one more piece than there are separators.
   */
  function SplitChar(s: string, c: char): (r: seq<string>)
    ensures |r| >= 1
    decreases |s|
  {
    if s == [] then [""]
    else
      var rest := SplitChar(s[1..], c);
      if s[0] == c then [""] + rest
      else [[s[0]] + rest[0]] + rest[1..]
  }

  /** No piece holds the separator. */
  lemma {:induction false} SplitCharFree(s: string, c: char)
    ensures forall i :: 0 <= i < |SplitChar(s, c)| ==> c !in SplitChar(s, c)[i]
    decreases |s|
  {
    if s != [] {
      SplitCharFree(s[1..], c);
      var rest := SplitChar(s[1..], c);
      if s[0] != c {
        var r := SplitChar(s, c);
        forall i | 0 <= i < |r| ensures c !in r[i] {
          if i == 0 {
            assert r[0] == [s[0]] + rest[0];
          } else {
            assert r[i] == rest[i];
          }
        }
      }
    }
  }

  /** There is one more piece than there are separators. */
  lemma {:induction false} SplitCharCount(s: string, c: char)
    ensures |SplitChar(s, c)| == Count(s, c) + 1
    decreases |s|
  {
    if s != [] {
      SplitCharCount(s[1..], c);
      assert s == [s[0]] + s[1..];
      assert multiset(s) == multiset{s[0]} + multiset(s[1..]);
    }
  }

  /** `xs.join(c)`; the empty list joins to the empty string. */
  function JoinWith(xs: seq<string>, c: char): string {
    if |xs| == 0 then ""
    else if |xs| == 1 then xs[0]
    else xs[0] + [c] + JoinWith(xs[1..], c)
  }

  /** One unfolding of `SplitChar` on a string with a known first character. */
  lemma SplitCharCons(a: char, s: string, c: char)
    ensures var R := SplitChar(s, c);
            SplitChar([a] + s, c) == if a == c then [""] + R else [[a] + R[0]] + R[1..]
  {
    assert ([a] + s)[1..] == s;
  }

  lemma {:induction false} SplitCharNoSeparator(s: string, c: char)
    requires c !in s
    ensures SplitChar(s, c) == [s]
    decreases |s|
  {
    if s != [] {
      SplitCharNoSeparator(s[1..], c);
      SplitCharCons(s[0], s[1..], c);
      assert s == [s[0]] + s[1..];
    }
  }

  /** Joining the pieces of a split gives back the string. */
  lemma {:induction false} JoinSplit(s: string, c: char)
    ensures JoinWith(SplitChar(s, c), c) == s
    decreases |s|
  {
    if s != [] {
      var rest := SplitChar(s[1..], c);
      JoinSplit(s[1..], c);
      SplitCharCons(s[0], s[1..], c);
      assert s == [s[0]] + s[1..];
      if s[0] == c {
        JoinBreak(rest, c);
      } else {
        JoinExtend(s[0], rest, c);
      }
    }
  }

  /** A leading empty line adds a leading separator. */
  lemma JoinBreak(rest: seq<string>, c: char)
    requires |rest| >= 1
    ensures JoinWith([""] + rest, c) == [c] + JoinWith(rest, c)
  {
    var r := [""] + rest;
    assert r[0] == "" && r[1..] == rest;
  }

  /** A character put in front of the first line goes in front of the joined text. */
  lemma JoinExtend(a: char, rest: seq<string>, c: char)
    requires |rest| >= 1
    ensures JoinWith([[a] + rest[0]] + rest[1..], c) == [a] + JoinWith(rest, c)
  {
    var r := [[a] + rest[0]] + rest[1..];
    if |rest| == 1 {
      assert r == [[a] + rest[0]];
    } else {
      assert r[0] == [a] + rest[0] && r[1..] == rest[1..];
      assert JoinWith(rest, c) == rest[0] + [c] + JoinWith(rest[1..], c);
    }
  }


  /** Splitting a concatenation: the last piece of `x` fuses with the first piece of `y`. */
  lemma {:induction false} SplitCharAppend(x: string, y: string, c: char)
    ensures var X := SplitChar(x, c);
            var Y := SplitChar(y, c);
            SplitChar(x + y, c) == X[..|X| - 1] + [X[|X| - 1] + Y[0]] + Y[1..]
    decreases |x|
  {
    var X := SplitChar(x, c);
    var Y := SplitChar(y, c);
    if x == [] {
      assert x + y == y;
      assert X == [""];
      assert "" + Y[0] == Y[0];
      assert Y == [Y[0]] + Y[1..];
    } else {
      var x' := x[1..];
      assert x == [x[0]] + x';
      assert x + y == [x[0]] + (x' + y);
      SplitCharAppend(x', y, c);
      SplitCharCons(x[0], x', c);
      SplitCharCons(x[0], x' + y, c);
      var X' := SplitChar(x', c);
      var R := SplitChar(x' + y, c);
      AppendStep(x[0], c, X', Y, R, X, SplitChar(x + y, c));
    }
  }

  /** The sequence bookkeeping of one inductive step of `SplitCharAppend`. */
  lemma AppendStep(a: char, c: char, X': seq<string>, Y: seq<string>, R: seq<string>, X: seq<string>, XY: seq<string>)
    requires |X'| >= 1 && |Y| >= 1
    requires R == X'[..|X'| - 1] + [X'[|X'| - 1] + Y[0]] + Y[1..]
    requires X == if a == c then [""] + X' else [[a] + X'[0]] + X'[1..]
    requires XY == if a == c then [""] + R else [[a] + R[0]] + R[1..]
    ensures XY == X[..|X| - 1] + [X[|X| - 1] + Y[0]] + Y[1..]
  {
    if a == c {
      AppendStepCut(X', Y, R, [""] + X');
    } else if |X'| == 1 {
      AppendStepSingle(a, X'[0], Y, R);
    } else {
      AppendStepCons(a, X', Y, R);
    }
  }

  /** `AppendStep` when the character is the separator: a new empty piece in front. */
  lemma AppendStepCut(X': seq<string>, Y: seq<string>, R: seq<string>, X: seq<string>)
    requires |X'| >= 1 && |Y| >= 1
    requires R == X'[..|X'| - 1] + [X'[|X'| - 1] + Y[0]] + Y[1..]
    requires X == [""] + X'
    ensures [""] + R == X[..|X| - 1] + [X[|X| - 1] + Y[0]] + Y[1..]
  {
    var n := |X'|;
    assert X[..|X| - 1] == [""] + X'[..n - 1];
    assert X[|X| - 1] == X'[n - 1];
    var m := [X'[n - 1] + Y[0]] + Y[1..];
    assert R == X'[..n - 1] + m;
    assert [""] + (X'[..n - 1] + m) == ([""] + X'[..n - 1]) + m;
  }

  /** `AppendStep` for a one-piece `X'`: the character joins the merged piece. */
  lemma AppendStepSingle(a: char, x: string, Y: seq<string>, R: seq<string>)
    requires |Y| >= 1
    requires R == [x + Y[0]] + Y[1..]
    ensures [[a] + R[0]] + R[1..] == [([a] + x) + Y[0]] + Y[1..]
  {
    assert R[0] == x + Y[0] && R[1..] == Y[1..];
    assert [a] + (x + Y[0]) == ([a] + x) + Y[0];
  }

  /** `AppendStep` for a longer `X'`: the character joins the first piece only. */
  lemma AppendStepCons(a: char, X': seq<string>, Y: seq<string>, R: seq<string>)
    requires |X'| >= 2 && |Y| >= 1
    requires R == X'[..|X'| - 1] + [X'[|X'| - 1] + Y[0]] + Y[1..]
    ensures var X := [[a] + X'[0]] + X'[1..];
            [[a] + R[0]] + R[1..] == X[..|X| - 1] + [X[|X| - 1] + Y[0]] + Y[1..]
  {
    var n := |X'|;
    var X := [[a] + X'[0]] + X'[1..];
    var m := [X'[n - 1] + Y[0]] + Y[1..];
    assert R == X'[..n - 1] + m;
    assert R[0] == X'[0];
    assert R[1..] == X'[1..n - 1] + m;
    assert X[..|X| - 1] == [[a] + X'[0]] + X'[1..n - 1];
    assert X[|X| - 1] == X'[n - 1];
    assert [[a] + X'[0]] + (X'[1..n - 1] + m) == ([[a] + X'[0]] + X'[1..n - 1]) + m;
  }

  /** A piece free of the separator absorbs the first piece of what follows it. */
  lemma SplitCharPrepend(x: string, y: string, c: char)
    requires c !in x
    ensures var Y := SplitChar(y, c);
            SplitChar(x + y, c) == [x + Y[0]] + Y[1..]
  {
    SplitCharAppend(x, y, c);
    SplitCharNoSeparator(x, c);
  }

  /** A piece free of the separator extends the last piece of what precedes it. */
  lemma SplitCharExtend(x: string, y: string, c: char)
    requires c !in y
    ensures var X := SplitChar(x, c);
            SplitChar(x + y, c) == X[..|X| - 1] + [X[|X| - 1] + y]
  {
    SplitCharAppend(x, y, c);
    SplitCharNoSeparator(y, c);
  }

  /** Splitting a join gives back the pieces, when no piece holds the separator. */
  lemma {:induction false} SplitJoin(xs: seq<string>, c: char)
    requires |xs| >= 1
    requires forall i :: 0 <= i < |xs| ==> c !in xs[i]
    ensures SplitChar(JoinWith(xs, c), c) == xs
  {
    if |xs| == 1 {
      SplitCharNoSeparator(xs[0], c);
    } else {
      SplitJoin(xs[1..], c);
      var rest := JoinWith(xs[1..], c);
      assert JoinWith(xs, c) == xs[0] + ([c] + rest);
      SplitCharPrepend(xs[0], [c] + rest, c);
      SplitCharCons(c, rest, c);
      assert SplitChar([c] + rest, c) == [""] + xs[1..];
      assert SplitChar(JoinWith(xs, c), c) == [xs[0] + ""] + xs[1..];
      assert xs[0] + "" == xs[0];
      assert xs == [xs[0]] + xs[1..];
    }
  }

  /** Joining a concatenation of two non-empty lists puts one separator between them. */
  lemma {:induction false} JoinAppend(xs: seq<string>, ys: seq<string>, c: char)
    requires |xs| >= 1 && |ys| >= 1
    ensures JoinWith(xs + ys, c) == JoinWith(xs, c) + [c] + JoinWith(ys, c)
  {
    if |xs| == 1 {
      assert (xs + ys)[1..] == ys;
    } else {
      assert (xs + ys)[1..] == xs[1..] + ys;
      JoinAppend(xs[1..], ys, c);
    }
  }

  /** A piece that is the concatenation `a + b` joins as if cut between `a` and `b`. */
  lemma JoinMerge(xs: seq<string>, a: string, b: string, ys: seq<string>, c: char)
    ensures JoinWith(xs + [a + b] + ys, c) == JoinWith(xs + [a], c) + JoinWith([b] + ys, c)
  {
    assert xs + [a + b] + ys == xs + ([a + b] + ys);
    JoinMergeFront(a, b, ys, c);
    if xs != [] {
      var L := JoinWith(xs, c);
      JoinAppend(xs, [a + b] + ys, c);
      JoinAppend(xs, [a], c);
      assert JoinWith([a], c) == a;
      assert L + [c] + (JoinWith([a], c) + JoinWith([b] + ys, c))
          == (L + [c] + JoinWith([a], c)) + JoinWith([b] + ys, c);
    }
  }

  /** The case of `JoinMerge` with nothing before the merged piece. */
  lemma JoinMergeFront(a: string, b: string, ys: seq<string>, c: char)
    ensures JoinWith([a + b] + ys, c) == JoinWith([a], c) + JoinWith([b] + ys, c)
  {
    if ys == [] {
      assert [a + b] + ys == [a + b];
      assert [b] + ys == [b];
    } else {
      JoinAppend([a + b], ys, c);
      JoinAppend([b], ys, c);
      assert (a + b) + [c] + JoinWith(ys, c) == a + (b + [c] + JoinWith(ys, c));
    }
  }

  // ----- literal occurrences and String.prototype.split with a string separator -----

  /** `pat` occurs in `s` starting at index `i`. */
  predicate OccursAt(s: string, pat: string, i: int) {
    0 <= i && i + |pat| <= |s| && s[i..i + |pat|] == pat
  }

  /** The leftmost occurrence of `pat` in `s` at or after `p` (`s.indexOf(pat, p)`). */
  function FindFrom(s: string, pat: string, p: nat): (r: Option<nat>)
    requires p <= |s|
    ensures r.Some? ==> p <= r.value && OccursAt(s, pat, r.value)
    ensures r.Some? ==> forall j :: p <= j < r.value ==> !OccursAt(s, pat, j)
    ensures r.None? ==> forall j :: p <= j ==> !OccursAt(s, pat, j)
    decreases |s| - p
  {
    if p + |pat| > |s| then None
    else if s[p..p + |pat|] == pat then Some(p)
    else FindFrom(s, pat, p + 1)
  }

  /** An occurrence with none between `p` and it is the one `indexOf` finds from `p`. */
  lemma FindFromIs(s: string, pat: string, p: nat, i: nat)
    requires p <= i && OccursAt(s, pat, i)
    requires forall j :: p <= j < i ==> !OccursAt(s, pat, j)
    ensures FindFrom(s, pat, p) == Some(i)
  {
    var r := FindFrom(s, pat, p);
    assert r.Some? && r.value <= i;
    assert !(r.value < i);
  }

  /** An occurrence inside the second part of a concatenation is one in that part. */
  lemma OccursAfter(a: string, b: string, pat: string, j: int)
    requires |a| <= j
    ensures OccursAt(a + b, pat, j) <==> OccursAt(b, pat, j - |a|)
  {
    if j + |pat| <= |a| + |b| {
      assert (a + b)[j..j + |pat|] == b[j - |a|..j - |a| + |pat|];
    }
  }

  /** An occurrence that ends inside the first part of a concatenation is one in that part. */
  lemma OccursBefore(a: string, b: string, pat: string, j: int)
    requires 0 <= j && j + |pat| <= |a|
    ensures OccursAt(a + b, pat, j) <==> OccursAt(a, pat, j)
  {
    assert (a + b)[j..j + |pat|] == a[j..j + |pat|];
  }

  /** `pat` occurs nowhere in `x`. */
  ghost predicate Free(x: string, pat: string) {
    forall j :: !OccursAt(x, pat, j)
  }

  /** In `x + sep`, the first occurrence of `sep` is the one after `x`. */
  predicate CutAtFirst(x: string, sep: string) {
    forall j :: 0 <= j < |x| ==> !OccursAt(x + sep, sep, j)
  }

  /** An occurrence in a slice is an occurrence in the whole. */
  lemma OccursInSlice(s: string, p: nat, q: nat, pat: string, j: int)
    requires p <= q <= |s| && OccursAt(s[p..q], pat, j)
    ensures OccursAt(s, pat, p + j)
  {
    assert 0 <= j && j + |pat| <= q - p;
    forall k | 0 <= k < |pat| ensures s[p + j + k] == pat[k] {
      assert s[p..q][j..j + |pat|][k] == pat[k];
    }
  }

  /** Without an occurrence from `p` on, the rest of the text is free of `pat`. */
  lemma FreeSuffix(s: string, pat: string, p: nat)
    requires p <= |s| && FindFrom(s, pat, p).None?
    ensures Free(s[p..], pat)
  {
    assert s[p..] == s[p..|s|];
    forall j | OccursAt(s[p..|s|], pat, j) ensures false {
      OccursInSlice(s, p, |s|, pat, j);
    }
  }

  /** The text from `p` up to the first occurrence of `pat` after it is cut there. */
  lemma CutPiece(s: string, pat: string, p: nat, i: nat)
    requires p <= |s| && FindFrom(s, pat, p) == Some(i)
    ensures CutAtFirst(s[p..i], pat)
  {
    var q := i + |pat|;
    var w := s[p..q];
    assert s[p..i] + pat == w;
    forall j | 0 <= j < i - p && OccursAt(w, pat, j) ensures false {
      OccursInSlice(s, p, q, pat, j);
    }
  }

  /**
   * `s.split(sep)` for a non-empty literal separator, from index `p` on:
   * cut at each leftmost occurrence, resuming after it. The pieces, joined by
   * `sep`, give back the text; every cut is at the first occurrence after the
   * previous one, so the separator does not occur in the last piece and
   * starts nowhere inside any other.
   */
  function SplitStringFrom(s: string, sep: string, p: nat): (r: seq<string>)
    requires |sep| > 0 && p <= |s|
    ensures |r| >= 1
    ensures JoinStrings(r, sep) == s[p..]
    ensures forall k :: 0 <= k < |r| - 1 ==> CutAtFirst(r[k], sep)
    ensures Free(r[|r| - 1], sep)
    ensures FindFrom(s, sep, p).None? ==> r == [s[p..]]
    ensures FindFrom(s, sep, p).Some? ==> |r| >= 2 && r[0] == s[p..FindFrom(s, sep, p).value]
    decreases |s| - p
  {
    match FindFrom(s, sep, p)
    case None =>
      FreeSuffix(s, sep, p);
      [s[p..]]
    case Some(i) =>
      var rest := SplitStringFrom(s, sep, i + |sep|);
      var r := [s[p..i]] + rest;
      SplitCons(s, sep, p, i, rest, r);
      r
  }

  /** The piece before the first occurrence after `p`, in front of the split after it, is a split from `p`. */
  lemma SplitCons(s: string, sep: string, p: nat, i: nat, rest: seq<string>, r: seq<string>)
    requires p <= |s| && FindFrom(s, sep, p) == Some(i)
    requires |rest| >= 1 && JoinStrings(rest, sep) == s[i + |sep|..]
    requires forall k :: 0 <= k < |rest| - 1 ==> CutAtFirst(rest[k], sep)
    requires Free(rest[|rest| - 1], sep)
    requires r == [s[p..i]] + rest
    ensures |r| >= 1
    ensures JoinStrings(r, sep) == s[p..]
    ensures forall k :: 0 <= k < |r| - 1 ==> CutAtFirst(r[k], sep)
    ensures Free(r[|r| - 1], sep)
    ensures |r| >= 2 && r[0] == s[p..i]
  {
    JoinPiece(s, sep, p, i, rest);
    CutPiece(s, sep, p, i);
    CutCons(s[p..i], rest, sep);
  }

  /** The text before an occurrence, joined in front of the pieces of the text after it, is the whole. */
  lemma JoinPiece(s: string, sep: string, p: nat, i: nat, rest: seq<string>)
    requires p <= i && OccursAt(s, sep, i)
    requires |rest| >= 1 && JoinStrings(rest, sep) == s[i + |sep|..]
    ensures JoinStrings([s[p..i]] + rest, sep) == s[p..]
  {
    var q := i + |sep|;
    var before, after := s[p..i], s[q..];
    SliceThree(s, p, i, q);
    assert s[i..q] == sep;
    JoinOnto(before, rest, sep, after);
  }

  /** `JoinCons` with the joined rest already known. */
  lemma JoinOnto(x: string, rest: seq<string>, sep: string, tail: string)
    requires |rest| >= 1 && JoinStrings(rest, sep) == tail
    ensures JoinStrings([x] + rest, sep) == x + sep + tail
  {
    JoinCons(x, rest, sep);
  }

  /** Joining a piece in front of a non-empty list. */
  lemma JoinCons(x: string, rest: seq<string>, sep: string)
    requires |rest| >= 1
    ensures JoinStrings([x] + rest, sep) == x + sep + JoinStrings(rest, sep)
  {
    assert ([x] + rest)[1..] == rest;
  }

  /** A piece cut at the first occurrence, in front of pieces that are, keeps them all so. */
  lemma CutCons(x: string, rest: seq<string>, sep: string)
    requires |rest| >= 1 && CutAtFirst(x, sep)
    requires forall k :: 0 <= k < |rest| - 1 ==> CutAtFirst(rest[k], sep)
    ensures var r := [x] + rest;
            (forall k :: 0 <= k < |r| - 1 ==> CutAtFirst(r[k], sep)) && r[|r| - 1] == rest[|rest| - 1]
  {
    var r := [x] + rest;
    forall k | 0 <= k < |r| - 1 ensures CutAtFirst(r[k], sep) {
      if k > 0 {
        assert r[k] == rest[k - 1];
      }
    }
  }

  /** At an occurrence, the split takes the piece before it and goes on after it. */
  lemma SplitStringStep(s: string, sep: string, p: nat, i: nat)
    requires |sep| > 0 && p <= |s| && FindFrom(s, sep, p) == Some(i)
    ensures SplitStringFrom(s, sep, p) == [s[p..i]] + SplitStringFrom(s, sep, i + |sep|)
  {
  }

  /** With a first occurrence at `i`, `s.split(sep)` is `s[..i]` followed by the split after it. */
  lemma SplitStringHead(s: string, sep: string, i: nat)
    requires |sep| > 0 && FindFrom(s, sep, 0) == Some(i)
    ensures SplitString(s, sep) == [s[..i]] + SplitStringFrom(s, sep, i + |sep|)
  {
    SplitStringStep(s, sep, 0, i);
    assert s[0..i] == s[..i];
  }

  /** A suffix cut in three. */
  lemma SliceThree(s: string, a: nat, b: nat, c: nat)
    requires a <= b <= c <= |s|
    ensures s[a..] == s[a..b] + s[b..c] + s[c..]
  {
  }

  /** `xs.join(sep)` for a string separator. */
  function JoinStrings(xs: seq<string>, sep: string): string {
    if |xs| == 0 then ""
    else if |xs| == 1 then xs[0]
    else xs[0] + sep + JoinStrings(xs[1..], sep)
  }

  /**
   * `s.split(sep)` for a non-empty literal separator: the pieces join back to
   * `s`, each cut at the first occurrence of `sep` after the previous cut; the
   * first piece is `s` up to the first occurrence, or all of `s` without one.
   */
  function SplitString(s: string, sep: string): (r: seq<string>)
    requires |sep| > 0
    ensures |r| >= 1 && JoinStrings(r, sep) == s
    ensures forall k :: 0 <= k < |r| - 1 ==> CutAtFirst(r[k], sep)
    ensures Free(r[|r| - 1], sep)
    ensures FindFrom(s, sep, 0).None? ==> r == [s]
    ensures FindFrom(s, sep, 0).Some? ==> |r| >= 2 && r[0] == s[..FindFrom(s, sep, 0).value]
  {
    assert s[0..] == s;
    SplitStringFrom(s, sep, 0)
  }

  // ----- String.prototype.trim -----

  /** ECMAScript WhiteSpace and LineTerminator code points, which `trim` removes. */
  predicate IsWhiteSpace(c: char) {
    || c == '\t' || c == '\U{000B}' || c == '\U{000C}' || c == ' ' || c == '\U{00A0}'
    || c == '\U{FEFF}' || c == '\U{1680}' || ('\U{2000}' <= c <= '\U{200A}')
    || c == '\U{202F}' || c == '\U{205F}' || c == '\U{3000}'
    || c == '\n' || c == '\r' || c == '\U{2028}' || c == '\U{2029}'
  }

  /** `s.trimStart()`. */
  function TrimStart(s: string): string {
    if s != [] && IsWhiteSpace(s[0]) then TrimStart(s[1..]) else s
  }

  /** `s.trimEnd()`. */
  function TrimEnd(s: string): string {
    if s != [] && IsWhiteSpace(s[|s| - 1]) then TrimEnd(s[..|s| - 1]) else s
  }

  /** `trimStart` keeps a suffix, having dropped only white space, and stops at a non-blank. */
  lemma {:induction false} TrimStartSpec(s: string)
    ensures |TrimStart(s)| <= |s| && TrimStart(s) == s[|s| - |TrimStart(s)|..]
    ensures forall k :: 0 <= k < |s| - |TrimStart(s)| ==> IsWhiteSpace(s[k])
    ensures TrimStart(s) != "" ==> !IsWhiteSpace(TrimStart(s)[0])
  {
    if s != [] && IsWhiteSpace(s[0]) {
      TrimStartSpec(s[1..]);
      assert s[1..][|s| - 1 - |TrimStart(s)|..] == s[|s| - |TrimStart(s)|..];
      forall k | 0 <= k < |s| - |TrimStart(s)| ensures IsWhiteSpace(s[k]) {
        if k > 0 {
          assert s[k] == s[1..][k - 1];
        }
      }
    }
  }

  /** `trimEnd` keeps a prefix, having dropped only white space, and stops at a non-blank. */
  lemma {:induction false} TrimEndSpec(s: string)
    ensures |TrimEnd(s)| <= |s| && TrimEnd(s) == s[..|TrimEnd(s)|]
    ensures forall k :: |TrimEnd(s)| <= k < |s| ==> IsWhiteSpace(s[k])
    ensures TrimEnd(s) != "" ==> !IsWhiteSpace(TrimEnd(s)[|TrimEnd(s)| - 1])
  {
    if s != [] && IsWhiteSpace(s[|s| - 1]) {
      var s' := s[..|s| - 1];
      TrimEndSpec(s');
      assert s'[..|TrimEnd(s)|] == s[..|TrimEnd(s)|];
      forall k | |TrimEnd(s)| <= k < |s| ensures IsWhiteSpace(s[k]) {
        if k < |s| - 1 {
          assert s[k] == s'[k];
        }
      }
    }
  }

  /** `s.trim()`: drops the white space at both ends and nothing else. */
  function Trim(s: string): string {
    TrimEnd(TrimStart(s))
  }

  /**
   * The trimmed text is the slice of `s` left once its leading and trailing
   * white space are gone: it neither starts nor ends with white space, it is
   * empty exactly when the text is all white space, and a text without white
   * space at its ends is its own trim.
   */
  lemma TrimSpec(s: string)
    ensures |Trim(s)| <= |TrimStart(s)| <= |s|
    ensures Trim(s) == s[|s| - |TrimStart(s)|..|s| - |TrimStart(s)| + |Trim(s)|]
    ensures forall k :: 0 <= k < |s| - |TrimStart(s)| ==> IsWhiteSpace(s[k])
    ensures forall k :: |s| - |TrimStart(s)| + |Trim(s)| <= k < |s| ==> IsWhiteSpace(s[k])
    ensures |Trim(s)| <= |s|
    ensures Trim(s) != "" ==> !IsWhiteSpace(Trim(s)[0]) && !IsWhiteSpace(Trim(s)[|Trim(s)| - 1])
    ensures Trim(s) == "" <==> forall k :: 0 <= k < |s| ==> IsWhiteSpace(s[k])
    ensures s == "" || (!IsWhiteSpace(s[0]) && !IsWhiteSpace(s[|s| - 1])) ==> Trim(s) == s
  {
    TrimSlice(s);
    TrimEnds(s);
    TrimBlank(s);
    TrimStartSpec(s);
    if s == "" || (!IsWhiteSpace(s[0]) && !IsWhiteSpace(s[|s| - 1])) {
      TrimUnchanged(s);
    }
  }

  /** `trimStart` leaves nothing exactly when the text is all white space. */
  lemma TrimBlank(s: string)
    ensures TrimStart(s) == "" <==> forall k :: 0 <= k < |s| ==> IsWhiteSpace(s[k])
  {
    var t := TrimStart(s);
    TrimStartSpec(s);
    if t != "" {
      assert t[0] == s[|s| - |t|];
    }
  }

  /** The trimmed text neither starts nor ends with white space, and is empty only if `trimStart` left nothing. */
  lemma TrimEnds(s: string)
    ensures Trim(s) != "" ==> !IsWhiteSpace(Trim(s)[0]) && !IsWhiteSpace(Trim(s)[|Trim(s)| - 1])
    ensures Trim(s) == "" <==> TrimStart(s) == ""
  {
    var t := TrimStart(s);
    var r := TrimEnd(t);
    TrimStartSpec(s);
    TrimEndSpec(t);
    if r != "" {
      assert r[0] == t[0];
    }
    if t != "" {
      assert !IsWhiteSpace(t[0]);
      assert r != "";
    }
  }

  /** A text without white space at its ends is its own trim. */
  lemma TrimUnchanged(s: string)
    requires s == "" || (!IsWhiteSpace(s[0]) && !IsWhiteSpace(s[|s| - 1]))
    ensures Trim(s) == s
  {
    assert TrimStart(s) == s;
    assert TrimEnd(s) == s;
  }

  /** The trimmed text is the slice of `s` between its leading and its trailing white space. */
  lemma TrimSlice(s: string)
    ensures |Trim(s)| <= |TrimStart(s)| <= |s|
    ensures Trim(s) == s[|s| - |TrimStart(s)|..|s| - |TrimStart(s)| + |Trim(s)|]
    ensures forall k :: |s| - |TrimStart(s)| + |Trim(s)| <= k < |s| ==> IsWhiteSpace(s[k])
  {
    var t := TrimStart(s);
    var a := |s| - |t|;
    TrimStartSpec(s);
    TrimEndSpec(t);
    assert t == s[a..];
    assert Trim(s) == s[a..][..|Trim(s)|];
    forall k | a + |Trim(s)| <= k < |s| ensures IsWhiteSpace(s[k]) {
      assert s[k] == t[k - a];
    }
  }

  /** Trimming is idempotent. */
  lemma TrimIdempotent(s: string)
    ensures Trim(Trim(s)) == Trim(s)
  {
    TrimEnds(s);
    TrimUnchanged(Trim(s));
  }
}
