/**
 * `resolvePlaceholder` keeps only the non-empty pieces of the split
 * (`filter(Boolean)` in src/placeholder.ts). Dropping them keeps the cut
 * rule of `Pattern`: no match starts inside a text piece, and no two text
 * pieces end up side by side.
 */
module Pieces {
  import opened Wrappers
  import opened Text
  import opened Pattern

  /**
   * The pieces `xs`, placed in `s` from `p` on, keep the cut rule: no match
   * of `s` starts inside a piece that is not itself one whole match.
   */
  ghost predicate TextsLeftmost(s: string, p: nat, xs: seq<string>) {
    forall i :: 0 <= i < |xs| && !IsMatch(xs[i], 0, |xs[i]|) ==>
      NoMatchBetween(s, p + PieceStart(xs, i), p + PieceStart(xs, i) + |xs[i]|)
  }

  /** Of two neighbouring pieces, at least one is a whole match: text pieces are never split in two. */
  predicate NoAdjacentText(xs: seq<string>) {
    forall i :: 0 <= i < |xs| - 1 ==> IsMatch(xs[i], 0, |xs[i]|) || IsMatch(xs[i + 1], 0, |xs[i + 1]|)
  }

  /**
   * `split(...).filter(Boolean)` still cuts at leftmost matches, and dropping
   * the empty pieces never leaves two text pieces side by side.
   */
  lemma {:induction false} NonEmptySplitFrom(s: string, p: nat)
    requires p <= |s|
    ensures TextsLeftmost(s, p, NonEmpty(SplitFrom(s, p)))
    ensures NoAdjacentText(NonEmpty(SplitFrom(s, p)))
    decreases |s| - p
  {
    match FirstMatch(s, p)
    case None =>
      assert SplitFrom(s, p) == [s[p..]];
      assert NoMatchBetween(s, p, p + |s[p..]|);
      TextsSingle(s, p, NonEmpty([s[p..]]));
    case Some(m) =>
      NonEmptySplitFrom(s, m.end);
      NonEmptyPair(s, p, m.start, m.end);
      FirstMatchGap(s, p, m.start, m.end);
      NonEmptyStep(s, p, m.start, m.end, NonEmpty(SplitFrom(s, m.end)));
  }

  /** One step of `NonEmptySplitFrom`: the text before the first match, the match, then the rest. */
  lemma NonEmptyStep(s: string, p: nat, q: nat, e: nat, b: seq<string>)
    requires p <= q <= e <= |s| && NoMatchBetween(s, p, q) && IsMatch(s, q, e)
    requires TextsLeftmost(s, e, b) && NoAdjacentText(b)
    ensures TextsLeftmost(s, p, NonEmpty([s[p..q]]) + ([s[q..e]] + b))
    ensures NoAdjacentText(NonEmpty([s[p..q]]) + ([s[q..e]] + b))
  {
    var x, y := s[p..q], s[q..e];
    NonEmptyOne(x);
    MatchPiece(s, q, e);
    JoinAround(s, p, NonEmpty([x]), y, e, b);
  }

  /** No match starts between the search position and the first match. */
  lemma FirstMatchGap(s: string, p: nat, q: nat, e: nat)
    requires p <= |s| && FirstMatch(s, p) == Some(Span(q, e))
    ensures NoMatchBetween(s, p, q)
  {
  }

  /** A match, cut out of the text, is one whole match. */
  lemma MatchPiece(s: string, q: nat, e: nat)
    requires IsMatch(s, q, e)
    ensures IsMatch(s[q..e], 0, |s[q..e]|)
  {
    MatchLocal(s, q, e, q, e);
  }

  /** Dropping the empty pieces of a split with a first match at `[q, e)`. */
  lemma NonEmptyPair(s: string, p: nat, q: nat, e: nat)
    requires p <= |s| && FirstMatch(s, p) == Some(Span(q, e))
    ensures p <= q <= e <= |s|
    ensures NonEmpty(SplitFrom(s, p)) == NonEmpty([s[p..q]]) + ([s[q..e]] + NonEmpty(SplitFrom(s, e)))
  {
    SplitFromAt(s, p, q, e);
    NonEmptyCons(s[p..q], s[q..e], SplitFrom(s, e));
  }

  /** Dropping the empty pieces around a non-empty second piece. */
  lemma NonEmptyCons(x: string, y: string, rest: seq<string>)
    requires y != ""
    ensures NonEmpty([x, y] + rest) == NonEmpty([x]) + ([y] + NonEmpty(rest))
  {
    assert [x, y] + rest == [x] + ([y] + rest);
    NonEmptyAppend([x], [y] + rest);
    NonEmptyAppend([y], rest);
  }

  /** A single piece without its empty pieces: itself, or nothing when it is empty. */
  lemma NonEmptyOne(x: string)
    ensures |NonEmpty([x])| <= 1 && |Concat(NonEmpty([x]))| == |x|
    ensures |NonEmpty([x])| == 1 ==> NonEmpty([x])[0] == x
  {
    assert [x][1..] == [];
    assert Concat([x]) == x + Concat([]);
  }

  /**
   * At most one text piece where no match starts, then a match, then pieces
   * that keep the cut rule with no two text pieces side by side: together
   * they do too.
   */
  lemma JoinAround(s: string, p: nat, a: seq<string>, y: string, e: nat, b: seq<string>)
    requires |a| <= 1 && (|a| == 1 ==> NoMatchBetween(s, p, p + |a[0]|))
    requires IsMatch(y, 0, |y|)
    requires e == p + |Concat(a)| + |y|
    requires TextsLeftmost(s, e, b) && NoAdjacentText(b)
    ensures TextsLeftmost(s, p, a + ([y] + b)) && NoAdjacentText(a + ([y] + b))
  {
    TextsSingle(s, p, a);
    TextsMatch(s, p + |Concat(a)|, y);
    assert Concat([y]) == y + Concat([]);
    TextsAppend(s, p + |Concat(a)|, [y], b);
    TextsAppend(s, p, a, [y] + b);
    AdjacentAround(a, y, b);
  }

  /** No piece, or one text piece where no match starts, keeps the cut rule. */
  lemma TextsSingle(s: string, p: nat, xs: seq<string>)
    requires |xs| <= 1
    requires |xs| == 1 ==> NoMatchBetween(s, p, p + |xs[0]|)
    ensures TextsLeftmost(s, p, xs)
  {
    assert xs[..0] == [];
  }

  /** A whole match on its own keeps the cut rule. */
  lemma TextsMatch(s: string, p: nat, y: string)
    requires IsMatch(y, 0, |y|)
    ensures TextsLeftmost(s, p, [y])
  {
  }

  /** Pieces that keep the cut rule, followed by pieces that keep it after them, keep it together. */
  lemma TextsAppend(s: string, p: nat, a: seq<string>, b: seq<string>)
    requires TextsLeftmost(s, p, a) && TextsLeftmost(s, p + |Concat(a)|, b)
    ensures TextsLeftmost(s, p, a + b)
  {
    var ab := a + b;
    forall i | 0 <= i < |ab| && !IsMatch(ab[i], 0, |ab[i]|)
      ensures NoMatchBetween(s, p + PieceStart(ab, i), p + PieceStart(ab, i) + |ab[i]|)
    {
      if i < |a| {
        assert ab[..i] == a[..i];
        assert ab[i] == a[i];
      } else {
        assert ab[..i] == a + b[..i - |a|];
        ConcatAppend(a, b[..i - |a|]);
        assert ab[i] == b[i - |a|];
      }
    }
  }

  /** At most one piece, a match, then pieces with no two text pieces side by side: still none. */
  lemma AdjacentAround(a: seq<string>, y: string, b: seq<string>)
    requires |a| <= 1 && IsMatch(y, 0, |y|) && NoAdjacentText(b)
    ensures NoAdjacentText(a + ([y] + b))
  {
    var r := a + ([y] + b);
    forall i | 0 <= i < |r| - 1 ensures IsMatch(r[i], 0, |r[i]|) || IsMatch(r[i + 1], 0, |r[i + 1]|) {
      if i + 1 == |a| {
        assert r[i + 1] == y;
      } else if i == |a| {
        assert r[i] == y;
      } else {
        assert r[i] == b[i - |a| - 1] && r[i + 1] == b[i - |a|];
      }
    }
  }
}
