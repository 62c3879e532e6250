/**
 * `writeText` and `write` of src/main.ts: how a piece of text reaches the
 * editor. The document is its list of lines; `write` is one editor
 * transaction inserting text at a line and character position, and
 * `writeText` inserts a text line by line, one transaction per non-empty
 * line and one per line break, and returns the position after it.
 */
module Writer {
  import opened Wrappers
  import opened Text

  /** An editor position: zero-based line and character offset in that line. */
  datatype Pos = Pos(line: nat, ch: nat)

  /** One transaction's single change: insert `text` at `at`. */
  datatype Edit = Edit(at: Pos, text: string)

  /** The document as its lines; `editor.getValue()` joins them with `\n`. */
  type Doc = seq<string>

  /** At least one line, and no line holds a line break. */
  predicate WellFormed(doc: Doc) {
    |doc| >= 1 && forall i :: 0 <= i < |doc| ==> '\n' !in doc[i]
  }

  /** `p` names a line of the document and a place within that line. */
  predicate InRange(doc: Doc, p: Pos) {
    p.line < |doc| && p.ch <= |doc[p.line]|
  }

  /** `editor.getValue()`. */
  function Value(doc: Doc): string {
    JoinWith(doc, '\n')
  }

  /** The offset of `p` in `Value(doc)`: the length of the text before it. */
  function Offset(doc: Doc, p: Pos): nat
    requires InRange(doc, p)
  {
    |JoinWith(doc[..p.line] + [doc[p.line][..p.ch]], '\n')|
  }

  /**
   * `write(editor, line, ch, text)`: the transaction inserts `text` at
   * `(line, ch)`; the line it lands in is cut at each `\n` of the result.
   */
  function Write(doc: Doc, p: Pos, t: string): Doc
    requires InRange(doc, p)
  {
    var l := doc[p.line];
    doc[..p.line] + SplitChar(l[..p.ch] + t + l[p.ch..], '\n') + doc[p.line + 1..]
  }

  /**
   * The position `writeText` returns after inserting `t` at `p`: one line
   * down per `\n`, then after the last line of `t`; on the same line, `|t|`
   * characters further.
   */
  function End(p: Pos, t: string): Pos {
    var lines := SplitChar(t, '\n');
    if |lines| == 1 then Pos(p.line, p.ch + |t|)
    else Pos(p.line + |lines| - 1, |lines[|lines| - 1]|)
  }

  /** The document around `p`: the lines before, the cursor line cut at `p`, the lines after. */
  lemma Around(doc: Doc, p: Pos)
    requires InRange(doc, p)
    ensures doc == doc[..p.line] + [doc[p.line][..p.ch] + doc[p.line][p.ch..]] + doc[p.line + 1..]
    ensures Write(doc, p, "") == doc[..p.line] + SplitChar(doc[p.line][..p.ch] + doc[p.line][p.ch..], '\n') + doc[p.line + 1..]
  {
    assert doc[p.line][..p.ch] + doc[p.line][p.ch..] == doc[p.line];
    assert doc[p.line][..p.ch] + "" == doc[p.line][..p.ch];
  }

  /** A line without line breaks, cut anywhere, gives two parts without line breaks. */
  lemma CutFree(s: string, i: nat)
    requires '\n' !in s && i <= |s|
    ensures '\n' !in s[..i] && '\n' !in s[i..]
  {
    assert s == s[..i] + s[i..];
  }

  /** Writing in the line `pre + post` at the cut between `pre` and `post`. */
  lemma WriteAt(front: Doc, pre: string, post: string, back: Doc, t: string)
    ensures InRange(front + [pre + post] + back, Pos(|front|, |pre|))
    ensures Write(front + [pre + post] + back, Pos(|front|, |pre|), t)
            == front + SplitChar(pre + t + post, '\n') + back
  {
    var d := front + [pre + post] + back;
    assert d[..|front|] == front && d[|front|] == pre + post && d[|front| + 1..] == back;
    assert (pre + post)[..|pre|] == pre && (pre + post)[|pre|..] == post;
  }

  /** Where `End` lands, stated through the split of the cursor line's head followed by `t`. */
  lemma EndLines(p: Pos, t: string, pre: string)
    requires |pre| == p.ch && '\n' !in pre
    ensures var P := SplitChar(pre + t, '\n');
            End(p, t) == Pos(p.line + |P| - 1, |P[|P| - 1]|)
  {
    var T := SplitChar(t, '\n');
    SplitCharPrepend(pre, t, '\n');
    if |T| == 1 {
      JoinSplit(t, '\n');
      assert T == [T[0]];
      assert JoinWith(T, '\n') == T[0];
    }
  }

  /**
   * The document after writing `t` at `p`: the lines before `p`, the lines
   * of the cursor line's head followed by `t`, the last of them carrying the
   * rest of the cursor line, then the lines after; `End` is at the end of
   * the last of those lines of `t`.
   */
  lemma WriteLayout(doc: Doc, p: Pos, t: string)
    requires WellFormed(doc) && InRange(doc, p)
    ensures '\n' !in doc[p.line][..p.ch] && '\n' !in doc[p.line][p.ch..]
    ensures var P := SplitChar(doc[p.line][..p.ch] + t, '\n');
            Write(doc, p, t) == (doc[..p.line] + P[..|P| - 1]) + [P[|P| - 1] + doc[p.line][p.ch..]] + doc[p.line + 1..]
            && End(p, t) == Pos(p.line + |P| - 1, |P[|P| - 1]|)
  {
    var pre, post := doc[p.line][..p.ch], doc[p.line][p.ch..];
    CutFree(doc[p.line], p.ch);
    EndLines(p, t, pre);
    SplitCharExtend(pre + t, post, '\n');
  }

  /** `x` without line breaks, followed by `b + post`, joins the first line of `b + post`. */
  lemma PrependLine(x: string, b: string, post: string)
    requires '\n' !in x
    ensures var Q := SplitChar(b + post, '\n');
            SplitChar(x + b + post, '\n') == [x + Q[0]] + Q[1..]
  {
    SplitCharPrepend(x, b + post, '\n');
    assert x + b + post == x + (b + post);
  }

  /** Writing keeps the document well formed, adds one line per `\n`, and `End` lies in it. */
  lemma WriteWellFormed(doc: Doc, p: Pos, t: string)
    requires WellFormed(doc) && InRange(doc, p)
    ensures WellFormed(Write(doc, p, t))
    ensures |Write(doc, p, t)| == |doc| + Count(t, '\n')
    ensures InRange(Write(doc, p, t), End(p, t))
  {
    WriteLayout(doc, p, t);
    var l := p.line;
    var xs, ys := doc[..l], doc[l + 1..];
    var pre, post := doc[l][..p.ch], doc[l][p.ch..];
    var P := SplitChar(pre + t, '\n');
    var n := |P| - 1;
    var front := xs + P[..n];
    var d := Write(doc, p, t);
    assert d == front + [P[n] + post] + ys;
    SplitCharFree(pre + t, '\n');
    FreeLines(xs, P[..n]);
    FreeLines(front, [P[n] + post]);
    FreeLines(front + [P[n] + post], ys);
    assert d[|front|] == P[n] + post;
    SplitCharCount(pre + t, '\n');
    CountAppend(pre, t, '\n');
    CountAbsent(pre, '\n');
  }

  /** Two lists of lines without line breaks, one after the other, have none either. */
  lemma FreeLines(xs: seq<string>, ys: seq<string>)
    requires forall i :: 0 <= i < |xs| ==> '\n' !in xs[i]
    requires forall i :: 0 <= i < |ys| ==> '\n' !in ys[i]
    ensures forall i :: 0 <= i < |xs + ys| ==> '\n' !in (xs + ys)[i]
  {
  }

  /** Counting over a concatenation. */
  lemma {:induction false} CountAppend(a: string, b: string, c: char)
    ensures Count(a + b, c) == Count(a, c) + Count(b, c)
  {
    assert multiset(a + b) == multiset(a) + multiset(b);
  }

  /** Writing nothing leaves the document and the position as they are. */
  lemma WriteEmpty(doc: Doc, p: Pos)
    requires WellFormed(doc) && InRange(doc, p)
    ensures Write(doc, p, "") == doc
    ensures End(p, "") == p
  {
    Around(doc, p);
    SplitCharNoSeparator(doc[p.line], '\n');
    assert doc[p.line][..p.ch] + doc[p.line][p.ch..] == doc[p.line];
  }

  /** Text without a line break moves the position along its line. */
  lemma EndSameLine(p: Pos, t: string)
    requires '\n' !in t
    ensures End(p, t) == Pos(p.line, p.ch + |t|)
  {
    SplitCharNoSeparator(t, '\n');
  }

  /** A line break moves the position to the start of the next line. */
  lemma EndBreak(p: Pos)
    ensures End(p, "\n") == Pos(p.line + 1, 0)
  {
    SplitCharCons('\n', "", '\n');
    assert "\n" == ['\n'] + "";
  }

  /** The position after `a` then `b` is the position after `a + b`. */
  lemma EndCompose(p: Pos, a: string, b: string)
    ensures End(End(p, a), b) == End(p, a + b)
  {
    var A := SplitChar(a, '\n');
    var B := SplitChar(b, '\n');
    LastLine(a, b);
    if |B| == 1 {
      SingleLine(b);
      if |A| == 1 {
        SingleLine(a);
      }
    }
  }

  /** The lines of `a + b`: one fewer than those of `a` and `b`, and the last is that of `b`, joined to the last of `a` when `b` has no break. */
  lemma LastLine(a: string, b: string)
    ensures var A, B := SplitChar(a, '\n'), SplitChar(b, '\n');
            var AB := SplitChar(a + b, '\n');
            |AB| == |A| + |B| - 1
            && AB[|AB| - 1] == (if |B| == 1 then A[|A| - 1] + B[0] else B[|B| - 1])
  {
    var A := SplitChar(a, '\n');
    var B := SplitChar(b, '\n');
    SplitCharAppend(a, b, '\n');
    var F := A[..|A| - 1] + [A[|A| - 1] + B[0]];
    var AB := SplitChar(a + b, '\n');
    assert AB == F + B[1..];
    if |B| == 1 {
      assert AB[|AB| - 1] == F[|F| - 1];
    } else {
      assert AB[|AB| - 1] == B[|B| - 1];
    }
  }

  /** A text that splits into one line is that line. */
  lemma SingleLine(s: string)
    requires |SplitChar(s, '\n')| == 1
    ensures SplitChar(s, '\n') == [s]
  {
    var S := SplitChar(s, '\n');
    JoinSplit(s, '\n');
    assert S == [S[0]];
    assert JoinWith(S, '\n') == S[0];
  }

  /**
   * Writing `a` and then `b` at the position after `a` is writing `a + b` at
   * once: what lets `writeText` insert a text piece by piece.
   */
  lemma WriteCompose(doc: Doc, p: Pos, a: string, b: string)
    requires WellFormed(doc) && InRange(doc, p)
    ensures InRange(Write(doc, p, a), End(p, a))
    ensures Write(Write(doc, p, a), End(p, a), b) == Write(doc, p, a + b)
  {
    var l := p.line;
    var pre, post := doc[l][..p.ch], doc[l][p.ch..];
    var P := SplitChar(pre + a, '\n');
    var Q := SplitChar(b + post, '\n');
    var tail := [P[|P| - 1] + Q[0]] + Q[1..];
    WriteTwice(doc, p, a, b);
    WriteJoined(doc, p, a, b);
    SeqRegroup(doc[..l], P[..|P| - 1], tail);
  }

  /** `a` then `b` written at the position after it, laid out by the lines of `pre + a` and of `b + post`. */
  lemma WriteTwice(doc: Doc, p: Pos, a: string, b: string)
    requires WellFormed(doc) && InRange(doc, p)
    ensures InRange(Write(doc, p, a), End(p, a))
    ensures var pre, post := doc[p.line][..p.ch], doc[p.line][p.ch..];
            var P := SplitChar(pre + a, '\n');
            var Q := SplitChar(b + post, '\n');
            Write(Write(doc, p, a), End(p, a), b)
            == doc[..p.line] + P[..|P| - 1] + ([P[|P| - 1] + Q[0]] + Q[1..]) + doc[p.line + 1..]
  {
    var l := p.line;
    var xs, ys := doc[..l], doc[l + 1..];
    var pre, post := doc[l][..p.ch], doc[l][p.ch..];
    WriteLayout(doc, p, a);
    var P := SplitChar(pre + a, '\n');
    var n := |P| - 1;
    var front := xs + P[..n];
    var d1, e := Write(doc, p, a), End(p, a);
    assert d1 == front + [P[n] + post] + ys;
    assert e == Pos(|front|, |P[n]|);
    WriteAt(front, P[n], post, ys, b);
    SplitCharFree(pre + a, '\n');
    assert Write(d1, e, b) == front + SplitChar(P[n] + b + post, '\n') + ys;
    PrependLine(P[n], b, post);
  }

  /** `a + b` written at once, laid out by the same lines as `WriteTwice`. */
  lemma WriteJoined(doc: Doc, p: Pos, a: string, b: string)
    requires InRange(doc, p)
    ensures var pre, post := doc[p.line][..p.ch], doc[p.line][p.ch..];
            var P := SplitChar(pre + a, '\n');
            var Q := SplitChar(b + post, '\n');
            Write(doc, p, a + b)
            == doc[..p.line] + (P[..|P| - 1] + ([P[|P| - 1] + Q[0]] + Q[1..])) + doc[p.line + 1..]
  {
    var pre, post := doc[p.line][..p.ch], doc[p.line][p.ch..];
    SplitMiddle(pre, a, b, post);
    assert pre + (a + b) + post == doc[p.line][..p.ch] + (a + b) + doc[p.line][p.ch..];
  }

  /** The lines of `pre + (a + b) + post`: those of `pre + a`, the last fused with those of `b + post`. */
  lemma SplitMiddle(pre: string, a: string, b: string, post: string)
    ensures var P := SplitChar(pre + a, '\n');
            var Q := SplitChar(b + post, '\n');
            SplitChar(pre + (a + b) + post, '\n') == P[..|P| - 1] + ([P[|P| - 1] + Q[0]] + Q[1..])
  {
    SplitRegroup(pre, a, b, post);
    SplitCharAppend(pre + a, b + post, '\n');
    var P := SplitChar(pre + a, '\n');
    var Q := SplitChar(b + post, '\n');
    SeqRegroup(P[..|P| - 1], [P[|P| - 1] + Q[0]], Q[1..]);
  }

  /** The same text, grouped two ways, has the same lines. */
  lemma SplitRegroup(pre: string, a: string, b: string, post: string)
    ensures SplitChar(pre + (a + b) + post, '\n') == SplitChar((pre + a) + (b + post), '\n')
  {
    assert pre + (a + b) + post == (pre + a) + (b + post);
  }

  /** Moving the brackets of a three-part list of lines. */
  lemma SeqRegroup(xs: seq<string>, ys: seq<string>, zs: seq<string>)
    ensures xs + ys + zs == xs + (ys + zs)
  {
  }

  /** Writing `x` at a position where `s` was just written puts `x` in front of `s`. */
  lemma WriteBefore(doc: Doc, q: Pos, s: string, x: string)
    requires WellFormed(doc) && InRange(doc, q)
    ensures InRange(Write(doc, q, s), q)
    ensures Write(Write(doc, q, s), q, x) == Write(doc, q, x + s)
  {
    var l := q.line;
    var pre, post := doc[l][..q.ch], doc[l][q.ch..];
    var R := SplitChar(s + post, '\n');
    var PX := SplitChar(pre + x, '\n');
    var k := |PX| - 1;
    WriteFront(doc, q, s, x);
    WriteJoined(doc, q, x, s);
    SeqShift(doc[..l], PX[..k], [PX[k] + R[0]], R[1..], doc[l + 1..]);
  }

  /** `s` and then `x` written at the same place, laid out by the lines of `pre + x` and of `s + post`. */
  lemma WriteFront(doc: Doc, q: Pos, s: string, x: string)
    requires WellFormed(doc) && InRange(doc, q)
    ensures InRange(Write(doc, q, s), q)
    ensures var pre, post := doc[q.line][..q.ch], doc[q.line][q.ch..];
            var R := SplitChar(s + post, '\n');
            var PX := SplitChar(pre + x, '\n');
            Write(Write(doc, q, s), q, x)
            == doc[..q.line] + (PX[..|PX| - 1] + [PX[|PX| - 1] + R[0]]) + (R[1..] + doc[q.line + 1..])
  {
    var l := q.line;
    var xs, ys := doc[..l], doc[l + 1..];
    var pre, post := doc[l][..q.ch], doc[l][q.ch..];
    CutFree(doc[l], q.ch);
    var R := SplitChar(s + post, '\n');
    PrependLine(pre, s, post);
    var back := R[1..] + ys;
    var d1 := Write(doc, q, s);
    assert d1 == xs + ([pre + R[0]] + R[1..]) + ys;
    SeqRegroup(xs, [pre + R[0]], R[1..]);
    SeqRegroup(xs + [pre + R[0]], R[1..], ys);
    assert d1 == xs + [pre + R[0]] + back;
    assert q == Pos(|xs|, |pre|);
    WriteAt(xs, pre, R[0], back, x);
    assert Write(d1, q, x) == xs + SplitChar(pre + x + R[0], '\n') + back;
    SplitCharFree(s + post, '\n');
    SplitCharExtend(pre + x, R[0], '\n');
  }

  /** Moving the brackets of a five-part list of lines. */
  lemma SeqShift(xs: seq<string>, h1: seq<string>, h2: seq<string>, r: seq<string>, ys: seq<string>)
    ensures xs + (h1 + (h2 + r)) + ys == xs + (h1 + h2) + (r + ys)
  {
  }

  /**
   * Writing `x` at the position after `a` in a document where `a + b` was
   * written puts `x` between `a` and `b`: the streamed response lands between
   * the format's prefix and suffix.
   */
  lemma WriteMiddle(doc: Doc, p: Pos, a: string, b: string, x: string)
    requires WellFormed(doc) && InRange(doc, p)
    ensures InRange(Write(doc, p, a + b), End(p, a))
    ensures Write(Write(doc, p, a + b), End(p, a), x) == Write(doc, p, a + x + b)
  {
    WriteCompose(doc, p, a, b);
    WriteWellFormed(doc, p, a);
    var d1 := Write(doc, p, a);
    var q := End(p, a);
    WriteBefore(d1, q, b, x);
    WriteCompose(doc, p, a, x + b);
    assert a + (x + b) == a + x + b;
  }

  /** `xs.join` of a list with a run of lines joined in place. */
  lemma JoinFlatten(xs: seq<string>, mid: seq<string>, ys: seq<string>, c: char)
    requires |mid| >= 1
    ensures JoinWith(xs + mid + ys, c) == JoinWith(xs + [JoinWith(mid, c)] + ys, c)
  {
    var m := JoinWith(mid, c);
    if xs == [] && ys == [] {
      assert xs + mid + ys == mid;
      assert xs + [m] + ys == [m];
    } else if xs == [] {
      assert xs + mid + ys == mid + ys;
      assert xs + [m] + ys == [m] + ys;
      JoinAppend(mid, ys, c);
      JoinAppend([m], ys, c);
    } else if ys == [] {
      assert xs + mid + ys == xs + mid;
      assert xs + [m] + ys == xs + [m];
      JoinAppend(xs, mid, c);
      JoinAppend(xs, [m], c);
    } else {
      assert xs + mid + ys == xs + (mid + ys);
      assert xs + [m] + ys == xs + ([m] + ys);
      JoinAppend(xs, mid + ys, c);
      JoinAppend(mid, ys, c);
      JoinAppend(xs, [m] + ys, c);
      JoinAppend([m], ys, c);
    }
  }

  /** The joined lines with one line cut in two: the text before the cut and the text after it. */
  lemma JoinCut(xs: seq<string>, a: string, b: string, ys: seq<string>)
    ensures JoinWith(xs + [a + b] + ys, '\n') == JoinWith(xs + [a], '\n') + JoinWith([b] + ys, '\n')
    ensures JoinWith(xs + [a + b], '\n') == JoinWith(xs + [a], '\n') + b
  {
    JoinMerge(xs, a, b, ys, '\n');
    JoinMerge(xs, a, b, [], '\n');
    assert xs + [a + b] + [] == xs + [a + b];
    assert [b] + [] == [b];
  }

  /** The text of the document after a write is the old text with `t` spliced in at the offset of `p`. */
  lemma WriteValue(doc: Doc, p: Pos, t: string)
    requires WellFormed(doc) && InRange(doc, p)
    ensures Offset(doc, p) <= |Value(doc)|
    ensures Value(Write(doc, p, t)) == Value(doc)[..Offset(doc, p)] + t + Value(doc)[Offset(doc, p)..]
  {
    var l := p.line;
    var xs, ys := doc[..l], doc[l + 1..];
    var pre, post := doc[l][..p.ch], doc[l][p.ch..];
    Around(doc, p);
    var head, tail := JoinWith(xs + [pre], '\n'), JoinWith([post] + ys, '\n');
    JoinCut(xs, pre, post, ys);
    assert Value(doc) == head + tail;
    assert Offset(doc, p) == |head|;
    assert Value(doc)[..|head|] == head && Value(doc)[|head|..] == tail;
    var w := pre + t + post;
    JoinFlatten(xs, SplitChar(w, '\n'), ys, '\n');
    JoinSplit(w, '\n');
    JoinCut(xs, pre + t, post, ys);
    JoinCut(xs, pre, t, []);
  }

  /** The position `End(p, t)` after a write is right after the inserted text. */
  lemma WriteOffset(doc: Doc, p: Pos, t: string)
    requires WellFormed(doc) && InRange(doc, p)
    ensures InRange(Write(doc, p, t), End(p, t))
    ensures Offset(Write(doc, p, t), End(p, t)) == Offset(doc, p) + |t|
  {
    WriteWellFormed(doc, p, t);
    WriteLayout(doc, p, t);
    var l := p.line;
    var xs, ys := doc[..l], doc[l + 1..];
    var pre, post := doc[l][..p.ch], doc[l][p.ch..];
    var P := SplitChar(pre + t, '\n');
    var n := |P| - 1;
    var front := xs + P[..n];
    var d, e := Write(doc, p, t), End(p, t);
    assert d == front + [P[n] + post] + ys;
    assert e == Pos(|front|, |P[n]|);
    OffsetAt(front, P[n], post, ys);
    assert Offset(d, e) == |JoinWith(front + [P[n]], '\n')|;
    JoinHead(xs, pre, t);
  }

  /** The lines before the cut, then those of `pre + t` up to the last, joined: the text before the cut followed by `t`. */
  lemma JoinHead(xs: seq<string>, pre: string, t: string)
    ensures var P := SplitChar(pre + t, '\n');
            JoinWith(xs + P[..|P| - 1] + [P[|P| - 1]], '\n') == JoinWith(xs + [pre], '\n') + t
  {
    var P := SplitChar(pre + t, '\n');
    var n := |P| - 1;
    assert P[..n] + [P[n]] == P;
    SeqRegroup(xs, P[..n], [P[n]]);
    assert xs + P + [] == xs + P;
    JoinFlatten(xs, P, [], '\n');
    JoinSplit(pre + t, '\n');
    assert xs + [pre + t] + [] == xs + [pre + t];
    JoinCut(xs, pre, t, []);
  }

  /** The offset of a cut in the line `a + b`: the length of the lines before it and of `a`, joined. */
  lemma OffsetAt(front: Doc, a: string, b: string, back: Doc)
    ensures InRange(front + [a + b] + back, Pos(|front|, |a|))
    ensures Offset(front + [a + b] + back, Pos(|front|, |a|)) == |JoinWith(front + [a], '\n')|
  {
    var d := front + [a + b] + back;
    assert d[..|front|] == front && d[|front|] == a + b;
    assert (a + b)[..|a|] == a;
  }

  // ----- writeText -----

  /** The text the edits insert, in order. */
  function Inserted(edits: seq<Edit>): string {
    if edits == [] then "" else edits[0].text + Inserted(edits[1..])
  }

  lemma {:induction false} InsertedAppend(edits: seq<Edit>, e: Edit)
    ensures Inserted(edits + [e]) == Inserted(edits) + e.text
  {
    if edits != [] {
      assert (edits + [e])[1..] == edits[1..] + [e];
      InsertedAppend(edits[1..], e);
    }
  }

  /** The editor after the transactions `edits`, one after another; `None` if one is out of range. */
  function Apply(doc: Doc, edits: seq<Edit>): Option<Doc>
    decreases |edits|
  {
    if edits == [] then Some(doc)
    else if !InRange(doc, edits[0].at) then None
    else Apply(Write(doc, edits[0].at, edits[0].text), edits[1..])
  }

  /** Applying one more transaction. */
  lemma {:induction false} ApplyAppend(doc: Doc, edits: seq<Edit>, e: Edit)
    requires Apply(doc, edits).Some? && InRange(Apply(doc, edits).value, e.at)
    ensures Apply(doc, edits + [e]) == Some(Write(Apply(doc, edits).value, e.at, e.text))
    decreases |edits|
  {
    if edits != [] {
      assert (edits + [e])[0] == edits[0];
      assert (edits + [e])[1..] == edits[1..] + [e];
      ApplyAppend(Write(doc, edits[0].at, edits[0].text), edits[1..], e);
    }
  }

  /** A transaction `writeText` issues: one line break, or a non-empty run without one. */
  predicate LineEdit(e: Edit) {
    e.text == "\n" || (e.text != "" && '\n' !in e.text)
  }

  /**
   * The state of `writeText` after writing `done` at `pos`: the document
   * holds `done`, the position is right after it, and the transactions so
   * far, each a line break or a run without one, insert exactly `done`.
   */
  predicate Wrote(doc: Doc, pos: Pos, done: string, doc': Doc, cur: Pos, edits: seq<Edit>)
    requires InRange(doc, pos)
  {
    && doc' == Write(doc, pos, done)
    && cur == End(pos, done)
    && Apply(doc, edits) == Some(doc')
    && Inserted(edits) == done
    && (forall j :: 0 <= j < |edits| ==> LineEdit(edits[j]))
    && Consecutive(pos, edits)
  }

  /** Every transaction is at the position right after what the ones before it inserted. */
  predicate Consecutive(pos: Pos, edits: seq<Edit>) {
    forall j :: 0 <= j < |edits| ==> edits[j].at == End(pos, Inserted(edits[..j]))
  }

  /** A transaction at the position after the log keeps it consecutive. */
  lemma ConsecutiveAppend(pos: Pos, edits: seq<Edit>, e: Edit)
    requires Consecutive(pos, edits) && e.at == End(pos, Inserted(edits))
    ensures Consecutive(pos, edits + [e])
  {
    var edits' := edits + [e];
    forall j | 0 <= j < |edits'| ensures edits'[j].at == End(pos, Inserted(edits'[..j])) {
      assert edits'[..j] == if j < |edits| then edits[..j] else edits;
    }
  }

  /** One transaction of `writeText` extends both the document and the edit log by `t`. */
  lemma Advance(doc: Doc, pos: Pos, done: string, doc': Doc, cur: Pos, edits: seq<Edit>, t: string)
    requires WellFormed(doc) && InRange(doc, pos)
    requires Wrote(doc, pos, done, doc', cur, edits)
    requires LineEdit(Edit(cur, t))
    ensures InRange(doc', cur)
    ensures Wrote(doc, pos, done + t, Write(doc', cur, t), End(cur, t), edits + [Edit(cur, t)])
    ensures EditTexts(edits + [Edit(cur, t)]) == EditTexts(edits) + [t]
  {
    EditTextsAppend(edits, Edit(cur, t));
    WriteWellFormed(doc, pos, done);
    WriteCompose(doc, pos, done, t);
    EndCompose(pos, done, t);
    ApplyAppend(doc, edits, Edit(cur, t));
    InsertedAppend(edits, Edit(cur, t));
    ConsecutiveAppend(pos, edits, Edit(cur, t));
    var edits' := edits + [Edit(cur, t)];
    forall j | 0 <= j < |edits'| ensures LineEdit(edits'[j]) {
      if j < |edits| {
        assert edits'[j] == edits[j];
      }
    }
  }

  /** The texts of the transactions, in order. */
  function EditTexts(edits: seq<Edit>): (r: seq<string>)
    ensures |r| == |edits| && forall j :: 0 <= j < |edits| ==> r[j] == edits[j].text
  {
    seq(|edits|, j requires 0 <= j < |edits| => edits[j].text)
  }

  lemma EditTextsAppend(edits: seq<Edit>, e: Edit)
    ensures EditTexts(edits + [e]) == EditTexts(edits) + [e.text]
  {
  }

  /**
   * The transactions `writeText` issues for the lines from `i` on: each
   * non-empty line, then a line break unless it is the last line.
   */
  function Issued(lines: seq<string>, i: nat): seq<string>
    requires i <= |lines|
    decreases |lines| - i
  {
    if i == |lines| then []
    else
      (if lines[i] != "" then [lines[i]] else []) + (if i + 1 < |lines| then ["\n"] else []) + Issued(lines, i + 1)
  }

  /** Every line but the last is followed by a break, and only the non-empty lines are written. */
  lemma {:induction false} IssuedCount(lines: seq<string>, i: nat)
    requires i < |lines|
    ensures |Issued(lines, i)| == |NonEmpty(lines[i..])| + |lines| - i - 1
    decreases |lines| - i
  {
    assert lines[i..] == [lines[i]] + lines[i + 1..];
    NonEmptyAppend([lines[i]], lines[i + 1..]);
    if i + 1 < |lines| {
      IssuedCount(lines, i + 1);
    } else {
      assert lines[i + 1..] == [];
    }
  }

  /**
   * `writeText` issues one transaction per non-empty line of `text` and one
   * per line break in it.
   */
  lemma IssuedTotal(text: string)
    ensures |Issued(SplitChar(text, '\n'), 0)| == |NonEmpty(SplitChar(text, '\n'))| + Count(text, '\n')
  {
    var lines := SplitChar(text, '\n');
    IssuedCount(lines, 0);
    SplitCharCount(text, '\n');
    assert lines[0..] == lines;
  }

  /** Taking line `i`'s transactions off what is still to be issued. */
  lemma IssuedStep(lines: seq<string>, i: nat, logged: seq<string>, total: seq<string>)
    requires i < |lines| && logged + Issued(lines, i) == total
    ensures logged + (if lines[i] != "" then [lines[i]] else []) + (if i + 1 < |lines| then ["\n"] else [])
            + Issued(lines, i + 1) == total
  {
    var written: seq<string> := if lines[i] != "" then [lines[i]] else [];
    var broken: seq<string> := if i + 1 < |lines| then ["\n"] else [];
    var rest := Issued(lines, i + 1);
    assert Issued(lines, i) == written + broken + rest;
    SeqRegroup(logged, written + broken, rest);
    SeqRegroup(logged, written, broken);
  }

  /** What is left of the text from line `i` on: each line, followed by a break unless it is the last. */
  function Rest(lines: seq<string>, i: nat): string
    requires i <= |lines|
    decreases |lines| - i
  {
    if i == |lines| then ""
    else lines[i] + (if i + 1 < |lines| then "\n" else "") + Rest(lines, i + 1)
  }

  /** All of it is the lines joined. */
  lemma {:induction false} RestJoin(lines: seq<string>, i: nat)
    requires i < |lines|
    ensures Rest(lines, i) == JoinWith(lines[i..], '\n')
    decreases |lines| - i
  {
    assert lines[i..][0] == lines[i];
    if i + 1 < |lines| {
      RestJoin(lines, i + 1);
      assert lines[i..][1..] == lines[i + 1..];
    } else {
      assert lines[i..] == [lines[i]];
    }
  }

  /** Taking line `i`, and its break if it has one, off what is left. */
  lemma RestStep(lines: seq<string>, i: nat, done: string, text: string)
    requires i < |lines| && done + Rest(lines, i) == text
    ensures done + lines[i] + (if i + 1 < |lines| then "\n" else "") + Rest(lines, i + 1) == text
  {
    var after := if i + 1 < |lines| then "\n" else "";
    assert Rest(lines, i) == lines[i] + after + Rest(lines, i + 1);
    assert done + (lines[i] + after + Rest(lines, i + 1)) == done + lines[i] + after + Rest(lines, i + 1);
  }

  /**
   * One round of the loop of `writeText`: line `i`, written and moved along
   * if it is not empty, then a line break and a move to the start of the next
   * line unless it is the last line. It keeps what the loop knows: the
   * document holds what was written, the position is right after it, and the
   * log is the transactions issued for the lines so far.
   */
  method WriteLine(ghost doc: Doc, ghost pos: Pos, ghost text: string, lines: seq<string>, i: nat,
                   ghost done: string, cur: Doc, line: nat, ch: nat, edits: seq<Edit>)
    returns (ghost done': string, cur': Doc, line': nat, ch': nat, edits': seq<Edit>)
    requires WellFormed(doc) && InRange(doc, pos) && i < |lines|
    requires forall k :: 0 <= k < |lines| ==> '\n' !in lines[k]
    requires Wrote(doc, pos, done, cur, Pos(line, ch), edits)
    requires done + Rest(lines, i) == text
    requires EditTexts(edits) + Issued(lines, i) == Issued(lines, 0)
    ensures Wrote(doc, pos, done', cur', Pos(line', ch'), edits')
    ensures done' + Rest(lines, i + 1) == text
    ensures EditTexts(edits') + Issued(lines, i + 1) == Issued(lines, 0)
  {
    done', cur', line', ch', edits' := done, cur, line, ch, edits;
    var t := lines[i];
    ghost var after := if i + 1 < |lines| then "\n" else "";
    ghost var next := done + t + after;
    ghost var logged := EditTexts(edits);
    ghost var written: seq<string> := if t != "" then [t] else [];
    ghost var broken: seq<string> := if i + 1 < |lines| then ["\n"] else [];
    RestStep(lines, i, done, text);
    IssuedStep(lines, i, logged, Issued(lines, 0));
    if |t| > 0 {
      Advance(doc, pos, done', cur', Pos(line', ch'), edits', t);
      EndSameLine(Pos(line', ch'), t);
      cur' := Write(cur', Pos(line', ch'), t);
      edits' := edits' + [Edit(Pos(line', ch'), t)];
      ch' := ch' + |t|;
      done' := done' + t;
    } else {
      assert done + t == done;
      assert logged + written == logged;
    }
    if i < |lines| - 1 {
      Advance(doc, pos, done', cur', Pos(line', ch'), edits', "\n");
      EndBreak(Pos(line', ch'));
      cur' := Write(cur', Pos(line', ch'), "\n");
      edits' := edits' + [Edit(Pos(line', ch'), "\n")];
      line', ch' := line' + 1, 0;
      done' := done' + "\n";
    } else {
      assert done' + "" == done';
      assert logged + written + broken == logged + written;
    }
    assert done' == next;
    assert EditTexts(edits') == logged + written + broken;
  }

  /**
   * `writeText(editor, pos, text)`: for each line of `text`, write it if it
   * is not empty and move along it, then, unless it is the last line, write
   * a line break and move to the start of the next line. The document ends
   * up as if `text` had been written in one transaction, the returned
   * position is right after it, and the transactions are the lines and line
   * breaks of `text` in order.
   */
  method WriteText(doc: Doc, pos: Pos, text: string) returns (doc': Doc, cursor: Pos, edits: seq<Edit>)
    requires WellFormed(doc) && InRange(doc, pos)
    ensures doc' == Write(doc, pos, text)
    ensures cursor == End(pos, text)
    ensures WellFormed(doc') && InRange(doc', cursor)
    ensures Apply(doc, edits) == Some(doc')
    ensures Inserted(edits) == text
    ensures forall i :: 0 <= i < |edits| ==> LineEdit(edits[i])
    ensures EditTexts(edits) == Issued(SplitChar(text, '\n'), 0)
    ensures |edits| == |NonEmpty(SplitChar(text, '\n'))| + Count(text, '\n')
    ensures Consecutive(pos, edits)
  {
    var lines := SplitChar(text, '\n');
    var line: nat, ch: nat := pos.line, pos.ch;
    doc', edits := doc, [];
    ghost var done := "";
    WriteEmpty(doc, pos);
    JoinSplit(text, '\n');
    SplitCharFree(text, '\n');
    RestJoin(lines, 0);
    assert lines[0..] == lines;
    for i := 0 to |lines|
      invariant Wrote(doc, pos, done, doc', Pos(line, ch), edits)
      invariant done + Rest(lines, i) == text
      invariant EditTexts(edits) + Issued(lines, i) == Issued(lines, 0)
    {
      done, doc', line, ch, edits := WriteLine(doc, pos, text, lines, i, done, doc', line, ch, edits);
    }
    assert Rest(lines, |lines|) == "";
    assert done + "" == done;
    WriteWellFormed(doc, pos, text);
    IssuedTotal(text);
    cursor := Pos(line, ch);
  }
}
