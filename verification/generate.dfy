/**
 * `generateText` of src/main.ts: where the response goes and how the
 * command's format wraps it. Writing starts at the lower end of the last
 * selection (or at the cursor); the format's text before `{{RESPONSE}}` is
 * written there, its text after the marker is written after that without
 * moving the position, and each streamed piece of the response is written at
 * the position, which moves on past it. The response model's stream is a
 * parameter: the sequence of pieces its callback received.
 */
module Generate {
  import opened Wrappers
  import opened Text
  import opened Writer

  /** An editor selection: where it was started and where its moving end is. */
  datatype Selection = Selection(anchor: Pos, head: Pos)

  /** The marker in a command's format that stands for the response. */
  const ResponseMarker := "{{RESPONSE}}"

  /** The format of a command that gives none: the response on lines of its own. */
  const DefaultFormat := "\n" + ResponseMarker + "\n"

  /**
   * Where `generateText` starts writing: of the last selection's two ends,
   * the anchor when it is on a later line than the head, and the head
   * otherwise; the cursor when there is no selection.
   */
  function StartPos(selections: seq<Selection>, cursor: Pos): (r: Pos)
    ensures selections == [] ==> r == cursor
    ensures selections != [] ==>
              var s := selections[|selections| - 1];
              (r == s.anchor || r == s.head) && r.line >= s.anchor.line && r.line >= s.head.line
              && (s.anchor.line == s.head.line ==> r == s.head)
  {
    if selections == [] then cursor
    else
      var s := selections[|selections| - 1];
      if s.anchor.line > s.head.line then s.anchor else s.head
  }

  /** `format.split('{{RESPONSE}}')`: `split[0]`, and `split[1]`, which is undefined without a marker. */
  datatype Parts = Parts(prefix: string, suffix: Option<string>)

  /**
   * The prefix is the format up to its first marker, and there is a suffix
   * exactly when there is a marker; without one the prefix is the whole
   * format.
   */
  function SplitFormat(format: string): (r: Parts)
    ensures FindFrom(format, ResponseMarker, 0).None? ==> r == Parts(format, None)
    ensures FindFrom(format, ResponseMarker, 0).Some? ==>
              r.suffix.Some? && r.prefix == format[..FindFrom(format, ResponseMarker, 0).value]
  {
    var split := SplitString(format, ResponseMarker);
    Parts(split[0], if |split| > 1 then Some(split[1]) else None)
  }

  /** The marker does not occur in `s`. */
  ghost predicate NoMarker(s: string) {
    Free(s, ResponseMarker)
  }

  /** A format without the marker is all prefix, with no suffix. */
  lemma SplitFormatNoMarker(format: string)
    requires NoMarker(format)
    ensures SplitFormat(format) == Parts(format, None)
  {
    assert FindFrom(format, ResponseMarker, 0).None?;
    assert format[0..] == format;
  }

  /**
   * In `prefix + {{RESPONSE}} + suffix` with no marker in `prefix`, the first
   * marker is the one after `prefix`: no occurrence can start inside
   * `prefix`, not even one running into the marker, which begins `{{R`.
   */
  lemma FirstMarker(prefix: string, suffix: string)
    requires NoMarker(prefix)
    ensures FindFrom(prefix + ResponseMarker + suffix, ResponseMarker, 0) == Some(|prefix|)
  {
    var M := ResponseMarker;
    var f := prefix + M + suffix;
    var n := |prefix|;
    assert f == prefix + (M + suffix);
    OccursAfter(prefix, M + suffix, M, n);
    OccursBefore(M, suffix, M, 0);
    assert M[0..|M|] == M;
    assert OccursAt(f, M, n);
    assert f[n] == '{' && f[n + 1] == '{' && f[n + 2] == 'R';
    forall j | 0 <= j < n ensures !OccursAt(f, M, j) {
      if j + |M| <= n {
        OccursBefore(prefix, M + suffix, M, j);
      } else {
        var m := n - j;
        var w := f[j..j + |M|];
        if m == 1 {
          assert w[2] == f[n + 1];
          assert w[2] != M[2];
        } else {
          assert w[m] == f[n];
          assert w[m] != M[m];
        }
      }
    }
  }

  /** With no occurrence in `b`, none is found after `a` in `a + b`. */
  lemma NoneAfter(a: string, b: string, pat: string)
    requires forall j :: !OccursAt(b, pat, j)
    ensures FindFrom(a + b, pat, |a|).None?
  {
    forall j | |a| <= j ensures !OccursAt(a + b, pat, j) {
      OccursAfter(a, b, pat, j);
    }
  }

  /**
   * A format built as `prefix + {{RESPONSE}} + suffix`, with the marker in
   * neither part, splits back into that prefix and that suffix.
   */
  lemma SplitFormatRoundTrip(prefix: string, suffix: string)
    requires NoMarker(prefix) && NoMarker(suffix)
    ensures SplitFormat(prefix + ResponseMarker + suffix) == Parts(prefix, Some(suffix))
  {
    var f := prefix + ResponseMarker + suffix;
    var start := |prefix| + |ResponseMarker|;
    FirstMarker(prefix, suffix);
    NoneAfter(prefix + ResponseMarker, suffix, ResponseMarker);
    assert SplitStringFrom(f, ResponseMarker, start) == [f[start..]];
    assert f[start..] == suffix;
    assert f[0..|prefix|] == prefix;
    assert SplitString(f, ResponseMarker) == [prefix] + [suffix];
  }

  /**
   * Where `indexOf` finds `pat` in `b`, it finds it after `a` in `a + b`, at
   * the same place shifted by `|a|`.
   */
  lemma FindShift(a: string, b: string, pat: string, k: nat)
    requires FindFrom(b, pat, 0) == Some(k)
    ensures FindFrom(a + b, pat, |a|) == Some(|a| + k)
  {
    var i := |a| + k;
    OccursAfter(a, b, pat, i);
    NoneBetween(a, b, pat, k);
    FindFromIs(a + b, pat, |a|, i);
  }

  /** No occurrence in `b` before `k` means none in `a + b` between `|a|` and `|a| + k`. */
  lemma NoneBetween(a: string, b: string, pat: string, k: nat)
    requires forall j :: 0 <= j < k ==> !OccursAt(b, pat, j)
    ensures forall j :: |a| <= j < |a| + k ==> !OccursAt(a + b, pat, j)
  {
    forall j | |a| <= j < |a| + k ensures !OccursAt(a + b, pat, j) {
      OccursAfter(a, b, pat, j);
    }
  }

  /**
   * With a second marker, the suffix stops at it: the format
   * `prefix + {{RESPONSE}} + middle + {{RESPONSE}} + rest`, with no marker in
   * `prefix` or `middle`, splits into `prefix` and `middle`, and `rest` is
   * never written.
   */
  lemma SplitFormatTwoMarkers(prefix: string, middle: string, rest: string)
    requires NoMarker(prefix) && NoMarker(middle)
    ensures SplitFormat(prefix + ResponseMarker + middle + ResponseMarker + rest) == Parts(prefix, Some(middle))
  {
    var M := ResponseMarker;
    var tail := middle + M + rest;
    assert prefix + M + middle + M + rest == prefix + M + tail;
    SplitAfterFirst(prefix, tail);
    FirstMarker(middle, rest);
    SecondPiece(prefix + M, tail, |middle|);
    assert tail[..|middle|] == middle;
  }

  /** Past a first marker after a marker-free `prefix`, the split goes on right after it. */
  lemma SplitAfterFirst(prefix: string, tail: string)
    requires NoMarker(prefix)
    ensures var f := prefix + ResponseMarker + tail;
            SplitString(f, ResponseMarker) == [prefix] + SplitStringFrom(f, ResponseMarker, |prefix| + |ResponseMarker|)
  {
    var f := prefix + ResponseMarker + tail;
    FirstMarker(prefix, tail);
    SplitStringHead(f, ResponseMarker, |prefix|);
    PrefixSlice(prefix, ResponseMarker, tail);
  }

  /** The first `|a|` characters of `a + b + c` are `a`. */
  lemma PrefixSlice(a: string, b: string, c: string)
    ensures (a + b + c)[..|a|] == a
  {
  }

  /** Splitting `head + tail` from `|head|` starts with `tail` up to its first marker. */
  lemma SecondPiece(head: string, tail: string, k: nat)
    requires FindFrom(tail, ResponseMarker, 0) == Some(k)
    ensures SplitStringFrom(head + tail, ResponseMarker, |head|)[0] == tail[..k]
  {
    FindShift(head, tail, ResponseMarker, k);
    assert (head + tail)[|head|..|head| + k] == tail[..k];
  }

  /** The default format writes a line break before the response and one after it. */
  lemma DefaultFormatParts()
    ensures SplitFormat(DefaultFormat) == Parts("\n", Some("\n"))
  {
    assert NoMarker("\n") by {
      forall j ensures !OccursAt("\n", ResponseMarker, j) {
        assert |ResponseMarker| == 12;
      }
    }
    SplitFormatRoundTrip("\n", "\n");
  }

  /**
   * `generateText(editor, messages, format)` once the request has streamed
   * `chunks`: the document ends up with the prefix, the whole response and
   * the suffix written, in that order, at the start position, and the
   * position is right after the response.
   */
  method GenerateText(doc: Doc, selections: seq<Selection>, cursor: Pos, format: string, chunks: seq<string>)
    returns (doc': Doc, pos: Pos)
    requires WellFormed(doc) && InRange(doc, StartPos(selections, cursor))
    ensures var start := StartPos(selections, cursor);
            var parts := SplitFormat(format);
            doc' == Write(doc, start, parts.prefix + Concat(chunks) + parts.suffix.GetOr(""))
            && pos == End(start, parts.prefix + Concat(chunks))
    ensures WellFormed(doc') && InRange(doc', pos)
  {
    var start := StartPos(selections, cursor);
    var parts := SplitFormat(format);
    var prefix, suffix := parts.prefix, parts.suffix.GetOr("");
    doc', pos := WriteFormat(doc, start, prefix, suffix);
    doc', pos := Stream(doc, start, prefix, suffix, doc', pos, chunks);
  }

  /**
   * The format's two writes: `if (prefix)` writes the prefix and moves the
   * position past it; `if (suffix)` writes the suffix there and leaves the
   * position where it is. An empty part writes nothing, and an undefined
   * suffix counts as empty.
   */
  method WriteFormat(doc: Doc, start: Pos, prefix: string, suffix: string) returns (doc': Doc, pos: Pos)
    requires WellFormed(doc) && InRange(doc, start)
    ensures doc' == Write(doc, start, prefix + suffix)
    ensures pos == End(start, prefix)
    ensures WellFormed(doc') && InRange(doc', pos)
  {
    WriteEmpty(doc, start);
    doc', pos := doc, start;
    if prefix != "" {
      var edits;
      doc', pos, edits := WriteText(doc, start, prefix);
    }
    WriteCompose(doc, start, prefix, suffix);
    WriteWellFormed(doc, start, prefix);
    WriteMiddle(doc, start, prefix, suffix, "");
    if suffix != "" {
      var edits, ignored;
      doc', ignored, edits := WriteText(doc', pos, suffix);
    } else {
      assert prefix + suffix == prefix;
    }
    WriteWellFormed(doc, start, prefix + suffix);
  }

  /** One streamed piece `c`, written at the position after `head`, lands between `head` and `tail`. */
  lemma StreamStep(doc: Doc, start: Pos, head: string, tail: string, c: string)
    requires WellFormed(doc) && InRange(doc, start)
    ensures WellFormed(Write(doc, start, head + tail))
    ensures InRange(Write(doc, start, head + tail), End(start, head))
    ensures Write(Write(doc, start, head + tail), End(start, head), c) == Write(doc, start, head + c + tail)
    ensures End(End(start, head), c) == End(start, head + c)
  {
    WriteWellFormed(doc, start, head + tail);
    WriteMiddle(doc, start, head, tail, c);
    EndCompose(start, head, c);
  }

  /**
   * The content callback, once per streamed piece: write the piece at the
   * position and move the position past it.
   */
  method Stream(doc: Doc, start: Pos, prefix: string, suffix: string, doc0: Doc, pos0: Pos, chunks: seq<string>)
    returns (doc': Doc, pos: Pos)
    requires WellFormed(doc) && InRange(doc, start)
    requires doc0 == Write(doc, start, prefix + suffix) && pos0 == End(start, prefix)
    ensures doc' == Write(doc, start, prefix + Concat(chunks) + suffix)
    ensures pos == End(start, prefix + Concat(chunks))
    ensures WellFormed(doc') && InRange(doc', pos)
  {
    doc', pos := doc0, pos0;
    ghost var head := prefix;
    assert prefix + Concat(chunks[..0]) == prefix;
    for k := 0 to |chunks|
      invariant head == prefix + Concat(chunks[..k])
      invariant doc' == Write(doc, start, head + suffix)
      invariant pos == End(start, head)
    {
      var c := chunks[k];
      StreamStep(doc, start, head, suffix, c);
      var edits;
      doc', pos, edits := WriteText(doc', pos, c);
      ConcatSnoc(prefix, chunks, k);
      head := head + c;
    }
    assert chunks[..|chunks|] == chunks;
    WriteWellFormed(doc, start, head + suffix);
    WriteMiddle(doc, start, head, suffix, "");
    assert head + "" == head;
  }

  /** The text of the first `k + 1` pieces, after `prefix`. */
  lemma ConcatSnoc(prefix: string, chunks: seq<string>, k: nat)
    requires k < |chunks|
    ensures prefix + Concat(chunks[..k + 1]) == prefix + Concat(chunks[..k]) + chunks[k]
  {
    ConcatAppend(chunks[..k], [chunks[k]]);
    assert chunks[..k + 1] == chunks[..k] + [chunks[k]];
    assert Concat([chunks[k]]) == chunks[k];
  }

  /**
   * What the reader sees: the document's text is the old text with prefix,
   * response and suffix spliced in at the start position's offset. This is
   * `Writer.WriteValue` for the one write `GenerateText` amounts to; it adds
   * no new fact, only the reading in terms of the flat text.
   */
  lemma GenerateValue(doc: Doc, start: Pos, parts: Parts, response: string)
    requires WellFormed(doc) && InRange(doc, start)
    ensures Offset(doc, start) <= |Value(doc)|
    ensures Value(Write(doc, start, parts.prefix + response + parts.suffix.GetOr("")))
            == Value(doc)[..Offset(doc, start)] + parts.prefix + response + parts.suffix.GetOr("")
               + Value(doc)[Offset(doc, start)..]
  {
    var t := parts.prefix + response + parts.suffix.GetOr("");
    WriteValue(doc, start, t);
  }
}
