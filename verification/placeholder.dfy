/**
 * The placeholder engine of src/placeholder.ts: `resolvePlaceholder` cuts a
 * template into literal pieces and `{{…}}` pieces, `resolvePlaceholderWithCallback`
 * reports each piece, and `replaceWithVariables` resolves every placeholder
 * through its `|`-separated candidate names.
 *
 * The resolver table is a map from a name to the value its resolver returns;
 * resolution also returns the names whose resolvers it called, in order.
 */
module Placeholder {
  import opened Wrappers
  import opened Text
  import opened Pattern
  import opened Pieces

  /** One piece of a template: its text and, for a `{{…}}` piece, the trimmed inner text. */
  datatype Token = Token(text: string, variable: Option<string>)

  /** JavaScript's `if (item.variable)`: present and non-empty. */
  predicate Usable(t: Token) {
    t.variable.Some? && t.variable.value != ""
  }

  /** `REGEX_VARIABLE.exec(piece)?.[1]?.trim()`: the trimmed inner text of the first match. */
  function VariableOf(piece: string): Option<string> {
    match FirstMatch(piece, 0)
    case None => None
    case Some(m) => Some(Trim(piece[m.start + 2..m.end - 2]))
  }

  /** On a piece of the split, the variable is present exactly for a `{{…}}` piece. */
  lemma VariableOfPiece(x: string)
    requires NoMatchIn(x) || IsMatch(x, 0, |x|)
    ensures VariableOf(x).Some? <==> IsMatch(x, 0, |x|)
    ensures VariableOf(x).Some? ==> VariableOf(x).value == Trim(x[2..|x| - 2])
  {
    if IsMatch(x, 0, |x|) {
      VariableOfMatch(x);
    } else {
      VariableOfPlain(x);
    }
  }

  /** A whole `{{inner}}` piece has the trimmed inner text as its variable. */
  lemma VariableOfMatch(x: string)
    requires IsMatch(x, 0, |x|)
    ensures VariableOf(x) == Some(Trim(x[2..|x| - 2]))
  {
    assert !NoMatchAt(x, 0);
    var m := MatchAt(x, 0);
    assert m.Some?;
    MatchUnique(x, 0, m.value, |x|);
    assert FirstMatch(x, 0) == Some(Span(0, |x|));
  }

  /** Plain text has no variable. */
  lemma VariableOfPlain(x: string)
    requires NoMatchIn(x)
    ensures VariableOf(x) == None
  {
    forall q, e ensures !IsMatch(x, q, e) {
      assert NoMatchAt(x, q);
    }
  }

  function Texts(ts: seq<Token>): (r: seq<string>)
    ensures |r| == |ts| && forall i :: 0 <= i < |ts| ==> r[i] == ts[i].text
  {
    seq(|ts|, i requires 0 <= i < |ts| => ts[i].text)
  }

  /** Pairs every piece with its variable (the `map` step of `resolvePlaceholder`). */
  function Tag(pieces: seq<string>): (ts: seq<Token>)
    ensures Texts(ts) == pieces
  {
    var ts := seq(|pieces|, i requires 0 <= i < |pieces| => Token(pieces[i], VariableOf(pieces[i])));
    assert Texts(ts) == pieces;
    ts
  }

  /**
   * `resolvePlaceholder(text)`: split on `(\{\{.+?}})`, drop the empty
   * pieces, tag each piece. No token is empty and, together, the tokens spell
   * the template.
   */
  function ResolvePlaceholder(text: string): (ts: seq<Token>)
    ensures forall i :: 0 <= i < |ts| ==> ts[i].text != ""
    ensures Concat(Texts(ts)) == text
  {
    Tag(NonEmpty(Split(text)))
  }

  /**
   * A token has a variable exactly when its text is one whole `{{inner}}`
   * match, and the variable is then the trimmed inner text; the inner text is
   * at least one character long and holds no line terminator.
   */
  lemma {:induction false} ResolvePlaceholderVariables(text: string)
    ensures forall i :: 0 <= i < |ResolvePlaceholder(text)| ==>
              (ResolvePlaceholder(text)[i].variable.Some? <==> IsMatch(ResolvePlaceholder(text)[i].text, 0, |ResolvePlaceholder(text)[i].text|))
    ensures forall i :: 0 <= i < |ResolvePlaceholder(text)| && ResolvePlaceholder(text)[i].variable.Some? ==>
              ResolvePlaceholder(text)[i].variable.value == Trim(ResolvePlaceholder(text)[i].text[2..|ResolvePlaceholder(text)[i].text| - 2])
  {
    var ts := ResolvePlaceholder(text);
    var pieces := NonEmpty(Split(text));
    SplitShape(text);
    forall i | 0 <= i < |ts|
      ensures ts[i].variable.Some? <==> IsMatch(ts[i].text, 0, |ts[i].text|)
      ensures ts[i].variable.Some? ==> ts[i].variable.value == Trim(ts[i].text[2..|ts[i].text| - 2])
    {
      assert ts[i] == Token(pieces[i], VariableOf(pieces[i]));
      assert pieces[i] in Split(text);
      VariableOfPiece(pieces[i]);
    }
  }

  /**
   * The literal tokens of `resolvePlaceholder` follow the leftmost rule: no
   * match of the whole template starts inside one, and no two literal tokens
   * stand side by side.
   */
  lemma ResolvePlaceholderLeftmost(text: string)
    ensures forall i :: 0 <= i < |ResolvePlaceholder(text)| && ResolvePlaceholder(text)[i].variable.None? ==>
              NoMatchBetween(text, PieceStart(Texts(ResolvePlaceholder(text)), i),
                             PieceStart(Texts(ResolvePlaceholder(text)), i) + |ResolvePlaceholder(text)[i].text|)
    ensures forall i :: 0 <= i < |ResolvePlaceholder(text)| - 1 ==>
              ResolvePlaceholder(text)[i].variable.Some? || ResolvePlaceholder(text)[i + 1].variable.Some?
  {
    var ts := ResolvePlaceholder(text);
    var pieces := NonEmpty(Split(text));
    assert Texts(ts) == pieces;
    ResolvePlaceholderVariables(text);
    NonEmptySplitFrom(text, 0);
    forall i | 0 <= i < |ts| && ts[i].variable.None?
      ensures NoMatchBetween(text, PieceStart(pieces, i), PieceStart(pieces, i) + |ts[i].text|)
    {
      assert ts[i].text == pieces[i];
    }
    forall i | 0 <= i < |ts| - 1
      ensures ts[i].variable.Some? || ts[i + 1].variable.Some?
    {
      assert ts[i].text == pieces[i] && ts[i + 1].text == pieces[i + 1];
    }
  }

  /** The template of a literal followed by a triple-brace placeholder: one literal, one variable. */
  lemma TripleBraceTokens()
    ensures ResolvePlaceholder("x{{{a}}") == [Token("x", None), Token("{{{a}}", Some("{a"))]
  {
    var pieces := TripleBracePieces();
    TripleBraceVariables();
    var ts := ResolvePlaceholder("x{{{a}}");
    assert ts == Tag(pieces) && |ts| == 2;
    assert ts[0] == Token("x", VariableOf("x"));
    assert ts[1] == Token("{{{a}}", VariableOf("{{{a}}"));
  }

  /** The pieces of the triple-brace template, empty ones dropped. */
  lemma TripleBracePieces() returns (pieces: seq<string>)
    ensures pieces == NonEmpty(Split("x{{{a}}")) == ["x", "{{{a}}"]
  {
    TripleBraceExample();
    NonEmptyAppend(["x", "{{{a}}"], [""]);
    assert ["x", "{{{a}}", ""] == ["x", "{{{a}}"] + [""];
    NonEmptyAppend(["x"], ["{{{a}}"]);
    assert ["x", "{{{a}}"] == ["x"] + ["{{{a}}"];
    pieces := NonEmpty(Split("x{{{a}}"));
  }

  /** The variables of those pieces: none for `x`, the trimmed `{a` for `{{{a}}`. */
  lemma TripleBraceVariables()
    ensures VariableOf("x") == None && VariableOf("{{{a}}") == Some("{a")
  {
    assert MatchAt("x", 0) == None;
    assert FirstMatch("x", 1) == None;
    assert FirstMatch("x", 0) == None;
    var t := "{{{a}}";
    assert CloseFrom(t, 0, 4) == Some(6);
    assert MatchAt(t, 0) == Some(6);
    assert FirstMatch(t, 0) == Some(Span(0, 6));
    assert t[2..4] == "{a";
    assert TrimStart("{a") == "{a";
    assert TrimEnd("{a") == "{a";
  }

  /** An empty template has no tokens. */
  lemma EmptyTemplateHasNoTokens()
    ensures ResolvePlaceholder("") == []
  {
  }

  // ----- resolvePlaceholderWithCallback -----

  /** One callback invocation: `onText(text)` or `onVariable(variable)`. */
  datatype Callback = OnText(text: string) | OnVariable(name: string)

  function CallbackFor(t: Token): Callback {
    if Usable(t) then OnVariable(t.variable.value) else OnText(t.text)
  }

  function Callbacks(ts: seq<Token>): (cbs: seq<Callback>)
    ensures |cbs| == |ts|
    ensures forall i :: 0 <= i < |ts| ==> cbs[i] == CallbackFor(ts[i])
  {
    if ts == [] then [] else [CallbackFor(ts[0])] + Callbacks(ts[1..])
  }

  /**
   * `resolvePlaceholderWithCallback`: exactly one callback per token, in token
   * order; `onVariable` for a token with a non-empty variable, `onText` otherwise.
   */
  function ResolvePlaceholderWithCallback(text: string): (cbs: seq<Callback>)
    ensures |cbs| == |ResolvePlaceholder(text)|
    ensures forall i :: 0 <= i < |cbs| ==>
              (cbs[i].OnVariable? <==> Usable(ResolvePlaceholder(text)[i]))
    ensures forall i :: 0 <= i < |cbs| ==>
              if Usable(ResolvePlaceholder(text)[i])
              then cbs[i].name == ResolvePlaceholder(text)[i].variable.value
              else cbs[i].text == ResolvePlaceholder(text)[i].text
  {
    Callbacks(ResolvePlaceholder(text))
  }

  // ----- candidate resolution (src/placeholder.ts:55-63, shared with src/main.ts:191-201) -----

  /** The resolved value, or `None` for `undefined`, and the names whose resolvers were called. */
  datatype Resolution = Resolution(value: Option<string>, calls: seq<string>)

  /** The resolver of `name` is registered and returns a non-empty (truthy) string. */
  predicate Hits(name: string, vars: map<string, string>) {
    name in vars && vars[name] != ""
  }

  /** The registered names among `names`, in order. */
  function Registered(names: seq<string>, vars: map<string, string>): (r: seq<string>)
    ensures forall x :: x in r ==> x in names && x in vars
  {
    if names == [] then []
    else (if names[0] in vars then [names[0]] else []) + Registered(names[1..], vars)
  }

  /** The index of the first candidate whose resolver yields a non-empty value, or `|names|`. */
  function HitIndex(names: seq<string>, vars: map<string, string>): (i: nat)
    ensures i <= |names|
    ensures forall j :: 0 <= j < i ==> !Hits(names[j], vars)
    ensures i < |names| ==> Hits(names[i], vars)
  {
    if names == [] then 0
    else if Hits(names[0], vars) then 0
    else 1 + HitIndex(names[1..], vars)
  }

  /** How many candidates the loop looks at: up to and including the first hit. */
  function Tried(names: seq<string>, vars: map<string, string>): (n: nat)
    ensures n <= |names|
  {
    var h := HitIndex(names, vars);
    if h < |names| then h + 1 else |names|
  }

  /**
   * The `for (const v of options)` loop with `value` holding `before` on
   * entry: skip unregistered names, call the others in order, stop at the
   * first non-empty value.
   */
  function ResolveFrom(names: seq<string>, vars: map<string, string>, before: Option<string>): Resolution {
    if names == [] then Resolution(before, [])
    else if names[0] !in vars then ResolveFrom(names[1..], vars, before)
    else
      var v := vars[names[0]];
      if v != "" then Resolution(Some(v), [names[0]])
      else
        var rest := ResolveFrom(names[1..], vars, Some(v));
        Resolution(rest.value, [names[0]] + rest.calls)
  }

  /**
   * The loop calls the registered names up to the first hit, in order, so no
   * later candidate is called. The value is the first hit's; failing that,
   * the last registered candidate's `""`, or `before` when none is registered.
   */
  lemma ResolveFromSpec(names: seq<string>, vars: map<string, string>, before: Option<string>)
    ensures ResolveFrom(names, vars, before).calls == Registered(names[..Tried(names, vars)], vars)
    ensures HitIndex(names, vars) < |names| ==>
              ResolveFrom(names, vars, before).value == Some(vars[names[HitIndex(names, vars)]])
    ensures HitIndex(names, vars) == |names| && Registered(names, vars) == [] ==>
              ResolveFrom(names, vars, before).value == before
    ensures HitIndex(names, vars) == |names| && Registered(names, vars) != [] ==>
              ResolveFrom(names, vars, before).value == Some("")
  {
    ResolveFromCalls(names, vars, before);
    ResolveFromValue(names, vars, before);
  }

  /** The calls of the candidate loop. */
  lemma {:induction false} ResolveFromCalls(names: seq<string>, vars: map<string, string>, before: Option<string>)
    ensures ResolveFrom(names, vars, before).calls == Registered(names[..Tried(names, vars)], vars)
  {
    if names != [] {
      var rest := names[1..];
      TriedStep(names, vars);
      if names[0] !in vars {
        ResolveFromCalls(rest, vars, before);
        assert ResolveFrom(names, vars, before) == ResolveFrom(rest, vars, before);
      } else if vars[names[0]] == "" {
        ResolveFromCalls(rest, vars, Some(""));
        assert ResolveFrom(names, vars, before).calls == [names[0]] + ResolveFrom(rest, vars, Some("")).calls;
      } else {
        assert ResolveFrom(names, vars, before).calls == [names[0]];
        assert Registered(names[..Tried(names, vars)], vars) == [names[0]] + [];
      }
    }
  }

  /** The value of the candidate loop. */
  lemma {:induction false} ResolveFromValue(names: seq<string>, vars: map<string, string>, before: Option<string>)
    ensures HitIndex(names, vars) < |names| ==>
              ResolveFrom(names, vars, before).value == Some(vars[names[HitIndex(names, vars)]])
    ensures HitIndex(names, vars) == |names| ==>
              ResolveFrom(names, vars, before).value == (if Registered(names, vars) == [] then before else Some(""))
  {
    if names != [] {
      var rest := names[1..];
      if names[0] !in vars {
        ResolveFromValue(rest, vars, before);
        assert HitIndex(names, vars) == 1 + HitIndex(rest, vars);
        assert Registered(names, vars) == Registered(rest, vars);
        assert ResolveFrom(names, vars, before) == ResolveFrom(rest, vars, before);
      } else if vars[names[0]] == "" {
        ResolveFromValue(rest, vars, Some(""));
        assert HitIndex(names, vars) == 1 + HitIndex(rest, vars);
        assert Registered(names, vars) == [names[0]] + Registered(rest, vars);
        assert ResolveFrom(names, vars, before).value == ResolveFrom(rest, vars, Some("")).value;
      } else {
        assert HitIndex(names, vars) == 0;
      }
    }
  }

  lemma TriedStep(names: seq<string>, vars: map<string, string>)
    requires names != []
    ensures Registered(names[..Tried(names, vars)], vars)
            == (if names[0] in vars then [names[0]] else [])
               + (if Hits(names[0], vars) then [] else Registered(names[1..][..Tried(names[1..], vars)], vars))
  {
    var t := names[..Tried(names, vars)];
    if Hits(names[0], vars) {
      assert t == [names[0]];
      assert t[1..] == [];
    } else {
      assert Tried(names, vars) == 1 + Tried(names[1..], vars);
      assert t[0] == names[0];
      assert t[1..] == names[1..][..Tried(names[1..], vars)];
    }
  }

  /** The candidate loop started with `value` undefined. */
  function ResolveCandidates(names: seq<string>, vars: map<string, string>): Resolution {
    ResolveFrom(names, vars, None)
  }

  /** `{{A|B}}` with A returning "" and B returning "x": both are called, A first, and B wins. */
  lemma FallbackOrderExample()
    ensures ResolveCandidates(["A", "B"], map["A" := "", "B" := "x"])
            == Resolution(Some("x"), ["A", "B"])
  {
    var vars := map["A" := "", "B" := "x"];
    ResolveFromSpec(["A", "B"], vars, None);
    assert HitIndex(["A", "B"], vars) == 1 by {
      assert ["A", "B"][1..] == ["B"];
    }
    assert ["A", "B"][..2] == ["A", "B"];
    assert Registered(["A", "B"], vars) == ["A", "B"] by {
      assert ["A", "B"][1..] == ["B"];
      assert ["B"][1..] == [];
    }
  }

  // ----- replaceWithVariables -----

  /** The resolved template and the resolver names called, in call order. */
  datatype Replacement = Replacement(output: string, calls: seq<string>)

  /**
   * What a slot that resolves to no value becomes. `WholeTemplate` is the code
   * as written (`value ?? text`, which keeps a registered `""`); `OwnText` is
   * the per-slot policy, under which a slot with no non-empty value keeps its
   * own `{{…}}` text.
   */
  datatype Fallback = WholeTemplate(template: string) | OwnText

  /** The candidate names of a placeholder token: `variable.split('|')`. */
  function Candidates(t: Token): seq<string>
    requires t.variable.Some?
  {
    SplitChar(t.variable.value, '|')
  }

  /** The contribution of one token to the result. */
  function ReplaceToken(t: Token, vars: map<string, string>, fallback: Fallback): Replacement {
    if !Usable(t) then Replacement(t.text, [])
    else
      var res := ResolveCandidates(Candidates(t), vars);
      match fallback
      case WholeTemplate(template) => Replacement(res.value.GetOr(template), res.calls)
      case OwnText =>
        var value := if res.value.Some? && res.value.value != "" then res.value.value else t.text;
        Replacement(value, res.calls)
  }

  /**
   * A placeholder token calls the registered candidates up to the first hit
   * and becomes the first hit's value. Failing that, as written it becomes
   * `""` when some candidate is registered and the whole template when none
   * is; per slot it keeps its own text in both cases.
   */
  lemma ReplaceTokenResolves(t: Token, vars: map<string, string>, fallback: Fallback)
    requires Usable(t)
    ensures ReplaceToken(t, vars, fallback).calls == Registered(Candidates(t)[..Tried(Candidates(t), vars)], vars)
    ensures HitIndex(Candidates(t), vars) < |Candidates(t)| ==>
              ReplaceToken(t, vars, fallback).output == vars[Candidates(t)[HitIndex(Candidates(t), vars)]]
    ensures HitIndex(Candidates(t), vars) == |Candidates(t)| && Registered(Candidates(t), vars) != [] ==>
              ReplaceToken(t, vars, fallback).output == (if fallback.WholeTemplate? then "" else t.text)
    ensures Registered(Candidates(t), vars) == [] ==>
              ReplaceToken(t, vars, fallback).output == (if fallback.WholeTemplate? then fallback.template else t.text)
              && ReplaceToken(t, vars, fallback).calls == []
  {
    var names := Candidates(t);
    var h := HitIndex(names, vars);
    ResolveFromSpec(names, vars, None);
    if h < |names| {
      RegisteredHas(names, vars, h);
    }
    if Registered(names, vars) == [] {
      RegisteredPrefix(names, vars, Tried(names, vars));
    }
  }

  lemma {:induction false} RegisteredHas(names: seq<string>, vars: map<string, string>, i: nat)
    requires i < |names| && names[i] in vars
    ensures Registered(names, vars) != []
  {
    if i > 0 {
      RegisteredHas(names[1..], vars, i - 1);
    }
  }

  /** The loop over the tokens: each token's contribution, concatenated in token order. */
  function ReplaceTokens(ts: seq<Token>, vars: map<string, string>, fallback: Fallback): Replacement {
    if ts == [] then Replacement("", [])
    else
      var head := ReplaceToken(ts[0], vars, fallback);
      var rest := ReplaceTokens(ts[1..], vars, fallback);
      Replacement(head.output + rest.output, head.calls + rest.calls)
  }

  /** The loop calls only registered resolvers. */
  lemma {:induction false} ReplaceTokensRegistered(ts: seq<Token>, vars: map<string, string>, fallback: Fallback)
    ensures forall x :: x in ReplaceTokens(ts, vars, fallback).calls ==> x in vars
  {
    if ts != [] {
      ReplaceTokensRegistered(ts[1..], vars, fallback);
      if Usable(ts[0]) {
        ReplaceTokenResolves(ts[0], vars, fallback);
      }
    }
  }

  /** Tokens none of which has a usable variable resolve to their own text, calling nothing. */
  lemma {:induction false} ReplaceTokensLiteral(ts: seq<Token>, vars: map<string, string>, fallback: Fallback)
    requires forall i :: 0 <= i < |ts| ==> !Usable(ts[i])
    ensures ReplaceTokens(ts, vars, fallback) == Replacement(Concat(Texts(ts)), [])
  {
    if ts != [] {
      ReplaceTokensLiteral(ts[1..], vars, fallback);
      assert Texts(ts) == [ts[0].text] + Texts(ts[1..]);
    }
  }

  /**
   * With the per-slot fallback, tokens whose placeholders have no registered
   * candidate resolve to their own text, calling nothing.
   */
  lemma {:induction false} ReplaceTokensUnresolved(ts: seq<Token>, vars: map<string, string>)
    requires forall i :: 0 <= i < |ts| && Usable(ts[i]) ==> Registered(Candidates(ts[i]), vars) == []
    ensures ReplaceTokens(ts, vars, OwnText) == Replacement(Concat(Texts(ts)), [])
  {
    if ts != [] {
      ReplaceTokensUnresolved(ts[1..], vars);
      assert Texts(ts) == [ts[0].text] + Texts(ts[1..]);
      if Usable(ts[0]) {
        ReplaceTokenResolves(ts[0], vars, OwnText);
      }
    }
  }

  /**
   * With the per-slot fallback, tokens none of whose placeholders has a
   * candidate with a non-empty value resolve to their own text.
   */
  lemma {:induction false} ReplaceTokensNoHit(ts: seq<Token>, vars: map<string, string>)
    requires forall i :: 0 <= i < |ts| && Usable(ts[i]) ==> HitIndex(Candidates(ts[i]), vars) == |Candidates(ts[i])|
    ensures ReplaceTokens(ts, vars, OwnText).output == Concat(Texts(ts))
  {
    if ts != [] {
      ReplaceTokensNoHit(ts[1..], vars);
      assert Texts(ts) == [ts[0].text] + Texts(ts[1..]);
      if Usable(ts[0]) {
        ReplaceTokenResolves(ts[0], vars, OwnText);
      }
    }
  }

  lemma {:induction false} RegisteredPrefix(names: seq<string>, vars: map<string, string>, n: nat)
    requires n <= |names| && Registered(names, vars) == []
    ensures Registered(names[..n], vars) == []
  {
    if n > 0 {
      assert names[..n][1..] == names[1..][..n - 1];
      RegisteredPrefix(names[1..], vars, n - 1);
    }
  }

  lemma {:induction false} ReplaceTokensAppend(xs: seq<Token>, ys: seq<Token>, vars: map<string, string>, fallback: Fallback)
    ensures ReplaceTokens(xs + ys, vars, fallback).output
            == ReplaceTokens(xs, vars, fallback).output + ReplaceTokens(ys, vars, fallback).output
    ensures ReplaceTokens(xs + ys, vars, fallback).calls
            == ReplaceTokens(xs, vars, fallback).calls + ReplaceTokens(ys, vars, fallback).calls
  {
    if xs == [] {
      assert xs + ys == ys;
    } else {
      assert (xs + ys)[0] == xs[0];
      assert (xs + ys)[1..] == xs[1..] + ys;
      ReplaceTokensAppend(xs[1..], ys, vars, fallback);
      var h := ReplaceToken(xs[0], vars, fallback);
      assert ReplaceTokens(xs + ys, vars, fallback)
          == Replacement(h.output + ReplaceTokens(xs[1..] + ys, vars, fallback).output,
                         h.calls + ReplaceTokens(xs[1..] + ys, vars, fallback).calls);
      assert ReplaceTokens(xs, vars, fallback)
          == Replacement(h.output + ReplaceTokens(xs[1..], vars, fallback).output,
                         h.calls + ReplaceTokens(xs[1..], vars, fallback).calls);
    }
  }

  /**
   * `replaceWithVariables(text, variables)` as written: a slot none of whose
   * candidates is registered appends the whole template `text`.
   */
  function ReplaceWithVariables(text: string, vars: map<string, string>): (r: Replacement)
    ensures forall x :: x in r.calls ==> x in vars
    ensures (forall i :: 0 <= i < |ResolvePlaceholder(text)| ==> !Usable(ResolvePlaceholder(text)[i])) ==>
              r == Replacement(text, [])
  {
    var ts := ResolvePlaceholder(text);
    ReplaceTokensRegistered(ts, vars, WholeTemplate(text));
    assert (forall i :: 0 <= i < |ts| ==> !Usable(ts[i])) ==>
      ReplaceTokens(ts, vars, WholeTemplate(text)) == Replacement(text, []) by {
      if forall i :: 0 <= i < |ts| ==> !Usable(ts[i]) {
        ReplaceTokensLiteral(ts, vars, WholeTemplate(text));
      }
    }
    ReplaceTokens(ts, vars, WholeTemplate(text))
  }

  /**
   * The evidently intended resolution: a slot no candidate of which has a
   * non-empty value keeps its own `{{…}}` text. A template none of whose
   * placeholders has such a candidate resolves to itself, and calls nothing
   * when none has a registered candidate at all.
   */
  function ReplaceWithVariablesPerSlot(text: string, vars: map<string, string>): (r: Replacement)
    ensures forall x :: x in r.calls ==> x in vars
    ensures (forall i :: 0 <= i < |ResolvePlaceholder(text)| && Usable(ResolvePlaceholder(text)[i]) ==>
               HitIndex(Candidates(ResolvePlaceholder(text)[i]), vars) == |Candidates(ResolvePlaceholder(text)[i])|) ==>
              r.output == text
    ensures (forall i :: 0 <= i < |ResolvePlaceholder(text)| && Usable(ResolvePlaceholder(text)[i]) ==>
               Registered(Candidates(ResolvePlaceholder(text)[i]), vars) == []) ==>
              r == Replacement(text, [])
  {
    var ts := ResolvePlaceholder(text);
    ReplaceTokensRegistered(ts, vars, OwnText);
    assert (forall i :: 0 <= i < |ts| && Usable(ts[i]) ==> Registered(Candidates(ts[i]), vars) == []) ==>
      ReplaceTokens(ts, vars, OwnText) == Replacement(text, []) by {
      if forall i :: 0 <= i < |ts| && Usable(ts[i]) ==> Registered(Candidates(ts[i]), vars) == [] {
        ReplaceTokensUnresolved(ts, vars);
      }
    }
    assert (forall i :: 0 <= i < |ts| && Usable(ts[i]) ==> HitIndex(Candidates(ts[i]), vars) == |Candidates(ts[i])|) ==>
      ReplaceTokens(ts, vars, OwnText).output == text by {
      if forall i :: 0 <= i < |ts| && Usable(ts[i]) ==> HitIndex(Candidates(ts[i]), vars) == |Candidates(ts[i])| {
        ReplaceTokensNoHit(ts, vars);
      }
    }
    ReplaceTokens(ts, vars, OwnText)
  }

  /**
   * As written, an unresolvable slot contributes the whole template: the
   * output is the tokens before it, the template, then the tokens after it.
   */
  lemma WholeTemplateFallback(text: string, vars: map<string, string>, i: nat)
    requires i < |ResolvePlaceholder(text)|
    requires Usable(ResolvePlaceholder(text)[i])
    requires Registered(Candidates(ResolvePlaceholder(text)[i]), vars) == []
    ensures ReplaceWithVariables(text, vars).output
            == ReplaceTokens(ResolvePlaceholder(text)[..i], vars, WholeTemplate(text)).output
               + text
               + ReplaceTokens(ResolvePlaceholder(text)[i + 1..], vars, WholeTemplate(text)).output
  {
    var ts := ResolvePlaceholder(text);
    ReplaceTokensAt(ts, vars, WholeTemplate(text), i);
    ReplaceTokenResolves(ts[i], vars, WholeTemplate(text));
  }

  /** The output around one token: the tokens before it, its contribution, the tokens after it. */
  lemma ReplaceTokensAt(ts: seq<Token>, vars: map<string, string>, fallback: Fallback, i: nat)
    requires i < |ts|
    ensures ReplaceTokens(ts, vars, fallback).output
            == ReplaceTokens(ts[..i], vars, fallback).output
               + ReplaceToken(ts[i], vars, fallback).output
               + ReplaceTokens(ts[i + 1..], vars, fallback).output
  {
    assert ts == ts[..i] + ([ts[i]] + ts[i + 1..]);
    ReplaceTokensAppend(ts[..i], [ts[i]] + ts[i + 1..], vars, fallback);
    ReplaceTokensAppend([ts[i]], ts[i + 1..], vars, fallback);
    assert ([ts[i]] + ts[i + 1..])[1..] == ts[i + 1..];
    assert [ts[i]][1..] == [];
  }

  /** The pieces of `a{{X}}`: the literal `a`, the placeholder, and the empty rest. */
  lemma SmallTemplateSplit(s: string)
    requires s == "a{{X}}"
    ensures Split(s) == ["a", "{{X}}", ""]
  {
    assert MatchAt(s, 0) == None;
    assert CloseFrom(s, 1, 4) == Some(6);
    assert FirstMatch(s, 0) == Some(Span(1, 6));
    assert FirstMatch(s, 6) == None;
    assert SplitFrom(s, 6) == [""];
    assert s[0..1] == "a" && s[1..6] == "{{X}}";
  }

  /** The variable of the placeholder piece `{{X}}` is `X`; the literal `a` has none. */
  lemma SmallTemplateVariables(a: string, x: string)
    requires a == "a" && x == "{{X}}"
    ensures VariableOf(a) == None
    ensures VariableOf(x) == Some("X")
  {
    assert MatchAt(a, 0) == None;
    assert FirstMatch(a, 1) == None;
    assert CloseFrom(x, 0, 3) == Some(5);
    assert FirstMatch(x, 0) == Some(Span(0, 5));
    assert x[2..3] == "X";
    assert !IsWhiteSpace(x[2]);
    TrimUnchanged("X");
  }

  /** The tokens of `a{{X}}`. */
  lemma SmallTemplateTokens(text: string)
    requires text == "a{{X}}"
    ensures ResolvePlaceholder(text) == [Token("a", None), Token("{{X}}", Some("X"))]
  {
    var a, x := "a", "{{X}}";
    SmallTemplateSplit(text);
    NonEmptyPair(a, x);
    TagPair(a, x);
    SmallTemplateVariables(a, x);
  }

  /** Dropping the empty rest after two non-empty pieces. */
  lemma NonEmptyPair(a: string, b: string)
    requires a != "" && b != ""
    ensures NonEmpty([a, b, ""]) == [a, b]
  {
    var xs := [a, b, ""];
    assert xs[1..] == [b, ""];
    assert xs[1..][1..] == [""];
    assert [""][1..] == [];
  }

  /** Tagging two pieces. */
  lemma TagPair(a: string, b: string)
    ensures Tag([a, b]) == [Token(a, VariableOf(a)), Token(b, VariableOf(b))]
  {
  }

  /**
   * As written, a literal `a` followed by one placeholder with no registered
   * candidate resolves to `a` followed by the whole template.
   */
  lemma LiteralThenUnresolved(a: string, t: Token, vars: map<string, string>, template: string)
    requires Usable(t) && Registered(Candidates(t), vars) == []
    ensures ReplaceTokens([Token(a, None), t], vars, WholeTemplate(template)) == Replacement(a + template, [])
  {
    var ts, fallback := [Token(a, None), t], WholeTemplate(template);
    ReplaceTokenResolves(t, vars, fallback);
    assert ReplaceToken(t, vars, fallback) == Replacement(template, []);
    assert ReplaceToken(ts[0], vars, fallback) == Replacement(a, []);
    assert ts[1..] == [t] && [t][1..] == [];
    assert ReplaceTokens([], vars, fallback) == Replacement("", []);
    assert ReplaceTokens([t], vars, fallback) == Replacement(template + "", [] + []);
    assert ReplaceTokens(ts, vars, fallback) == Replacement(a + (template + ""), [] + ([] + []));
  }

  /**
   * `a{{X}}` with no resolver named `X`: as written the result is `aa{{X}}`,
   * the literal `a` followed by the whole template in place of the slot.
   */
  lemma AsWrittenFallbackExample(text: string)
    requires text == "a{{X}}"
    ensures ReplaceWithVariables(text, map[]).output == "a" + text
  {
    SmallTemplateTokens(text);
    var t := Token("{{X}}", Some("X"));
    NoCandidateRegistered(t);
    LiteralThenUnresolved("a", t, map[], text);
  }

  /** Per slot, the same template with no resolver named `X` resolves to itself. */
  lemma PerSlotFallbackExample(text: string)
    requires text == "a{{X}}"
    ensures ReplaceWithVariablesPerSlot(text, map[]) == Replacement(text, [])
  {
    SmallTemplateTokens(text);
    var ts := ResolvePlaceholder(text);
    NoCandidateRegistered(ts[1]);
    forall i | 0 <= i < |ts| && Usable(ts[i]) ensures Registered(Candidates(ts[i]), map[]) == [] {
      assert i == 1;
    }
  }

  /**
   * `a{{X}}` with a resolver `X` that returns `""`: as written the slot
   * becomes `""`, leaving `a`; per slot it keeps `{{X}}`. Both call `X` once.
   */
  lemma BlankValueExample(text: string)
    requires text == "a{{X}}"
    ensures ReplaceWithVariables(text, map["X" := ""]) == Replacement("a", ["X"])
    ensures ReplaceWithVariablesPerSlot(text, map["X" := ""]) == Replacement(text, ["X"])
  {
    var vars := map["X" := ""];
    SmallTemplateTokens(text);
    var t := Token("{{X}}", Some("X"));
    BlankToken(t, vars, text);
    LiteralThen("a", t, vars, WholeTemplate(text));
    LiteralThen("a", t, vars, OwnText);
  }

  /** A literal followed by one token: the literal, then the token's contribution. */
  lemma LiteralThen(a: string, t: Token, vars: map<string, string>, fallback: Fallback)
    ensures var h := ReplaceToken(t, vars, fallback);
            ReplaceTokens([Token(a, None), t], vars, fallback) == Replacement(a + h.output, h.calls)
  {
    var ts := [Token(a, None), t];
    var h := ReplaceToken(t, vars, fallback);
    assert ts[1..] == [t] && ts[1..][1..] == [];
    assert ReplaceTokens([t], vars, fallback) == Replacement(h.output + "", h.calls + []);
  }

  /** The slot `{{X}}` when `X` is registered with the value `""`. */
  lemma BlankToken(t: Token, vars: map<string, string>, template: string)
    requires t == Token("{{X}}", Some("X")) && vars == map["X" := ""]
    ensures ReplaceToken(t, vars, WholeTemplate(template)) == Replacement("", ["X"])
    ensures ReplaceToken(t, vars, OwnText) == Replacement(t.text, ["X"])
  {
    NoCandidateRegistered(t);
    SplitCharNoSeparator("X", '|');
    assert Candidates(t) == ["X"];
    assert ["X"][1..] == [];
    assert HitIndex(["X"], vars) == 1;
    assert Registered(["X"], vars) == ["X"];
    assert ["X"][..1] == ["X"];
    ReplaceTokenResolves(t, vars, WholeTemplate(template));
    ReplaceTokenResolves(t, vars, OwnText);
  }

  /** `{{X}}` has the single candidate `X`, which an empty table does not register. */
  lemma NoCandidateRegistered(t: Token)
    requires t == Token("{{X}}", Some("X"))
    ensures Usable(t) && Registered(Candidates(t), map[]) == []
  {
    SplitCharNoSeparator("X", '|');
    assert Candidates(t) == ["X"];
    assert ["X"][1..] == [];
  }
}
