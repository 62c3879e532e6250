/**
 * `replacePlaceHolder` of src/main.ts: the table of editor variables a
 * command's message template can name, and the inline `replaceWithVariables`
 * that resolves the template against it. Every `{{…}}` match of the original
 * template is resolved through its `|`-separated candidates and then replaced,
 * with `String.prototype.replace`, at the first place its text occurs in the
 * partly resolved result.
 */
module ReplacePlaceholder {
  import opened Wrappers
  import opened Text
  import opened Pattern
  import opened Placeholder

  // ----- String.prototype.replace with a string pattern and a string replacement -----

  /**
   * The replacement text for one match, as ECMAScript's GetSubstitution builds
   * it for a pattern without capture groups: `$$` is `$`, `$&` the matched
   * text, `` $` `` the text before it, `$'` the text after it; any other `$`
   * stands for itself.
   */
  function Substitution(rep: string, matched: string, before: string, after: string): string
    decreases |rep|
  {
    if rep == [] then []
    else if rep[0] == '$' && |rep| >= 2 && rep[1] == '$' then "$" + Substitution(rep[2..], matched, before, after)
    else if rep[0] == '$' && |rep| >= 2 && rep[1] == '&' then matched + Substitution(rep[2..], matched, before, after)
    else if rep[0] == '$' && |rep| >= 2 && rep[1] == '`' then before + Substitution(rep[2..], matched, before, after)
    else if rep[0] == '$' && |rep| >= 2 && rep[1] == '\'' then after + Substitution(rep[2..], matched, before, after)
    else [rep[0]] + Substitution(rep[1..], matched, before, after)
  }

  /** A replacement without `$` is inserted verbatim. */
  lemma {:induction false} SubstitutionVerbatim(rep: string, matched: string, before: string, after: string)
    requires '$' !in rep
    ensures Substitution(rep, matched, before, after) == rep
    decreases |rep|
  {
    if rep != [] {
      assert rep[0] != '$';
      SubstitutionVerbatim(rep[1..], matched, before, after);
      assert rep == [rep[0]] + rep[1..];
    }
  }

  /** `$&` stands for the matched text. */
  lemma SubstitutionMatched(matched: string, before: string, after: string)
    ensures Substitution("$&", matched, before, after) == matched
  {
    assert "$&"[2..] == [];
    assert matched + [] == matched;
  }

  /**
   * `s.replace(pat, rep)`: the first occurrence of `pat` in `s`, if any, is
   * replaced by the substitution for `rep`; without one `s` is unchanged.
   */
  function ReplaceFirst(s: string, pat: string, rep: string): string {
    match FindFrom(s, pat, 0)
    case None => s
    case Some(i) => s[..i] + Substitution(rep, pat, s[..i], s[i + |pat|..]) + s[i + |pat|..]
  }

  /** An occurrence with no earlier occurrence of its first character is the first occurrence. */
  lemma FirstOccurrence(s: string, pat: string, i: nat)
    requires OccursAt(s, pat, i) && |pat| > 0
    requires pat[0] !in s[..i]
    ensures FindFrom(s, pat, 0) == Some(i)
  {
    forall j | 0 <= j < i ensures !OccursAt(s, pat, j) {
      assert s[..i][j] == s[j];
      assert s[j] != pat[0];
    }
  }

  // ----- one placeholder -----

  /** What `value!!` inserts for a placeholder none of whose candidates is registered. */
  const Undefined: string := "undefined"

  /** `undefined` holds no `$`, so it goes in verbatim. */
  lemma UndefinedVerbatim(matched: string, before: string, after: string)
    ensures Substitution(Undefined, matched, before, after) == Undefined
  {
    assert forall k :: 0 <= k < |Undefined| ==> Undefined[k] != '$';
    SubstitutionVerbatim(Undefined, matched, before, after);
  }

  /** The candidates of a match `{{inner}}`: `match[1].trim().split('|')`. */
  function SlotNames(m: string): seq<string>
    requires |m| >= 4
  {
    SplitChar(Trim(m[2..|m| - 2]), '|')
  }

  /** The resolution of the match `m`: the candidate loop started with `value` undefined. */
  function SlotResolution(m: string, vars: map<string, string>): Resolution
    requires |m| >= 4
  {
    ResolveCandidates(SlotNames(m), vars)
  }

  /**
   * The text a match is replaced with: the first non-empty value of a
   * registered candidate; failing that, `""` when some candidate is
   * registered, and `undefined` when none is.
   */
  function SlotValue(m: string, vars: map<string, string>): string
    requires |m| >= 4
  {
    SlotResolution(m, vars).value.GetOr(Undefined)
  }

  /**
   * The value of a match is its first hit's value; failing that, `""` when
   * some candidate is registered, and `undefined` when none is.
   */
  lemma SlotValueCases(m: string, vars: map<string, string>)
    requires |m| >= 4
    ensures HitIndex(SlotNames(m), vars) < |SlotNames(m)| ==>
              SlotValue(m, vars) == vars[SlotNames(m)[HitIndex(SlotNames(m), vars)]]
    ensures HitIndex(SlotNames(m), vars) == |SlotNames(m)| ==>
              SlotValue(m, vars) == (if Registered(SlotNames(m), vars) == [] then Undefined else "")
  {
    ResolveFromSpec(SlotNames(m), vars, None);
  }

  // ----- the inline replaceWithVariables loop -----

  /**
   * The `while ((match = regex.exec(text)))` loop with `regex.lastIndex == last`
   * and the partly resolved `result`: each match of the original text is
   * resolved and replaced at the first occurrence of its text in `result`.
   * The resolvers are called as the slot-by-slot reference calls them,
   * whatever the replacements do to `result`.
   */
  function InlineLoop(text: string, vars: map<string, string>, last: nat, result: string): (r: Replacement)
    requires last <= |text|
    ensures r.calls == InlineSlots(text, vars, last).calls
    decreases |text| - last
  {
    match FirstMatch(text, last)
    case None => Replacement(result, [])
    case Some(m) =>
      var pat := text[m.start..m.end];
      var res := SlotResolution(pat, vars);
      var rest := InlineLoop(text, vars, m.end, ReplaceFirst(result, pat, SlotValue(pat, vars)));
      Replacement(rest.output, res.calls + rest.calls)
  }

  /** `replaceWithVariables(template, variables)` of src/main.ts. */
  function ReplaceInline(text: string, vars: map<string, string>): (r: Replacement)
    ensures r.calls == InlineSlots(text, vars, 0).calls
    ensures forall x :: x in r.calls ==> x in vars
    ensures NoMatchIn(text) ==> r == Replacement(text, [])
  {
    assert NoMatchIn(text) ==> FirstMatch(text, 0).None? by {
      if NoMatchIn(text) {
        NoFirstMatch(text, 0);
      }
    }
    InlineLoop(text, vars, 0, text)
  }

  /** Where the pattern matches nowhere, the search finds nothing. */
  lemma NoFirstMatch(text: string, p: nat)
    requires p <= |text| && NoMatchIn(text)
    ensures FirstMatch(text, p) == None
  {
    forall q, e ensures !IsMatch(text, q, e) {
      assert NoMatchAt(text, q);
    }
  }

  /**
   * The reference: every match of the text from `p` on replaced in place by
   * its value, the text between matches kept. Only registered resolvers are
   * called.
   */
  function InlineSlots(text: string, vars: map<string, string>, p: nat): (r: Replacement)
    requires p <= |text|
    ensures forall x :: x in r.calls ==> x in vars
    decreases |text| - p
  {
    match FirstMatch(text, p)
    case None => Replacement(text[p..], [])
    case Some(m) =>
      var pat := text[m.start..m.end];
      var rest := InlineSlots(text, vars, m.end);
      var names := SlotNames(pat);
      ResolveFromSpec(names, vars, None);
      assert forall x :: x in names[..Tried(names, vars)] ==> x in names;
      Replacement(text[p..m.start] + SlotValue(pat, vars) + rest.output,
                  SlotResolution(pat, vars).calls + rest.calls)
  }

  /** `c` occurs in none of the text between the matches from `p` on. */
  predicate GapsFree(text: string, p: nat, c: char)
    requires p <= |text|
    decreases |text| - p
  {
    match FirstMatch(text, p)
    case None => c !in text[p..]
    case Some(m) => c !in text[p..m.start] && GapsFree(text, m.end, c)
  }

  /** No registered value holds `{` or `$`. */
  predicate PlainValues(vars: map<string, string>) {
    forall n :: n in vars ==> '{' !in vars[n] && '$' !in vars[n]
  }

  /** With plain values, a match's replacement holds neither `{` nor `$`. */
  lemma SlotValuePlain(m: string, vars: map<string, string>)
    requires |m| >= 4 && PlainValues(vars)
    ensures '{' !in SlotValue(m, vars) && '$' !in SlotValue(m, vars)
  {
    var names := SlotNames(m);
    var h := HitIndex(names, vars);
    SlotValueCases(m, vars);
    if h < |names| {
      assert names[h] in vars;
    }
  }

  /**
   * One step of the loop on a result whose text before the match holds no
   * `{`: the match is replaced where it stands, by a value without `$`.
   */
  lemma ReplaceInPlace(before: string, pat: string, v: string, tail: string)
    requires '{' !in before && |pat| > 0 && pat[0] == '{' && '$' !in v
    ensures ReplaceFirst(before + pat + tail, pat, v) == before + v + tail
  {
    var s := before + pat + tail;
    var i := |before|;
    assert s[..i] == before;
    assert s[i..i + |pat|] == pat;
    assert s[i + |pat|..] == tail;
    FirstOccurrence(s, pat, i);
    SubstitutionVerbatim(v, pat, before, tail);
  }

  /** The loop at a match: replace it, then carry on after it. */
  lemma InlineLoopStep(text: string, vars: map<string, string>, p: nat, result: string, m: Span)
    requires p <= |text| && FirstMatch(text, p) == Some(m)
    ensures InlineLoop(text, vars, p, result).output
            == InlineLoop(text, vars, m.end, ReplaceFirst(result, text[m.start..m.end], SlotValue(text[m.start..m.end], vars))).output
  {
  }

  /** The reference at a match: the gap, the value, then the rest. */
  lemma InlineSlotsStep(text: string, vars: map<string, string>, p: nat, m: Span)
    requires p <= |text| && FirstMatch(text, p) == Some(m)
    ensures InlineSlots(text, vars, p).output
            == text[p..m.start] + SlotValue(text[m.start..m.end], vars) + InlineSlots(text, vars, m.end).output
  {
  }

  /**
   * When the text between matches holds no `{` and no value holds `{` or `$`,
   * the first occurrence of each match's text is the match itself and the
   * value goes in verbatim: the loop resolves every match in place.
   */
  lemma {:induction false} InlineLoopInPlace(text: string, vars: map<string, string>, p: nat, done: string)
    requires p <= |text|
    requires '{' !in done && GapsFree(text, p, '{') && PlainValues(vars)
    ensures InlineLoop(text, vars, p, done + text[p..]).output == done + InlineSlots(text, vars, p).output
    decreases |text| - p
  {
    var fm := FirstMatch(text, p);
    if fm.Some? {
      var m := fm.value;
      var pat := text[m.start..m.end];
      var v := SlotValue(pat, vars);
      var done' := done + text[p..m.start] + v;
      assert '{' !in text[p..m.start] && GapsFree(text, m.end, '{');
      SlotValuePlain(pat, vars);
      assert '{' !in done';
      LoopInPlaceStep(text, vars, p, m, done);
      InlineLoopInPlace(text, vars, m.end, done');
      InlineSlotsStep(text, vars, p, m);
      Rebracket(done, text[p..m.start], v, InlineSlots(text, vars, m.end).output);
    }
  }

  /** One in-place step of the loop, told in terms of what is already resolved. */
  lemma LoopInPlaceStep(text: string, vars: map<string, string>, p: nat, m: Span, done: string)
    requires p <= |text| && FirstMatch(text, p) == Some(m)
    requires '{' !in done && '{' !in text[p..m.start] && PlainValues(vars)
    ensures InlineLoop(text, vars, p, done + text[p..]).output
            == InlineLoop(text, vars, m.end, done + text[p..m.start] + SlotValue(text[m.start..m.end], vars) + text[m.end..]).output
  {
    var pat := text[m.start..m.end];
    SlotValuePlain(pat, vars);
    MatchInPlace(text, p, m, done, SlotValue(pat, vars));
    InlineLoopStep(text, vars, p, done + text[p..], m);
  }

  /** The resolved prefix, the gap and the value, followed by the rest, read as the prefix followed by the rest's output. */
  lemma Rebracket(done: string, gap: string, v: string, rest: string)
    ensures (done + gap + v) + rest == done + (gap + v + rest)
  {
  }

  /** The replacement of the match `m` lands on the match itself. */
  lemma MatchInPlace(text: string, p: nat, m: Span, done: string, v: string)
    requires p <= m.start <= m.end <= |text| && m.start + 1 <= m.end && text[m.start] == '{'
    requires '{' !in done && '{' !in text[p..m.start] && '$' !in v
    ensures ReplaceFirst(done + text[p..], text[m.start..m.end], v) == done + text[p..m.start] + v + text[m.end..]
  {
    var gap, pat, after := text[p..m.start], text[m.start..m.end], text[m.end..];
    assert text[p..] == gap + pat + after;
    assert done + text[p..] == (done + gap) + pat + after;
    ReplaceInPlace(done + gap, pat, v, after);
  }

  /** The loop and the reference agree under the conditions of `InlineLoopInPlace`. */
  lemma InlineAgrees(text: string, vars: map<string, string>)
    requires GapsFree(text, 0, '{') && PlainValues(vars)
    ensures ReplaceInline(text, vars) == InlineSlots(text, vars, 0)
  {
    InlineLoopInPlace(text, vars, 0, "");
    assert "" + text[0..] == text;
  }

  /** A template that is one whole match. */
  lemma WholeMatch(text: string)
    requires IsMatch(text, 0, |text|)
    ensures FirstMatch(text, 0) == Some(Span(0, |text|))
    ensures FirstMatch(text, |text|) == None
  {
    assert !NoMatchAt(text, 0);
    var m := MatchAt(text, 0);
    assert m.Some?;
    MatchUnique(text, 0, m.value, |text|);
  }

  /**
   * A template that is one placeholder becomes the substitution for its
   * value: the value itself unless it holds `$`.
   */
  lemma SingleSlotInline(text: string, vars: map<string, string>)
    requires IsMatch(text, 0, |text|)
    ensures ReplaceInline(text, vars).output == Substitution(SlotValue(text, vars), text, "", "")
    ensures InlineSlots(text, vars, 0).output == SlotValue(text, vars)
  {
    WholeMatch(text);
    var v := SlotValue(text, vars);
    assert text[0..|text|] == text;
    ReplaceWhole(text, v);
    var r := ReplaceFirst(text, text, v);
    assert InlineLoop(text, vars, |text|, r).output == r;
    assert InlineLoop(text, vars, 0, text).output == r;
    assert InlineSlots(text, vars, |text|).output == "";
    assert text[0..0] == "";
  }

  /** Replacing a whole text by itself leaves only the substitution. */
  lemma ReplaceWhole(s: string, rep: string)
    requires |s| > 0
    ensures ReplaceFirst(s, s, rep) == Substitution(rep, s, "", "")
  {
    assert OccursAt(s, s, 0) by { assert s[0..|s|] == s; }
    FirstOccurrence(s, s, 0);
    var before, after := s[..0], s[0 + |s|..];
    assert before == "" && after == "";
    var sub := Substitution(rep, s, before, after);
    assert ReplaceFirst(s, s, rep) == before + sub + after;
  }

  /**
   * A placeholder naming one candidate, with no blank at either end of the
   * name and no `}`, `|` or line terminator in it, is one whole match, and
   * its value is the candidate's value, or `undefined` when the candidate is
   * not registered.
   */
  lemma NamedSlot(text: string, name: string, vars: map<string, string>)
    requires text == "{{" + name + "}}"
    requires name != [] && !IsWhiteSpace(name[0]) && !IsWhiteSpace(name[|name| - 1])
    requires forall k :: 0 <= k < |name| ==> name[k] != '}' && name[k] != '|' && !IsLineTerminator(name[k])
    ensures IsMatch(text, 0, |text|)
    ensures SlotValue(text, vars) == if name in vars then vars[name] else Undefined
  {
    assert text[2..|text| - 2] == name;
    TrimUnchanged(name);
    assert forall k :: 2 <= k < |text| - 2 ==> text[k] == name[k - 2];
    SplitCharNoSeparator(name, '|');
    assert SlotNames(text) == [name];
    assert [name][1..] == [];
    SlotValueCases(text, vars);
    if name in vars {
      assert Registered([name], vars) == [name];
    } else {
      assert Registered([name], vars) == [];
    }
  }

  /**
   * `{{A}}` with `A` returning `$&`: the loop inserts the matched text
   * `{{A}}` again where the value `$&` was meant to go.
   */
  lemma DollarValueExample(text: string, vars: map<string, string>)
    requires text == "{{A}}" && vars == map["A" := "$&"]
    ensures ReplaceInline(text, vars).output == text
    ensures InlineSlots(text, vars, 0).output == "$&"
  {
    NamedSlot(text, "A", vars);
    SingleSlotInline(text, vars);
    SubstitutionMatched(text, "", "");
  }

  /** A placeholder whose trimmed inner text is empty becomes `undefined` unless `""` is registered. */
  lemma BlankSlotExample(text: string, vars: map<string, string>)
    requires text == "{{ }}" && "" !in vars
    ensures ReplaceInline(text, vars).output == Undefined
  {
    assert IsMatch(text, 0, 5);
    SingleSlotInline(text, vars);
    assert text[2..3] == " ";
    assert Trim(" ") == "" by {
      assert IsWhiteSpace(" "[0]) && " "[1..] == "";
      assert TrimStart(" ") == "";
    }
    assert SplitChar("", '|') == [""];
    assert SlotNames(text) == [""];
    assert [""][1..] == [];
    assert Registered([""], vars) == [];
    SlotValueCases(text, vars);
    UndefinedVerbatim(text, "", "");
  }

  // ----- the variables table -----

  /** The note open in the workspace: `getActiveFile()`. */
  datatype ActiveFile = ActiveFile(basename: string, name: string)

  /** What the resolvers read: the editor, the active note, the input dialog and the clock. */
  datatype Environment = Environment(
    activeFile: Option<ActiveFile>,
    lines: seq<string>,
    cursorLine: nat,
    selection: string,
    input: string,
    date: string,
    time: string)

  /** The editor's cursor is on one of its lines. */
  predicate ValidEnvironment(env: Environment) {
    env.cursorLine < |env.lines|
  }

  /** `editor.getLine(editor.getCursor().line)`. */
  function CursorLine(env: Environment): string
    requires ValidEnvironment(env)
  {
    env.lines[env.cursorLine]
  }

  /** A template literal over `getActiveFile()?.field`: `undefined` without an active note. */
  function FileField(f: Option<ActiveFile>, basename: bool): string {
    match f
    case None => Undefined
    case Some(a) => if basename then a.basename else a.name
  }

  /** The names a template can use. */
  const VariableNames: set<string> := {"TITLE", "FILE_NAME", "SELECTION", "LINE", "INPUT", "BODY", "DATE", "TIME"}

  /**
   * The `variables` table: what each resolver returns. `SELECTION` is the
   * selection when it is non-empty and otherwise the cursor's line; `TITLE`
   * and `FILE_NAME` are `undefined` without an active note.
   */
  function Variables(env: Environment): (vars: map<string, string>)
    requires ValidEnvironment(env)
    ensures vars.Keys == VariableNames
    ensures vars["SELECTION"] == (if env.selection != "" then env.selection else env.lines[env.cursorLine])
    ensures vars["LINE"] == env.lines[env.cursorLine]
    ensures vars["BODY"] == JoinWith(env.lines, '\n')
    ensures env.activeFile.None? ==> vars["TITLE"] == Undefined && vars["FILE_NAME"] == Undefined
    ensures env.activeFile.Some? ==>
              vars["TITLE"] == env.activeFile.value.basename && vars["FILE_NAME"] == env.activeFile.value.name
  {
    map[
      "TITLE" := FileField(env.activeFile, true),
      "FILE_NAME" := FileField(env.activeFile, false),
      "SELECTION" := if env.selection != "" then env.selection else CursorLine(env),
      "LINE" := CursorLine(env),
      "INPUT" := env.input,
      "BODY" := JoinWith(env.lines, '\n'),
      "DATE" := env.date,
      "TIME" := env.time]
  }

  /**
   * `{{SELECTION}}` resolves to the selection, or to the cursor's line when
   * nothing is selected; the loop inserts it verbatim when it holds no `$`.
   */
  lemma SelectionPlaceholder(env: Environment, text: string)
    requires ValidEnvironment(env) && text == "{{SELECTION}}"
    ensures InlineSlots(text, Variables(env), 0).output
            == (if env.selection != "" then env.selection else CursorLine(env))
    ensures '$' !in Variables(env)["SELECTION"] ==>
              ReplaceInline(text, Variables(env)).output == Variables(env)["SELECTION"]
  {
    var vars := Variables(env);
    var name := "SELECTION";
    assert text == "{{" + name + "}}";
    NamedSlot(text, name, vars);
    SingleSlotInline(text, vars);
    if '$' !in vars[name] {
      SubstitutionVerbatim(vars[name], text, "", "");
    }
  }

  /**
   * A placeholder naming one name outside the table, written as `NamedSlot`
   * requires, resolves to `undefined`.
   */
  lemma UnknownPlaceholder(env: Environment, text: string, name: string)
    requires ValidEnvironment(env) && text == "{{" + name + "}}" && name !in VariableNames
    requires name != [] && !IsWhiteSpace(name[0]) && !IsWhiteSpace(name[|name| - 1])
    requires forall k :: 0 <= k < |name| ==> name[k] != '}' && name[k] != '|' && !IsLineTerminator(name[k])
    ensures ReplaceInline(text, Variables(env)).output == Undefined
  {
    var vars := Variables(env);
    NamedSlot(text, name, vars);
    SingleSlotInline(text, vars);
    UndefinedVerbatim(text, "", "");
  }
}
