# Prompt templates and response writing, modelled in Dafny

This project models the core of an editor plugin that sends prompt templates to a
chat-completion model and writes the streamed answer into the document.

The model has two halves.

**Template resolution.** A template holds placeholders such as `{{SELECTION}}` or
`{{TITLE|FILE_NAME}}`. The regular expressions `/(\{\{.+?}})/` and `/\{{(.+?)}}/`
find them. Modules:

- `Pattern`: the leftmost, lazy match of `{{ … }}`, and `String.prototype.split`
  with that capturing regular expression.
- `Pieces`: the split with its empty pieces dropped (`filter(Boolean)`), which keeps
  the leftmost rule.
- `Placeholder`: `PlaceHolder.resolvePlaceholder`, its callback variant and
  `PlaceHolder.replaceWithVariables` of `src/placeholder.ts`.
- `ReplacePlaceholder`: the inline `replaceWithVariables` loop in `src/main.ts`. It
  resolves each match's `|`-separated candidates against the variables table, then
  substitutes the value with `String.prototype.replace`. That function replaces the
  first occurrence and honours `$$`, `$&`, `` $` `` and `$'` in the replacement.
  `ReplacePlaceholder` also models the variables table itself (`TITLE`, `FILE_NAME`,
  `SELECTION`, `LINE`, `INPUT`, `BODY`, `DATE`, `TIME`) and the rule that an empty
  selection falls back to the cursor line.

**Writing the response.** Modules:

- `Writer`: `write` inserts text at a line and character position in one editor
  transaction. The document is its list of lines. `writeText` splits a text at its
  line breaks and inserts it line by line, returning the position after it.
- `Generate`: `generateText` picks the start position from the last selection or the
  cursor. It splits the command's format at `{{RESPONSE}}`, writes the prefix and the
  suffix, then writes each streamed piece of the response at a position that moves
  on past it.

Each operation is paired with an independent description, and a lemma connects the two:

- Splitting is paired with concatenation.
- The line-based document is paired with its flat text (`Value`, `Offset`).
- Writing piece by piece is paired with writing at once.
- The replace loop is paired with a slot-by-slot reference definition (`InlineSlots`).

Shared helpers live in `Text` (counting, splitting on a character or string, joining,
ECMAScript `trim`) and `Wrappers` (`Option`).

The variables table is a map from names to the strings their functions return. Its
environment is a parameter: the active file, the lines, the cursor line, the selection,
the modal's input, and the date and time strings. So is the response stream, given as
the sequence of pieces its callback received.

## Model

Functions that only compute (`Write`, `End`, `ReplaceTokens`, `ResolveFrom`, `VariableOf`,
`ReplaceFirst`, `Substitution`, `IsMatch`, `SplitChar`, `Trim`) carry no contract of their
own; the lemmas that characterise them say so at the head of their rows.

| member | source | states |
|---|---|---|
| Text.SplitCharFree | src/main.ts:90 | (of `SplitChar`) no piece of `text.split('\n')` holds a line break |
| Text.SplitCharCount | src/main.ts:90 | (of `SplitChar`) `text.split('\n')` has one more piece than the text has line breaks |
| Text.JoinSplit | src/main.ts:90 | (of `SplitChar`) the pieces of `split('\n')` joined with `'\n'` give the text back |
| Text.SplitString | src/main.ts:57 | the pieces of `format.split(sep)` joined with `sep` give the format back; each cut is at the first occurrence of `sep` after the previous one, so `sep` starts inside no piece; the first piece is the text up to the first occurrence, or the whole text without one |
| Text.FindFrom | src/main.ts:202 | the search for a literal string returns its leftmost occurrence at or after the start, and none when there is none |
| Text.NonEmpty | src/placeholder.ts:26 | `filter(Boolean)` keeps exactly the non-empty pieces: none is empty, a string is kept exactly when it is a non-empty input piece, they concatenate to the same text, and a single piece is kept exactly when it is non-empty |
| Text.NonEmptyAppend | src/placeholder.ts:26 | filtering a concatenation filters each part and keeps their order, which with the single-piece case fixes the result |
| Text.TrimSpec | src/placeholder.ts:29 | (of `Trim`) `trim()` returns the slice of its input between a leading and a trailing run of white space and line terminators, and leaves none at either end; it is empty exactly when the input is all white space, and an input without white space at its ends is unchanged |
| Text.TrimIdempotent | src/placeholder.ts:29 | (of `Trim`) trimming a trimmed name changes nothing |
| Pattern.CloseFrom | src/placeholder.ts:17 | the lazy search for the closing `}}` returns the end of the match that starts at the position, or there is no match there |
| Pattern.MatchAt | src/placeholder.ts:17 | (of `IsMatch`) at a position, either the returned end closes a `{{…}}` match there, or no match starts there |
| Pattern.MatchUnique | src/placeholder.ts:17 | (of `IsMatch`) the lazy `.+?` admits at most one match end for a given start |
| Pattern.FirstMatch | src/main.ts:186-190 | `exec` on the global regular expression finds the leftmost match from `lastIndex`, with no match starting before it |
| Pattern.SplitFrom | src/placeholder.ts:24 | splitting with the capturing expression gives an odd number of pieces that concatenate to the rest of the text |
| Pattern.Split | src/placeholder.ts:24 | the pieces of `text.split(REGEX_PLACEHOLDER)` concatenate to the text |
| Pattern.SplitFromShape | src/placeholder.ts:17-24 | even pieces are the text between matches and hold no match; odd pieces are the captured matches, each a whole match; and no match of the whole text starts at any index a text piece covers, so every capture is the leftmost match after the previous one |
| Pattern.SplitShape | src/placeholder.ts:17-24 | every piece of the split is either match-free text or one whole `{{…}}` match, and no match of the text starts inside a text piece |
| Pattern.SplitFromUnique | src/placeholder.ts:17-24 | any odd-length cut of the text into text pieces and whole matches, with no match starting inside a text piece, is the split: together with `Pattern.SplitFromShape` this characterises `split` completely |
| Pattern.TripleBraceExample | src/placeholder.ts:17-24 | `x{{{a}}` splits into `x`, `{{{a}}` and `""`: the leftmost match starts at the first of three braces |
| Pieces.NonEmptySplitFrom | src/placeholder.ts:24-26 | dropping the empty pieces of the split keeps the leftmost rule for the text pieces, and never leaves two text pieces side by side |
| Placeholder.VariableOfPiece | src/placeholder.ts:18-29 | (of `VariableOf`) a piece has a variable exactly when it is one whole match, and the variable is its trimmed inner text |
| Placeholder.ResolvePlaceholder | src/placeholder.ts:22-31 | the tokens are non-empty and their texts concatenate to the template |
| Placeholder.ResolvePlaceholderVariables | src/placeholder.ts:24-30 | a token has a variable exactly when its text is one whole `{{…}}` match, and the variable is the trimmed inner text |
| Placeholder.ResolvePlaceholderLeftmost | src/placeholder.ts:22-31 | the tokens keep the leftmost rule: no match of the template starts inside a literal token, and no two literal tokens stand side by side |
| Placeholder.TripleBraceTokens | src/placeholder.ts:22-31 | `x{{{a}}` resolves to the literal `x` and the token `{{{a}}` with variable `{a` |
| Placeholder.EmptyTemplateHasNoTokens | src/placeholder.ts:26 | the empty template resolves to no tokens |
| Placeholder.SmallTemplateTokens | src/placeholder.ts:22-31 | `a{{X}}` resolves to the literal `a` and the placeholder `{{X}}` with variable `X` |
| Placeholder.ResolvePlaceholderWithCallback | src/placeholder.ts:33-41 | one callback per token, in order: `onVariable` with the variable exactly when it is non-empty, `onText` with the text otherwise |
| Placeholder.HitIndex | src/placeholder.ts:57-62 | the candidate loop stops at the first candidate that is registered and yields a non-empty value |
| Placeholder.ResolveFromSpec | src/placeholder.ts:55-63 | (of `ResolveFrom`) the loop calls exactly the registered candidates up to the first hit; the value is the hit's value, otherwise `""` when some candidate was registered, otherwise the earlier value |
| Placeholder.FallbackOrderExample | src/placeholder.ts:57-62 | an empty value does not stop the loop: with `A` empty and `B` = `x`, the candidates `A` then `B` call both and yield `x` |
| Placeholder.ReplaceTokenResolves | src/placeholder.ts:54-65 | a placeholder calls its registered candidates up to the first hit and contributes the hit's value; without a hit, as written it contributes `""` when some candidate is registered and the whole template when none is, while per slot it keeps its own text in both cases |
| Placeholder.ReplaceTokensRegistered | src/placeholder.ts:58-60 | only registered variables are ever called |
| Placeholder.ReplaceTokensLiteral | src/placeholder.ts:48-51 | literal tokens are copied unchanged, with no calls |
| Placeholder.ReplaceTokensUnresolved | src/placeholder.ts:65 | per slot, tokens none of whose placeholders has a registered candidate give back their texts, with no calls |
| Placeholder.ReplaceTokensNoHit | src/placeholder.ts:57-65 | per slot, tokens none of whose placeholders has a candidate with a non-empty value give back their texts |
| Placeholder.ReplaceTokensAppend | src/placeholder.ts:48-66 | (of `ReplaceTokens`) the result and the calls of a run of tokens are those of its parts, one after the other |
| Placeholder.ReplaceTokensAt | src/placeholder.ts:48-66 | (of `ReplaceTokens`) the result is the tokens before one token, that token's contribution, then the tokens after it |
| Placeholder.ReplaceWithVariables | src/placeholder.ts:43-68 | only registered variables are called, and a template without placeholders comes back unchanged with no calls |
| Placeholder.WholeTemplateFallback | src/placeholder.ts:65 | a placeholder with no registered candidate contributes the whole template in its place |
| Placeholder.AsWrittenFallbackExample | src/placeholder.ts:65 | `a{{X}}` with nothing registered becomes `a` followed by the whole template |
| Placeholder.ReplaceWithVariablesPerSlot | src/placeholder.ts:43-68 | per slot, a template none of whose placeholders has a candidate with a non-empty value comes back unchanged, with no calls when none has a registered candidate; only registered variables are called |
| Placeholder.PerSlotFallbackExample | src/placeholder.ts:65 | per slot, `a{{X}}` with nothing registered comes back unchanged |
| Placeholder.BlankValueExample | src/placeholder.ts:57-65 | `a{{X}}` with `X` returning `""` calls `X` once and becomes `a` as written, but stays `a{{X}}` per slot |
| ReplacePlaceholder.SubstitutionVerbatim | src/main.ts:202 | (of `Substitution`) a replacement value without `$` is inserted verbatim |
| ReplacePlaceholder.SubstitutionMatched | src/main.ts:202 | (of `Substitution`) the replacement `$&` inserts the matched text |
| ReplacePlaceholder.UndefinedVerbatim | src/main.ts:202 | `value!!` on an undefined value inserts the text `undefined` |
| ReplacePlaceholder.FirstOccurrence | src/main.ts:202 | (of `FindFrom`, used by `ReplaceFirst`) an occurrence of the pattern with no earlier copy of its first character is the one `replace` finds first |
| ReplacePlaceholder.ReplaceInPlace | src/main.ts:202 | (of `ReplaceFirst`) when nothing before the placeholder can begin it and the value has no `$`, `replace` swaps the placeholder for the value in place |
| ReplacePlaceholder.SlotValueCases | src/main.ts:191-202 | a match's value is the first registered candidate with a non-empty value; otherwise `""` when some candidate is registered, and `undefined` when none is |
| ReplacePlaceholder.ReplaceInline | src/main.ts:185-205 | the variables are called as the slot-by-slot reference calls them, only registered ones, and a template without a match comes back unchanged with no calls |
| ReplacePlaceholder.InlineLoop | src/main.ts:190-203 | the `exec` loop calls the variables exactly as the slot-by-slot reference does, whatever the replacements did to the result so far; `InlineAgrees` states when its output equals the reference's |
| ReplacePlaceholder.InlineSlots | src/main.ts:190-203 | the slot-by-slot reference, each match replaced in place by its value verbatim, calls only registered variables; `InlineAgrees` ties the loop's output to it |
| ReplacePlaceholder.InlineAgrees | src/main.ts:185-205 | when no `{` appears between matches and no value holds `{` or `$`, the replace loop gives the slot-by-slot result |
| ReplacePlaceholder.SingleSlotInline | src/main.ts:185-205 | a template that is one placeholder becomes the substitution of its value |
| ReplacePlaceholder.NamedSlot | src/main.ts:191-202 | `{{name}}` for a plain name becomes the name's value, or `undefined` when it is not in the table |
| ReplacePlaceholder.BlankSlotExample | src/main.ts:191-202 | `{{ }}` trims to the empty name, which is not in the table, and becomes `undefined` |
| ReplacePlaceholder.DollarValueExample | src/main.ts:202 | a value `$&` puts the placeholder back instead of inserting `$&` |
| ReplacePlaceholder.Variables | src/main.ts:158-183 | the table has exactly the eight names; `SELECTION` is the selection or, when it is empty, the cursor line; `LINE` is the cursor line; `BODY` is the lines joined; `TITLE` and `FILE_NAME` are the active file's basename and name, or `undefined` |
| ReplacePlaceholder.SelectionPlaceholder | src/main.ts:152-166 | `{{SELECTION}}` becomes the selection when it is non-empty and the cursor line otherwise |
| ReplacePlaceholder.UnknownPlaceholder | src/main.ts:195-202 | `{{name}}` for any plain name outside the table becomes `undefined` |
| Writer.WriteWellFormed | src/main.ts:120-132 | a write keeps every line free of line breaks, adds one line per inserted break, and its end position lies in the document |
| Writer.WriteValue | src/main.ts:120-132 | (of `Write`) the document's text after a write is the old text with the inserted text spliced in at the position's offset |
| Writer.WriteOffset | src/main.ts:110-117 | (of `End`) the returned position is right after the inserted text |
| Writer.WriteEmpty | src/main.ts:61-66 | writing nothing leaves the document and the position unchanged, so skipping an empty prefix or suffix changes nothing |
| Writer.EndSameLine | src/main.ts:98-101 | text without a line break moves the position along its line by its length |
| Writer.EndBreak | src/main.ts:104-107 | a line break moves the position to the start of the next line |
| Writer.EndCompose | src/main.ts:95-108 | (of `End`) the position after `a` and then `b` is the position after `a + b` |
| Writer.WriteCompose | src/main.ts:95-108 | writing `a` and then `b` at the position after `a` is writing `a + b` at once |
| Writer.WriteBefore | src/main.ts:64-77 | writing at the position where the suffix was just written, without moving it, puts the new text before the suffix |
| Writer.WriteMiddle | src/main.ts:61-77 | text written at the position after the prefix lands between the prefix and the suffix |
| Writer.WriteText | src/main.ts:89-118 | `writeText` leaves the document as one write of the whole text and returns the end position; its transactions are, in order, each non-empty line and a break after every line but the last, one per non-empty line plus one per break, each at the position right after the ones before it, and replaying them gives the same document |
| Writer.WriteLine | src/main.ts:95-108 | one round of the loop writes the line if it is not empty and a break unless it is the last line, keeping the document, the position and the transaction log in step with the text written so far |
| Writer.IssuedTotal | src/main.ts:90-108 | the transactions number the non-empty lines plus the line breaks of the text |
| Generate.StartPos | src/main.ts:46-53 | writing starts at the last selection's anchor when it is on a later line than the head, at the head otherwise, and at the cursor without a selection |
| Generate.SplitFormat | src/main.ts:57-59 | the prefix is the format up to its first `{{RESPONSE}}`, and there is a suffix exactly when there is a marker; without one the prefix is the whole format |
| Generate.SplitFormatNoMarker | src/main.ts:57-59 | a format without `{{RESPONSE}}` is all prefix, with an undefined suffix |
| Generate.SplitFormatRoundTrip | src/main.ts:57-59 | `prefix{{RESPONSE}}suffix`, with no marker in either part, splits back into that prefix and suffix |
| Generate.SplitFormatTwoMarkers | src/main.ts:57-59 | with a second marker the suffix stops at it: `prefix{{RESPONSE}}middle{{RESPONSE}}rest` splits into `prefix` and `middle`, and `rest` is dropped |
| Generate.DefaultFormatParts | src/main.ts:42 | the default format puts a line break before the response and one after it |
| Generate.WriteFormat | src/main.ts:61-66 | the format writes leave prefix and suffix in place, with the position after the prefix |
| Generate.Stream | src/main.ts:75-77 | each streamed piece is written at the position, which moves past it, so the pieces land in order between prefix and suffix |
| Generate.GenerateText | src/main.ts:42-77 | the document ends up with the prefix, the whole response and the suffix at the start position, and the position right after the response |
| Generate.GenerateValue | src/main.ts:57-77 | the document's text is the old text with prefix, response and suffix spliced in at the start position's offset |

## Left out

- The chat-completion request in `src/chat-gpt.ts` is not part of this model: its stream becomes the sequence of pieces passed to `Generate.GenerateText`.
- The error, start and end callbacks, the `Notice` and the `console.log` calls are left out. They do not touch the document.
- Settings, command definitions, the pop-up menu and the input modal (`src/settings.ts`, `src/command.ts`, `src/popup-menu.ts`, `src/input-modal.ts`) are left out. They are user interface; the modal's answer is the `input` field of the environment.
- `processCommand`, which resolves each message of a command and hands them to `generateText`, is left out. It is glue code: the resolution of one message is `ReplacePlaceholder.ReplaceInline`.
- The clock, the active file and the editor state behind the variables table become fields of `ReplacePlaceholder.Environment`.
- Each variable function is modelled as returning the same string every time it is called.
- The `Promise` and `await` machinery is left out. The model is sequential, which matches the source's one-at-a-time awaits.
- Generate.Stream: it assumes that only this command's own writes change the document while the response streams in. In the source each `content` callback writes at the saved position, so an edit by the user or by a second command's stream in between shifts the text under that position; `Generate.GenerateText` carries the same assumption.
- Writer.Write: only `'\n'` breaks a line. If the editor also treats `'\r'` or `"\r\n"` as a line break, its line numbers and positions differ from the model's for text that holds them.
- `editor.setCursor` is represented by the position `Writer.WriteText` returns.
- The editor's handling of positions outside the document is left out. Every write is required to be at a position inside it, as the positions `generateText` computes are.
- Strings are sequences of Unicode characters, not UTF-16 code units. Lengths and positions differ for characters outside the Basic Multilingual Plane.
- `v in variables` in the source also finds names inherited from `Object.prototype`, such as `toString`. The model looks names up in the table only.
- `$<name>` and `$1`-style replacement patterns are not expanded. A string pattern has no capture groups, so `replace` inserts them as written, and `ReplacePlaceholder.Substitution` treats them and a lone `$` as literal text.
- Placeholder.ReplaceWithVariables: it does not state the output in the presence of resolvable placeholders directly. That is stated through `Placeholder.ReplaceTokensAt` and `Placeholder.ReplaceTokenResolves`.
- ReplacePlaceholder.ReplaceInline: its contract pins the calls and the match-free case only. The output with matches is stated through `ReplacePlaceholder.InlineAgrees` and `ReplacePlaceholder.SingleSlotInline`.
- Text.NonEmpty: its own contract does not fix the order of the kept pieces. `Text.NonEmptyAppend` does, together with its single-piece clause.
- ReplacePlaceholder.InlineAgrees: it states the agreement only when no `{` appears between matches and no value holds `{` or `$`. Outside those conditions `replace` can hit an earlier copy of the placeholder's text.

## Findings

| source | as written | input that shows it | evidently intended | confidence | as-written member | corrected member |
|---|---|---|---|---|---|---|
| src/placeholder.ts:65 | `result += value ?? text` appends the whole template when no candidate of a placeholder is registered | template `a{{X}}`, nothing registered: the result is `aa{{X}}` | the placeholder keeps its own text (`item.text`), giving `a{{X}}` | not executed | Placeholder.AsWrittenFallbackExample | Placeholder.ReplaceWithVariablesPerSlot |
| src/placeholder.ts:65 | `value ?? text` keeps a registered `""`, so a placeholder whose candidates all return `""` disappears | template `a{{X}}` with `X` returning `""`: the result is `a` | a placeholder no candidate of which gives a non-empty value keeps its own text, giving `a{{X}}` | not executed | Placeholder.BlankValueExample | Placeholder.ReplaceWithVariablesPerSlot |
| src/main.ts:202 | `result.replace(match[0], value!!)` reads `$` patterns in the variable's value | template `{{A}}` with `A` = `$&`: the result is `{{A}}` | the value is inserted as written, giving `$&` | not executed | ReplacePlaceholder.DollarValueExample | ReplacePlaceholder.InlineSlots |
