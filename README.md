# codeedit in Dafny

A model of the core of `codeedit`, an Android `EditText` subclass for editing
source code (Lua by default) with syntax highlighting, automatic indentation
and tab-width spans, together with the language and theme tables it reads.

The project has six modules, one file each:

- `textutil.dfy` (`TextUtil`): `removeNonAscii`, the line structure of a text, trailing-blank removal (`getCleanText`) and `String.indexOf`.
- `themes.dfy` (`Themes`): `CodeThemeDefinition` (its fields, the Error/Warning defaults, `GetColor`) and the `OneDarkTheme` palette.
- `languages.dfy` (`Languages`): `LuaLanguageDefinition` (name, extensions, the table of nine tokens) and how each token's pattern is matched.
- `spans.dfy` (`Spans`): what `clearSpans`, `convertTabs` and `highlight` leave on the `Editable`, written as functions over a sequence of spans.
- `indent.dfy` (`Indent`): `autoIndent`, as a specification function and as the imperative scan and copy loops, and the input filter.
- `editor.dfy` (`Editor`): the `CodeEditor` class, its fields and the methods that change them.

How the model represents the widget:

- **Text and spans.** The `Editable` is the widget's `text` field together
  with `spans`, the sequence of spans set on it, oldest first.
- **Span operations.** `setSpan` appends to that sequence and `removeSpan`
  deletes from it.
- **Matching.** Tokens whose pattern is a one-character class or an
  alternation of literal words are matched by the model itself, the way
  `Matcher.find()` scans for them. Every other token is matched by a
  `RegexOracle` function passed in as a parameter.
- **Colours.** A colour is the integer `0xFFRRGGBB`.

Where the code and its documented behaviour differ, the model follows the
code:

- **Comment copying.** `autoIndent` copies the start of the cursor's own
  line, from just after the last `\n` before the cursor up to `dend`. The
  comment case fires when three conditions hold:
  - the first non-blank character of that stretch is `/`;
  - at least one more character follows the `/` before `dend`;
  - the character at the cursor is not `\n`.

  `autoIndent` then copies the blanks, the `/` and the character after it,
  whatever that character is. `CodeEditor.java:374-379` compares a character
  with itself, so the test for `//` that was evidently meant never happens.
  `Indent.SlashQuirk` shows the effect for a newline typed between `x` and
  `y` in ` /xy`.
- **No tab after a value.** The trailing-operator test looks only at the
  last non-blank character before the cursor. So for `\tfoo = 1` it adds no
  tab, and neither does anything else. An unclosed `(` still adds a tab
  through the parenthesis count.
- **First line.** `autoIndent` copies nothing from the first line of the
  text. The copy is guarded by finding a `\n` before the cursor.
- **Error line past the end.** When `errorLine` is larger than the number of
  `\n` in the text, `Matcher.start()` throws after the failed `find()`.
  `highlight` catches that exception, so no background span and no
  foreground span is set, not even for the rules.
- **Error and Warning colours.** `GetColor` answers 0 for the `Error` and
  `Warning` roles even though those fields are set.

## Model

| member | source | states |
|---|---|---|
| TextUtil.IndexOf | src/main/java/com/hanprogramer/codeedit/CodeEditor.java:407 | `s.indexOf(c, from)`. The result is the first position at or after `from` that holds `c`, or -1 when there is no such position. |
| TextUtil.RemoveNonAscii | src/main/java/com/hanprogramer/codeedit/CodeEditor.java:72-74 | The result is never longer than the input. Every character in it is a tab, a newline or printable ASCII. |
| TextUtil.RemoveNonAsciiCounts | src/main/java/com/hanprogramer/codeedit/CodeEditor.java:72-74 | A kept character occurs in the result exactly as often as in the input. Any other character occurs 0 times. |
| TextUtil.RemoveNonAsciiAppend | src/main/java/com/hanprogramer/codeedit/CodeEditor.java:72-74 | Filtering distributes over concatenation, so the kept characters keep their order. |
| TextUtil.RemoveNonAsciiIdentity | src/main/java/com/hanprogramer/codeedit/CodeEditor.java:72-74 | A text made only of kept characters passes through unchanged. |
| TextUtil.RemoveNonAsciiIdempotent | src/main/java/com/hanprogramer/codeedit/CodeEditor.java:72-74 | Filtering twice gives the same result as filtering once. |
| TextUtil.TrimRightSpec | src/main/java/com/hanprogramer/codeedit/CodeEditor.java:41-43 | `[\t ]+$` on one line: the result is a prefix of the line, only blanks were removed, and the result does not end in a blank. |
| TextUtil.TrimRightOfTrimmed | src/main/java/com/hanprogramer/codeedit/CodeEditor.java:41-43 | Trimming a trimmed line changes nothing. |
| TextUtil.LinesSpec | src/main/java/com/hanprogramer/codeedit/CodeEditor.java:41-43 | A text has one more line than it has `\n`, and no line contains `\n`. |
| TextUtil.JoinLines | src/main/java/com/hanprogramer/codeedit/CodeEditor.java:41-43 | Joining the lines of a text with `\n` gives the text back. |
| TextUtil.LinesJoin | src/main/java/com/hanprogramer/codeedit/CodeEditor.java:41-43 | Splitting a `\n`-joined list of newline-free lines gives the list back. |
| TextUtil.CleanTextIsJoin | src/main/java/com/hanprogramer/codeedit/CodeEditor.java:139-143 | `getCleanText` is the text with each line trimmed, joined again with `\n`. |
| TextUtil.CleanTextLines | src/main/java/com/hanprogramer/codeedit/CodeEditor.java:139-143 | The lines of the clean text are the trimmed lines of the text. The number of `\n` is unchanged. |
| TextUtil.CleanTextIdempotent | src/main/java/com/hanprogramer/codeedit/CodeEditor.java:139-143 | Cleaning a clean text changes nothing. |
| Themes.MakeTheme | src/main/java/com/hanprogramer/codeedit/themes/CodeThemeDefinition.java:5-16 | Every theme starts with Error `#FF1919` and Warning `#FFE605`, opaque. `GetColor` answers, for each of the eight roles, the colour the subclass constructor assigned. |
| Themes.GetColorIsField | src/main/java/com/hanprogramer/codeedit/themes/CodeThemeDefinition.java:18-38 | For the eight roles of the switch, `GetColor` answers the role's own field. For Error and Warning it answers 0. With the default Error and Warning colours, it answers the role's field exactly when the role is one of the eight. |
| Themes.OneDark | src/main/java/com/hanprogramer/codeedit/themes/OneDarkTheme.java:6-15 | `GetColor` gives the One Dark palette for each of the eight roles. The Error and Warning defaults are kept. |
| Themes.OneDarkRolesDistinct | src/main/java/com/hanprogramer/codeedit/themes/OneDarkTheme.java:7-14 | Every palette colour is opaque. Two roles share a colour exactly when they are the two comment roles. |
| Languages.ClassMatchesSpec | src/main/java/com/hanprogramer/codeedit/languages/LuaLanguageDefinition.java:11-14 | Every `find()` match of a one-character class spans one character, and that character is in the class. |
| Languages.ClassMatchesWellFormed | src/main/java/com/hanprogramer/codeedit/languages/LuaLanguageDefinition.java:11-14 | The matches of a class lie inside the text, in increasing order and without overlap. |
| Languages.ClassMatchesCover | src/main/java/com/hanprogramer/codeedit/languages/LuaLanguageDefinition.java:11-14 | Every occurrence of a class character is matched. |
| Languages.WordAtSpec | src/main/java/com/hanprogramer/codeedit/languages/LuaLanguageDefinition.java:13 | When an alternative matches at a position, the matched text is one of the words. |
| Languages.AltMatchesSpec | src/main/java/com/hanprogramer/codeedit/languages/LuaLanguageDefinition.java:13 | Every match of an alternation is an occurrence of one of its words. |
| Languages.AltMatchesCover | src/main/java/com/hanprogramer/codeedit/languages/LuaLanguageDefinition.java:13 | Conversely, every occurrence of `and`, `not` or `or` at or after the loop's start is a match. |
| Languages.WordAtKeyword | src/main/java/com/hanprogramer/codeedit/languages/LuaLanguageDefinition.java:13 | Where a keyword occurs, the alternation matches exactly that keyword, because the three start with different letters. |
| Languages.KeywordsApart | src/main/java/com/hanprogramer/codeedit/languages/LuaLanguageDefinition.java:13 | A keyword matched at one position ends before any keyword occurring later, so a match never swallows a later occurrence. |
| Languages.LogicalKeywordMatchesEveryOccurrence | src/main/java/com/hanprogramer/codeedit/languages/LuaLanguageDefinition.java:13 | The `logicalKeyword` token matches every occurrence of `and`, `not` and `or`, inside a longer word or not. There is no word-boundary check. |
| Languages.AltMatchesWellFormed | src/main/java/com/hanprogramer/codeedit/languages/LuaLanguageDefinition.java:13 | The matches of an alternation lie inside the text, in increasing order and without overlap. |
| Languages.MatchesWellFormed | src/main/java/com/hanprogramer/codeedit/CodeEditor.java:277 | The `find()` loop of every rule yields ordered, non-overlapping, non-empty matches inside the text. For a regex rule this holds whenever the regex engine's matches for that pattern in that text do. |
| Languages.Lua | src/main/java/com/hanprogramer/codeedit/languages/LuaLanguageDefinition.java:7-22 | The language is named `lua`, has the single extension `.lua`, and has nine tokens. |
| Languages.LuaTable | src/main/java/com/hanprogramer/codeedit/languages/LuaLanguageDefinition.java:9-22 | The tokens' names are in table order, each with its colour role. The three operator tokens are exactly rules 1, 2 and 4. |
| Languages.LuaOperatorRulesMatchOneChar | src/main/java/com/hanprogramer/codeedit/languages/LuaLanguageDefinition.java:11-14 | The operator, logicalOperator and miscOperator tokens are single-character classes with the listed characters. They match exactly the occurrences of those characters. |
| Languages.PercentMatchedTwice | src/main/java/com/hanprogramer/codeedit/languages/LuaLanguageDefinition.java:11-14 | `%` is in both the operator class and the miscOperator class, so it is painted twice, in the Operator colour both times. |
| Languages.LogicalKeywordInsideWords | src/main/java/com/hanprogramer/codeedit/languages/LuaLanguageDefinition.java:13 | `and\|not\|or` also matches inside words: `or` in `for`, `and` in `band`. |
| Languages.LuaStringAndCommentsAfterOperators | src/main/java/com/hanprogramer/codeedit/languages/LuaLanguageDefinition.java:10-21 | Every operator rule comes before the string and comment rules in the table. |
| Spans.OfKind | src/main/java/com/hanprogramer/codeedit/CodeEditor.java:294-318 | The spans of one class: each element has that class and is on the Editable, and every such span is kept. |
| Spans.ClearLeavesTabSpans | src/main/java/com/hanprogramer/codeedit/CodeEditor.java:294-318 | Removing the foreground spans and then the background spans leaves exactly the tab-width spans, in their order. |
| Spans.LinesFromShape | src/main/java/com/hanprogramer/codeedit/CodeEditor.java:39-40 | Each `.*\n` match from a position starts at that position or just after a `\n`, and runs up to and including the next `\n`, with no other `\n` inside. |
| Spans.LinesFromCount | src/main/java/com/hanprogramer/codeedit/CodeEditor.java:39-40 | From any position, `.*\n` matches as many times as `\n` occurs after that position. |
| Spans.LineMatchesAreNewlineTerminatedLines | src/main/java/com/hanprogramer/codeedit/CodeEditor.java:257-262 | There is one line match per `\n`. The k-th line match starts at 0 or just after a `\n`, has k-1 `\n` before it, and runs up to and including the next `\n` with no other inside: it is exactly line k with its `\n`. |
| Spans.PendingStep | src/main/java/com/hanprogramer/codeedit/CodeEditor.java:406-414 | One turn of the `convertTabs` loop: with no further tab before `stop`, nothing more is set. Otherwise a span goes on the next tab, and the search resumes after it. |
| Spans.TabSpansExact | src/main/java/com/hanprogramer/codeedit/CodeEditor.java:399-415 | Every span `convertTabs` sets is a one-character tab-width span of `tabWidth` on a `\t` in `[start, start+count)`. The spans come in increasing position order. With a width below 1, none is set. |
| Spans.TabSpansCover | src/main/java/com/hanprogramer/codeedit/CodeEditor.java:399-415 | With a width of at least 1, every `\t` in `[start, start+count)` gets a tab-width span. |
| Spans.RuleSpansPrefix | src/main/java/com/hanprogramer/codeedit/CodeEditor.java:276-284 | The spans of the first n rules are a prefix of all emitted spans. Their count is the offset where rule n starts. |
| Spans.RuleSpansStep | src/main/java/com/hanprogramer/codeedit/CodeEditor.java:276-284 | Each turn of the outer loop appends the spans of one rule's matches. |
| Spans.RuleSpanPlace | src/main/java/com/hanprogramer/codeedit/CodeEditor.java:276-284 | The span of match a of rule i lies inside rule i's stretch of the emitted spans. |
| Spans.RuleSpanAt | src/main/java/com/hanprogramer/codeedit/CodeEditor.java:276-284 | Match a of rule i becomes the emitted span at `Offset(i) + a`: a foreground span over exactly the match, in the colour of the rule's role. |
| Spans.EarlierRuleEmittedFirst | src/main/java/com/hanprogramer/codeedit/CodeEditor.java:276-284 | Every span of an earlier rule is set before every span of a later rule. So on overlap, the later rule's span is the one painted last. |
| Spans.RuleSpanOrigin | src/main/java/com/hanprogramer/codeedit/CodeEditor.java:276-284 | Every emitted rule span comes from some match of some rule, and it is that match's span in that rule's colour. |
| Spans.RuleSpansForeground | src/main/java/com/hanprogramer/codeedit/CodeEditor.java:278-282 | The rule loop sets only foreground-colour spans. |
| Spans.RuleSpansInBounds | src/main/java/com/hanprogramer/codeedit/CodeEditor.java:276-284 | Every rule span is non-empty and lies inside the text, given a regex engine whose matches for the rules' regex patterns in that text do. |
| Spans.ErrorLineSpans | src/main/java/com/hanprogramer/codeedit/CodeEditor.java:257-269 | The error-line step sets at most one span, a background span in `colorError`. |
| Spans.HighlightSpanKind | src/main/java/com/hanprogramer/codeedit/CodeEditor.java:245-292 | A highlight pass sets only colour spans. Its only background span is the first one, and it exists only when `errorLine > 0`. |
| Spans.ErrorLineBackground | src/main/java/com/hanprogramer/codeedit/CodeEditor.java:257-289 | For a non-empty text and `errorLine > 0`: past the last `\n` nothing at all is set, because `highlight` catches the exception. Otherwise the first span is the `colorError` background over exactly line `errorLine` with its `\n`: it starts at 0 or just after a `\n`, has `errorLine - 1` `\n` before it, and ends just after the next `\n`. The rule spans follow. |
| Spans.ErrorLineThree | src/main/java/com/hanprogramer/codeedit/CodeEditor.java:257-269 | In `a\nb\nc\nd\ne\n`, error line 3 is `c\n`, so the background span covers [4, 6). |
| Spans.NoErrorLineNoBackground | src/main/java/com/hanprogramer/codeedit/CodeEditor.java:257-269 | With `errorLine <= 0`, every span set is a foreground span. |
| Spans.HighlightKeepsTabSpans | src/main/java/com/hanprogramer/codeedit/CodeEditor.java:245-318 | After a highlight pass, the tab-width spans on the Editable are the same as before it. |
| Spans.HighlightSpansInBounds | src/main/java/com/hanprogramer/codeedit/CodeEditor.java:245-292 | Every span a highlight pass sets is non-empty and lies inside the text, given a regex engine whose matches for the rules' regex patterns in that text are in bounds and ordered. |
| Indent.LastNewlineSpec | src/main/java/com/hanprogramer/codeedit/CodeEditor.java:326-337 | The backward scan stops at the last `\n` before the cursor, or at -1 when there is none. |
| Indent.LastNewlineIs | src/main/java/com/hanprogramer/codeedit/CodeEditor.java:326-337 | Any position with those two properties is the one the scan finds. |
| Indent.LevelCons | src/main/java/com/hanprogramer/codeedit/CodeEditor.java:339-362 | Scanning one more character changes the counter this way: `)` adds one and `(` subtracts one. The last non-blank character of the line subtracts one more when it is one of `{+-*/%^=`. |
| Indent.SkipBlanksSpec | src/main/java/com/hanprogramer/codeedit/CodeEditor.java:370-385 | The copy loop stops at the first non-blank character, or at `dend`. |
| Indent.CopyEndShape | src/main/java/com/hanprogramer/codeedit/CodeEditor.java:365-388 | With a `\n` at the cursor, the copy is the run of blanks that starts the line. Otherwise it may instead end with a `/` and the character after it, behind blanks. |
| Indent.SlashCopiesTwo | src/main/java/com/hanprogramer/codeedit/CodeEditor.java:370-380 | Conversely, when the character at the cursor is not `\n` and the first non-blank of the line is a `/` with one more character before `dend`, the copy ends two past the `/`, whatever that character is. |
| Indent.ScanLine | src/main/java/com/hanprogramer/codeedit/CodeEditor.java:326-363 | The imperative scan yields the last `\n` before the cursor and the counter `pt` of the text between that `\n` and the cursor. |
| Indent.AutoIndent | src/main/java/com/hanprogramer/codeedit/CodeEditor.java:320-397 | The imperative `autoIndent` returns the typed text followed by the indentation that `Indentation` specifies. |
| Indent.CopiedRun | src/main/java/com/hanprogramer/codeedit/CodeEditor.java:365-388 | What is copied is a prefix of the line after the cursor's line start, up to `dend`. It is all blanks, or blanks then `/` and one more character. |
| Indent.FirstLineCopiesNothing | src/main/java/com/hanprogramer/codeedit/CodeEditor.java:366 | On the first line nothing is copied. The indentation is only the extra tab, when the counter is negative. |
| Indent.NewlineAtCursorCopiesLeadingBlanks | src/main/java/com/hanprogramer/codeedit/CodeEditor.java:365-393 | With a `\n` at the cursor, the indentation is the line's leading blanks plus a tab when the counter is negative. |
| Indent.EarlierLinesIgnored | src/main/java/com/hanprogramer/codeedit/CodeEditor.java:332-337 | The indentation depends only on the text from the last `\n` before the cursor onwards. |
| Indent.OpenParenthesisIndents | src/main/java/com/hanprogramer/codeedit/CodeEditor.java:356-393 | A newline after `\tf(` gets two tabs: the copied one plus one for the open parenthesis. |
| Indent.ValueDoesNotIndent | src/main/java/com/hanprogramer/codeedit/CodeEditor.java:339-353 | A newline after `\tx=1` gets only the copied tab. An operator inside the line does not count. |
| Indent.TrailingOperatorIndents | src/main/java/com/hanprogramer/codeedit/CodeEditor.java:339-353 | A newline after `\tx=` gets two tabs, because the line ends in an operator. |
| Indent.SlashQuirk | src/main/java/com/hanprogramer/codeedit/CodeEditor.java:373-380 | A newline typed between `x` and `y` in the line ` /xy` copies ` /x`. A single `/` followed by any character triggers the comment copy. |
| Indent.FilterOnlyAppends | src/main/java/com/hanprogramer/codeedit/CodeEditor.java:160-173 | The filter's result always starts with the typed text. It differs from it only for a single `\n` typed in modified mode before the end of the text. |
| Editor.CodeEditor.constructor | src/main/java/com/hanprogramer/codeedit/CodeEditor.java:59-70 | A new widget has the Lua language and the One Dark theme, no listener, and `errorLine` 0. It is not dirty but is in modified mode, with `colorError` 0 and both tab widths 0. |
| Editor.CodeEditor.SetOnTextChangedListener | src/main/java/com/hanprogramer/codeedit/CodeEditor.java:86-88 | Installs or removes the listener, and nothing else. |
| Editor.CodeEditor.SetTabWidth | src/main/java/com/hanprogramer/codeedit/CodeEditor.java:94-101 | The same width in characters is a no-op. A new one stores the width and sets the pixel width to the rounded product with the width of an `m`. |
| Editor.CodeEditor.HasErrorLine | src/main/java/com/hanprogramer/codeedit/CodeEditor.java:103-105 | True exactly when `errorLine > 0`. |
| Editor.CodeEditor.SetErrorLine | src/main/java/com/hanprogramer/codeedit/CodeEditor.java:107-109 | Stores the error line and changes nothing else. |
| Editor.CodeEditor.IsModified | src/main/java/com/hanprogramer/codeedit/CodeEditor.java:115-117 | Reports the `dirty` flag, not the `modified` one. |
| Editor.CodeEditor.RemoveAll | src/main/java/com/hanprogramer/codeedit/CodeEditor.java:302-304 | The backward removal loop deletes exactly the spans of one class and keeps the others in order. |
| Editor.CodeEditor.ClearSpans | src/main/java/com/hanprogramer/codeedit/CodeEditor.java:294-318 | `clearSpans` leaves exactly the tab-width spans, in their order. |
| Editor.CodeEditor.FindLine | src/main/java/com/hanprogramer/codeedit/CodeEditor.java:257-262 | The counted `find()` loop, each `find()` going from the matcher's position to the next `\n`, stops on line match number `errorLine`. When the text has fewer lines, a `find()` fails and there is no match. |
| Editor.CodeEditor.ColorMatches | src/main/java/com/hanprogramer/codeedit/CodeEditor.java:277-283 | The inner loop appends one foreground span per match, in the token's colour. |
| Editor.CodeEditor.ColorRules | src/main/java/com/hanprogramer/codeedit/CodeEditor.java:276-284 | The outer loop appends the spans of every rule, in table order. |
| Editor.CodeEditor.HighlightWith | src/main/java/com/hanprogramer/codeedit/CodeEditor.java:245-292 | `highlight` keeps the tab spans and appends what a highlight pass sets, including the early return for an empty text and the caught exception. |
| Editor.CodeEditor.Highlight | src/main/java/com/hanprogramer/codeedit/CodeEditor.java:245-292 | The same, with the widget's own error line, error colour, theme and tokens. |
| Editor.CodeEditor.HighlightWithoutChange | src/main/java/com/hanprogramer/codeedit/CodeEditor.java:239-243 | Re-highlights the widget's text and leaves modified mode on. |
| Editor.CodeEditor.UpdateHighlighting | src/main/java/com/hanprogramer/codeedit/CodeEditor.java:111-113 | Re-highlights the widget's own text. |
| Editor.CodeEditor.AddTabSpans | src/main/java/com/hanprogramer/codeedit/CodeEditor.java:399-415 | The imperative `convertTabs` loop appends exactly the tab spans that `TabSpans` specifies. |
| Editor.CodeEditor.ConvertTabs | src/main/java/com/hanprogramer/codeedit/CodeEditor.java:399-415 | `convertTabs` on the widget's own spans. |
| Editor.CodeEditor.AfterTextChanged | src/main/java/com/hanprogramer/codeedit/CodeEditor.java:198-209 | Tab spans are set on the new characters. In modified mode the widget also becomes dirty and is re-highlighted. Otherwise nothing else changes. |
| Editor.CodeEditor.Filter | src/main/java/com/hanprogramer/codeedit/CodeEditor.java:160-173 | The input filter answers exactly as `FilterResult` specifies. |
| Editor.CodeEditor.Replace | src/main/java/com/hanprogramer/codeedit/CodeEditor.java:149-154 | The filtered text replaces the range. Then the watcher sets tab spans on it and, in modified mode, marks the widget dirty and re-highlights. Replacing an empty range by an empty text changes nothing and tells no watcher. |
| Editor.CodeEditor.InsertTab | src/main/java/com/hanprogramer/codeedit/CodeEditor.java:145-155 | A `\t` replaces the selection, whichever end is first. The new tab gets its span and the watcher runs. |
| Editor.CodeEditor.ShownSpans | src/main/java/com/hanprogramer/codeedit/CodeEditor.java:130-131 | The spans of the new text: a highlight pass with no error line, then tab spans on every tab of the text. |
| Editor.CodeEditor.SetTextHighlighted | src/main/java/com/hanprogramer/codeedit/CodeEditor.java:119-137 | Null counts as empty. The text becomes its ASCII-filtered form, highlighted with no error line and with tab spans on its tabs. The widget ends clean and in modified mode, and the listener, if any, is sent the filtered text. |
| Editor.CodeEditor.GetCleanText | src/main/java/com/hanprogramer/codeedit/CodeEditor.java:139-143 | Answers the text with the blanks at the end of every line removed. |
| Editor.AfterChangeSpans | src/main/java/com/hanprogramer/codeedit/CodeEditor.java:198-209 | After an edit in modified mode, the tab spans are the old ones followed by those of the new characters. All other spans are the fresh highlight. |
| Editor.HighlightTwice | src/main/java/com/hanprogramer/codeedit/CodeEditor.java:245-292 | Highlighting a second time leaves the spans of highlighting once. |
| Editor.TypedNewline | src/main/java/com/hanprogramer/codeedit/CodeEditor.java:160-173 | A `\n` typed in modified mode before the end of the text is followed by its line's indentation. Typed at the end or outside modified mode, it goes in as typed. |

## Left out

- The update `Handler`, `updateRunnable`, `cancelUpdate`, `setUpdateDelay` and `updateDelay`: they delay highlighting, and the only call that posts the runnable is commented out in the source, so no observable behaviour is lost.
- `setSyntaxColors` has an empty body, so `colorError`, `colorNumber`, `colorKeyword`, `colorBuiltin` and `colorComment` keep Java's default 0. Only `colorError` is read; it is a field that no method assigns.
- The view calls in `init` are left out: `setHorizontallyScrolling`, `setBackgroundColor`, and the registration of the filter and of the watcher. Drawing a `TabWidthSpan` is left out too. They only affect rendering.
- The watcher's `beforeTextChanged` does nothing, and its `onTextChanged` only records `start` and `count`. The model passes those two values to `AfterTextChanged` directly.
- The regular-expression engine is the `RegexOracle` parameter. This covers the number, keyword, string and comment tokens, and the compilation done in `Token`. The model proves nothing about what these tokens match beyond what the oracle is assumed to give.
- Lines end only at `\n`. Java's `.` does not match `\r`, `\u0085`, `\u2028` or `\u2029`, and in MULTILINE mode `$` also matches before them; the model does not model those terminators.
- Positions count characters, that is Unicode scalar values, not UTF-16 code units. This covers the filter's `dstart`/`dend`, the watcher's `start`/`count`, `Editable.replace`, `setSpan` and `Matcher.start()`/`end()`. The input filter keeps non-ASCII text; only `setTextHighlighted` strips it. So after a typed character outside the Basic Multilingual Plane, every later position in the program is one higher than in the model.
- Editor.CodeEditor.Replace: spans set before an edit are not moved. Android's `Editable` shifts, stretches or drops them when text is inserted or deleted before or inside them.
- Overlapping spans: the model keeps every span in the order it was set. It does not model how Android resolves overlaps when drawing.
- Editor.CodeEditor.InsertTab: requires both selection ends inside the text. With no selection (-1), `Editable.replace` throws, and the model does not cover that case.
- Editor.CodeEditor.SetTabWidth: `measureText("m")` is the `mWidth` parameter. The product is rounded as an exact real, not as a 32-bit float.
- Editor.CodeEditor.SetTextHighlighted: the window in which `modified` is false during `setText` is not observable from outside, so only the final state is stated. `cancelUpdate` is left out with the Handler. `setText`'s own run of the input filter is not modelled, because its destination is empty and the filter's guard fails.
- Themes.OneDark: `Color.parseColor` gives a negative Java `int`. The model uses the unsigned value `0xFFRRGGBB`, which has the same 32 bits.
- Spans.TabSpans: `start + count` is computed without 32-bit wrap-around, and positions and widths are unbounded integers.
- `CodeLanguageDefinition`, `ThemeColorName` and the Android classes are not part of this model. Only the fields and enum values the core uses appear, as datatypes.
