# ANSI rendering and copy stripping of the terminal component

This project models the two pieces of text processing in the `Terminal`
React component of the prettylogs site and proves properties about them.

- **The renderer** (`formatOutput`) turns terminal output into coloured
  spans. It splits the output on `"\n"`. Each line starts from the default
  style: colour class `text-gray-200`, not bold. It searches the line for SGR
  sequences `ESC [ <digits and semicolons>+ m` and emits the text before each
  one in the current style. It then applies the sequence's codes in order.
  Codes are compared as strings:
  - `"0"` resets colour and bold;
  - `"1"` sets bold and `"22"` clears it;
  - sixteen foreground codes (30-37, 90-97) select a colour class;
  - every other code is ignored.

  The text after the last sequence is emitted in the final style. A line that
  yields no span is drawn as one default span holding the raw line, or a space
  when the line is empty.
- **The copy stripper** (inside `handleCopy`) deletes every match of one fixed
  pattern for ANSI control sequences before the text goes to the clipboard.
  The pattern is an introducer (ESC or CSI), prefix characters, up to four
  digits per parameter group, and one final character. The matcher is written
  out by hand as the backtracking search a regular-expression engine performs:
  the leftmost start first, greedy quantifiers, and backtracking when what
  follows fails. Backtracking matters because the final character class
  contains the digits.

Module layout:

- `Text` (text.dfy): `split` on one separator character, `join`, and their
  laws.
- `Controls` (controls.dfy): the ESC and CSI characters and the text of an SGR
  sequence.
- `Sgr` (sgr.dfy): the colour table, the style state, and the effect of the
  codes.
- `Render` (render.dfy):
  - the renderer's pattern and its leftmost search;
  - the rendering of one line (`Scan`, `RenderLine`) and of the whole
    output (`RenderText`), as recursive functions;
  - the loops as the component runs them (`FormatLine`, `ApplyParams`,
    `FormatOutput`), each proved equal to the matching function.
- `Strip` (strip.dfy): the stripper's matcher and `Strip`, with what the copy
  keeps and deletes.
- `CopyPattern` (pattern.dfy): the stripper's pattern read as a language, and
  the matcher proved sound and complete against it.
- `Agreement` (agreement.dfy): how the display and the copy relate, with
  inputs on which they differ.
- `Scenarios` (scenarios.dfy): worked examples of whole outputs.

A span is modelled as `Segment(text, Style(colorClass, bold))`. JavaScript
strings are modelled as sequences of `char`, one per Unicode code point (see
"Left out").

## Model

| member | source | states |
|---|---|---|
| Text.SplitOn | app/components/Terminal.tsx:30 | `split` on one separator character: every separator ends a part and starts the next, empty parts are kept, and there is always at least one part |
| Text.SplitCount | app/components/Terminal.tsx:30 | `text.split("\n")` has one more part than the text has newlines |
| Text.JoinSplit | app/components/Terminal.tsx:30 | joining the parts with the separator gives back the text, so splitting loses nothing |
| Text.SplitAppend | app/components/Terminal.tsx:30 | the parts of `a + "\n" + b` are the parts of `a` followed by the parts of `b` |
| Text.SplitPartsLackSeparator | app/components/Terminal.tsx:76 | no part of `match[1].split(";")` contains a `;` |
| Text.SplitJoin | app/components/Terminal.tsx:76 | splitting undoes joining when no part holds the separator |
| Text.SplitTwo | app/components/Terminal.tsx:76 | a string with one separator splits into its two sides |
| Sgr.ApplyCode | app/components/Terminal.tsx:78-91 | one pass of the code loop: "0" resets to the default style, "1" sets bold, "22" clears it, a table key replaces the colour class; a code that does not set the colour keeps it, and one that does not set bold keeps the flag |
| Sgr.ApplyCodes | app/components/Terminal.tsx:77-92 | the codes of one sequence applied in list order, starting from the current style |
| Sgr.ApplyCodesValid | app/components/Terminal.tsx:58-59 | whatever the codes, the colour class stays the default or a table entry |
| Sgr.ColorIsLastColorCode | app/components/Terminal.tsx:76-92 | the colour after a code list is set by the last code that sets it ("0" meaning the default), and kept when there is none |
| Sgr.BoldIsLastBoldCode | app/components/Terminal.tsx:76-92 | bold after a code list is decided by the last of "0", "1", "22" (on only for "1"), and kept when there is none |
| Sgr.ApplyCodesAppend | app/components/Terminal.tsx:77-92 | codes apply in list order: two lists in turn act as their concatenation |
| Sgr.ResetForgetsHistory | app/components/Terminal.tsx:78-81 | a "0" makes the result independent of the starting state and of every code before it |
| Sgr.IgnoredCodesKeepStyle | app/components/Terminal.tsx:77-92 | codes outside "0", "1", "22" and the table leave the state unchanged |
| Sgr.ColorMapKeys | app/components/Terminal.tsx:37-54 | the table's keys are exactly 30-37 and 90-97 |
| Sgr.ControlCodesAreNotColors | app/components/Terminal.tsx:37-54 | "0", "1" and "22" are not table keys |
| Sgr.ResetThenRed | app/components/Terminal.tsx:76-92 | `"0;31"` ends red and not bold from any state |
| Sgr.BoldRedFromDefault | app/components/Terminal.tsx:58-59 | `"1;31"` from the line's starting state gives bold red |
| Render.SgrAt | app/components/Terminal.tsx:56 | whether the renderer's pattern matches at the start of the text, and with which parameters; the match is never longer than the text |
| Render.FindSgr | app/components/Terminal.tsx:61 | the next match of `exec`: its index and parameters, lying within the text |
| Render.Scan | app/components/Terminal.tsx:61-108 | the spans of the rest of a line: the text before the next match in the current style, then the rest after the match in the style its codes produce, and the trailing text in the final style; never more spans than characters |
| Render.SgrAtIff | app/components/Terminal.tsx:56 | the pattern matches at a position with parameters `p` exactly when the text there starts with `ESC [ p m` and `p` is a non-empty run of digits and semicolons |
| Render.SgrAtSgrText | app/components/Terminal.tsx:56 | every such sequence is matched in full, whatever follows |
| Render.FindSgrLeftmost | app/components/Terminal.tsx:61 | `exec` finds the leftmost match: the pattern matches at the index found and at no earlier index, and a failed search means no match anywhere |
| Render.FindSgrNoEsc | app/components/Terminal.tsx:61 | text without ESC holds no match |
| Render.FindSgrAfterPlain | app/components/Terminal.tsx:61 | after escape-free text, the next match is the sequence that follows it |
| Render.ScanAfterPlain | app/components/Terminal.tsx:63-92 | text before a sequence is drawn in the style before it; the rest continues in the style its codes produce |
| Render.ScanLeadingSgr | app/components/Terminal.tsx:61-92 | a sequence at the start of the text emits nothing, and the scan goes on after it in the style its codes produce |
| Render.ScanPlain | app/components/Terminal.tsx:98-108 | escape-free text is one span in the current style |
| Render.ScanUnmatched | app/components/Terminal.tsx:56 | a line where the pattern matches nowhere is kept literally, escapes included |
| Render.ScanWellFormed | app/components/Terminal.tsx:63-73 | no emitted span is empty, and every span's colour is one the renderer knows |
| Render.RemoveSgrFirstMatch | app/components/Terminal.tsx:61-94 | the visible text, defined position by position, keeps the text before the first match and drops the match |
| Render.RemoveSgrKeepsPlain | app/components/Terminal.tsx:56 | escape-free text stays in the visible text in front of what follows |
| Render.RemoveSgrDropsSgr | app/components/Terminal.tsx:56 | a matched sequence is dropped whole from the visible text |
| Render.ScanText | app/components/Terminal.tsx:61-108 | the spans' texts, concatenated in order, are the line with every match removed |
| Render.RenderLine | app/components/Terminal.tsx:61-117 | all spans of one line, starting from the default style; a line with no span gets the placeholder, so every line has at least one span |
| Render.RenderLineShape | app/components/Terminal.tsx:98-117 | a rendered line has at least one non-empty span in a known colour; its text is the visible text, or when that is empty the raw line, or a space for an empty line |
| Render.MapLinesAppend | app/components/Terminal.tsx:31 | `lines.map` over two lists in turn is the concatenation of the two maps |
| Render.RenderText | app/components/Terminal.tsx:30-31 | the output has one rendered line per newline plus one, so `""` gives one line |
| Render.RenderTextAppend | app/components/Terminal.tsx:58-59 | lines are rendered independently: no style carries over a newline |
| Render.FormatLine | app/components/Terminal.tsx:32-117 | the loop over `exec` pushes exactly the spans of `RenderLine` |
| Render.ApplyParams | app/components/Terminal.tsx:76-92 | the loop over the codes ends in the state the code list produces |
| Render.FormatOutput | app/components/Terminal.tsx:29-125 | the lines built by the component are `RenderText` of the output |
| Strip.MatchFinal | app/components/Terminal.tsx:20 | the final character class `[0-9A-ORZcf-nqry=><]` matches one character or fails |
| Strip.MatchMore | app/components/Terminal.tsx:20 | the `(;[0-9]{0,4})*` star followed by the final character: one more `;`-group is tried first, and the final character only when that path fails |
| Strip.MatchDigits | app/components/Terminal.tsx:20 | a greedy `[0-9]{lo,4}` followed by the rest of the pattern: all available digits first, then one fewer at a time while the rest fails |
| Strip.MatchBody | app/components/Terminal.tsx:20 | the optional parameter group followed by the final character: the group is tried first and skipped only when every path through it fails |
| Strip.MatchPrefix | app/components/Terminal.tsx:20 | `[[()#;?]*` followed by the body: each prefix character is taken if the rest still matches after it |
| Strip.MatchAt | app/components/Terminal.tsx:20 | the whole pattern at one position: an ESC or CSI, then the prefix characters and the body; the match is at least one character and lies within the text |
| Strip.Strip | app/components/Terminal.tsx:19-22 | `replace` with the global flag: scanning left to right, a match is deleted and the search resumes after it, and any other character is kept; the copy is never longer than the output |
| Strip.MatchAtBeforeIntroducer | app/components/Terminal.tsx:20 | a match that starts in `u` answers the same when ESC or CSI follows `u`: no match reaches past an introducer |
| Strip.StripBeforeIntroducer | app/components/Terminal.tsx:19-22 | the copy of `u` followed by text that starts with ESC or CSI is the copy of `u` followed by the copy of that text |
| Strip.StripIntroducerFinal | app/components/Terminal.tsx:19-22 | ESC or CSI followed by a final character other than a digit is a two-character match, whatever follows, and is deleted |
| Strip.StripDeletesOnly | app/components/Terminal.tsx:19-22 | the copy is a subsequence of the output and never longer |
| Strip.StripKeepsPlainPrefix | app/components/Terminal.tsx:19-22 | text without ESC or CSI is kept in front of whatever follows |
| Strip.StripPlain | app/components/Terminal.tsx:19-22 | output without ESC or CSI is copied unchanged |
| Strip.MatchPrefixFinalOnly | app/components/Terminal.tsx:20 | `ESC [ m` matches with no parameter group |
| Strip.MatchAtSgr | app/components/Terminal.tsx:20 | an SGR sequence whose groups have at most four digits each (`ESC [ m` included) is matched in full |
| Strip.StripLeadingSgr | app/components/Terminal.tsx:19-22 | such a sequence at the start of the output is deleted, and the copy goes on after it |
| Strip.StripSgr | app/components/Terminal.tsx:19-22 | such a sequence is deleted wherever it stands: the copy of `a`, the sequence and `b` is the copy of `a` followed by the copy of `b`, for every `a` and `b` |
| CopyPattern.MatchAtIsPattern | app/components/Terminal.tsx:20 | the matcher against the pattern read as a language: what it consumes is a match of the pattern, and when any text at that position is a match of the pattern it finds one |
| CopyPattern.KeptStartsNoMatch | app/components/Terminal.tsx:19-22 | a character the copy keeps starts no match of the pattern |
| Agreement.PlainStep | app/components/Terminal.tsx:19-22 | plain text is kept by both the copy and the display |
| Agreement.SequenceStep | app/components/Terminal.tsx:61-92 | a short SGR sequence is deleted by both, and the scan continues in the style of its codes |
| Agreement.CopyMatchesDisplay | app/components/Terminal.tsx:19-22 | on plain text and short SGR sequences, the copy and the visible text (the output with every renderer match removed) are the same plain text |
| Agreement.SegmentsSpellCopy | app/components/Terminal.tsx:61-108 | on such output the texts of the scanned spans spell out exactly what the copy holds |
| Agreement.RenderedLineSpellsCopy | app/components/Terminal.tsx:61-117 | on a line of such output that has some plain text, the rendered spans spell out exactly what the copy holds |
| Agreement.SequencesOnlyLine | app/components/Terminal.tsx:111-117 | a non-empty line of such output without plain text is drawn raw, escapes included, while its copy is empty |
| Agreement.ScanIsFold | app/components/Terminal.tsx:61-95 | the scan is a left fold over the pieces: each plain piece is emitted in the current style and each sequence updates it |
| Agreement.StripNotIdempotent | app/components/Terminal.tsx:19-22 | stripping twice can delete more than stripping once |
| Agreement.LongParameterKeepsM | app/components/Terminal.tsx:20 | `ESC[12345m` followed by plain text: the rendered line is the text alone in the default style, while the copy keeps `m` in front of the text |
| Agreement.FiveDigitsStopEarly | app/components/Terminal.tsx:20 | the stripper's group takes four digits and the fifth digit is the final character, whatever follows |
| Agreement.EmptyParametersDiffer | app/components/Terminal.tsx:20 | `ESC[m` is shown as text but deleted from the copy |
| Agreement.EscLetterDiffers | app/components/Terminal.tsx:20 | ESC followed by any final-class character other than a digit is kept in the visible text, but is a two-character match deleted from the copy |
| Scenarios.GreenText | app/components/Terminal.tsx:29-125 | `ESC[32m t ESC[0m` is one green span `t`; the copy is `t` |
| Scenarios.PlainLine | app/components/Terminal.tsx:29-125 | `"plain text"` is one default span and is copied unchanged |
| Scenarios.ErrorText | app/components/Terminal.tsx:29-125 | `ESC[1;31m t ESC[0m u` is `t` in bold red, then `u` in the default style; the copy is `t + u` |
| Scenarios.TwoLines | app/components/Terminal.tsx:30-31 | `"a\nb"` is two lines of one default span each |
| Scenarios.EmptyOutput | app/components/Terminal.tsx:111-117 | `""` is one line holding a space |
| Scenarios.EmptyLineBetween | app/components/Terminal.tsx:111-117 | an empty line between two lines is drawn as a space |
| Scenarios.StyleEndsWithLine | app/components/Terminal.tsx:58-59 | red set on one line does not reach the next |
| Scenarios.UnknownCodeIgnored | app/components/Terminal.tsx:88-91 | after `ESC[99m` the text keeps the style it had |
| Scenarios.BackgroundIgnored | app/components/Terminal.tsx:88-91 | in `ESC[31;41m` the background code 41 is ignored and the text is red |
| Scenarios.OnlySequence | app/components/Terminal.tsx:111-117 | a line made only of a sequence shows the raw line, escape included |
| Scenarios.NotRealSequence | app/components/Terminal.tsx:19-22 | `ESC notreal text` is shown literally, but the copy drops the ESC and the `n` |
| Scenarios.UnterminatedKept | app/components/Terminal.tsx:56 | `ESC[31x` has no closing `m` and is shown as it is |

## Properties the code does not have

A reader of the component would expect the copy to be a clean version of
what the screen shows. The code falls short of that in four ways; the model
follows the code and proves each gap on a concrete input.

- **Stripping is not idempotent** (`Terminal.tsx:19-22`, pattern on line 20).
  One `replace` pass can leave a new match behind: `ESC ESC A A` strips to
  `ESC A`, which a second pass deletes (`Agreement.StripNotIdempotent`).
- **The copy does not always hold the visible text.** The stripper's pattern
  (line 20) and the renderer's (line 56) match different sequences:
  - `ESC[12345m` is hidden by the renderer, but the stripper's groups take at
    most four digits, so the copy keeps the `m` (`Agreement.LongParameterKeepsM`);
  - `ESC[m` is shown by the renderer, whose pattern needs a parameter, but is
    deleted from the copy (`Agreement.EmptyParametersDiffer`);
  - ESC followed by any final-class character other than a digit is shown by
    the renderer, but deleted together with that character from the copy
    (`Agreement.EscLetterDiffers`).

  On output made of escape-free text and SGR sequences whose groups have at
  most four digits, the two agree: the visible text equals the copy
  (`Agreement.CopyMatchesDisplay`), and so do the rendered spans of a line
  with some plain text (`Agreement.RenderedLineSpellsCopy`).
- **Malformed sequences can lose characters in the copy** (line 20). The
  renderer shows `ESC notreal text` as it is, but the stripper deletes `ESC n`
  as a two-character sequence, so the copy is `otreal text`
  (`Scenarios.NotRealSequence`).
- **A line made only of sequences is shown raw but copied empty**
  (lines 111-117). The placeholder is used whenever no span was emitted, so
  such a line is drawn with its escapes, while the copy deletes every one of
  them (`Agreement.SequencesOnlyLine`, `Scenarios.OnlySequence`).

## Left out

- React keys (`lineIndex`, `segmentIndex`) are left out. So is the
  `className` string built from the colour class and the bold flag: a span is
  modelled by its colour class and bold flag. The placeholder span's class has
  no bold part; it is modelled as the default style, which is not bold.
- The clipboard write, the `copied` flag and its two-second timer are left
  out. They are effects and timers, not text processing.
- The colour lookup `colorMap[code]` tests truthiness. It is modelled as key
  membership. Every table value is a non-empty string, and a code holds only
  digits, so no key inherited from the object prototype can be looked up.
- Strings are sequences of Unicode code points (Dafny's `char`), while
  JavaScript strings are sequences of UTF-16 code units. Indices therefore
  differ for characters outside the Basic Multilingual Plane, and lone
  surrogates cannot be represented. No pattern, separator or table key
  involves a surrogate, so the modelled operations behave alike on both.
- The header, title, icons and layout of the component are left out, as are
  the page routes, `CodeBlock.tsx` and the routing table. They hold no text
  processing of their own.
