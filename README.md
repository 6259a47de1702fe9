# gccanalyze in Dafny

gccanalyze runs GCC over C and C++ files with many warnings turned on, then
post-processes the diagnostic text GCC writes. For each file it

- adds the file's own directory to the include path (`directory`);
- cuts the captured diagnostic block into warning messages (`split_warnings`).
  Each line is stripped of surrounding whitespace and blank lines are dropped.
  A message ends at a line that ends with `]` and contains `[-W`. A trailing
  run of lines with no such line is still one last message;
- drops every message that ends with ` shadows a member of 'this' [-Wshadow]`
  (`filter_shadow`). When fewer than two messages are left, it returns the
  empty string instead;
- writes to standard output either the raw block (GCC failed, or
  `--strict-shadow` was given) or the filtered text, always followed by a
  newline.

The project has four modules:

- `Strings` (`strings.dfy`) models the Python `str` operations the core uses:
  `strip()` with Python's whitespace set, `split('\n')`, `'\n'.join`,
  `endswith` and `in`.
- `Sequences` (`sequences.dfy`) holds the generic helpers: flattening, mapping
  each element to a sequence and concatenating, the filter comprehension and
  subsequences.
- `Segments` (`segments.dfy`) is segmentation for any element type and any
  closing test. `Segment` cuts a sequence after each closing element.
  `IsSegmentation` describes such a cut independently of `Segment`, and
  `SegmentationUnique` proves there is only one.
- `GccAnalyze` (`gccanalyze.dfy`) holds the program's own operations.
  - `Messages(text)` specifies `split_warnings`. It segments `Content(text)` by
    `IsTerminator` and joins each group with newlines. `Content(text)` is the
    stripped non-blank lines of `text`.
  - `SplitWarnings` is the loop itself, with its accumulator. It is proved to
    return `Messages(text)`.
  - `FilterShadow` is `filter_shadow` on top of `Messages`.
  - `Output` is what is written for one file.

## Model

| member | source | states |
|---|---|---|
| GccAnalyze.Directory | gccanalyze.py:33-36 | the result is never empty; it is `dirname(filename)` when that is non-empty, and `"."` when it is empty |
| GccAnalyze.Messages | gccanalyze.py:39-53 | the messages `split_warnings` yields, by definition: the stripped non-blank lines grouped by `Segments.Segment` after each terminator line, each group joined by newlines |
| GccAnalyze.IsTerminator | gccanalyze.py:48 | by definition, a line closes a message when it ends with `]` and contains `[-W` |
| GccAnalyze.Visible | gccanalyze.py:43-45 | by definition, what one physical line contributes: the line stripped, or nothing when the stripped line is empty |
| GccAnalyze.NonBlankLines | gccanalyze.py:42-45 | by definition, the contributions of the lines in order, via `Sequences.FlatMap` of `Visible` |
| GccAnalyze.Content | gccanalyze.py:42-45 | by definition, `NonBlankLines` of the block split on `'\n'`: the stripped non-blank lines the loop appends |
| GccAnalyze.SplitState | gccanalyze.py:41-50 | by definition, the loop state after `i` lines: the lines emitted so far followed by the accumulator are the stripped non-blank lines of those `i` lines; what was emitted is empty or ends with a closing line; the accumulator holds no closing line (the closing test is `IsTerminator` in `SplitWarnings`) |
| GccAnalyze.SplitWarnings | gccanalyze.py:39-53 | the accumulator loop over stripped lines returns exactly `Messages(warnings)`, the newline-joined groups of the non-blank stripped lines cut after each terminator line |
| GccAnalyze.SplitStep | gccanalyze.py:42-50 | one loop step keeps the loop invariant: a blank line changes nothing; a terminator line closes the current message; any other line is appended to it |
| GccAnalyze.CloseMessage | gccanalyze.py:48-50 | emitting the accumulator after a terminator line adds exactly one message, its lines joined by newlines, after the ones already emitted |
| GccAnalyze.MessagesSegmentContent | gccanalyze.py:39-53 | the lines of the messages are a segmentation of the content: non-empty groups that concatenate to the stripped non-blank lines in order, with terminators only as the last line of a group and ending every group but the last |
| GccAnalyze.MessagesUnique | gccanalyze.py:39-53 | any segmentation of the content by terminator lines gives the same messages |
| GccAnalyze.MessagesNonEmpty | gccanalyze.py:43-47 | every message is non-empty, and each of its lines is non-empty and stripped |
| GccAnalyze.MessagesEmptyIff | gccanalyze.py:42-45 | there are no messages exactly when the whole block is whitespace |
| GccAnalyze.MessagesWithoutTerminator | gccanalyze.py:52-53 | with no terminator line there is at most one message, namely all content lines joined by newlines |
| GccAnalyze.MessagesSingleWarning | gccanalyze.py:42-49 | a single line that is a terminator after stripping is one message, the stripped line |
| GccAnalyze.MessagesConcat | gccanalyze.py:42-50 | splitting `a + "\n" + b` gives the messages of `a` followed by those of `b` when `a` ends with a terminator line or has no content |
| GccAnalyze.MessagesLeadingWarning | gccanalyze.py:42-50 | a one-line warning at the head of a block is its first message, followed by the messages of the rest |
| GccAnalyze.MessagesTerminatedLine | gccanalyze.py:42-53 | a one-line warning followed by a newline is exactly one message |
| GccAnalyze.MessagesTwoWarnings | gccanalyze.py:42-53 | two newline-terminated one-line warnings are exactly two messages, each the stripped line |
| GccAnalyze.MessagesLength | gccanalyze.py:42-53 | joining the messages with newlines gives the content lines joined with newlines, and is never longer than the block |
| GccAnalyze.LinesOfJoinEach | gccanalyze.py:49 | splitting a joined message on newlines gives back its lines |
| GccAnalyze.JoinFlatten | gccanalyze.py:49 | joining the joined messages equals joining all their lines |
| GccAnalyze.JoinEach | gccanalyze.py:49 | one joined string per group, each the group joined by newlines |
| GccAnalyze.LinesEach | gccanalyze.py:49 | one line list per message, each the message split on newlines |
| GccAnalyze.JoinEachConcat | gccanalyze.py:49 | joining groups distributes over concatenation of group lists |
| GccAnalyze.JoinNonEmpty | gccanalyze.py:49 | a join whose first part is non-empty is non-empty |
| GccAnalyze.VisibleEmptyIff | gccanalyze.py:43-45 | a line is skipped exactly when it is all whitespace |
| GccAnalyze.NonBlankLinesSnoc | gccanalyze.py:42-47 | one more line adds its stripped form when it is not blank, and nothing otherwise |
| GccAnalyze.NonBlankLinesStep | gccanalyze.py:42-47 | the same fact for a prefix of the lines, as the loop sees it |
| GccAnalyze.NonBlankLinesSingle | gccanalyze.py:43-47 | a single line contributes its stripped form or nothing |
| GccAnalyze.NonBlankLinesConcat | gccanalyze.py:42-47 | dropping blank lines distributes over concatenation |
| GccAnalyze.NonBlankLinesStripped | gccanalyze.py:43-47 | there are no more survivors than lines, and every survivor is non-empty and stripped |
| GccAnalyze.NonBlankLinesAvoid | gccanalyze.py:43 | stripping introduces no character that was not in the lines |
| GccAnalyze.NonBlankLinesEmptyIff | gccanalyze.py:43-45 | nothing survives exactly when every line is whitespace |
| GccAnalyze.ContentLines | gccanalyze.py:42-47 | every content line is non-empty, stripped and contains no newline |
| GccAnalyze.ContentConcat | gccanalyze.py:42 | the content of `a + "\n" + b` is the content of `a` followed by that of `b` |
| GccAnalyze.ContentSingleLine | gccanalyze.py:42-45 | text without a newline is one line, stripped or skipped |
| GccAnalyze.ContentEmptyIff | gccanalyze.py:42-45 | there are no content lines exactly when the block is whitespace |
| GccAnalyze.WeightNonBlankLines | gccanalyze.py:42-47 | dropping and stripping lines never makes their joined length larger |
| GccAnalyze.ContentLength | gccanalyze.py:42-47 | the content joined by newlines is never longer than the block |
| GccAnalyze.IsMemberShadow | gccanalyze.py:65 | by definition, the `endswith(" shadows a member of 'this' [-Wshadow]")` test |
| GccAnalyze.Kept | gccanalyze.py:64-65 | by definition, a message passes the comprehension's test when it is non-empty and does not end with ` shadows a member of 'this' [-Wshadow]` |
| GccAnalyze.Survivors | gccanalyze.py:62-65 | by definition, the messages that pass `Kept`, in order, via `Sequences.Filter` |
| GccAnalyze.FilterShadow | gccanalyze.py:56-70 | by definition, the empty string when fewer than two messages survive, and otherwise the survivors joined by newlines; its properties are the `FilterShadow…` lemmas below |
| GccAnalyze.KeptMessages | gccanalyze.py:62-65 | on messages of a block, the `line and` test never drops anything: a message is kept exactly when it does not end with the shadow suffix |
| GccAnalyze.SurvivorsOfMessages | gccanalyze.py:62-65 | the survivors are a subsequence of the messages; none ends with the shadow suffix; every message that does not is among them, as many times as it occurs among the messages |
| GccAnalyze.FilterShadowAllOrNothing | gccanalyze.py:67-70 | the result is empty exactly when fewer than two messages survive, and is otherwise the survivors joined by newlines |
| GccAnalyze.FilterShadowNoLonger | gccanalyze.py:56-70 | the result is never longer than the joined messages, nor than the block |
| GccAnalyze.FilterShadowAllShadow | gccanalyze.py:62-68 | when every message is a member-shadow warning the result is empty |
| GccAnalyze.FilterShadowOneShadow | gccanalyze.py:62-70 | with exactly one member-shadow message at index k: empty for at most two messages, and otherwise the other messages in order, joined by newlines |
| GccAnalyze.FilterShadowTwoWithOneShadow | gccanalyze.py:62-68 | two messages, one of them a member-shadow warning, give the empty string: the legitimate warning is lost too |
| GccAnalyze.FilterShadowThreeWithOneShadow | gccanalyze.py:62-70 | three messages, one of them a member-shadow warning, give the other two joined by a newline |
| GccAnalyze.WeightFilter | gccanalyze.py:62-65 | dropping messages never makes their joined length larger |
| GccAnalyze.Output | gccanalyze.py:121-126 | the output always ends with a newline; before it is the raw block when GCC failed or in strict-shadow mode, and the filtered text otherwise |
| GccAnalyze.OutputShadowAndOneWarning | gccanalyze.py:121-126 | a successful run whose diagnostics are one member-shadow warning and one other warning writes only a newline |
| GccAnalyze.ShadowLineFacts | gccanalyze.py:48 | the sample member-shadow line has no newline, is stripped, is a terminator and ends with the shadow suffix |
| GccAnalyze.OtherLineFacts | gccanalyze.py:48 | the sample other warning has no newline, is stripped, is a terminator and is kept |
| GccAnalyze.ShadowSuffixFacts | gccanalyze.py:65 | the shadow suffix has no newline, ends with `]` and contains `[-W` at index 28 |
| Segments.Segment | gccanalyze.py:47-53 | by definition, the groups cut after each closing element, the last one possibly open, as the accumulator emits them |
| Segments.SegmentIsSegmentation | gccanalyze.py:42-53 | `Segment` cuts a sequence into a segmentation of it |
| Segments.SegmentationUnique | gccanalyze.py:42-53 | two segmentations of the same sequence by the same closing test are equal |
| Segments.SegmentConcat | gccanalyze.py:42-53 | segmentation distributes over concatenation whose first part is empty or ends with a closing element |
| Segments.SegmentSingle | gccanalyze.py:52-53 | a run with no closing element before its last is one group |
| Segments.SegmentEmptyIff | gccanalyze.py:52 | there are no groups exactly when there are no elements |
| Segments.ChunkLength | gccanalyze.py:48 | the first group runs up to and including the first closing element, or to the end when none closes |
| Segments.ChunkLengthConcat | gccanalyze.py:48-50 | appending after a closing element does not move the end of the first group |
| Sequences.FlatMap | gccanalyze.py:42-45 | by definition, the concatenation of what each element contributes, in order |
| Sequences.FlatMapConcat | gccanalyze.py:42-47 | concatenating what each element contributes distributes over concatenation of the elements |
| Sequences.Filter | gccanalyze.py:62-65 | by definition, the list comprehension `[x for x in xs if keep(x)]` |
| Sequences.FilterCount | gccanalyze.py:62-65 | every passing element is kept as often as it occurs in the input, and no other element is kept |
| Sequences.FilterKept | gccanalyze.py:62-65 | the comprehension adds nothing: every element it keeps passes the test and every element that passes is kept |
| Sequences.FilterSubsequence | gccanalyze.py:62-65 | the comprehension keeps order: its result is a subsequence of its input |
| Sequences.FilterConcat | gccanalyze.py:62-65 | filtering distributes over concatenation |
| Sequences.FilterAll | gccanalyze.py:62-65 | when every element passes, everything is kept |
| Sequences.FilterNone | gccanalyze.py:62-65 | when no element passes, nothing is kept |
| Sequences.FilterDropOne | gccanalyze.py:62-65 | when exactly the element at index k fails, the result is the input without it |
| Sequences.FlattenConcat | gccanalyze.py:49 | flattening distributes over concatenation |
| Sequences.FlattenMember | gccanalyze.py:49 | every element of every group is in the flattening |
| Sequences.FlattenNonEmptyGroups | gccanalyze.py:49 | the flattening of non-empty groups starts with the first group, followed by the flattening of the rest |
| Strings.IsSpace | gccanalyze.py:43 | by definition, the characters Python's `str.isspace` accepts, which `strip()` removes |
| Strings.Strip | gccanalyze.py:43 | `strip()` is never longer than its input and neither starts nor ends with whitespace; `StripSlice` states which slice it is |
| Strings.StripSlice | gccanalyze.py:43 | the stripped line is the slice of the line with only whitespace before and after it |
| Strings.TrimStart | gccanalyze.py:43 | dropping leading whitespace removes only whitespace and stops at the first non-space character |
| Strings.TrimStartIsSuffix | gccanalyze.py:43 | dropping leading whitespace gives a suffix of the input |
| Strings.TrimEnd | gccanalyze.py:43 | dropping trailing whitespace removes only whitespace and stops at the last non-space character |
| Strings.TrimEndIsPrefix | gccanalyze.py:43 | dropping trailing whitespace gives a prefix of the input |
| Strings.StripAvoid | gccanalyze.py:43 | stripping introduces no new character |
| Strings.StripStripped | gccanalyze.py:43 | stripping a stripped line changes nothing |
| Strings.StripEmptyIff | gccanalyze.py:43-44 | the stripped line is empty exactly when the line is all whitespace |
| Strings.Contains | gccanalyze.py:48 | by definition, Python's `sub in s`, tried at each index in turn |
| Strings.EndsWith | gccanalyze.py:48 | by definition, Python's `s.endswith(suffix)`: the last characters of `s` are `suffix` |
| Strings.ContainsIff | gccanalyze.py:48 | `sub in s` holds exactly when `sub` occurs at some index of `s` |
| Strings.Split | gccanalyze.py:42 | `split('\n')` gives at least one piece and no piece contains the separator |
| Strings.JoinSplit | gccanalyze.py:42 | joining the pieces with the separator gives back the text |
| Strings.SplitJoin | gccanalyze.py:42 | splitting a join of separator-free parts gives back the parts |
| Strings.SplitNoSeparator | gccanalyze.py:42 | text without the separator is one piece |
| Strings.SplitConcat | gccanalyze.py:42 | splitting `a + sep + b` gives the pieces of `a` followed by those of `b` |
| Strings.Join | gccanalyze.py:49 | by definition, Python's `sep.join(parts)`: the parts with `sep` between consecutive ones |
| Strings.JoinConcat | gccanalyze.py:49 | joining two non-empty lists of parts puts one separator between their joins |
| Strings.JoinLength | gccanalyze.py:49 | the length of a join is the sum of the part lengths plus one separator between consecutive parts |
| Strings.WeightConcat | gccanalyze.py:49 | that total length is additive over concatenation |
| Strings.AllSpaceConcat | gccanalyze.py:43-44 | a concatenation is whitespace exactly when both parts are |
| Strings.AllSpaceJoin | gccanalyze.py:42-44 | a join with a whitespace separator is whitespace exactly when every part is |

## Left out

- `main`'s argument parsing (gccanalyze.py:75-85) is not modelled: it is library behaviour with no logic of the program's own.
- The GCC command line (gccanalyze.py:87-113) is not modelled: it is a fixed flag list plus `-I` options.
- Running GCC and decoding its standard error as UTF-8 (gccanalyze.py:117-119) are I/O. `Output` takes the return code and the decoded text as parameters.
- The `--verbose` echo of the command (gccanalyze.py:115-116) is I/O and is left out.
- Writing to standard output (gccanalyze.py:122, 124-126) is modelled as the string `Output` returns.
- Directory: `os.path.dirname` is a function parameter. Its platform-dependent behaviour is not modelled, and it may itself return `"."`.
- SplitWarnings: `split_warnings` is a generator. The model returns the whole list at once, so laziness is not modelled.
- Python strings are sequences of code points. `IsSpace` follows Python's `str.isspace` set for `strip()`. No other Unicode behaviour is involved.

## Notes

- A successful run whose diagnostics are one member-shadow warning and one other warning writes only a newline: one survivor out of two is fewer than two (`OutputShadowAndOneWarning`).
