# WER_POC core, modelled in Dafny

WER_POC is a small tool for marking errors in transcribed text and scoring
them, in the style of word error rate. This project models its three core
composables and proves what they promise.

- **Segmenter** (`useTextParser.ts`).
  - `parseText` splits a text on `'\n'`, drops the lines whose `trim()` is empty, and cuts each kept line into segments with the platform word segmenter.
  - Whitespace-only tokens are skipped. Tokens made only of characters from one of the two punctuation classes are marked deleted; a token mixing the classes is not. Every segment starts with `isError = false`.
  - Ids `line-N` and `seg-N` come from two module-level counters. `parseText` resets them; `reParseLine` does not.
  - The model is the class `TextParser.Parser`. Its fields are the two counters and the word segmenter.
  - `tokenizeLine` and `parseText` are methods with loops. Each is proved equal to a recursive specification function (`Tokenized`, `Parse`). The properties are lemmas about those functions.
- **Scoring** (`useScoring.ts`).
  - `getLineStats` counts the segments that are not deleted and the errors among them.
  - `getTotalStats` picks a 1-based, inclusive range of lines with `Array.prototype.slice`, sums the counts in a loop, and derives the correct and error rates. When no segment is counted (none, or all of them deleted) it reports 100% correct.
  - The model is the function `Scoring.GetLineStats` and the method `Scoring.GetTotalStats`. The method's loop carries an invariant that ties it to the recursive sum `Totals`.
- **Undo history** (`useHistory.ts`).
  - A stack of at most 50 snapshots. `saveState` pushes on top and then drops the oldest entry if the cap is exceeded. `undo` pops the newest. `canUndo` and `clearHistory` are also modelled.
  - The model is the class `History.HistoryStore`, whose field is a `seq<HistoryState>`. The stack functions `Pushed`, `Top`, `Pop`, `PushAll` and `Window` specify it.

The shared records (`Segment`, `TextLine`, `LineStats`, `TotalStatsData`,
`HistoryState`) are in `Types`. `JsText` models the JavaScript string
primitives the segmenter relies on:

- the whitespace class of `trim()` and `\s`;
- `split('\n')` and its inverse `join('\n')`;
- the decimal rendering of a counter in a template literal.

The word segmenter (`Intl.Segmenter('zh-TW', { granularity: 'word' })`) is a
foreign library. It enters the model as a function-valued field,
`WordSegmenter = string -> seq<Piece>`. No lemma assumes anything about it,
except the offset lemmas, which state as a precondition that its pieces
are slices of the line at their index, left to right.

As written, the full-width punctuation class contains the ASCII quotes `"`
and `'` (the bytes 0x22 and 0x27), not curly quotes. The ASCII class
contains them too. The model keeps the classes exactly as the source has
them. So a lone curly quote such as U+201C is not punctuation, and it counts
as a scored segment.

## Model

| member | source | states |
|---|---|---|
| TextParser.Parser.constructor | src/composables/useTextParser.ts:3-4 | Both counters start at zero. |
| TextParser.Parser.GenerateSegmentId | src/composables/useTextParser.ts:6-8 | The segment counter goes up by one first, and the id is `seg-` followed by the new value. The line counter is untouched. |
| TextParser.Parser.GenerateLineId | src/composables/useTextParser.ts:10-12 | The line counter goes up by one first, and the id is `line-` followed by the new value. The segment counter is untouched. |
| TextParser.Parser.ResetIdCounters | src/composables/useTextParser.ts:14-17 | Both counters are zero afterwards. |
| TextParser.IsPunctuation | src/composables/useTextParser.ts:20-27 | `isPunctuation`: the token is non-empty and made only of characters of the full-width class, or only of the ASCII class. The two classes are `ChinesePunctuation` (line 22) and `EnglishPunctuation` (line 24), transcribed character for character. |
| TextParser.PunctuationIsNeverWhitespace | src/composables/useTextParser.ts:38-43 | A punctuation token is never whitespace-only, so the deleted mark and the whitespace skip never compete for the same token. |
| TextParser.MixedTokenIsNotPunctuation | src/composables/useTextParser.ts:20-27 | A token holding a character only the full-width class has and a character only the ASCII class has is not punctuation. |
| TextParser.ForeignCharIsNotPunctuation | src/composables/useTextParser.ts:20-27 | A token with any character outside both classes is not punctuation. |
| TextParser.PunctuationExamples | src/composables/useTextParser.ts:20-27 | `，。`, `...` and `"` are punctuation. |
| TextParser.NotPunctuationExamples | src/composables/useTextParser.ts:20-27 | `abc!` and the empty token are not punctuation, because the classes are anchored and need at least one character. |
| TextParser.MakeSegment | src/composables/useTextParser.ts:45-52 | The record pushed for a kept piece: id `seg-n`, the piece's text, `isError = false`, `isDeleted` from `isPunctuation`, and `startIndex`/`endIndex` from the piece's index and the text's length. |
| TextParser.Parser.TokenizeLine | src/composables/useTextParser.ts:29-56 | The loop returns exactly `Tokenized(segmenter(text), counter)`. The segment counter advances by the number of segments, and the line counter is untouched. |
| TextParser.KeptMembers | src/composables/useTextParser.ts:36-40 | A piece is kept if and only if it is a piece of the line that is not whitespace-only. |
| TextParser.TokenizedShape | src/composables/useTextParser.ts:36-53 | There is one segment per kept piece, in order. The k-th segment is minted from the k-th kept piece with id `seg-(counter+k+1)`. |
| TextParser.TokenizedSegments | src/composables/useTextParser.ts:38-51 | No emitted segment is whitespace-only. Each one carries a piece's text and index, has `endIndex = startIndex + length`, has `isError = false`, and is deleted exactly when it is punctuation. The ids count on from the counter. |
| TextParser.NumberedDistinct | src/composables/useTextParser.ts:6-8 | Segments numbered on from one counter value have pairwise distinct ids. |
| TextParser.TokenizedIdsDistinct | src/composables/useTextParser.ts:46 | Ids minted within one tokenisation are pairwise distinct. |
| TextParser.KeptWellFormed | src/composables/useTextParser.ts:36-40 | Skipping whitespace pieces keeps a well-behaved segmenter's output well behaved: the kept pieces are still slices of the line, left to right. |
| TextParser.TokenizedOffsets | src/composables/useTextParser.ts:50-51 | For a word segmenter that reports slices left to right, every segment's offsets lie inside the line and spell the segment's text there. Segments do not overlap. |
| TextParser.IsBlank | src/composables/useTextParser.ts:66 | `line.trim() === ''`. `JsText.TrimEmptyIffAllWhitespace` characterises it. |
| TextParser.NonBlankMembers | src/composables/useTextParser.ts:64-68 | A row is kept if and only if it is a row of the input whose `trim()` is not empty. |
| TextParser.BuildLinesShape | src/composables/useTextParser.ts:64-75 | The loop emits one line per kept row, in order. Each line holds its row verbatim, with ids counting on from the line counter. |
| TextParser.BuildLinesSegments | src/composables/useTextParser.ts:70-74 | Each emitted line's segments are the tokenisation of its own text, numbered after the segments of the lines above it. |
| TextParser.TokenizedLinesFromPieces | src/composables/useTextParser.ts:73 | Every segment of such lines comes from a non-blank piece of its own line, as `TokenizedSegments` describes. |
| TextParser.BuildLinesSegmentIds | src/composables/useTextParser.ts:70-74 | Across all lines, in reading order, the segment ids count on from the segment counter without gaps. |
| TextParser.BuildLinesOffsets | src/composables/useTextParser.ts:50-51 | Every line's segment offsets are valid in that line, whenever the word segmenter is well behaved on every row. |
| TextParser.Parser.ParseText | src/composables/useTextParser.ts:58-78 | The method returns exactly `Parse(segmenter, text)`. The line ids are `line-1 … line-n`. Afterwards the line counter equals the number of lines and the segment counter equals the number of segments. |
| TextParser.ParseLines | src/composables/useTextParser.ts:58-75 | There is one line per non-blank piece of `text.split('\n')`, in order, holding that piece verbatim. The ids are `line-1 … line-n` in output order. |
| TextParser.ParseDropsBlankLines | src/composables/useTextParser.ts:61-68 | No output line is whitespace-only, and every row of the input that is not whitespace-only appears as a line. |
| TextParser.ParseSegmentIds | src/composables/useTextParser.ts:59 | The segment ids of one parse are `seg-1 … seg-m` in reading order, so they are pairwise distinct. |
| TextParser.ParseSegments | src/composables/useTextParser.ts:70-74 | Each parsed line's segments are the tokenisation of its own text, numbered after the lines above. Every segment is a non-blank piece the segmenter found in that line. |
| TextParser.ParseOffsets | src/composables/useTextParser.ts:50-51 | For a well-behaved word segmenter, every segment of every parsed line is well placed in the line's text. |
| TextParser.ParseExamples | src/composables/useTextParser.ts:58-78 | `parseText("")` is empty, and `"a\n\nb"` yields exactly two lines. |
| TextParser.Parser.ReParseLine | src/composables/useTextParser.ts:81-87 | The given id is kept when it is a non-empty string. Otherwise (absent or `""`) the next line id is minted and the line counter advances by one. The counters are never reset, and the segments are always freshly minted from the current segment counter. |
| JsText.Split | src/composables/useTextParser.ts:61 | `split('\n')` always gives at least one piece. |
| JsText.SplitPiecesHaveNoNewline | src/composables/useTextParser.ts:61 | No piece of `split('\n')` contains a newline. |
| JsText.JoinSplit | src/composables/useTextParser.ts:61 | Joining the pieces with `'\n'` gives back the text. |
| JsText.SplitJoin | src/composables/useTextParser.ts:61 | Splitting the join of newline-free pieces gives back the pieces. |
| JsText.IsWhitespaceToken | src/composables/useTextParser.ts:38 | `/^\s+$/.test(token)`: at least one character, and every character in the ECMAScript whitespace class. |
| JsText.Trim | src/composables/useTextParser.ts:66 | `String.prototype.trim`: the same whitespace class removed from both ends. |
| JsText.TrimEmptyIffAllWhitespace | src/composables/useTextParser.ts:66 | `line.trim() === ''` holds if and only if the line is made only of whitespace. |
| JsText.WhitespaceTokenIffTrimmedAway | src/composables/useTextParser.ts:38 | A token is whitespace-only in the sense of `/^\s+$/` if and only if it is non-empty and `trim()` empties it. The token test and the blank-line test at line 66 use one whitespace class. |
| JsText.NatToString | src/composables/useTextParser.ts:7 | The decimal rendering of a counter is never empty, and has one digit exactly below ten. |
| JsText.NatToStringInjective | src/composables/useTextParser.ts:7 | Different counter values render differently. |
| JsText.MintInjective | src/composables/useTextParser.ts:7-11 | Ids with the same prefix are equal only when their counters are. |
| Scoring.Active | src/composables/useScoring.ts:5 | `segments.filter(seg => !seg.isDeleted)`, keeping order. It is never longer than its input, and `ActiveMembers` characterises it. |
| Scoring.ErrorsOf | src/composables/useScoring.ts:7 | `filter(seg => seg.isError)`, keeping order. It is never longer than its input, and `ErrorsMembers` characterises it. |
| Scoring.SegmentStats | src/composables/useScoring.ts:5-7 | For any segment list, the error count is at most the active count, which is at most the length. |
| Scoring.GetLineStats | src/composables/useScoring.ts:3-13 | `errorCount <= totalCount <= segments.length`. |
| Scoring.ActiveMembers | src/composables/useScoring.ts:5 | A segment is active if and only if it is a segment of the line that is not deleted. |
| Scoring.ErrorsMembers | src/composables/useScoring.ts:7 | A segment is counted as an error if and only if it is in the list and marked as an error. |
| Scoring.StatsAppend | src/composables/useScoring.ts:5-7 | Both counts are additive over concatenation of segment lists. |
| Scoring.StatsOfOne | src/composables/useScoring.ts:5-7 | A single segment counts once if it is not deleted, and as an error only if it is also marked. With `StatsAppend`, this fixes both counts for every list. |
| Scoring.DeletedNeverCounts | src/composables/useScoring.ts:5-7 | A deleted segment never contributes: removing it, or flipping its error mark, leaves both counts unchanged. |
| Scoring.JsSlice | src/composables/useScoring.ts:25 | `slice` is never longer than the list. |
| Scoring.JsSliceNonNegative | src/composables/useScoring.ts:25 | For non-negative bounds, `slice(start, end)` is the run from `start` to `min(end, length)`, empty when `start` is not before that. |
| Scoring.ScoredLines | src/composables/useScoring.ts:20-26 | The filtered lines are never more than the input lines. |
| Scoring.NoStartScoresAll | src/composables/useScoring.ts:21-22 | An absent, null or non-positive `startLine` scores every line, whatever `endLine` is. |
| Scoring.ScoredRange | src/composables/useScoring.ts:22-26 | For `startLine >= 1`, the scored lines are lines `startLine … endLine` (1-based, inclusive), ending at the last line when `endLine` is absent, non-positive or past the end. The result is empty when the start is not before the end. |
| Scoring.RangeExamples | src/composables/useScoring.ts:20-26 | On five lines, `(2,4)` scores lines 2–4, `(2,null)` lines 2–5, `(0,3)` all lines, `(4,2)` none, and `(3,10)` lines 3–5. |
| Scoring.Totals | src/composables/useScoring.ts:28-35 | The summed error count never exceeds the summed total. |
| Scoring.TotalsAreSegmentStats | src/composables/useScoring.ts:28-35 | Summing the per-line counts equals counting all the segments of all the lines at once. |
| Scoring.MakeTotals | src/composables/useScoring.ts:37-45 | With no counted segment the rates are 100 and 0. Otherwise `errorRate · total = 100 · errors` and `correctRate + errorRate = 100`. |
| Scoring.RatesArePercentages | src/composables/useScoring.ts:37-38 | When errors do not exceed the total, both rates lie in [0, 100]. |
| Scoring.GetTotalStats | src/composables/useScoring.ts:15-46 | The loop result is exactly `MakeTotals(Totals(ScoredLines(lines, startLine, endLine)))`. Errors never exceed the total, and both rates lie in [0, 100]. |
| Scoring.AllDeletedExample | src/composables/useScoring.ts:37-38 | If every segment is deleted, the totals are zero and the rates are 100 and 0. |
| History.Pushed | src/composables/useHistory.ts:32-37 | `history.push(state)`, then `shift()` once when the length exceeds 50. `PushedShape` and `PushAllWindow` state what it keeps. |
| History.Top | src/composables/useHistory.ts:41-46 | What `undo` returns: none on an empty stack, otherwise the last entry. |
| History.Pop | src/composables/useHistory.ts:46 | The stack `undo` leaves: unchanged when empty, otherwise without its last entry. |
| History.Window | src/composables/useHistory.ts:10 | The newest entries kept never exceed the cap of 50. |
| History.WindowShape | src/composables/useHistory.ts:10 | The entries kept are all of the list while it fits under the cap, and otherwise its last 50, in order. |
| History.PushedShape | src/composables/useHistory.ts:32-37 | From a stack within the cap, saving keeps the stack within the cap and puts the snapshot on top. Below it the old stack is unchanged and in order, minus its oldest entry only when it was already full. |
| History.SaveThenUndo | src/composables/useHistory.ts:32-46 | Undo right after a save returns the saved snapshot. When the stack was not full, it restores exactly the prior stack. |
| History.PopThenPush | src/composables/useHistory.ts:46 | Undo on a non-empty stack removes exactly the top entry, and pushing it back rebuilds the stack. |
| History.PushAllWindow | src/composables/useHistory.ts:32-37 | Any run of saves onto a stack within the cap leaves the newest 50 entries of the old stack followed by the run. From empty, k saves leave the last min(k, 50), in push order. |
| History.SixtySaves | src/composables/useHistory.ts:32-37 | Sixty saves from empty leave the fifty most recent snapshots, oldest first. |
| History.HistoryStore.constructor | src/composables/useHistory.ts:13 | A fresh store is empty. |
| History.HistoryStore.SaveState | src/composables/useHistory.ts:21-38 | The stack becomes `Pushed(old stack, HistoryState(lines, selectedLineId, selectedSegmentId))`. The lines are stored by value and the ids verbatim, and the cap is kept. |
| History.HistoryStore.Undo | src/composables/useHistory.ts:41-47 | On an empty stack it returns none and leaves the stack unchanged. Otherwise it returns the newest snapshot and removes exactly that one. |
| History.HistoryStore.CanUndo | src/composables/useHistory.ts:50-52 | True if and only if the stack is non-empty, so a fresh or cleared store cannot undo. |
| History.HistoryStore.ClearHistory | src/composables/useHistory.ts:55-57 | The stack is empty afterwards. |

## Left out

- The internals of `Intl.Segmenter`: Unicode word segmentation and its CJK dictionaries. The segmenter is an uninterpreted function-valued field of the parser. Where offsets matter, the lemmas state the well-behaviour they rely on as a precondition.
- UTF-16: strings are sequences of code points, so `length` and the offsets count code points rather than UTF-16 code units.
- The whitespace class is the ECMAScript WhiteSpace and LineTerminator set, with the Zs category taken as of Unicode 15. A later Unicode version could add characters.
- Floating point: the rates are exact rationals (`real`), so doubles' rounding is not modelled.
- Scoring.GetTotalStats: `startLine` and `endLine` are integers or absent. Non-integer numbers, `NaN` and infinities are not modelled. `null` and `undefined` are both `None`.
- Vue `ref` reactivity, and the `useTextParser`, `useScoring` and `useHistory` wrappers that only return the functions.
- The JSON deep copy in `cloneLines`. Snapshots hold immutable values, so a copy is the value itself, and a stored snapshot cannot change when the caller edits its lines. This is by construction, not by a lemma.
- src/composables/useStorage.ts: `localStorage` I/O, JSON serialisation and the swallowed errors. It is not part of this model.
- The type-only interfaces `Selection` and `StoredState` of src/types/index.ts, which none of the modelled operations use.
- The module-level counters of `useTextParser.ts` are shared by every caller in the program. Here they are fields of one `Parser` object, and sharing between several parser objects is not modelled.
