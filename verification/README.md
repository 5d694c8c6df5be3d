# SilverBullet client: verified model of its algorithmic core

A Dafny model of the parts of the SilverBullet client whose correctness is not visible from
reading one function: the fuzzy matcher, the streaming statistical aggregates, baked sections,
the message queue, the key-value index, the Markdown table and HTML printers and readers, the HTML
tag matcher, and the batching of realtime file events.

Each module follows one source file or one part of it. Code that changes variables, arrays or
fields step by step is a method or a class with loops, proved against a specification function or
relation; what the code promises is then proved about that specification, for all inputs, all runs
or all interleavings. `dafny verify dfyconfig.toml` checks the whole project.

| modules | source |
|---|---|
| `EditDistance`, `FuzzySearch`, `FuzzyLaws`, `Text` | client/lib/fuzzy_search.ts |
| `Moments`, `Aggregates`, `Quantiles` | client/space_lua/aggregates.ts |
| `BakedSections`, `BakedLaws`, `Baking` | client/baked_sections/regions.ts, client/baked_sections/bake.ts |
| `Utf16`, `KvKeys`, `KvStore` | client/data/indexeddb_kv_primitives.ts, client/data/datastore.ts |
| `ObjectIndex`, `IndexLaws` | client/data/object_index.ts |
| `MessageIds`, `MessageQueue`, `MessageRuns`, `MessageConservation`, `QueueEmptiness`, `MessageRaces`, `DeliveryOrder` | client/data/mq.datastore.ts |
| `TableRow`, `TableLaws` | client/markdown_parser/table_parser.ts, client/markdown_renderer/result_render.ts |
| `HtmlEscape` | client/markdown_renderer/html_render.ts |
| `TagPairs` | client/codemirror/html_element.ts |
| `RealtimeEvents`, `FlushLaws`, `RealtimeRuns` | client/realtime_events.ts |

## What the proofs found

- **A message can be lost.** `requeueTimeouts` can return a message to its queue between the two writes of a
  poll; the poll's delete then removes it from its queue as well. `MessageRaces.MessageLostInRace` is such a
  run. `MessageRuns.NoMessageIsLost` shows that runs without such a requeue lose nothing, and
  `MessageRuns.RequeueSafeExactlyWhen` that a requeue keeps "every message has a place, and one that a poller is
  about to delete has another" exactly when it returns no message in a poller's hand that has no final place.
  If the poll's delete comes next, such a message is nowhere (`MessageRuns.RequeueInHandLoses`).
- **The emptiness test can answer yes too early in three ways, each with its exact condition.** Before
  the first read a requeue makes that possible exactly when it takes the message from a poller's hand or
  spends its only place (`QueueEmptiness.RequeueBeforeReadFoolsExactlyWhen`, with the run of
  `MessageRaces.TestFooledByRequeueBefore`); after the first read, exactly
  when it expires the message (`QueueEmptiness.RequeueAfterReadFoolsExactlyWhen`, with the run of
  `MessageRaces.TestFooledByRequeue`). Without requeues since the call, it is possible exactly when the message was,
  at the call, in a poller's hand and not processing (`QueueEmptiness.CallSeesExactlyWhen`), as when it
  is acknowledged before it is delivered (`MessageRaces.TestFooledByEarlyAck`). Outside these cases a yes
  means that the message was acknowledged since the call (`QueueEmptiness.EmptyMeansAcknowledged`).
- **The count over all queues misses queues.** Asked about the empty name, the test does not see queues whose name
  starts with U+FFFF (`DeliveryOrder.CountFindsItsRows`, `DeliveryOrder.CountOfAllMisses`).
- **Delivery is first-in first-out exactly when ids agree with the send order**
  (`DeliveryOrder.FirstInFirstOutExactlyWhen`), and which ids come first is decided by
  `MessageIds.IdOrder` from clock readings and sequence numbers. A clock that keeps its number of digits
  and gives different readings keeps the order for any number of messages; of messages sent at
  one reading, the millionth is ahead of the one before it (`MessageIds.MillionthOvertakes`, `DeliveryOrder.MillionAtOnce`).
- **The prefix scan misses keys that go past U+FFFF, and the key equal to the prefix.** The exact condition
  is `KvKeys.RangeIsPrefixQuery`, such keys are `KvKeys.PastTopIsMissed` and `KvKeys.PrefixIsMissed`. So
  `clearFileIndex` leaves exactly the rows whose user key is empty or goes past U+FFFF
  (`ObjectIndex.ClearsExactlyThePage`, with the runs of `ObjectIndex.ClearLeavesRow`).
- **A table row comes back exactly when its cells are safe.** `TableRow.RoundTripExactlyWhenSafe` covers all
  cells, with backslashes too; without backslashes safe means that the bracket counter ends at zero. Rows
  that do not come back are `TableRow.UnsafeRows`. This is about one line handed to the reader: a cell with a line
  break is split into lines before `parseRow` sees it.
- **Comments the code does not meet.** The comment on `boundedDamerauLevenshtein` says that it returns `max + 1`
  above the bound. It does, exactly when the search stops early or the distance is `max + 1`
  (`EditDistance.ClampedExactlyWhen`); `EditDistance.NotClamped` is an input for which it returns more. The comment in
  `subsequenceScore` gives the band [0.30, 0.65]; 0.30 is never reached. Of the three typo scores, 0.25 is unreachable
  from `scoreToken`, and so is its prefix score 0.9, since index 0 is always a word boundary. `poll` with `maxItems`
  zero or less returns one message, not none.

## Model

| member | source | states |
|---|---|---|
| EditDistance.DistanceIsLeastCost | client/lib/fuzzy_search.ts:59-65 | the recurrence is the optimal-string-alignment distance: d is the distance if and only if some script of keeps, insertions, deletions, substitutions and adjacent swaps that turns a into b costs d and none costs less |
| EditDistance.NoScriptIsCheaper | client/lib/fuzzy_search.ts:58-65 | between all prefixes, no script is cheaper than the cell of the table |
| EditDistance.CheapestScript | client/lib/fuzzy_search.ts:58-65 | between all prefixes, some script costs exactly the cell of the table |
| EditDistance.LengthBound | client/lib/fuzzy_search.ts:47 | the length shortcut loses nothing: the distance is at least the difference of the lengths |
| EditDistance.NextRowAbove | client/lib/fuzzy_search.ts:58-68 | a row wholly above the bound keeps the next row above it, although a swap reaches back two rows |
| EditDistance.RowsStayAbove | client/lib/fuzzy_search.ts:68 | the row-minimum exit loses nothing: the last row, and with it the distance, is then above the bound |
| EditDistance.FillRow | client/lib/fuzzy_search.ts:56-67 | the inner loop writes exactly the next row of distances and returns its minimum |
| EditDistance.BoundedDamerauLevenshtein | client/lib/fuzzy_search.ts:43-76 | with three rotated rows, shortcut and exit, the result is the distance when the lengths are within `max` of each other and all of a comes within `max` of some beginning of b, and `max + 1` otherwise |
| EditDistance.BoundedIsExactWithin | client/lib/fuzzy_search.ts:43-76 | that is the distance whenever the distance is within `max`, and above `max` otherwise |
| EditDistance.ClampedExactlyWhen | client/lib/fuzzy_search.ts:44 | the comment, `max + 1` above the bound, holds exactly when the search stops early or the distance is at most `max + 1` |
| EditDistance.NotClamped | client/lib/fuzzy_search.ts:75 | an input whose distance is above the bound and returned as it is |
| FuzzySearch.WindowLength | client/lib/fuzzy_search.ts:83-89 | windows whose length differs from the token's by more than the budget cannot match, so leaving them out loses nothing |
| FuzzySearch.TypoScore | client/lib/fuzzy_search.ts:78-100 | positive exactly when some substring of any length is within the budget, and then computed from the minimum distance over all substrings, although the bound shrinks during the search |
| FuzzyLaws.BudgetIs | client/lib/fuzzy_search.ts:80 | one edit for every four characters of the token, and two at most |
| FuzzySearch.GreedyDecides | client/lib/fuzzy_search.ts:116-133 | the greedy scan finishes exactly when the token is a subsequence, and then finds the leftmost embedding |
| FuzzySearch.GreedyIsLeftmost | client/lib/fuzzy_search.ts:116-130 | from any point on, no embedding gets ahead of the scan |
| FuzzySearch.SquaresAtMostSquare | client/lib/fuzzy_search.ts:139 | run squares sum to at most the squared length |
| FuzzySearch.RunsCoverPositions | client/lib/fuzzy_search.ts:121-131 | the runs add up to the number of matched characters |
| FuzzySearch.WeightedBand | client/lib/fuzzy_search.ts:136-143 | every admissible combination of span, runs and boundary hits scores in (0.30, 0.65] |
| FuzzySearch.Scan | client/lib/fuzzy_search.ts:107-136 | the loop reports whether the token is a subsequence, and the span, run squares and boundary hits of its leftmost embedding |
| FuzzySearch.SubsequenceScore | client/lib/fuzzy_search.ts:102-144 | zero exactly when the token is no subsequence; otherwise in (0.30, 0.65] and the weighted score of the leftmost embedding, which the `FuzzyLaws` rows below pin down without its formula |
| FuzzyLaws.SquaresCountPairs | client/lib/fuzzy_search.ts:121-131 | the run squares count the pairs of matched characters that sit in one stretch of adjacent positions |
| FuzzyLaws.HitsCountBoundaries | client/lib/fuzzy_search.ts:120 | the boundary hits count the matched characters at a word boundary |
| FuzzyLaws.BoundariesAre | client/lib/fuzzy_search.ts:17-41 | the start and what follows a separator is a word boundary; elsewhere exactly where the original goes from a lower-case letter to an upper-case one |
| FuzzyLaws.HitsTell | client/lib/fuzzy_search.ts:136-143 | two scores of one token with equal spans and runs differ by 0.07/n for each boundary hit, n being the length of the token |
| FuzzyLaws.RunsTell | client/lib/fuzzy_search.ts:136-143 | with equal spans and hits by 0.105/n² for each unit of run squares |
| FuzzyLaws.SpansTell | client/lib/fuzzy_search.ts:136-143 | with equal runs and hits by 0.175 * (n/span1 - n/span2) |
| FuzzyLaws.WholeRunAtBoundaries | client/lib/fuzzy_search.ts:136-143 | one run with every character at a boundary scores 0.65 |
| FuzzySearch.BestOccurrence | client/lib/fuzzy_search.ts:163-174 | finds an occurrence if there is one, at a word boundary if there is one at a boundary |
| FuzzySearch.ZeroEditsIsOccurrence | client/lib/fuzzy_search.ts:193-194 | a zero-edit typo match is an occurrence, so the zero-edit score is unreachable from scoreToken |
| FuzzySearch.BandsDescend | client/lib/fuzzy_search.ts:146-197 | the tiers' score bands are disjoint and descend, so a better tier always scores more |
| FuzzySearch.ScoreToken | client/lib/fuzzy_search.ts:146-197 | the score lies in the band of the strongest tier that the declarative tier definition gives, and within the two lowest tiers is the score of the leftmost embedding or of the least distance |
| Moments.MeanStep | client/space_lua/aggregates.ts:71-73 | the running mean equals the two-pass mean |
| Moments.M2Step | client/space_lua/aggregates.ts:72-75 | Welford's update equals the two-pass sum of squared deviations |
| Moments.CoMomentStep | client/space_lua/aggregates.ts:103-109 | the co-moment update equals the two-pass sum of deviation products |
| Moments.CauchySchwarz | client/space_lua/aggregates.ts:89-113 | m2 and m2y are never negative and c*c <= m2*m2y |
| Moments.M2ZeroMeansConstant | client/space_lua/aggregates.ts:531-536 | the deviations vanish exactly when all values are equal |
| Moments.TotalIgnoresOrder | client/space_lua/aggregates.ts:67-77 | a total depends on the multiset of its terms only |
| Aggregates.WelfordState.Iterate | client/space_lua/aggregates.ts:67-77 | keeps count, mean and m2 equal to their two-pass values over the numbers seen; an input that is no number changes nothing |
| Aggregates.CovarState.Iterate | client/space_lua/aggregates.ts:89-113 | the same for both sides and the co-moment; a pair with a side that is no number changes nothing |
| Aggregates.FoldWelford | client/space_lua/aggregates.ts:63-77 | folding any inputs gives the two-pass state of the accepted numbers |
| Aggregates.FoldCovar | client/space_lua/aggregates.ts:85-113 | folding any pairs gives the two-pass state of the accepted pairs |
| Aggregates.AcceptedCounts | client/space_lua/aggregates.ts:67-70 | the accepted numbers are the inputs that are numbers, each as often as it was put in |
| Aggregates.AcceptedPairsCount | client/space_lua/aggregates.ts:89-101 | the accepted pairs are those with two numbers, each as often as it was put in |
| Aggregates.VarPop | client/space_lua/aggregates.ts:475-487 | the two-pass population variance; none without input |
| Aggregates.VarSamp | client/space_lua/aggregates.ts:488-499 | the two-pass sample variance; none with fewer than two inputs |
| Aggregates.StddevPop | client/space_lua/aggregates.ts:451-462 | the non-negative root of the population variance |
| Aggregates.StddevSamp | client/space_lua/aggregates.ts:463-474 | the non-negative root of the sample variance |
| Aggregates.CovarPop | client/space_lua/aggregates.ts:500-511 | the two-pass population covariance |
| Aggregates.CovarSamp | client/space_lua/aggregates.ts:512-523 | the two-pass sample covariance |
| Aggregates.Corr | client/space_lua/aggregates.ts:524-537 | a number exactly when there are two pairs and neither side is constant; then it is the Pearson correlation and lies in [-1, 1] |
| Aggregates.VarianceIgnoresOrder | client/space_lua/aggregates.ts:67-77 | inputs in another order give the same count, mean and m2 |
| Aggregates.CovarianceIgnoresOrder | client/space_lua/aggregates.ts:89-113 | pairs in another order give the same count and co-moment |
| Quantiles.PositionInRange | client/space_lua/aggregates.ts:138-142 | both indices stay in range and are at most one apart |
| Quantiles.Bracketed | client/space_lua/aggregates.ts:143-156 | on ascending values every method lies between the lower and the higher result |
| Quantiles.Monotone | client/space_lua/aggregates.ts:143-156 | every method is monotone in q, across index borders too |
| Quantiles.ExactAtIndex | client/space_lua/aggregates.ts:140-156 | when q * (n - 1) is an index every method returns the value there |
| Quantiles.EndsOfRange | client/space_lua/aggregates.ts:140-156 | q = 0 and q = 1 give the ends |
| Quantiles.NearestIsNear | client/space_lua/aggregates.ts:148-149 | nearest picks a value at most half an index away |
| Quantiles.BetweenIndices | client/space_lua/aggregates.ts:143-156 | between two indices: the ends for lower and higher; for nearest the lower end up to half-way and the higher one after; for midpoint what is as far from one end as from the other; for linear the share of the way |
| Quantiles.OutcomeIs | client/space_lua/aggregates.ts:135-139 | null exactly without values; failure exactly for an unknown method and two values or more |
| Quantiles.LinearStaysOnLine | client/space_lua/aggregates.ts:152-155 | on values along a line the linear method stays on the line, and so is as far from the first value to the last as q is from 0 to 1 |
| Quantiles.BracketedExactlyWhenAscending | client/space_lua/aggregates.ts:135-160 | the bracket holds for all q exactly when the values ascend |
| BakedSections.BacktrackingNeverHelps | client/baked_sections/regions.ts:12 | how much space the opening expression takes does not change where its `-->` is found |
| BakedLaws.OpensExactlyWhen | client/baked_sections/regions.ts:10-12 | a place opens exactly when some choice of white space and expression matches there, and the match found ends at the first `-->` of all such matches |
| BakedSections.EscapingRemovesMarker | client/baked_sections/regions.ts:60-62 | an escaped body never contains the close marker |
| BakedLaws.EscapeEscapes | client/baked_sections/regions.ts:60-62 | the escaped body is the markdown with each close marker replaced and nothing else changed; markdown without the marker stays as it is |
| BakedLaws.TrimTrims | client/baked_sections/regions.ts:44 | trimming takes white space, and only that, off both ends until neither is white space |
| BakedLaws.TrimmedIsUnique | client/baked_sections/regions.ts:44 | no other text meets that |
| BakedLaws.WrappedIsNewBody | client/baked_sections/bake.ts:36-41 | a new body is the rendered markdown, its close markers escaped and white space taken off its ends, between two line feeds |
| BakedSections.PrintParse | client/baked_sections/regions.ts:32-53 | cutting a page into gaps, markers and bodies and printing it back gives the page |
| BakedSections.ReparseRebaked | client/baked_sections/bake.ts:26-68 | the baked page parses to the same sections in the same order, with the new bodies and nothing else changed |
| BakedSections.BakingIsIdempotent | client/baked_sections/bake.ts:52-69 | for any text and any deterministic evaluator, baking twice is baking once, and the expressions stay the same |
| BakedLaws.BakedBodies | client/baked_sections/bake.ts:52-69 | section by section, the baked page has such a new body where the expression renders, the old one where it does not, and else the same section |
| BakedLaws.PartsAreSections | client/baked_sections/regions.ts:32-53 | every section is the first that opens and is closed from where the last one ended, its body runs to the first close marker, and after the last section nothing that opens is closed |
| Baking.FindBakedSections | client/baked_sections/regions.ts:32-53 | the scanner's offsets are those of the parsed page's sections: each a marker, its expression what is left of the marker's text without the white space at its ends, the body up to the first close marker, and that marker |
| Baking.FoundSectionsEncloseParts | client/baked_sections/regions.ts:32-53 | each section found encloses its marker, expression, body and close marker in the text |
| Baking.SectionsEncloseParts | client/baked_sections/regions.ts:14-25 | the same for any part of a page, in page order and without overlap |
| Baking.ComputeBakeEdits | client/baked_sections/bake.ts:19-44 | one edit of the body for each expression that renders, one report for each that does not, in page order; each edit puts in, between line feeds, the rendered markdown with its close markers escaped and no white space at its ends |
| Baking.SpliceStep | client/baked_sections/bake.ts:62-67 | applying an edit after all later ones is applying all at once |
| Baking.EditsBakePage | client/baked_sections/bake.ts:36-41 | the edits are ascending and disjoint, and applying all at once bakes the page |
| Baking.BakeSectionsInText | client/baked_sections/bake.ts:52-69 | applying the edits back to front bakes the page, with the bodies of `BakedLaws.BakedBodies` |
| HtmlEscape.ReplacementsAreEntities | client/markdown_renderer/html_render.ts:34-39 | the five replacements in their order equal one simultaneous replacement |
| HtmlEscape.TwoPasses | client/markdown_renderer/html_render.ts:41-45 | two rounds of the loop reach the final form, given in closed form |
| HtmlEscape.ThirdPassIdle | client/markdown_renderer/html_render.ts:45 | no later round changes anything |
| HtmlEscape.HtmlEscape | client/markdown_renderer/html_render.ts:29-47 | the loop terminates since each changing round leaves fewer spaces; the result has no quote and no line feed, angle brackets only in line breaks, ampersands only in the five references, and no two adjacent spaces; text without special characters and adjacent spaces stays as it is |
| HtmlEscape.ResultIsHarmless | client/markdown_renderer/html_render.ts:29-47 | no quote or line feed is left, every angle bracket is one of a line break, and every ampersand begins one of the five references |
| HtmlEscape.ResultIsSpaced | client/markdown_renderer/html_render.ts:29-47 | hard and soft spaces alternate, but that a run of odd length ends with two hard ones before its soft one |
| HtmlEscape.PlainTextStays | client/markdown_renderer/html_render.ts:29-47 | text without special characters and without adjacent spaces is not changed |
| HtmlEscape.DecodeEscaped | client/markdown_renderer/html_render.ts:29-47 | decoding entities, hard spaces and line breaks gives back the text |
| HtmlEscape.EscapingIsInjective | client/markdown_renderer/html_render.ts:29-47 | different texts escape differently |
| TableRow.ParseRow | client/markdown_parser/table_parser.ts:11-68 | column count and elements are those of reading the row from the start state, which the `TableLaws` rows below describe for any line; with no element list none is built |
| TableLaws.DelimitersAre | client/markdown_parser/table_parser.ts:39-49 | a delimiter is a pipe after an even number of backslashes that no bracket before it is open at |
| TableLaws.ContentIs | client/markdown_parser/table_parser.ts:57 | content is whatever is no space or tab, or comes after an odd number of backslashes |
| TableLaws.DepthIsLargestBalance | client/markdown_parser/table_parser.ts:43-47 | the bracket counter is the largest excess of opening over closing brackets of any ending of the text |
| TableLaws.ColumnsOfRow | client/markdown_parser/table_parser.ts:40-67 | for any line, with outer pipes or without: the columns are the delimiters, less one if there is a delimiter and no content before the first, plus one if there is content after the last |
| TableLaws.ElementsOfRow | client/markdown_parser/table_parser.ts:23-67 | for any line the elements are exactly its delimiters and, between two of them or the ends of the line, the cells from first to last content, in the order of the line |
| TableLaws.RowWithoutOuterPipes | client/markdown_parser/table_parser.ts:50 | a row without outer pipes, two letters and a pipe between them: two columns, both cells and the delimiter |
| TableRow.EscapeRegularPipes | client/markdown_renderer/result_render.ts:43-60 | a backslash before exactly the pipes outside brackets |
| TableLaws.EscapedGrows | client/markdown_renderer/result_render.ts:43-60 | character by character: a backslash comes before a pipe that no bracket is open at, and nothing else changes |
| TableRow.SafeMeansClosed | client/markdown_renderer/result_render.ts:43-60 | a cell is safe exactly when its escaped form reads without a delimiter and leaves the reader as before |
| TableRow.SafeWithoutBackslash | client/markdown_renderer/result_render.ts:43-60 | without backslashes, safe means that the bracket counter ends at zero |
| TableRow.SafeRowsRoundTrip | client/markdown_renderer/result_render.ts:83-90 | safe cells come back column by column with their spans |
| TableRow.RoundTripExactlyWhenSafe | client/markdown_parser/table_parser.ts:11-68 | for any cells, the row printed as one line reads back as those columns if and only if all cells are safe |
| TableRow.UnsafeRows | client/markdown_parser/table_parser.ts:37-61 | the rows of an open bracket and of a backslash before a pipe do not come back |
| TableRow.RoundTripWithoutBackslashes | client/markdown_parser/table_parser.ts:37-61 | for cells without backslashes, if and only if every bracket counter ends at zero |
| TableRow.SpanBounds | client/markdown_parser/table_parser.ts:57-60 | a span runs from the first to the last content |
| TableRow.SpanIsTrimmed | client/markdown_parser/table_parser.ts:57-60 | without backslashes the span is the cell without outer spaces and tabs, and blank cells have none |
| TagPairs.MatchesIsUnique | client/codemirror/html_element.ts:65-92 | under balanced matching a tag is in at most one pair |
| TagPairs.PairsAgree | client/codemirror/html_element.ts:78-85 | a pair is an opening and a later closing tag, neither self-closing, whose names agree when lower-cased |
| TagPairs.NearestIsMatched | client/codemirror/html_element.ts:78-85 | such tags with no other tag of the name in between, but for self-closing ones, are a pair |
| TagPairs.CloseEntry | client/codemirror/html_element.ts:78-85 | closing the topmost entry of the name keeps the stack and pairs those of balanced matching |
| TagPairs.SkipTag | client/codemirror/html_element.ts:74-85 | void tags and closing tags without an opener change nothing |
| TagPairs.InnerOpenerIsMatched | client/codemirror/html_element.ts:65-92 | inside a pair, every opening tag of its name is matched by a closing one that is also inside |
| TagPairs.InnerCloserIsMatched | client/codemirror/html_element.ts:65-92 | inside a pair, every closing tag of its name is matched by an opening one that is also inside |
| TagPairs.MatchHtmlTagPairs | client/codemirror/html_element.ts:65-92 | the pairs are exactly the balanced matches: opener before closer, same name ignoring case, and the tags of that name in between balanced; the void elements are exactly the self-closing tags, in order |
| KvKeys.ExtractUndoesBuild | client/data/indexeddb_kv_primitives.ts:94-108 | splitting undoes joining on every key but the empty one |
| KvKeys.BuildUndoesExtract | client/data/indexeddb_kv_primitives.ts:94-108 | joining undoes splitting on every string |
| KvKeys.RangeIsPrefixQuery | client/data/indexeddb_kv_primitives.ts:66-73 | a serialized key lies in the range if and only if the key strictly extends the prefix and its next part does not go past U+FFFF |
| Utf16.LeqExactlyWhen | client/data/indexeddb_kv_primitives.ts:66-73 | the order of stored keys: one string comes first if it begins the other or has the smaller code unit where they first differ |
| KvKeys.PastTopIsMissed | client/data/indexeddb_kv_primitives.ts:70-73 | below every prefix, a key that extends it and is not in its range |
| KvKeys.PrefixIsMissed | client/data/indexeddb_kv_primitives.ts:70-73 | the key equal to the prefix is not in its range |
| KvKeys.RangeIsPrefixQueryOnPlainKeys | client/data/indexeddb_kv_primitives.ts:66-73 | for parts without NUL and U+FFFF, if and only if the key strictly extends the prefix |
| KvStore.IndexedDBKvPrimitives.BatchSet | client/data/indexeddb_kv_primitives.ts:46-54 | all entries are put in order; if a key cannot be built it fails, and what was put before stays |
| KvStore.IndexedDBKvPrimitives.Clear | client/data/indexeddb_kv_primitives.ts:23-39 | nothing stays in the store |
| KvStore.IndexedDBKvPrimitives.BatchDelete | client/data/indexeddb_kv_primitives.ts:56-63 | all keys are deleted in order, with the same failure |
| KvStore.IndexedDBKvPrimitives.Query | client/data/indexeddb_kv_primitives.ts:66-77 | exactly the stored rows in the range, ascending, each with its extracted key |
| KvStore.IndexedDBKvPrimitives.CountQuery | client/data/indexeddb_kv_primitives.ts:79-88 | the number of stored keys, part by part, that strictly extend the prefix and do not go past U+FFFF there; no count when the prefix cannot be built |
| KvStore.ScanIsPrefixQuery | client/data/indexeddb_kv_primitives.ts:66-77 | a scan returns exactly the stored keys that extend the prefix and do not go past U+FFFF there, with their values |
| KvStore.PutAllKeys | client/data/indexeddb_kv_primitives.ts:46-54 | the keys gained by a batch, part by part |
| KvStore.LastPutStays | client/data/indexeddb_kv_primitives.ts:46-54 | of the entries written under a key the last one is what the store then holds |
| KvStore.PutElsewhere | client/data/indexeddb_kv_primitives.ts:46-54 | a key under which nothing is written keeps its value, or stays without one |
| KvStore.DeleteAllKeys | client/data/indexeddb_kv_primitives.ts:56-63 | the keys lost by a batch, part by part |
| KvStore.DataStore.BatchSet | client/data/datastore.ts:33-53 | of entries with one key only the first is written |
| KvStore.FirstOfEachKeyKeys | client/data/datastore.ts:37-52 | dropping repeated keys loses no key |
| KvStore.FirstsAreFirst | client/data/datastore.ts:37-47 | what is kept is exactly the first entry of each key |
| KvStore.FirstsDiffer | client/data/datastore.ts:37-47 | no key is kept twice |
| KvStore.FirstValueWins | client/data/datastore.ts:33-49 | after a batch the store holds the first value that the batch had for a key |
| ObjectIndex.PairsOfFirsts | client/data/object_index.ts:535-551 | dropping repeated keys drops whole pairs, so no forward row loses its reverse row |
| ObjectIndex.PairsKeepCover | client/data/object_index.ts:535-551 | a batch keeps every forward row covered by its reverse row, even a batch that fails half-way |
| ObjectIndex.SetWritesPairs | client/data/object_index.ts:535-551 | a batch that succeeds adds the forward and the reverse row of each entry |
| IndexLaws.SetWritesValues | client/data/object_index.ts:535-551 | such a batch stores the first value given for a key in the forward row and the mark in the reverse row |
| IndexLaws.TagQueryFinds | client/data/object_index.ts:532-541 | a query for a tag finds, of the forward rows, exactly those whose key begins with the tag and does not go past U+FFFF after it |
| IndexLaws.SetIsFound | client/data/object_index.ts:532-551 | what was set for a page is found by a query for its tag, with the value set, exactly when its key does not go past U+FFFF after the tag |
| ObjectIndex.DeletingForwardsKeepsCover | client/data/object_index.ts:553-559 | deleting forward rows keeps coverage |
| ObjectIndex.DeleteLeavesReverse | client/data/object_index.ts:787-789 | deleting an object leaves reverse rows behind |
| ObjectIndex.ScanDecidesCleared | client/data/object_index.ts:570-576 | the collected keys are exactly the reverse rows found and their forward rows |
| ObjectIndex.ClearingKeepsCover | client/data/object_index.ts:565-578 | clearing a file keeps coverage |
| ObjectIndex.ClearsExactlyThePage | client/data/object_index.ts:565-578 | a forward row survives if and only if it is of another page, has an empty key, or a key past U+FFFF; reverse rows of other pages and rows outside the index survive |
| ObjectIndex.ClearingKeepsValues | client/data/object_index.ts:565-578 | the rows that survive keep their values |
| ObjectIndex.ClearLeavesRow | client/data/object_index.ts:565-578 | a row set from the empty store with an empty key, or a key past U+FFFF, is still there after its file is cleared |
| ObjectIndex.RunKeepsCover | client/data/object_index.ts:535-578 | after any sequence of sets, deletes and clears every forward row has its reverse row |
| ObjectIndex.ClearAfterAnyRun | client/data/object_index.ts:565-578 | after any such run, clearing a file removes the forward rows of its page and of no other |
| ObjectIndex.FileOfPage | client/data/object_index.ts:504-510 | one trailing `.md` is stripped, so the page of a file name made from a page is that page; a name is its own page only if it does not end in `.md` itself; a reference loses its page prefix |
| IndexLaws.CleanKeyStrips | client/data/object_index.ts:504-510 | a reference that begins with the page and an at sign loses exactly those; any other stays as it is |
| ObjectIndex.ObjectIndex.BatchSet | client/data/object_index.ts:535-551 | the loop writes the pairs of the batch and keeps coverage; it succeeds exactly when all keys can be built |
| ObjectIndex.ObjectIndex.BatchDelete | client/data/object_index.ts:553-559 | deletes the forward rows only and keeps coverage; it succeeds exactly when all keys can be built |
| ObjectIndex.ObjectIndex.DeleteObject | client/data/object_index.ts:787-789 | deletes one forward row, under the cleaned reference; it succeeds exactly when tag, reference and page can be parts of a key |
| ObjectIndex.ObjectIndex.ClearFileIndex | client/data/object_index.ts:565-578 | removes the rows found and their forward rows and nothing else; keeps coverage; a name that cannot be part of a key changes nothing |
| MessageIds.IdsDiffer | client/data/mq.datastore.ts:164-171 | different messages have different ids, whatever the clock says |
| MessageIds.DigitStringOrder | client/data/mq.datastore.ts:166 | digit strings of any widths: the leading digits that both have decide, and after equal ones the shorter comes first |
| MessageIds.IdOrder | client/data/mq.datastore.ts:164-171 | for all clock readings and sequence numbers, the order of ids is that of the readings where they differ and of the padded numbers where they agree, both as digit strings |
| MessageIds.EqualWidthsOrder | client/data/mq.datastore.ts:164-171 | with readings of one width, and padded numbers of one width where readings agree, that is the order of readings and then of numbers |
| MessageIds.MillionthOvertakes | client/data/mq.datastore.ts:166 | at one reading the millionth id sorts before the one sent just before it |
| MessageQueue.DataStoreMQ.BatchSend | client/data/mq.datastore.ts:159-176 | each body becomes a queued message with the next sequence numbers; nothing else changes |
| MessageQueue.EnqueueHas | client/data/mq.datastore.ts:159-176 | the queue gains exactly the new messages and keeps the others as they were |
| MessageQueue.DataStoreMQ.First | client/data/mq.datastore.ts:187-195 | the early-terminating scan returns the queued messages of the queue with the least ids in order: one if there is any, no more than maxItems beyond the first, and all of them if they are fewer |
| MessageQueue.DataStoreMQ.Poll | client/data/mq.datastore.ts:182-217 | those messages, so bounded, move from queued to processing |
| MessageQueue.WriteHas | client/data/mq.datastore.ts:199-209 | processing gains exactly the polled messages, each with the time of its writing, and keeps the others as they were |
| MessageQueue.DataStoreMQ.BatchAck | client/data/mq.datastore.ts:240-247 | exactly the named messages leave processing |
| MessageQueue.DataStoreMQ.RequeueTimeouts | client/data/mq.datastore.ts:249-310 | exactly the messages older than the timeout leave processing: with one retry more, back to their queue, or past the cap to the dead letters or nowhere |
| MessageQueue.RequeuedIsUnique | client/data/mq.datastore.ts:249-310 | that determines the store |
| MessageQueue.YoungOnesStay | client/data/mq.datastore.ts:254-270 | a message stays in processing exactly when it is at most as old as the timeout |
| MessageQueue.NoCapSpendsNothing | client/data/mq.datastore.ts:273-307 | without a cap every message taken is back in its queue with one retry more, and there are no new dead letters |
| MessageQueue.CapDecides | client/data/mq.datastore.ts:274-307 | with a cap a message taken is back in its queue exactly while it was retried less often than that, and else a dead letter unless those are disabled |
| MessageQueue.DataStoreMQ.IsQueueEmpty | client/data/mq.datastore.ts:362-382 | on its own, true exactly when nothing of the queue is queued or processing; the empty name stands for all queues but those whose name starts with U+FFFF |
| MessageRuns.NoMessageIsLost | client/data/mq.datastore.ts:159-310 | over all interleavings of sends, polls by any pollers, acks and requeues that return no message between a poll's writes unless it has a final place, every message sent is queued, processing, dead-lettered, acknowledged or dropped |
| MessageRuns.RequeueSafeExactlyWhen | client/data/mq.datastore.ts:249-310 | a requeue keeps that invariant exactly when it meets this condition |
| MessageRuns.RequeueInHandLoses | client/data/mq.datastore.ts:199-213 | when the poll's second write is the next step, a message that breaks the condition is in no place at all |
| MessageRuns.SendSlots | client/data/mq.datastore.ts:164-171 | the slots of a batch are new |
| MessageConservation.EachMessageInOnePlace | client/data/mq.datastore.ts:159-310 | over all runs of whole operations each message sent is in exactly one of queued, processing, dead letters, acknowledged and dropped |
| MessageConservation.StoppedPollKeepsMessages | client/data/mq.datastore.ts:199-213 | a run stopped between a poll's writes has the polled messages both queued and processing and all others in exactly one place |
| MessageConservation.PollEffect | client/data/mq.datastore.ts:182-217 | read, write and delete together are the poll as one operation |
| MessageConservation.BodiesStayIntact | client/data/mq.datastore.ts:159-310 | over all interleavings, whatever is stored under an id has the body that was sent under it |
| MessageConservation.RetriesAreCapped | client/data/mq.datastore.ts:277-305 | over all interleavings with one cap, what can still be delivered was retried at most that often and a dead letter exactly once more |
| QueueEmptiness.ReadsEmptyIsCountZero | client/data/mq.datastore.ts:362-382 | a count of zero means that the queue has nothing in that part |
| QueueEmptiness.CarefulRunsAreTidy | client/data/mq.datastore.ts:182-247 | when only delivered messages are acknowledged and requeues take nothing between a poll's writes, a queued message is never out with a worker, and one about to be deleted is processing |
| QueueEmptiness.NextFollowed | client/data/mq.datastore.ts:182-310 | a message that is acknowledged, or in a place the reads will see, stays so over a step exactly when a requeue spares it; once it has left its queue, exactly when no requeue expires it |
| QueueEmptiness.EmptyMeansAcknowledged | client/data/mq.datastore.ts:379-382 | with any steps between its reads, a true answer means that a message queued or processing at the call was acknowledged since, if no requeue before the first read fails to spare it, none after it expires it, and no poller was about to delete it unless it was processing |
| QueueEmptiness.RequeueBeforeReadFoolsExactlyWhen | client/data/mq.datastore.ts:249-382 | after a requeue before the first read, the test can answer yes without an ack of the message, and without another requeue, exactly when it did not spare the message |
| QueueEmptiness.RequeueAfterReadFoolsExactlyWhen | client/data/mq.datastore.ts:249-382 | after a requeue between the reads, acks of other messages can make the test answer yes without an ack of the message exactly when it expired the message |
| QueueEmptiness.CallSeesExactlyWhen | client/data/mq.datastore.ts:379-382 | with no requeue since the call, the test can answer yes without an ack of the message since the call exactly when a poller was about to delete it and it was not processing |
| QueueEmptiness.RunHandGuarded | client/data/mq.datastore.ts:182-247 | with acks at any time, after every run whose requeues take nothing between a poll's writes a message that a poller is about to delete is processing or was acknowledged |
| QueueEmptiness.EmptyMeansAcknowledgedSometime | client/data/mq.datastore.ts:379-382 | from such a state a true answer means that the message was acknowledged before the call or since |
| QueueEmptiness.EmptyTestIsSound | client/data/mq.datastore.ts:379-382 | after every careful run, a true answer means that each message queued or processing at the call that later requeues spare was acknowledged since |
| QueueEmptiness.RequeueFoolsTheTest | client/data/mq.datastore.ts:362-382 | a requeue between the reads hides every timed-out message of the queue |
| MessageRaces.MessageLostInRace | client/data/mq.datastore.ts:199-310 | a possible run that loses a message |
| MessageRaces.TestFooledByRequeue | client/data/mq.datastore.ts:249-382 | a possible run in which both reads find nothing while the message is queued |
| MessageRaces.TestFooledByRequeueBefore | client/data/mq.datastore.ts:182-310 | a possible run in which a requeue after the call and before the first read takes a message from a poller's hand, unseen by both reads |
| MessageRaces.TestFooledByEarlyAck | client/data/mq.datastore.ts:182-247 | a possible run in which a message acknowledged before its poll is done is queued at the call and unseen by both reads |
| DeliveryOrder.FirstInFirstOutExactlyWhen | client/data/mq.datastore.ts:182-195 | in every run, all polls of a queue return its oldest messages in send order if and only if the readings and numbers of its queued messages are in send order |
| DeliveryOrder.WrongWayRound | client/data/mq.datastore.ts:182-195 | of a pair out of order, a poll that returns the earlier returns the later before it |
| DeliveryOrder.PollIsFirstInFirstOut | client/data/mq.datastore.ts:182-195 | over all runs in which the clock does not go back or change its width and messages with one reading have padded numbers of one width, a poll returns the oldest messages of its queue in send order: no more than asked for beyond the first, one if there is any, and all if they are fewer |
| DeliveryOrder.FewMessagesAreSteady | client/data/mq.datastore.ts:164-171 | a clock that never goes back and keeps its width meets this for fewer than a million messages |
| DeliveryOrder.MillionAtOnce | client/data/mq.datastore.ts:164-171 | a run after which a queue is not in send order: a million messages sent at one reading |
| DeliveryOrder.IdsInSendOrder | client/data/mq.datastore.ts:164-171 | which of two messages sent has the lesser id, by their readings and send numbers |
| DeliveryOrder.QueueScanFindsItsRows | client/data/mq.datastore.ts:18-20 | for all names and ids that can be parts of a key: which rows the scan of one queue, and of all queues, finds |
| DeliveryOrder.CountFindsItsRows | client/data/mq.datastore.ts:362-376 | for generated ids, the rows counted for a queue, or for all, are exactly those that the emptiness test is about |
| DeliveryOrder.CountOfAllMisses | client/data/mq.datastore.ts:362-376 | a queue that the count over all queues misses |
| DeliveryOrder.QueueScanIsInIdOrder | client/data/mq.datastore.ts:190-192 | the scan visits them in the order of their ids |
| RealtimeEvents.PutKeepsOthers | client/realtime_events.ts:99 | an event replaces the pending one of its name and no other |
| FlushLaws.PutInPlace | client/realtime_events.ts:99 | the event of a pending name takes the place of the one before it |
| FlushLaws.PutAtEnd | client/realtime_events.ts:99 | an event of a new name comes last |
| FlushLaws.FloodExactlyWhen | client/realtime_events.ts:120-124 | a batch is a flood exactly when it asks for a resync or has changes at four places |
| FlushLaws.PicksInOrder | client/realtime_events.ts:120-122 | the events of one action are picked in the order of the batch |
| RealtimeEvents.BeginOwesEverything | client/realtime_events.ts:117-131 | a flush starts with every event of its batch still to be served |
| RealtimeEvents.AdvanceServes | client/realtime_events.ts:123-149 | an event leaves the unserved part of a batch only by a hook call made for that batch that serves it, whatever calls are rejected: a change by its own sync or probe, or in a flood by the space sync and list refresh; a delete by a list refresh |
| RealtimeEvents.FlushServesBatch | client/realtime_events.ts:117-150 | a flush that runs to its end has served, in that sense, every event of its batch |
| RealtimeEvents.SyncsComeFirst | client/realtime_events.ts:128-142 | while the service worker is active, every probe comes right after the sync of its file, and the list refresh of a flood right after the space sync |
| FlushLaws.CallsAreDue | client/realtime_events.ts:123-149 | no hook is called that no event of the batch asks for, and no single file in a flood |
| FlushLaws.FlushKeepsOrder | client/realtime_events.ts:134-143 | files are synced and probed in the order of their changes, none twice for one change |
| FlushLaws.FlushRefreshesLast | client/realtime_events.ts:131-146 | a flush refreshes the list at most once, as its last call |
| FlushLaws.NoWorkerNoSync | client/realtime_events.ts:128-139 | without an active service worker nothing is synced |
| RealtimeEvents.RealtimeEvents.HandleEvent | client/realtime_events.ts:98-107 | the fields become those of the arrival step of the runs: the event is the pending one of its name, and a timer is started exactly when the field was unset |
| RealtimeEvents.RealtimeEvents.TakeBatch | client/realtime_events.ts:118-119 | a flush takes all pending events and leaves none; the timer field stays set |
| RealtimeEvents.RealtimeEvents.CallHooks | client/realtime_events.ts:120-150 | the calls made, in order, are those of the stepwise flush, and they serve every event of the batch |
| RealtimeEvents.RealtimeEvents.EndFlush | client/realtime_events.ts:111-114 | the fields become those of the end step of the runs: the lock is released, or a new timer set exactly when events are pending |
| RealtimeRuns.OneFlushAtATime | client/realtime_events.ts:98-115 | over all interleavings at most one timer is live or one flush under way, the field is set exactly then, and pending events imply it |
| RealtimeRuns.LatestEventIsKept | client/realtime_events.ts:98-150 | over all interleavings the latest event of each name is pending, in the unserved part of the running batch, or served since it came in, by a call made for a batch that holds it: loosely, by its own sync or probe, in a flood by the space sync or list refresh, as a delete by the list refresh; strictly, by that probe or refresh, or by the rejection of the sync before it |
| RealtimeRuns.NeverStuck | client/realtime_events.ts:109-115 | while the field is set something can go on without a further event |
| RealtimeRuns.RunsAreShort | client/realtime_events.ts:109-150 | without further events every run is over after a number of steps known from the state |
| RealtimeRuns.ComesToRest | client/realtime_events.ts:109-150 | from every reachable state the machine can come to rest without further events |
| RealtimeRuns.AtRestEverythingIsServed | client/realtime_events.ts:98-150 | at rest the latest event of each name has been served, in the same sense |

## Left out

- Numbers are mathematical integers and reals: floating-point rounding, NaN and infinities are not modelled, and square roots are given by `r >= 0 && r * r == x`.
- Strings are sequences of characters; only keys, queue names and message ids are sequences of 16-bit code units, since only their order matters. Unicode normalization and case mapping are arbitrary functions.
- Fuzzy search: field weights, the geometric mean and the sorting of candidates (client/lib/fuzzy_search.ts:199 on).
- Aggregates: coercion of values to numbers is given (an input is a number or none); counts, sums, extrema and the sorting before a quantile.
- Quantiles.QuantileFinish: q is taken to be in [0, 1], where the indices stay in range.
- Baked sections: evaluating an expression is an arbitrary deterministic function of it; un-baking and the editor commands.
- Tables: the splitting of a text into lines, `parseInline` on cell contents, and how a value becomes text; header names are printed without escaping, so the round trip is about rows of escaped cells.
- HTML: rendering of tag trees, which uses no escaping rule beyond `htmlEscape`; regular-expression parsing of a single tag.
- Key-value store: transactions, cursors and key types other than strings; encryption.
- Object index: start-up, reindexing, validation and the building of objects from pages; the whole-index clear.
- Message queue: its store is three maps by queue and id; that the serialized rows behind them are scanned alike is `DeliveryOrder.QueueScanFindsItsRows` and `DeliveryOrder.QueueScanIsInIdOrder`.
- Message queue: workers and their wake-ups, flushing of queues and of dead letters, several queue objects on one database, a sequence that starts again after a restart, and names that cannot be part of a key. A message that was never retried has retry count zero.
- MessageQueue.DataStoreMQ.RequeueTimeouts: its delete and its write are one step in the runs; between them a message is in neither place.
- MessageQueue.DataStoreMQ.Poll: its read is one step; what a cursor sees when the queue changes during the scan is not modelled.
- Realtime events: the event source and its reconnection, and stopping while a flush runs; the machine is never stopped.
- RealtimeEvents.RealtimeEvents.CallHooks: the hooks' answers are given in advance as functions of the step; the interleaving of other events with them is in the runs.
- The Lua evaluator, the query engine, the service worker, file synchronisation and all user interface code.
