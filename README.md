# FuzzyTabs overlay, modelled in Dafny

FuzzyTabs is a browser extension. It opens an overlay that lists the open tabs, filters them
with a fuzzy search as the user types, highlights the matched characters, and lets the user
move the focus, activate a tab or close one from the keyboard or the mouse.

This project models the core of that overlay:

- The fuzzy matcher of microfuzz (`microfuzz.bundle.js`):
  - text normalization;
  - the first-rule-wins cascade of `matchesFuzzily`, with its score and highlight ranges;
  - `fuzzyMatch`;
  - the search closure built by `createFuzzySearch`.
- The tab matcher of `index.js`:
  - `isWordBoundary`, `fuzzyMatch`, `rangesFromIndexes` and `scoreTab`;
  - the filter and sort of `computeResultsAndRender`.
- The result list of `app.js`. The `STATE` object and the rows of the list are modelled as a
  class, with:
  - focus handling, rendering and the search;
  - the two close paths;
  - the keyboard, mouse and hover handlers;
  - `buildHighlightedSpan`.

Scores are real numbers. `null` and `undefined` are `Option`. The DOM list is the sequence of
rows it shows.

The modules are:

- `JsString`: the string built-ins the core relies on (`trim`, `toLowerCase`, `split`,
  `indexOf`, `slice`).
- `Normalize`: `normalizeText`.
- `Subsequence`: the greedy subsequence scan and its runs.
- `MicrofuzzMatch`: `matchesFuzzily`.
- `MicrofuzzSearch`: `fuzzyMatch`, `createFuzzySearch` and the search.
- `StableSort`: the stable sort both files use.
- `Highlight`: `buildHighlightedSpan`.
- `TabMatcher`: the `index.js` matcher.
- `Tabs`: tabs and removing a tab by id.
- `Filtering`: mapping and keeping present values.
- `ResultList`: the overlay state and its handlers.
- `HighlightOffset`: how ranges into the normalized text relate to the text as shown.
- `MarkedMatch`: what a highlighted label marks, against what the query matched.

## Model

| member | source | states |
|---|---|---|
| JsString.Trim | app.js:72 | The result has no white space at either end and is the slice of the input that starts after its leading white space; everything outside that slice is white space. |
| JsString.TrimUntrimmed | app.js:72 | Trimming a text without white space at its ends leaves it unchanged. |
| JsString.ToLower | index.js:68-69 | Lower-casing keeps the length and maps each character on its own; ASCII capitals move by 32, and characters that are not Latin-1 capitals or Ł stay as they are. |
| JsString.LowerCharIdempotent | index.js:68-69 | Lower-casing a lower-cased character changes nothing. |
| JsString.Split | microfuzz.bundle.js:104-106 | Splitting gives at least one piece, and no piece contains the separator. |
| JsString.SplitJoin | microfuzz.bundle.js:104-106 | Joining the pieces of a split with the separator gives back the text. |
| JsString.SplitMany | microfuzz.bundle.js:104 | A split gives more than one piece exactly when the separator occurs in the text. |
| JsString.SplitPiecesOccur | microfuzz.bundle.js:128 | Every piece of a split occurs in the text and holds no separator. |
| JsString.IndexOf | microfuzz.bundle.js:34 | The result is -1 exactly when the needle occurs nowhere; otherwise the needle occurs there and at no earlier position. |
| JsString.Slice | app.js:58-65 | For bounds inside the text, `slice` is the sub-sequence between them; it is never longer than the text. |
| Normalize.Decompose | microfuzz.bundle.js:15 | A precomposed Latin-1 letter becomes its base letter and a combining mark; every other character stays as it is. |
| Normalize.Nfd | microfuzz.bundle.js:15 | No precomposed letter survives decomposition. |
| Normalize.StripMarks | microfuzz.bundle.js:15 | Removing marks leaves no combining mark, never lengthens the text, and keeps only characters of the input. |
| Normalize.FoldLetters | microfuzz.bundle.js:16 | ł and ñ are replaced letter for letter, and nothing else changes. |
| Normalize.FoldedNormal | microfuzz.bundle.js:13-16 | After the lower-case, decompose, strip and fold steps, every character is already normal. |
| Normalize.TrimNormal | microfuzz.bundle.js:17 | Trimming keeps a text normal. |
| Normalize.NormalizeText | microfuzz.bundle.js:9-18 | Normalized text has no white space at either end, no capitals, no combining marks, and no ł or ñ; an empty text stays empty. |
| Normalize.NormalizeIdempotent | microfuzz.bundle.js:9-18 | Normalizing a normalized text changes nothing. |
| Subsequence.GreedySound | microfuzz.bundle.js:57-87 | The greedy scan's hits are strictly increasing, and each hit matches the next query character. |
| Subsequence.GreedyComplete | microfuzz.bundle.js:57-89 | If any increasing embedding of the rest of the query exists, the greedy scan consumes the whole rest. |
| Subsequence.GreedyIffSubsequence | microfuzz.bundle.js:89 | The scan consumes the query exactly when the query is a subsequence of the text, and its hits then embed the query. |
| Subsequence.Runs | microfuzz.bundle.js:63-66 | Hits give at most as many runs as there are hits; there are no runs only when there are no hits, and the last run ends at the last hit. |
| Subsequence.RunsCover | microfuzz.bundle.js:63-66 | A position lies in one of the runs exactly when it is a hit. |
| Subsequence.RunsShape | microfuzz.bundle.js:63-66 | For increasing hits, the runs are separated and begin at the first hit, they cover exactly the hits, and their total size is the number of hits. |
| Subsequence.RunsSpell | microfuzz.bundle.js:63-66 | The runs lie inside the text and spell the characters at the hits, in order. |
| MicrofuzzMatch.MatchesFuzzily | microfuzz.bundle.js:27-100 | The step-by-step cascade answers as the rule function `Match` does: first rule wins, then the scan, with no match when the query is not consumed. |
| MicrofuzzMatch.Scan | microfuzz.bundle.js:57-96 | The scan loop, with its streak, word-boundary and gap bookkeeping, gives the scan outcome: the score from the deductions and penalties and the runs of the hits, or no match. |
| MicrofuzzMatch.HitStep | microfuzz.bundle.js:62-78 | One hit moves the streak, the deductions and the runs on as the loop body does. |
| MicrofuzzMatch.FallbackShape | microfuzz.bundle.js:57-98 | The ranges of a successful scan are separated, inside the normalized item, cover as many positions as the query has characters, and spell the normalized query; so the sort of line 98 finds them already in order. |
| MicrofuzzMatch.MatchRangesSpell | microfuzz.bundle.js:32-98 | For the prefix, substring and scan rules alike, the highlight ranges are separated runs inside the normalized item that spell the normalized query. |
| MicrofuzzMatch.SingleRun | microfuzz.bundle.js:32-38 | The one range of the prefix or substring rule covers exactly the matched slice. |
| MicrofuzzMatch.EmptyQueryMatches | microfuzz.bundle.js:32-33 | An empty normalized query matches every item, with score 0.1 for an empty item and 0.5 otherwise. |
| MicrofuzzMatch.MatchNoneIff | microfuzz.bundle.js:102-112 | For prepared texts there is no match exactly when the normalized query is not a subsequence of the normalized item and the all-words rule does not apply. |
| MicrofuzzMatch.MatchNoneIffPrepared | microfuzz.bundle.js:27-89 | The same if-and-only-if, for any normalized forms that agree when the raw texts are equal. |
| MicrofuzzSearch.WordSet | microfuzz.bundle.js:128 | The word set holds exactly the pieces of the text split on spaces. |
| MicrofuzzSearch.Prepare | microfuzz.bundle.js:117-132 | A prepared text keeps the original, and holds its normalized form and its word set. A missing text is prepared as the empty text. Every word occurs in the normalized text and holds no space. |
| MicrofuzzSearch.FuzzyMatchText | microfuzz.bundle.js:102-112 | One text matches exactly as `MatchNoneIff` says, and a match is a result for that text with one range list. |
| MicrofuzzSearch.CreateFuzzySearch | microfuzz.bundle.js:117-132 | There is one entry per element, with the element and each of its texts prepared. |
| MicrofuzzSearch.OutcomeStep | microfuzz.bundle.js:141-155 | One more text keeps the best score, or replaces it with a strictly lower score; its ranges, or none, are appended to the matches. |
| MicrofuzzSearch.MatchTexts | microfuzz.bundle.js:141-155 | The inner loop yields the best score and the per-text matches of the element's texts. |
| MicrofuzzSearch.BestScoreIsMinimum | microfuzz.bundle.js:141-155 | A best score exists exactly when some text matched; it is the score of one of the matches, and no match scores lower. |
| MicrofuzzSearch.ResultOfSpec | microfuzz.bundle.js:141-158 | An element has a result exactly when one of its texts matched. Its score is the lowest match score, and its matches hold each text's ranges or `null`. |
| MicrofuzzSearch.ElementKeptIff | microfuzz.bundle.js:134-158 | For prepared texts, an element is kept exactly when, for one of its texts, the normalized query is a subsequence or the all-words rule applies. |
| MicrofuzzSearch.CollectedInOrder | microfuzz.bundle.js:138-159 | Before the sort, the results are exactly those of the elements that have one, in collection order. |
| MicrofuzzSearch.CollectedFromEntries | microfuzz.bundle.js:156-158 | Every collected result is the result of one entry, for that entry's element. |
| MicrofuzzSearch.Search | microfuzz.bundle.js:134-162 | The search closure returns the collected results, stably sorted by score. |
| MicrofuzzSearch.SearchSortedStable | microfuzz.bundle.js:160 | Search results are sorted by ascending score and are a permutation of the collected results; results with equal scores keep their collection order. |
| StableSort.Insert | microfuzz.bundle.js:160 | Insertion adds the element to the multiset and keeps a sorted sequence sorted. |
| StableSort.HeadStaysFirst | microfuzz.bundle.js:160 | When the head of a sorted sequence has a smaller key than the inserted element, the head stays first and the sequence stays sorted. |
| StableSort.Sort | microfuzz.bundle.js:160 | The result is sorted and is a permutation of the input. |
| StableSort.InsertWithKey | microfuzz.bundle.js:160 | Insertion puts the element before the existing elements with the same key; `Sort` inserts the head into the sorted tail, so the earlier element ends up first among equal keys. |
| StableSort.SortStable | index.js:181 | Among elements with the same key, the sort keeps their original order. |
| Highlight.BuildHighlightedSpan | app.js:54-67 | The loop builds the span of the piecewise definition: a plain gap and a mark per range, then the tail. |
| Highlight.AdvanceContent | app.js:57-63 | One range after the current position adds exactly the text up to the range's end. |
| Highlight.AdvanceMarked | app.js:60-62 | One range marks exactly its own characters. |
| Highlight.AdvanceCount | app.js:60-62 | One range adds one highlight. |
| Highlight.CoveredSpell | app.js:57-63 | The characters covered by separated ranges inside the text are what the ranges spell. |
| Highlight.ProgressedContent | app.js:56-64 | After ordered ranges, the pieces spell the text up to the end of the last range. |
| Highlight.ProgressedMarks | app.js:56-64 | After ordered ranges, the marked pieces spell exactly the covered characters. |
| Highlight.ProgressedCount | app.js:56-64 | After ordered ranges, there is one highlight per range. |
| Highlight.FinishShape | app.js:65 | The tail completes the text and marks nothing. |
| Highlight.HighlightedRoundTrip | app.js:54-67 | For separated ranges inside the text, the span shows the whole text unchanged, highlights exactly the characters the ranges cover, and has one highlight per range. |
| TabMatcher.IsWordBoundary | index.js:60-63 | No previous character or white space is a boundary; letters and digits never are. |
| TabMatcher.FuzzyMatch | index.js:65-105 | The step-by-step matcher answers as the function of its inputs does. |
| TabMatcher.ScanHits | index.js:74-94 | The scan loop yields the greedy hits of the lower-cased query and the points they earn. |
| TabMatcher.AddHit | index.js:79-91 | One hit adds its points and moves the streak on. |
| TabMatcher.SumGaps | index.js:99-103 | The gap loop sums the unmatched positions between consecutive hits. |
| TabMatcher.FuzzyMatchIff | index.js:65-105 | A match holds exactly when the query is empty, or the candidate is not empty and contains the lower-cased query as a subsequence. A match scores finite, and its indexes embed the query in the candidate. |
| TabMatcher.GapsClosedForm | index.js:99-103 | The gap sum is the span of the hits less the hits inside it. |
| TabMatcher.HitPointsBounds | index.js:79-91 | A hit earns between 1 and 3.7 points. |
| TabMatcher.PointsBounds | index.js:79-91 | The points are between the number of hits and 3.7 times it. |
| TabMatcher.RangesFromIndexes | index.js:107-123 | The loop gives the half-open form of the runs of the indexes. |
| TabMatcher.HalfOpenSeparated | index.js:107-123 | Separated runs become non-empty, ascending, non-adjacent half-open ranges that cover the same positions. |
| TabMatcher.RangesCoverIndexes | index.js:107-123 | For increasing indexes, the ranges are non-empty, ascending and non-adjacent, and their union is exactly the indexes; no indexes give no ranges. |
| TabMatcher.Combine | index.js:144-162 | A tab matches when its title or its URL matched; a match has a finite score; the active tab scores 0.15 more. |
| TabMatcher.ScoreTab | index.js:141-164 | The step-by-step scoring gives the combined score of the title and URL matches. |
| TabMatcher.CombineScores | index.js:144-163 | The reassignments compute the combined score. |
| TabMatcher.TabMatchedIff | index.js:141-164 | For a non-empty query a tab matches exactly when its non-blank title or its URL contains the lower-cased query as a subsequence. Its highlights embed the query in what matched. |
| TabMatcher.ItemOf | index.js:179 | A tab is pushed exactly when it matched. |
| TabMatcher.ComputeResults | index.js:166-183 | A blank query lists all tabs in order; otherwise the matched tabs, stably sorted by descending score. |
| Tabs.WithoutId | app.js:212-213 | The filter never lengthens the list and leaves no tab with the id. |
| Tabs.WithoutIdRemovesOnly | app.js:212-213 | The filter removes exactly the tabs with the id and no others. |
| Tabs.WithoutIdAppend | app.js:212-213 | Filtering distributes over concatenation. |
| Tabs.WithoutIdDropsOne | app.js:212-213 | When only one tab has the id, filtering removes just that tab. |
| Tabs.WithoutIdAbsent | app.js:212-213 | A list without the id is left unchanged. |
| ResultList.Clamp | app.js:20 | The clamped index lies on the list; an index already on the list is kept, and out-of-range indexes go to the nearer end. |
| ResultList.Overlay.constructor | app.js:7 | The initial state is an empty input, no tabs, no focus and hover focusing off. |
| ResultList.Overlay.SetFocusedIndex | app.js:15-32 | The focus is clamped onto the rows, or none for an empty list, and nothing else changes. |
| ResultList.Overlay.MoveFocus | app.js:34-40 | On a non-empty list, moving from no focus lands on the first row, and otherwise on the clamped neighbour; an empty list is left alone. |
| ResultList.Overlay.RenderTabsList | app.js:87-259 | The rows show the items, or one message row when there are none. The tabs are the items' tabs, and the focus is on the first row or none. |
| ResultList.Overlay.ComputeResultsAndRender | app.js:69-85 | The query is the trimmed input. The list shows every tab for a blank query, and otherwise the search results sorted by score. |
| ResultList.Overlay.Input | app.js:293 | The input is stored and the list is recomputed for it. |
| ResultList.Overlay.TabsArrived | app.js:264-274 | The tabs are stored, none on a failed request, and the list is recomputed. |
| ResultList.Overlay.TabClosed | app.js:195-220 | The closed tab leaves both lists and its row is removed. The focus stays, moved up if it fell off the end; an emptied list is recomputed. |
| ResultList.Overlay.FocusedTabId | app.js:326-333 | The id is present exactly when a tab row is focused, and it is that row's tab id. |
| ResultList.Overlay.KeyDown | app.js:302-374 | Any key turns hover focusing off. Escape closes the window. Down and Up move the focus. Enter activates, and the close key asks to close, the focused tab, exactly when a tab row is focused. |
| ResultList.Overlay.MouseMoved | app.js:297-299 | Hover focusing is turned on, and nothing else changes. |
| ResultList.Overlay.Hover | app.js:226-230 | The hovered row takes the focus only while hover focusing is on. |
| ResultList.BuildRow | app.js:158-177 | The row shows the tab's title and URL labels, built by `buildHighlightedSpan` from the match ranges unchanged when there is a query and ranges, else as plain text. |
| ResultList.MoveDownThenUp | app.js:34-40 | Down then up returns to a row that is not the last. |
| ResultList.MoveStaysOnList | app.js:34-40 | Moving never leaves a non-empty list, sticks at both ends, and goes from no focus to the first row. |
| ResultList.RowsShowTabs | app.js:87-259 | A rendered list shows, row by row, exactly the tabs of the state. |
| ResultList.ClosedRowInStep | app.js:203-217 | Removing the closed tab's row keeps the rows and the filtered tab list in step. |
| ResultList.EmptyQueryShowsAll | app.js:74-77 | With no query the list shows every tab, in the browser's order. |
| ResultList.ResultsAreOpenTabs | app.js:78-84 | With a query, each listed tab is an open tab, one of whose texts matched. |
| ResultList.LabelShowsText | app.js:161-177 | For separated ranges inside the text, a title or URL label shows its text unchanged; with a query and ranges it has one mark per range and marks exactly the characters the ranges cover, and otherwise no mark. |
| HighlightOffset.Shift | app.js:161-164 | Corrected half of the Findings row: moving ranges keeps their number. |
| HighlightOffset.ShiftAt | app.js:161-164 | Corrected half of the Findings row: each moved range is the original one moved by the same amount. |
| HighlightOffset.ShiftKeeps | app.js:161-164 | Corrected half of the Findings row: moving separated ranges keeps them separated, and inside a text that much longer. |
| HighlightOffset.NormChars | microfuzz.bundle.js:13-16 | Normalizing character by character keeps the length. |
| HighlightOffset.NormCharWhitespace | microfuzz.bundle.js:13-16 | A character normalizes to white space exactly when it is white space. |
| HighlightOffset.StripNfd | microfuzz.bundle.js:15 | For text without combining marks, decomposing and then stripping marks keeps the length and leaves each character's base letter. |
| HighlightOffset.FoldedChars | microfuzz.bundle.js:13-16 | For text without combining marks, the steps before trimming map each character on its own. |
| HighlightOffset.NormalizeTrims | microfuzz.bundle.js:12-18 | For text without combining marks, normalizing is trimming the characters normalized one by one. |
| HighlightOffset.LeadingNormalized | microfuzz.bundle.js:12-18 | Normalizing character by character keeps the length of the leading white space. |
| HighlightOffset.NormalizedAt | microfuzz.bundle.js:12-18 | For text without combining marks, the normalized text is the text's characters from the end of its leading white space on, normalized one by one. |
| HighlightOffset.SpellDrop | app.js:161-164 | Corrected half of the Findings row: ranges moved by `a` pick from a text what the unmoved ranges pick from its part at `a`. |
| HighlightOffset.SpellNorm | microfuzz.bundle.js:13-16 | Normalizing the characters ranges pick is picking them from the normalized characters. |
| HighlightOffset.SpellShift | app.js:161-164 | Corrected half of the Findings row: ranges into the normalized part of a text, once moved, lie in the text and pick characters that normalize to what they picked. |
| MarkedMatch.LeadingSpaceMarks | app.js:161-164 | Title " abc" and query "bc" match with range [1, 2]; the program's label (`ResultList.Label`) marks "ab", the corrected one (`MarkedMatch.CorrectedLabel`) "bc". |
| MarkedMatch.MarksSpellQuery | app.js:161-177 | For a trimmed query and a text without combining marks, the corrected label of a match shows the text, one mark per range, and its marks normalize to the normalized query. |
| MarkedMatch.WholeMarks | microfuzz.bundle.js:28 | When the query is the item itself, its one range marks the whole item, which normalizes to the normalized query. |
| MarkedMatch.SpellMoved | microfuzz.bundle.js:32-98 | Ranges spelling part of the normalized item, once moved, lie in the item and pick characters that normalize to what they spell. |
| MarkedMatch.ShownMoved | app.js:161-164 | Corrected half of the Findings row: the corrected label of moved ranges shows the text, one mark per range, and marks what the moved ranges pick. |
| MarkedMatch.LabelOneRun | app.js:161-164 | Corrected half of the Findings row: the corrected label of one range marks the characters it covers once moved. |

## Left out

- MarkedMatch.MarksSpellQuery: holds only for text without combining marks. Stripping marks
  shortens the normalized text, so its ranges no longer line up with the text as shown, and the
  model does not correct that.
- The word-start check of the substring and scan rules reads the item as shown at an index into
  the normalized item (microfuzz.bundle.js:36 and 76). With leading white space this is the same
  offset as in Findings, but it only changes a score, and the model keeps it as written.

- The background script, styling, favicons and the extension's messaging are outside the
  model. A reply to a message is a method call: the tab list arriving (`TabsArrived`) or a
  tab closed (`TabClosed`).
- Activating a tab and closing the overlay window are returned as effects (`Effect`). The
  effect of the click and mousedown activation (app.js:232-250) is not modelled.
- `activateTabById` (app.js:42-52) only sends a message, so it is an effect.
- The guards for a missing list or input element, and the try/catch around the messages, are
  not modelled; the elements are taken to exist.
- The close-key detection (Ctrl or Alt by platform) is reduced to one key, `CloseKey`.
- `toLowerCase` and `normalize('NFD')` are modelled for ASCII, the Latin-1 letters and Ł only.
  Full Unicode case mapping and decomposition are out of scope.
- Scores are real numbers, so IEEE double rounding is not modelled.
- The `MAX_SAFE_INTEGER` sentinel of the search is modelled as `Option`.
- Strings are sequences of Unicode scalar values, not of UTF-16 code units. Indexes, and so the
  position terms of both scans' scores (microfuzz.bundle.js:73-74, index.js:89), the ranges and
  the order of the results, are counted per scalar value. A character outside the Basic
  Multilingual Plane counts as one position here and as two in JavaScript, so it shifts the
  indexes after it and can change scores, ranges and the sort order.
- microfuzz's strategy argument, its `key` option, element-as-text and the window export are
  not modelled. The `queryText || ''` branch is not modelled either: the query here is never
  null.
- `index.js` has its own copy of `buildHighlightedSpan` (index.js:125-139) and a copy of the
  overlay code. Neither is modelled; the `app.js` versions are.
- The in-place sorts are modelled on values, as a stable insertion sort: `Array.prototype.sort`
  is stable.
- TabMatcher.PointsBounds: holds only for non-negative hits, which is what the scan produces.
- The code's all-words rule can produce a match even when the query is not a subsequence of the
  text. The model follows the code: `MatchNoneIff` includes that rule in its condition.

## Findings

The overlay model (`ResultList`) renders labels as the code does, offset included. The
corrected label, `MarkedMatch.CorrectedLabel`, and the property it restores are stated in
`MarkedMatch` only.

| source | as written | input that shows it | evidently intended | confidence | as-written member | corrected member |
|---|---|---|---|---|---|---|
| app.js:161-164 | The title span applies ranges into the trimmed normalized title to the untrimmed title. | Title " abc", query "bc": the range is [1, 2] and the span marks "ab". | Mark the characters that matched: move the ranges past the leading white space, which marks "bc". | not executed | MarkedMatch.LeadingSpaceMarks | MarkedMatch.MarksSpellQuery |
