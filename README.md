# vue-pdf highlight engine, modelled in Dafny

This project models the match-location engine of vue-pdf's text highlighting,
`packages/vue-pdf/src/components/utils/highlight.ts`. The engine has three stages:

- `searchQuery`: joins a page's text items into one string and scans it with a
  global regular expression built from the trimmed, escaped query. A line-ending
  item that ends in `-` loses its hyphen; any other line-ending item is followed
  by a space.
- `convertMatches`: turns each flat scan result into (item, offset) coordinates.
  A cursor walks the items once per call. Each record gets two flags: whether
  it crosses a line break, or spans several items on one line.
- `findMatches`: sorts the queries longest keyword first, with a stable sort.
  It keeps a record only when the record's range of the joined text shares no
  offset with a range kept before, and labels every kept record with its
  query's key and keyword.

The model also covers what `highlightMatches` does with each record:
- which branch of its loop the record takes;
- which item slices `appendHighlightDiv` is asked to highlight;
- the text each highlight carries.

Modules, one file each:
- `Types` (`types.dfy`): `TextItem`, `HighlightOptions`, the raw scan result and
  `Match`, after `packages/vue-pdf/src/components/types.ts`.
- `Flattening` (`flatten.dfy`): the join and the per-item offset model.
- `Searching` (`search.dfy`): trim, escape and the regular-expression scan as a
  literal search with word boundaries.
- `Locating` (`convert.dfy`): `convertMatches`.
- `Sorting` (`sort.dfy`): the stable in-place sort by keyword length.
- `Finding` (`find.dfy`): `findMatches` and `isOverlapping`.
- `Rendering` (`render.dfy`): the per-record dispatch of `highlightMatches`, the
  substring choice of `appendHighlightDiv`, and the text the highlights show.
- `Examples` (`examples.dfy`): worked cases.

Loops of the source are methods with loop invariants, proved against functions
that state the same computation as values:
- `FlattenItems`, `ExecAll` and `SearchQuery`;
- `AreInSameLine`, `ConvertMatches` and `LocateMatch`;
- `SortByLength` and `InsertAt`, over an `array`: for pairs, the caller's array,
  as the source sorts it in place; for a keyword list, a fresh array holding the
  normalised queries, as the source sorts the mapped copy;
- `FindMatches`, `FilterQueries` and `AcceptAll`;
- `LineSegments` and `PlanHighlights`. `PlanMatch` is the body of the loop over
  the records, not a loop itself.

The properties are proved about those functions.

A scan that never ends is a result, not an excluded input. `regex.exec` with an
empty pattern matches without advancing, so the `exec` loop never stops. The
same happens for `\b\b` when the text has a word character. The model returns
`Diverges` in those cases (`SearchDivergesIff`, `FindAllDivergesIff`).

Three behaviours of the code worth noting:
- A word hyphenated across a line break, "exam-"/"ple", is a record flagged as
  crossing a line break. `areInSameLine` sees the line-ending first item.
- For a non-empty trimmed query, flattening no items gives the empty text and
  no results; nothing fails. Without `completeWords`, an empty trimmed query on
  no items never returns, as above. With it, `\b\b` finds nothing in the empty
  text and the result is empty (`Examples.EmptyQueryOnNoItems`).
- No word-sequence matching mode with diacritic stripping exists:
  `ignoreSpecialChars` and `customSpecialChars` are never read.

The locator compares offsets with the item's own text length, hyphen included.
The joined text drops that hyphen. So a match that ends just before the next line
can be reported as ending on the hyphen of the line-ending item. For example,
"bc" in "ab-"/"cd" is reported at item 0, offsets 1 to 3, and its highlight
text is "b-". The model keeps this behaviour
(`Examples.HyphenCountsInItemLength`, `Examples.HyphenInsideHighlight`). The
same happens to a record over several lines that ends just past such an item:
"x abc" over "x", "ab-" and "cd" ends at offset 3 of "ab-", and its highlights
are "x" and "ab-" (`Examples.HyphenEndsMultiLineRecord`,
`Examples.HyphenInsideLineHighlights`). `Rendering.SingleDivContent` and
`Rendering.LineSegmentsContent` state the content property for the other records:
the highlights, read the way the join reads their items, show the matched text.

## Model

| member | source | states |
|---|---|---|
| Flattening.EndOfLineOffset | packages/vue-pdf/src/components/utils/highlight.ts:92-98 | the definition of `endOfLineOffset`: -1 for a line end after a hyphen, 1 for another line end, 0 otherwise; `Piece` states that it is what an item adds to the joined text beyond its own text, and `JoinedPrefixLength` that the locator's deltas add up to the join |
| Flattening.Piece | packages/vue-pdf/src/components/utils/highlight.ts:53-63 | what one item adds to the joined text: its text without the final hyphen when it ends a line with `-`, its text and a newline when it ends a line otherwise, its text alone otherwise; the length is the text length plus `endOfLineOffset`, and the text's characters come first |
| Flattening.NewlinesToSpaces | packages/vue-pdf/src/components/utils/highlight.ts:67 | same length, every newline replaced by a space and every other character kept, so no newline is left |
| Flattening.Flatten | packages/vue-pdf/src/components/utils/highlight.ts:51-67 | the joined text is as long as the sum of the per-item deltas the locator adds to `tindex` |
| Flattening.JoinedPrefixLength | packages/vue-pdf/src/components/utils/highlight.ts:51-64 | the pieces of the first `k` items are `Pos(k)` characters long: the join and the locator's cursor use the same delta model |
| Flattening.Pos | packages/vue-pdf/src/components/utils/highlight.ts:109-123 | the definition of the value `tindex` holds while the cursor is on item `k`: the sum of the first `k` deltas; `JoinedPrefixLength`, `PosMonotone`, `JoinedAt` and `FlattenAt` state where each item's piece sits at that offset |
| Flattening.JoinedLength | packages/vue-pdf/src/components/utils/highlight.ts:51-64 | the joined text is as long as the sum of all the items' deltas |
| Flattening.PosMonotone | packages/vue-pdf/src/components/utils/highlight.ts:119-123 | the flat offset at which an item starts never decreases as the cursor moves right |
| Flattening.FlattenAt | packages/vue-pdf/src/components/utils/highlight.ts:51-67 | character `j` of item `k` sits at flat offset `Pos(k) + j` (a newline shown as a space), and the separator after a line end without hyphen is a space |
| Flattening.JoinedAt | packages/vue-pdf/src/components/utils/highlight.ts:51-64 | the same placement before newlines become spaces: item `k`'s piece starts at `Pos(k)` |
| Flattening.FlattenSlice | packages/vue-pdf/src/components/utils/highlight.ts:64-67 | a slice of the flat text is the same slice of the joined text with each newline shown as a space |
| Flattening.Pieces | packages/vue-pdf/src/components/utils/highlight.ts:53-64 | the definition of the pieces of items `lo` to `hi` (exclusive) joined in order; `JoinedRange` states where they sit in the joined text |
| Flattening.JoinedRange | packages/vue-pdf/src/components/utils/highlight.ts:51-64 | between the flat offsets where items `lo` and `hi` begin, the joined text holds exactly the pieces of the items in between |
| Flattening.JoinedSlice | packages/vue-pdf/src/components/utils/highlight.ts:51-64 | from offset `c0` of item `i`, `len` characters of the joined text are the same characters of the item's piece |
| Flattening.FlattenItems | packages/vue-pdf/src/components/utils/highlight.ts:51-67 | the push loop and the join produce exactly `Flatten(items)`, of length `Pos(|items|)` |
| Flattening.PushItem | packages/vue-pdf/src/components/utils/highlight.ts:53-63 | one iteration of the push loop appends exactly the item's piece |
| Searching.TrimStart | packages/vue-pdf/src/components/utils/highlight.ts:73 | drops a prefix made only of white space and line terminators; what is left does not begin with one |
| Searching.TrimEnd | packages/vue-pdf/src/components/utils/highlight.ts:73 | drops a suffix made only of white space and line terminators; what is left does not end with one |
| Searching.Trim | packages/vue-pdf/src/components/utils/highlight.ts:73 | `query.trim()` is no longer than the query and neither begins nor ends with white space |
| Searching.Escape | packages/vue-pdf/src/components/utils/highlight.ts:73 | escaping never shortens the query; `EscapeIsLiteral` states what the escaped pattern means |
| Searching.LiteralText | packages/vue-pdf/src/components/utils/highlight.ts:73 | the literal text a pattern of plain and escaped characters denotes is no longer than the pattern; `EscapeIsLiteral` states that it undoes `Escape` |
| Searching.Canonicalize | packages/vue-pdf/src/components/utils/highlight.ts:69-70 | the definition of the `i` flag's case folding for ASCII letters; `SpellsAtIff` and `FoundText` state what a match under `ignoreCase` then is |
| Searching.IsBoundary | packages/vue-pdf/src/components/utils/highlight.ts:74 | the definition of `\b` at a position: the characters on its two sides differ in being word characters; `SearchResultWholeWord` and `FirstWordChar` state its use |
| Searching.MatchAt | packages/vue-pdf/src/components/utils/highlight.ts:69-76 | the definition of a match of the regular expression built at lines 69-76 at a position: the query spelled there, up to ASCII case with `i`, between two boundaries with `completeWords`; `ExecIsLeftmost` and `SearchFound` state its use |
| Searching.EscapeIsLiteral | packages/vue-pdf/src/components/utils/highlight.ts:73 | the escaped query is a pattern of literal characters only and denotes exactly the query: the regular expression searches for the text itself |
| Searching.SpellsAtIff | packages/vue-pdf/src/components/utils/highlight.ts:70-76 | the text spells the query at `i` exactly when every character matches, up to ASCII case under `ignoreCase` |
| Searching.Exec | packages/vue-pdf/src/components/utils/highlight.ts:81 | `regex.exec` reports a position at or after `lastIndex` with room for the query |
| Searching.ExecIsLeftmost | packages/vue-pdf/src/components/utils/highlight.ts:81 | the reported position is a match and no position between `lastIndex` and it matches (none at all when nothing is reported) |
| Searching.MatchesFrom | packages/vue-pdf/src/components/utils/highlight.ts:78-85 | the definition of the `exec` loop from `lastIndex` as a value; `MatchesFromFound`, `MatchesFromCover` and `ExecAll` state its properties |
| Searching.MatchesFromFound | packages/vue-pdf/src/components/utils/highlight.ts:78-85 | every scan result is an occurrence at or after the start, and consecutive results do not overlap |
| Searching.SearchQuery | packages/vue-pdf/src/components/utils/highlight.ts:46-86 | the method returns `Search(items, query, options)`, divergence included |
| Searching.Search | packages/vue-pdf/src/components/utils/highlight.ts:46-86 | the definition of `searchQuery` as a value, divergence included; `SearchFound`, `SearchCoversEveryOccurrence`, `SearchDivergesIff`, `SearchEmptyText` and `SearchResultText` state its properties |
| Searching.ExecAll | packages/vue-pdf/src/components/utils/highlight.ts:78-85 | the `exec` loop collects exactly the scan results from offset 0 |
| Searching.SearchFound | packages/vue-pdf/src/components/utils/highlight.ts:46-86 | the results are exact occurrences of the trimmed query in the joined text, non-empty, in order and disjoint |
| Searching.SearchEmptyText | packages/vue-pdf/src/components/utils/highlight.ts:46-86 | with no text items there are no results |
| Searching.MatchesFromCover | packages/vue-pdf/src/components/utils/highlight.ts:81-83 | every occurrence at or after the start lies inside some scan result that begins at or before it |
| Searching.SearchCoversEveryOccurrence | packages/vue-pdf/src/components/utils/highlight.ts:46-86 | every occurrence of the trimmed query in the joined text lies inside some search result |
| Searching.FoundText | packages/vue-pdf/src/components/utils/highlight.ts:82 | a result's text has the query's length, equals the query without `ignoreCase` and equals it up to ASCII case with it |
| Searching.SearchResultText | packages/vue-pdf/src/components/utils/highlight.ts:82 | the same for each search result, whose length is that of the non-empty trimmed query |
| Searching.SearchResultWholeWord | packages/vue-pdf/src/components/utils/highlight.ts:74 | with `completeWords` every result begins and ends at a word boundary |
| Searching.SearchDivergesIff | packages/vue-pdf/src/components/utils/highlight.ts:73-83 | the `exec` loop never ends exactly when the trimmed query is empty and, with `completeWords`, the text has a word character |
| Searching.FirstWordChar | packages/vue-pdf/src/components/utils/highlight.ts:74 | before any word character there is a word character at a word boundary |
| Searching.MatchEdgesAreNotSpaces | packages/vue-pdf/src/components/utils/highlight.ts:73-74 | a match of a trimmed query neither begins nor ends on a space |
| Locating.Advance | packages/vue-pdf/src/components/utils/highlight.ts:119-123 | a cursor scan stops at or after where it started, on an existing item |
| Locating.AdvanceStops | packages/vue-pdf/src/components/utils/highlight.ts:119-123 | the scan passes only items the target is beyond, and stops before the last item only on an item the target is not beyond |
| Locating.AdvanceReach | packages/vue-pdf/src/components/utils/highlight.ts:119-136 | a scan that moved stops on an item beginning at or before the target; the start scan overshoots by one only past the space of a line end without hyphen |
| Locating.AreInSameLine | packages/vue-pdf/src/components/utils/highlight.ts:100-107 | returns true exactly when no item in `[startIdx, endIdx)` ends a line |
| Locating.SameLine | packages/vue-pdf/src/components/utils/highlight.ts:100-107 | the definition of what `areInSameLine` reports: no item in `[startIdx, endIdx)` ends a line; `AreInSameLine` computes it and `LocateIsLocated` ties the flags to it |
| Locating.Locate | packages/vue-pdf/src/components/utils/highlight.ts:116-158 | a record's start item is at or after the cursor and its end item is at or after its start item |
| Locating.ConvertFrom | packages/vue-pdf/src/components/utils/highlight.ts:116-159 | one record per scan result; `ConvertFromLocated`, `ConvertFromCursor` and `ConvertFromInRange` state where each record points |
| Locating.Convert | packages/vue-pdf/src/components/utils/highlight.ts:88-162 | the definition of `convertMatches` as a value, from a cursor at `(0, 0)`; `ConvertLocated`, `ConvertFromInRange` and `ConvertMatches` state its properties |
| Locating.LocateIsLocated | packages/vue-pdf/src/components/utils/highlight.ts:117-158 | the record points at the result's first and end offsets of the joined text, sets the line-break flag exactly when an item in between ends a line and the same-line flag otherwise for multi-item records, and copies text and index |
| Locating.LocatedFlags | packages/vue-pdf/src/components/utils/highlight.ts:143-147 | the two flags are never both set, neither is set exactly for a single-item record, and such a record's offsets are the result's length apart |
| Locating.ConvertFromLocated | packages/vue-pdf/src/components/utils/highlight.ts:109-159 | each record is located for its scan result and starts at or after the initial cursor |
| Locating.ConvertFromCursor | packages/vue-pdf/src/components/utils/highlight.ts:109-159 | the cursor never moves back: each record starts at or after the end item of the one before |
| Locating.ConvertLocated | packages/vue-pdf/src/components/utils/highlight.ts:88-162 | `convertMatches` returns one located record per result, in order, with a cursor that never moves back |
| Locating.ConvertMatches | packages/vue-pdf/src/components/utils/highlight.ts:88-162 | the method returns `Convert(items, matches)` |
| Locating.LocateMatch | packages/vue-pdf/src/components/utils/highlight.ts:117-158 | one iteration builds `Locate(items, raw, index)` and leaves the cursor on its end item with `tindex == Pos(index)` |
| Locating.SeparatorsAreSpaces | packages/vue-pdf/src/components/utils/highlight.ts:59-67 | a character of the joined text that is not a space is not the separator added after a line end |
| Locating.StartScanInRange | packages/vue-pdf/src/components/utils/highlight.ts:119-128 | for an offset that is not a separator the start scan stops on the item whose text holds it |
| Locating.EndScanInRange | packages/vue-pdf/src/components/utils/highlight.ts:130-141 | for an end whose last character is not a separator the end scan stops on an item whose text reaches it |
| Locating.LocateInRange | packages/vue-pdf/src/components/utils/highlight.ts:116-141 | for a result inside the text the start offset lies within its item's text and the end offset at most at its end |
| Locating.ConvertFromInRange | packages/vue-pdf/src/components/utils/highlight.ts:109-159 | ordered results inside the text give records whose offsets lie within their items' texts |
| Locating.SearchConvertInRange | packages/vue-pdf/src/components/utils/highlight.ts:46-162 | every record built from a search result has in-range coordinates |
| Locating.SearchInsideText | packages/vue-pdf/src/components/utils/highlight.ts:46-86 | every search result begins and ends on characters of item texts, never on a separator |
| Sorting.Insert | packages/vue-pdf/src/components/utils/highlight.ts:589 | inserting one query adds one element; `InsertWithLength` states that it goes after every query of its own keyword length and keeps the order of the others |
| Sorting.SortedByLength | packages/vue-pdf/src/components/utils/highlight.ts:589 | the sort keeps the number of queries; what it computes is stated by `SortedIsLongestFirst`, `SortedIsPermutation` and `SortedIsStable` |
| Sorting.SortedIsLongestFirst | packages/vue-pdf/src/components/utils/highlight.ts:588-589 | the sorted queries are in non-increasing keyword length |
| Sorting.SortedIsPermutation | packages/vue-pdf/src/components/utils/highlight.ts:589 | the sorted queries are a permutation of the input |
| Sorting.SortedIsStable | packages/vue-pdf/src/components/utils/highlight.ts:589 | queries of equal keyword length keep their input order |
| Sorting.InsertAt | packages/vue-pdf/src/components/utils/highlight.ts:589 | one insertion pass puts `a[i]` into the sorted prefix as `Insert` does and leaves the rest alone |
| Sorting.SortByLength | packages/vue-pdf/src/components/utils/highlight.ts:589 | the in-place sort leaves the array holding `SortedByLength` of its old contents |
| Sorting.SortedMember | packages/vue-pdf/src/components/utils/highlight.ts:589 | every sorted query was in the input |
| Sorting.SortedIndexOf | packages/vue-pdf/src/components/utils/highlight.ts:589 | every input query is somewhere in the sorted array |
| Finding.IsOverlapping | packages/vue-pdf/src/components/utils/highlight.ts:595-611 | for non-empty ranges, the three-case test holds exactly when the new range shares an offset with a kept range |
| Finding.Normalize | packages/vue-pdf/src/components/utils/highlight.ts:583-586 | a plain keyword list becomes queries whose key is their keyword, in order |
| Finding.Step | packages/vue-pdf/src/components/utils/highlight.ts:621-634 | the definition of one iteration of the inner loop: keep the record, labelled, and its range unless the range overlaps a kept one; `StepValid` states the invariant it keeps |
| Finding.AcceptMatches | packages/vue-pdf/src/components/utils/highlight.ts:621-634 | the definition of the inner loop over `currentMatches`; `AcceptMatchesValid`, `AcceptMatchesCovers`, `AcceptMatchesSound` and `AcceptMatchesInOrder` state its properties, and `AcceptAll` computes it |
| Finding.Records | packages/vue-pdf/src/components/utils/highlight.ts:617-618 | the definition of `convertMatches(searchQuery(...))` for one keyword; `RecordsFound` and `RecordListsAt` state its properties |
| Finding.AcceptQueries | packages/vue-pdf/src/components/utils/highlight.ts:613-636 | the definition of the outer loop over the sorted queries; `AcceptQueriesValid`, `AcceptQueriesCovers`, `AcceptQueriesSound` and `AcceptQueriesLongestFirst` state its properties |
| Finding.Filtered | packages/vue-pdf/src/components/utils/highlight.ts:613-638 | the definition of the outer loop from empty lists, returning the kept records; `FilterQueries` computes it |
| Finding.FindAll | packages/vue-pdf/src/components/utils/highlight.ts:577-639 | the definition of `findMatches` on normalised queries as a value: the loop over the sorted queries; `FindAllDisjoint`, `FindAllComplete`, `FindAllOrigins`, `FindAllLongerWins` and `FindAllDivergesIff` state its properties |
| Finding.OrderedChain | packages/vue-pdf/src/components/utils/highlight.ts:78-85 | results whose neighbours do not overlap are pairwise left to right |
| Finding.RecordsFound | packages/vue-pdf/src/components/utils/highlight.ts:617-618 | one query's records are left to right, non-empty, in range and unlabelled |
| Finding.StepValid | packages/vue-pdf/src/components/utils/highlight.ts:621-634 | one step keeps the kept ranges the non-empty, pairwise disjoint ranges of the kept records |
| Finding.AcceptMatchesValid | packages/vue-pdf/src/components/utils/highlight.ts:621-634 | the inner loop keeps that invariant |
| Finding.OverlapGrows | packages/vue-pdf/src/components/utils/highlight.ts:602-610 | a range that overlaps some kept ranges still overlaps after more are kept |
| Finding.AcceptMatchesCovers | packages/vue-pdf/src/components/utils/highlight.ts:621-634 | after the inner loop every record of the query overlaps a kept range; nothing kept before is dropped |
| Finding.AcceptMatchesSound | packages/vue-pdf/src/components/utils/highlight.ts:621-634 | every record the inner loop adds is a record of the query labelled with it |
| Finding.AddedAfter | packages/vue-pdf/src/components/utils/highlight.ts:621-634 | records added from records at or after an offset begin at or after it |
| Finding.AcceptMatchesInOrder | packages/vue-pdf/src/components/utils/highlight.ts:621-634 | the records one query adds come left to right |
| Finding.AcceptMatchesLabels | packages/vue-pdf/src/components/utils/highlight.ts:629-633 | each added record carries the query's key and keyword |
| Finding.AllBlocked | packages/vue-pdf/src/components/utils/highlight.ts:626 | when every record overlaps a kept range the inner loop adds nothing |
| Finding.CoveredGrows | packages/vue-pdf/src/components/utils/highlight.ts:602-610 | a query whose records all overlap kept ranges stays so as more ranges are kept |
| Finding.AcceptQueriesValid | packages/vue-pdf/src/components/utils/highlight.ts:613-636 | the outer loop keeps the kept ranges disjoint |
| Finding.AcceptQueriesCovers | packages/vue-pdf/src/components/utils/highlight.ts:613-636 | after the outer loop every record of every query overlaps a kept range |
| Finding.AcceptQueriesSound | packages/vue-pdf/src/components/utils/highlight.ts:613-636 | every kept record is a labelled record of one of the queries |
| Finding.PassLongestFirst | packages/vue-pdf/src/components/utils/highlight.ts:613-636 | a pass with a keyword no longer than those kept keeps the output longest keyword first |
| Finding.AcceptQueriesLongestFirst | packages/vue-pdf/src/components/utils/highlight.ts:613-636 | sorted queries give output grouped longest keyword first |
| Finding.PassNewKeywordInOrder | packages/vue-pdf/src/components/utils/highlight.ts:621-634 | a pass with a new keyword keeps the records of each keyword left to right |
| Finding.PassNewKeywordCovered | packages/vue-pdf/src/components/utils/highlight.ts:621-634 | a pass keeps every kept record's keyword with all its records overlapping kept ranges |
| Finding.PassInOrder | packages/vue-pdf/src/components/utils/highlight.ts:621-634 | a pass keeps the records of each keyword left to right and every kept keyword's records overlapping kept ranges |
| Finding.AcceptQueriesSameKeywordInOrder | packages/vue-pdf/src/components/utils/highlight.ts:613-636 | the outer loop keeps the records of each keyword left to right |
| Finding.AcceptQueriesDiverges | packages/vue-pdf/src/components/utils/highlight.ts:613-618 | the outer loop diverges exactly when the search of one of its queries does |
| Finding.FoundForInRange | packages/vue-pdf/src/components/utils/highlight.ts:617-633 | a labelled record is non-empty, in range and carries its query's key and keyword |
| Finding.CoveredIntersects | packages/vue-pdf/src/components/utils/highlight.ts:595-611 | with disjoint kept ranges, every record of a keyword whose records overlap kept ranges shares an offset with a kept record |
| Finding.AcceptMatchesExtends | packages/vue-pdf/src/components/utils/highlight.ts:621-634 | the inner loop only appends to the kept records |
| Finding.AcceptQueriesLists | packages/vue-pdf/src/components/utils/highlight.ts:613-636 | once every search has ended, the outer loop is the same loop over the list of each query's records |
| Finding.RecordListsAt | packages/vue-pdf/src/components/utils/highlight.ts:616-618 | the `i`-th list holds the records of the `i`-th query |
| Finding.PassAt | packages/vue-pdf/src/components/utils/highlight.ts:613-636 | a record appended by the first query's pass has pass 0; a later one has one more than its pass in the loop over the remaining queries |
| Finding.AcceptListsLength | packages/vue-pdf/src/components/utils/highlight.ts:613-636 | the outer loop only appends, and each appended record has a pass |
| Finding.PassesInOrder | packages/vue-pdf/src/components/utils/highlight.ts:613-636 | the passes of the appended records are positions of the queries and never decrease: passes run in query order |
| Finding.AcceptListsPass | packages/vue-pdf/src/components/utils/highlight.ts:613-636 | each appended record is one of the records of its pass's query, labelled with that query |
| Finding.OverlapBlocks | packages/vue-pdf/src/components/utils/highlight.ts:626 | with valid kept ranges, a record whose range the overlap test rejects shares an offset with a kept record |
| Finding.GrownPassBlocks | packages/vue-pdf/src/components/utils/highlight.ts:613-636 | a record blocked after the first pass is blocked by a record kept before the loop or by that pass |
| Finding.FirstPassBlocks | packages/vue-pdf/src/components/utils/highlight.ts:613-636 | the same, stated for the outer loop's first pass |
| Finding.ShiftedPassBlocks | packages/vue-pdf/src/components/utils/highlight.ts:613-636 | renumbering the passes of the remaining queries from the first keeps a blocking record blocking |
| Finding.LaterPassBlocks | packages/vue-pdf/src/components/utils/highlight.ts:613-636 | a record blocked by a later pass is blocked by that pass numbered from the first query |
| Finding.AcceptListsPriority | packages/vue-pdf/src/components/utils/highlight.ts:613-636 | every record of the `i`-th query shares an offset with a record kept before the loop or by pass `i` or an earlier pass: the filter only looks back |
| Finding.AcceptQueriesStep | packages/vue-pdf/src/components/utils/highlight.ts:613-618 | the outer loop is the inner loop over the first query's records followed by the outer loop over the rest |
| Finding.FindAllDisjoint | packages/vue-pdf/src/components/utils/highlight.ts:577-639 | the returned records are non-empty and no two share an offset of the joined text |
| Finding.FindAllComplete | packages/vue-pdf/src/components/utils/highlight.ts:577-639 | every record of every query shares an offset with some returned record (a returned record shares its own offsets) |
| Finding.FindAllLists | packages/vue-pdf/src/components/utils/highlight.ts:577-639 | the result of `findMatches` is the outer loop over the records of the sorted queries |
| Finding.FindAllRecordsAt | packages/vue-pdf/src/components/utils/highlight.ts:613-618 | when `findMatches` returns, every sorted query's search has ended, and its records are those the loop sees |
| Finding.FindAllOriginsInOrder | packages/vue-pdf/src/components/utils/highlight.ts:588-636 | there is one pass per returned record, each a position of the sorted queries, non-decreasing |
| Finding.FindAllOriginAt | packages/vue-pdf/src/components/utils/highlight.ts:613-636 | the `k`-th returned record is a record of the query of its pass, labelled with it |
| Finding.FindAllOrigins | packages/vue-pdf/src/components/utils/highlight.ts:588-636 | each returned record comes from the pass of one sorted query, and the passes never decrease along the result: the records follow the sorted order, longest keyword first and, among equal lengths, the order the queries were given in |
| Finding.FindAllPriority | packages/vue-pdf/src/components/utils/highlight.ts:613-636 | every record of the `i`-th sorted query shares an offset with a returned record kept by pass `i` or an earlier one |
| Finding.PassBlocksLonger | packages/vue-pdf/src/components/utils/highlight.ts:588-589 | under a longest-first order, a record blocked by pass `i` or an earlier one is blocked by a record whose keyword is at least as long as query `i`'s |
| Finding.FindAllLongerWins | packages/vue-pdf/src/components/utils/highlight.ts:588-589 | longer keywords win: every record of any query shares an offset with a returned record whose keyword is at least as long as that query's |
| Finding.FindAllSound | packages/vue-pdf/src/components/utils/highlight.ts:577-639 | every returned record is a record of one of the queries, labelled with that query |
| Finding.FindAllInRange | packages/vue-pdf/src/components/utils/highlight.ts:577-639 | every returned record's offsets lie within its items' texts |
| Finding.FindAllLongestFirst | packages/vue-pdf/src/components/utils/highlight.ts:588-636 | the returned records are grouped longest keyword first |
| Finding.FindAllSameKeywordInOrder | packages/vue-pdf/src/components/utils/highlight.ts:613-636 | the records of one keyword come left to right |
| Finding.FindAllPlainKeys | packages/vue-pdf/src/components/utils/highlight.ts:583-586 | for a plain keyword list every record's key is its keyword, which is one of the keywords |
| Finding.FindAllDivergesIff | packages/vue-pdf/src/components/utils/highlight.ts:577-639 | `findMatches` never returns exactly when the search for one of the queries never ends |
| Finding.AcceptAll | packages/vue-pdf/src/components/utils/highlight.ts:621-634 | the inner loop over `currentMatches` computes `AcceptMatches` |
| Finding.FilterQueries | packages/vue-pdf/src/components/utils/highlight.ts:613-638 | the outer loop over the sorted array computes `Filtered` of its contents |
| Finding.FindMatches | packages/vue-pdf/src/components/utils/highlight.ts:577-639 | plain keywords give `FindAll(Normalize(keywords))`; pairs give `FindAll` of the caller's array as passed, and leave that array sorted in place by `SortedByLength` |
| Rendering.BranchOf | packages/vue-pdf/src/components/utils/highlight.ts:519-559 | the definition of the branch chain of the loop body; `PlanMatch` follows it and `LocatedBranch` and `FindAllBranch` state which branches records reach |
| Rendering.LineSegment | packages/vue-pdf/src/components/utils/highlight.ts:536-554 | the definition of the highlight the per-line loop asks for on one item; `LineSegments`, `LineSegmentsInBounds` and `LineSegmentsContent` state what the segments are and show |
| Rendering.Clamp | packages/vue-pdf/src/components/utils/highlight.ts:338-345 | a `substring` argument is clamped into `0..length` |
| Rendering.Substring | packages/vue-pdf/src/components/utils/highlight.ts:338-345 | `substring(a, b)` is the slice between the two in-range ends, in either order |
| Rendering.DivContent | packages/vue-pdf/src/components/utils/highlight.ts:336-345 | the highlight text: the slice between both offsets, the whole text when both are absent, the rest from the start offset, or the beginning up to the end offset |
| Rendering.LineSegments | packages/vue-pdf/src/components/utils/highlight.ts:536-555 | the per-line loop asks for one highlight per item from the start item to the end item, in order: from the start offset on the first, up to the end offset on the last, the whole text between |
| Rendering.PlanMatch | packages/vue-pdf/src/components/utils/highlight.ts:520-559 | the body of the loop over the records takes the single-div, per-line, multi-div or no branch by the record's items and flags |
| Rendering.PlanHighlights | packages/vue-pdf/src/components/utils/highlight.ts:519-560 | one plan per record, in order |
| Rendering.LocatedBranch | packages/vue-pdf/src/components/utils/highlight.ts:519-559 | a located record never reaches the nested multi-div test or falls through: single-div exactly when in one item, per-line exactly when a line ends inside it, multi-div otherwise |
| Rendering.RecordsBranch | packages/vue-pdf/src/components/utils/highlight.ts:519-559 | every record of one query takes a branch that highlights it |
| Rendering.FoundForBranch | packages/vue-pdf/src/components/utils/highlight.ts:519-559 | labelling a record does not change its branch |
| Rendering.FindAllBranch | packages/vue-pdf/src/components/utils/highlight.ts:530-532 | no record `findMatches` returns reaches the nested `isMultiDivSameLine` branch or the fall-through |
| Rendering.SingleDivContent | packages/vue-pdf/src/components/utils/highlight.ts:336-345 | a single-item highlight's text, newlines shown as spaces, is the matched text, unless the item ends a line with a hyphen |
| Rendering.ItemSliceContent | packages/vue-pdf/src/components/utils/highlight.ts:51-67 | a slice of one item's text, newlines shown as spaces, is the flat text at the item's offset, unless the slice takes in the hyphen the join drops |
| Rendering.LineSegmentsInBounds | packages/vue-pdf/src/components/utils/highlight.ts:536-555 | per-line highlights stay within their items' texts, the first begins at the match's first offset and the last ends at its end |
| Rendering.SegmentText | packages/vue-pdf/src/components/utils/highlight.ts:336-345 | the definition of the text `appendHighlightDiv` gives the highlight of one segment; `SingleDivContent`, `LineSegmentsContent` and `Examples.HyphenInsideLineHighlights` state what it shows |
| Rendering.AsJoined | packages/vue-pdf/src/components/utils/highlight.ts:53-63 | the definition of a line-ending item's highlight read the way the join reads the item; `AsJoinedPiece` ties it to the item's piece |
| Rendering.AsJoinedPiece | packages/vue-pdf/src/components/utils/highlight.ts:53-63 | read as the join reads it, the rest of an item's text from an offset is the rest of the item's piece from that offset |
| Rendering.JoinedHighlights | packages/vue-pdf/src/components/utils/highlight.ts:536-554 | the definition of the texts of consecutive per-line highlights joined by the join's rule; `HighlightsText` and `LineSegmentsContent` state what they show |
| Rendering.HighlightsText | packages/vue-pdf/src/components/utils/highlight.ts:536-554 | the per-line highlights, joined by the join's rule, show the rest of the first item's piece, the pieces of the items between, and the last item's text up to the record's end offset |
| Rendering.JoinedSpan | packages/vue-pdf/src/components/utils/highlight.ts:51-64 | the joined text from an offset of one item to an offset of a later item is the rest of the first piece, the pieces between and the start of the last item's text, unless that takes in the hyphen the join drops |
| Rendering.LineSegmentsContent | packages/vue-pdf/src/components/utils/highlight.ts:519-554 | the per-line highlights of a located record, joined by the join's rule with newlines shown as spaces, are exactly the matched text, unless the record ends at the end of a line-ending item whose text ends in `-` |
| Examples.HyphenatedLineJoins | packages/vue-pdf/src/components/utils/highlight.ts:53-67 | "ab-" ending a line and "cd" join to "abcd" |
| Examples.LineBreakBecomesSpace | packages/vue-pdf/src/components/utils/highlight.ts:53-67 | "x" ending a line, "ab-" ending a line and "cd" join to "x abcd": a space for the first line end, nothing for the hyphenated one |
| Examples.HyphenEndsMultiLineRecord | packages/vue-pdf/src/components/utils/highlight.ts:116-158 | "x abc" in that text is located from (0, 0) to (1, 3), the offset of the hyphen's end, and flagged as crossing a line break |
| Examples.HyphenInsideLineHighlights | packages/vue-pdf/src/components/utils/highlight.ts:519-554 | that record takes the per-line branch, whose highlights show "x" and "ab-": the hyphen is highlighted and the "c" is not |
| Examples.EmptyQueryOnNoItems | packages/vue-pdf/src/components/utils/highlight.ts:46-86 | on no items, an empty query never returns without `completeWords` and gives no results with it |
| Examples.HyphenatedWordSpansLines | packages/vue-pdf/src/components/utils/highlight.ts:116-158 | "example" over "exam-"/"ple" runs from (0, 0) to (1, 3) and is flagged as crossing a line break |
| Examples.HyphenCountsInItemLength | packages/vue-pdf/src/components/utils/highlight.ts:119-141 | "bc" in "abcd" from "ab-"/"cd" is reported within item 0, offsets 1 to 3 |
| Examples.HyphenInsideHighlight | packages/vue-pdf/src/components/utils/highlight.ts:336-345 | that record's highlight text is "b-" |
| Examples.WholeWordsSkipsLongerWord | packages/vue-pdf/src/components/utils/highlight.ts:46-86 | with `completeWords`, "cat" in "cats cat" is found only at 5 |
| Examples.SubstringFindsLongerWord | packages/vue-pdf/src/components/utils/highlight.ts:46-86 | without it, "cat" is found at 0 and 5 |
| Examples.ContainedRecordDropped | packages/vue-pdf/src/components/utils/highlight.ts:621-634 | once "New York" is kept, the record for "York" inside it is dropped |
| Examples.NewYorkText | packages/vue-pdf/src/components/utils/highlight.ts:53-67 | the single item "New York" joins to "New York" |
| Examples.TrimNewYork | packages/vue-pdf/src/components/utils/highlight.ts:73 | trimming leaves "New York" and "York" alone |
| Examples.NewYorkFirst | packages/vue-pdf/src/components/utils/highlight.ts:589 | "York" given before "New York" is sorted after it |
| Examples.NewYorkScan | packages/vue-pdf/src/components/utils/highlight.ts:78-85 | the scan for "New York" finds position 0 and nothing from 8 on, so the `exec` loop collects the one result (0, 8) |
| Examples.NewYorkSearch | packages/vue-pdf/src/components/utils/highlight.ts:46-86 | "New York" is found once, at 0 |
| Examples.YorkScan | packages/vue-pdf/src/components/utils/highlight.ts:78-85 | the scan for "York" passes "New " and stops at 4, and finds nothing from 8 on, so the `exec` loop collects the one result (4, 4) |
| Examples.YorkSearch | packages/vue-pdf/src/components/utils/highlight.ts:46-86 | "York" is found once, at 4 |
| Examples.OneItemConvert | packages/vue-pdf/src/components/utils/highlight.ts:88-158 | on a single item a scan result's record starts and ends on that item |
| Examples.OneItemRecords | packages/vue-pdf/src/components/utils/highlight.ts:616-618 | the located records of a single item with one scan result |
| Examples.NewYorkRecords | packages/vue-pdf/src/components/utils/highlight.ts:616-618 | the record of "New York" runs from (0, 0) to (0, 8) |
| Examples.YorkRecords | packages/vue-pdf/src/components/utils/highlight.ts:616-618 | the record of "York" runs from (0, 4) to (0, 8) |
| Examples.LongerKeywordWins | packages/vue-pdf/src/components/utils/highlight.ts:577-639 | given "York" before "New York", `findMatches` on the text "New York" returns only the "New York" record, labelled with its own key |

## Left out

- The DOM side of highlighting is not modelled. This covers, in lines 190-517 of
  `highlight.ts` unless noted:
  - pixel geometry and `createHighlightElement`;
  - `addTextOverlay`, and `resetDivs` (lines 563-573);
  - the body of `handleMultiDivHighlight`;
  - the geometry `appendHighlightDiv` computes around the text it is given;
  - the element caches `measurementsCache`, `computedStylesCache` and
    `domHelpers` (lines 7-42).

  The model stops at which highlights are asked for and what text they carry.
- The JavaScript regular-expression engine is modelled as the search it performs
  here: the escaped query is a literal, `\b` is a word boundary over
  `[A-Za-z0-9_]`, and `exec` is the leftmost match at or after `lastIndex`.
- Case folding under the `i` flag is modelled for ASCII letters only. With
  `ignoreCase`, the source also folds other letters that JavaScript folds
  ("É" and "é", say) and finds them; the model does not. The source
  string's UTF-16 code units are modelled as Dafny characters.
- `TextMarkedContent` entries of the text content are not modelled. The items are
  plain `TextItem`s.
- `ignoreSpecialChars` and `customSpecialChars` are carried in
  `HighlightOptions` but, as in the source, never read.
- A numeric key is an unbounded integer, not a double. A query without key or
  keyword is modelled with the empty string.
- Locating.Convert requires some text item when there are matches. The source
  reads an item that does not exist and throws; the search never produces
  matches from an empty item list (`Searching.SearchEmptyText`).
- A scan that never ends (empty trimmed query without `completeWords`, or `\b\b`
  on a text with a word character) is the result `Diverges`, not a hang.
- An empty keyword list and an empty pairs array both give no records.
- Rendering.SingleDivContent: the content property is not stated for an item
  that ends a line with a hyphen. There, the locator counts the hyphen the joined
  text drops, and the highlight can show that hyphen
  (`Examples.HyphenInsideHighlight`).
- Rendering.LineSegmentsInBounds: stated for records that span several items,
  those the per-line branch receives.
- Rendering.LineSegmentsContent: the content property is not stated for a record
  that ends at the end of a line-ending item whose text ends in `-`. There the
  last highlight shows the hyphen the join drops, and the first character of the
  next line is not highlighted (`Examples.HyphenInsideLineHighlights`).
