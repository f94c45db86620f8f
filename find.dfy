/** Stage 3: `findMatches` (highlight.ts:577-639). The queries are sorted longest
    first; each is searched and located; a record is kept only when its flat range
    overlaps none of the ranges kept before it, and a kept record is labelled with
    its query's keyword and key. */
module Finding {
  import opened Types
  import opened Flattening
  import opened Searching
  import opened Locating
  import opened Sorting

  /** A highlighted range `{ start, end }` of flat offsets, end exclusive. */
  datatype Range = Range(start: int, end: int)

  /** What the loop has built so far: `convertedMatches` and `highlightedRanges`. */
  datatype Selection = Selection(matches: seq<Match>, ranges: seq<Range>)

  /** The `queries` argument: plain keywords, or `{ keyword, key }` pairs held in
      the caller's array (which the sort reorders in place). */
  datatype QueryList = Keywords(keywords: seq<string>) | Pairs(pairs: array<Query>)

  /** The two half-open ranges `[start, end)` and `[r.start, r.end)` share an offset. */
  predicate Intersects(r: Range, start: int, end: int) {
    start < r.end && r.start < end
  }

  /** `isOverlapping`: some kept range has `start` inside it, has `end` inside it,
      or lies within `[start, end]`. For non-empty ranges the three cases together
      say exactly that the ranges share an offset. */
  function IsOverlapping(ranges: seq<Range>, start: int, end: int): (b: bool)
    ensures start < end && (forall i :: 0 <= i < |ranges| ==> ranges[i].start < ranges[i].end) ==>
              (b <==> exists i :: 0 <= i < |ranges| && Intersects(ranges[i], start, end))
  {
    exists i :: 0 <= i < |ranges| &&
      ((start >= ranges[i].start && start < ranges[i].end) ||
       (end > ranges[i].start && end <= ranges[i].end) ||
       (start <= ranges[i].start && end >= ranges[i].end))
  }

  /** `{ start: match.index, end: match.index + match.str.length }`. */
  function RangeOf(m: Match): Range {
    Range(m.index, m.index + |m.str|)
  }

  /** `{ ...match, key, keyword }`. */
  function WithQuery(m: Match, q: Query): Match {
    m.(key := q.key, keyword := q.keyword)
  }

  /** One iteration of the inner loop over `currentMatches`. */
  function Step(sel: Selection, m: Match, q: Query): Selection {
    var r := RangeOf(m);
    if IsOverlapping(sel.ranges, r.start, r.end) then sel
    else Selection(sel.matches + [WithQuery(m, q)], sel.ranges + [r])
  }

  /** The inner loop: the records of one query, filtered against the ranges kept so far. */
  function AcceptMatches(sel: Selection, ms: seq<Match>, q: Query): Selection
    decreases |ms|
  {
    if ms == [] then sel else AcceptMatches(Step(sel, ms[0], q), ms[1..], q)
  }

  /** `convertMatches(searchQuery(textContent, keyword, options), textContent)`. */
  function Records(items: seq<TextItem>, keyword: string, options: HighlightOptions): Outcome<seq<Match>> {
    match Search(items, keyword, options)
    case Diverges => Diverges
    case Done(raws) =>
      SearchEmptyText(items, keyword, options);
      Done(Convert(items, raws))
  }

  /** The outer loop over the sorted queries. */
  function AcceptQueries(sel: Selection, qs: seq<Query>, items: seq<TextItem>, options: HighlightOptions): Outcome<Selection>
    decreases |qs|
  {
    if qs == [] then Done(sel)
    else match Records(items, qs[0].keyword, options)
      case Diverges => Diverges
      case Done(rs) => AcceptQueries(AcceptMatches(sel, rs, qs[0]), qs[1..], items, options)
  }

  /** The loop over the already sorted queries, from empty lists, as a value. */
  function Filtered(qs: seq<Query>, items: seq<TextItem>, options: HighlightOptions): Outcome<seq<Match>> {
    match AcceptQueries(Selection([], []), qs, items, options)
    case Diverges => Diverges
    case Done(sel) => Done(sel.matches)
  }

  /** `findMatches` on normalised queries, as a value. */
  function FindAll(queries: seq<Query>, items: seq<TextItem>, options: HighlightOptions): Outcome<seq<Match>> {
    Filtered(SortedByLength(queries), items, options)
  }

  /** `queries.map((keyword) => ({ keyword, key: keyword }))`. */
  function Normalize(keywords: seq<string>): (qs: seq<Query>)
    ensures |qs| == |keywords|
    ensures forall i :: 0 <= i < |qs| ==> qs[i].keyword == keywords[i] && qs[i].key == KeyString(keywords[i])
  {
    seq(|keywords|, i requires 0 <= i < |keywords| => Query(keywords[i], KeyString(keywords[i])))
  }

  // ---------------------------------------------------------------------------
  // The records of one query

  /** The records of distinct scan results lie left to right without overlapping. */
  predicate LeftToRight(ms: seq<Match>) {
    forall a, b :: 0 <= a < b < |ms| ==> ms[a].index + |ms[a].str| <= ms[b].index
  }

  lemma {:induction false} OrderedChain(ms: seq<RawMatch>)
    requires Ordered(ms)
    ensures forall a, b :: 0 <= a < b < |ms| ==> ms[a].index + ms[a].length <= ms[b].index
  {
    if |ms| > 1 {
      var n := |ms| - 1;
      var init := ms[..n];
      assert Ordered(init) by {
        forall k | 0 <= k < |init| - 1
          ensures init[k].index + init[k].length <= init[k + 1].index
        {
          assert init[k] == ms[k] && init[k + 1] == ms[k + 1];
        }
      }
      OrderedChain(init);
      forall a, b | 0 <= a < b < |ms|
        ensures ms[a].index + ms[a].length <= ms[b].index
      {
        if b < n {
          assert ms[a] == init[a] && ms[b] == init[b];
        } else if a < n - 1 {
          assert ms[a] == init[a] && ms[n - 1] == init[n - 1];
        }
      }
    }
  }

  /** The records of a query whose search ends are non-empty, lie left to right
      and point inside the text layer; their key and keyword are still unset. */
  lemma RecordsFound(items: seq<TextItem>, keyword: string, options: HighlightOptions)
    requires Records(items, keyword, options).Done?
    ensures var rs := Records(items, keyword, options).value;
            && LeftToRight(rs)
            && forall k :: 0 <= k < |rs| ==>
                 |rs[k].str| > 0 && InRange(items, rs[k]) && rs[k].keyword == ""
  {
    var raws := Search(items, keyword, options).value;
    SearchFound(items, keyword, options);
    SearchEmptyText(items, keyword, options);
    SearchConvertInRange(items, keyword, options);
    ConvertLocated(items, raws);
    OrderedChain(raws);
  }

  // ---------------------------------------------------------------------------
  // The inner loop

  /** The kept ranges are the ranges of the kept records, none empty, no two sharing an offset. */
  predicate Valid(sel: Selection) {
    && |sel.ranges| == |sel.matches|
    && (forall k :: 0 <= k < |sel.matches| ==>
          sel.ranges[k] == RangeOf(sel.matches[k]) && sel.ranges[k].start < sel.ranges[k].end)
    && (forall a, b :: 0 <= a < b < |sel.ranges| ==> !Intersects(sel.ranges[a], sel.ranges[b].start, sel.ranges[b].end))
  }

  lemma StepValid(sel: Selection, m: Match, q: Query)
    requires Valid(sel) && |m.str| > 0
    ensures Valid(Step(sel, m, q))
  {
  }

  /** Filtering keeps the kept ranges disjoint. */
  lemma {:induction false} AcceptMatchesValid(sel: Selection, ms: seq<Match>, q: Query)
    requires Valid(sel)
    requires forall k :: 0 <= k < |ms| ==> |ms[k].str| > 0
    ensures Valid(AcceptMatches(sel, ms, q))
    decreases |ms|
  {
    if ms != [] {
      StepValid(sel, ms[0], q);
      AcceptMatchesValid(Step(sel, ms[0], q), ms[1..], q);
    }
  }

  /** A range that overlaps some kept range still does once more ranges are kept. */
  lemma OverlapGrows(a: seq<Range>, b: seq<Range>, start: int, end: int)
    requires a <= b && IsOverlapping(a, start, end)
    ensures IsOverlapping(b, start, end)
  {
    var i :| 0 <= i < |a| &&
      ((start >= a[i].start && start < a[i].end) ||
       (end > a[i].start && end <= a[i].end) ||
       (start <= a[i].start && end >= a[i].end));
    assert b[i] == a[i];
  }

  /** The inner loop only appends, and afterwards every record of the query is
      either kept or overlaps a kept range (a kept one overlaps its own range). */
  lemma {:induction false} AcceptMatchesCovers(sel: Selection, ms: seq<Match>, q: Query)
    ensures var out := AcceptMatches(sel, ms, q);
            && sel.matches <= out.matches && sel.ranges <= out.ranges
            && forall j :: 0 <= j < |ms| ==> IsOverlapping(out.ranges, RangeOf(ms[j]).start, RangeOf(ms[j]).end)
    decreases |ms|
  {
    if ms != [] {
      var sel1 := Step(sel, ms[0], q);
      var out := AcceptMatches(sel1, ms[1..], q);
      var r := RangeOf(ms[0]);
      if !IsOverlapping(sel.ranges, r.start, r.end) {
        assert sel1.ranges[|sel.ranges|] == r;
      }
      assert IsOverlapping(sel1.ranges, r.start, r.end);
      AcceptMatchesCovers(sel1, ms[1..], q);
      OverlapGrows(sel1.ranges, out.ranges, r.start, r.end);
      forall j | 1 <= j < |ms|
        ensures IsOverlapping(out.ranges, RangeOf(ms[j]).start, RangeOf(ms[j]).end)
      {
        assert ms[j] == ms[1..][j - 1];
      }
    }
  }

  /** The inner loop only appends. */
  lemma {:induction false} AcceptMatchesExtends(sel: Selection, ms: seq<Match>, q: Query)
    ensures sel.matches <= AcceptMatches(sel, ms, q).matches
    decreases |ms|
  {
    if ms != [] {
      AcceptMatchesExtends(Step(sel, ms[0], q), ms[1..], q);
    }
  }

  /** The records the inner loop appends are records of the query, labelled with
      its keyword and key. */
  lemma {:induction false} AcceptMatchesSound(sel: Selection, ms: seq<Match>, q: Query)
    ensures var out := AcceptMatches(sel, ms, q);
            && sel.matches <= out.matches
            && forall k :: |sel.matches| <= k < |out.matches| ==> LabelledFrom(ms, q, out.matches[k])
    decreases |ms|
  {
    if ms != [] {
      var sel1 := Step(sel, ms[0], q);
      var out := AcceptMatches(sel1, ms[1..], q);
      AcceptMatchesSound(sel1, ms[1..], q);
      forall k | |sel1.matches| <= k < |out.matches|
        ensures LabelledFrom(ms, q, out.matches[k])
      {
        var j :| 0 <= j < |ms[1..]| && out.matches[k] == WithQuery(ms[1..][j], q);
        assert ms[1..][j] == ms[j + 1];
      }
      if |sel1.matches| > |sel.matches| {
        assert out.matches[|sel.matches|] == WithQuery(ms[0], q);
        assert LabelledFrom(ms, q, out.matches[|sel.matches|]);
      }
    }
  }

  /** The records the inner loop appends start no earlier than the records of the query. */
  lemma AddedAfter(sel: Selection, ms: seq<Match>, q: Query, bound: int)
    requires forall j :: 0 <= j < |ms| ==> ms[j].index >= bound
    ensures var out := AcceptMatches(sel, ms, q);
            && sel.matches <= out.matches
            && forall k :: |sel.matches| <= k < |out.matches| ==> out.matches[k].index >= bound
  {
    AcceptMatchesSound(sel, ms, q);
  }

  /** The records the inner loop appends keep the query's left-to-right order. */
  lemma {:induction false} AcceptMatchesInOrder(sel: Selection, ms: seq<Match>, q: Query)
    requires LeftToRight(ms)
    ensures var out := AcceptMatches(sel, ms, q);
            |sel.matches| <= |out.matches| && LeftToRight(out.matches[|sel.matches|..])
    decreases |ms|
  {
    if ms != [] {
      var sel1 := Step(sel, ms[0], q);
      var out := AcceptMatches(sel1, ms[1..], q);
      assert LeftToRight(ms[1..]);
      AcceptMatchesInOrder(sel1, ms[1..], q);
      AddedAfter(sel1, ms[1..], q, ms[0].index + |ms[0].str|);
      var added := out.matches[|sel.matches|..];
      var later := out.matches[|sel1.matches|..];
      var delta := |sel1.matches| - |sel.matches|;
      forall a, b | 0 <= a < b < |added|
        ensures added[a].index + |added[a].str| <= added[b].index
      {
        if a < delta {
          assert added[a] == WithQuery(ms[0], q);
          assert added[b] == out.matches[|sel.matches| + b];
        } else {
          var i, j := |sel.matches| + a, |sel.matches| + b;
          assert added[a] == out.matches[i] == later[i - |sel1.matches|];
          assert added[b] == out.matches[j] == later[j - |sel1.matches|];
        }
      }
    }
  }

  /** The records the inner loop appends carry the query's keyword and key. */
  lemma AcceptMatchesLabels(sel: Selection, ms: seq<Match>, q: Query)
    ensures var out := AcceptMatches(sel, ms, q);
            && sel.matches <= out.matches
            && forall k :: |sel.matches| <= k < |out.matches| ==>
                 out.matches[k].keyword == q.keyword && out.matches[k].key == q.key
  {
    AcceptMatchesSound(sel, ms, q);
  }

  /** When every record of the query overlaps a kept range, the inner loop keeps nothing. */
  lemma {:induction false} AllBlocked(sel: Selection, ms: seq<Match>, q: Query)
    requires forall j :: 0 <= j < |ms| ==> IsOverlapping(sel.ranges, RangeOf(ms[j]).start, RangeOf(ms[j]).end)
    ensures AcceptMatches(sel, ms, q) == sel
    decreases |ms|
  {
    if ms != [] {
      assert Step(sel, ms[0], q) == sel;
      assert forall j :: 0 <= j < |ms[1..]| ==> ms[1..][j] == ms[j + 1];
      AllBlocked(sel, ms[1..], q);
    }
  }

  // ---------------------------------------------------------------------------
  // The outer loop

  /** Every record of `keyword` overlaps one of `ranges`. */
  predicate Covered(ranges: seq<Range>, items: seq<TextItem>, keyword: string, options: HighlightOptions) {
    && Records(items, keyword, options).Done?
    && forall j :: 0 <= j < |Records(items, keyword, options).value| ==>
         IsOverlapping(ranges, RangeOf(Records(items, keyword, options).value[j]).start,
                               RangeOf(Records(items, keyword, options).value[j]).end)
  }

  lemma CoveredGrows(a: seq<Range>, b: seq<Range>, items: seq<TextItem>, keyword: string, options: HighlightOptions)
    requires a <= b && Covered(a, items, keyword, options)
    ensures Covered(b, items, keyword, options)
  {
    var rs := Records(items, keyword, options).value;
    forall j | 0 <= j < |rs|
      ensures IsOverlapping(b, RangeOf(rs[j]).start, RangeOf(rs[j]).end)
    {
      OverlapGrows(a, b, RangeOf(rs[j]).start, RangeOf(rs[j]).end);
    }
  }

  lemma {:induction false} AcceptQueriesValid(sel: Selection, qs: seq<Query>, items: seq<TextItem>, options: HighlightOptions)
    requires Valid(sel)
    requires AcceptQueries(sel, qs, items, options).Done?
    ensures Valid(AcceptQueries(sel, qs, items, options).value)
    decreases |qs|
  {
    if qs != [] {
      var rs := Records(items, qs[0].keyword, options).value;
      RecordsFound(items, qs[0].keyword, options);
      AcceptMatchesValid(sel, rs, qs[0]);
      AcceptQueriesValid(AcceptMatches(sel, rs, qs[0]), qs[1..], items, options);
    }
  }

  /** After the outer loop every record of every query overlaps a kept range. */
  lemma {:induction false} AcceptQueriesCovers(sel: Selection, qs: seq<Query>, items: seq<TextItem>, options: HighlightOptions)
    requires AcceptQueries(sel, qs, items, options).Done?
    ensures var out := AcceptQueries(sel, qs, items, options).value;
            && sel.matches <= out.matches && sel.ranges <= out.ranges
            && forall i :: 0 <= i < |qs| ==> Covered(out.ranges, items, qs[i].keyword, options)
    decreases |qs|
  {
    if qs != [] {
      var rs := Records(items, qs[0].keyword, options).value;
      var sel1 := AcceptMatches(sel, rs, qs[0]);
      var out := AcceptQueries(sel1, qs[1..], items, options).value;
      AcceptMatchesCovers(sel, rs, qs[0]);
      AcceptQueriesCovers(sel1, qs[1..], items, options);
      assert Covered(sel1.ranges, items, qs[0].keyword, options);
      CoveredGrows(sel1.ranges, out.ranges, items, qs[0].keyword, options);
      forall i | 1 <= i < |qs|
        ensures Covered(out.ranges, items, qs[i].keyword, options)
      {
        assert qs[i] == qs[1..][i - 1];
      }
    }
  }

  /** `m` is a labelled record of one of `queries`. */
  predicate FromSomeQuery(queries: seq<Query>, items: seq<TextItem>, options: HighlightOptions, m: Match) {
    exists q :: q in queries && FoundFor(items, options, q, m)
  }

  /** `m` is one of the records of query `q`, labelled with `q`'s keyword and key. */
  predicate FoundFor(items: seq<TextItem>, options: HighlightOptions, q: Query, m: Match) {
    && Records(items, q.keyword, options).Done?
    && exists j :: 0 <= j < |Records(items, q.keyword, options).value| &&
         m == WithQuery(Records(items, q.keyword, options).value[j], q)
  }

  lemma {:induction false} AcceptQueriesSound(sel: Selection, qs: seq<Query>, items: seq<TextItem>, options: HighlightOptions)
    requires AcceptQueries(sel, qs, items, options).Done?
    ensures var out := AcceptQueries(sel, qs, items, options).value;
            && sel.matches <= out.matches
            && forall k :: |sel.matches| <= k < |out.matches| ==>
                 exists i :: 0 <= i < |qs| && FoundFor(items, options, qs[i], out.matches[k])
    decreases |qs|
  {
    if qs != [] {
      var rs := Records(items, qs[0].keyword, options).value;
      var sel1 := AcceptMatches(sel, rs, qs[0]);
      var out := AcceptQueries(sel1, qs[1..], items, options).value;
      AcceptMatchesSound(sel, rs, qs[0]);
      AcceptQueriesSound(sel1, qs[1..], items, options);
      forall k | |sel.matches| <= k < |out.matches|
        ensures exists i :: 0 <= i < |qs| && FoundFor(items, options, qs[i], out.matches[k])
      {
        if k < |sel1.matches| {
          assert out.matches[k] == sel1.matches[k];
          var j :| 0 <= j < |rs| && sel1.matches[k] == WithQuery(rs[j], qs[0]);
          assert FoundFor(items, options, qs[0], out.matches[k]);
        } else {
          var i :| 0 <= i < |qs[1..]| && FoundFor(items, options, qs[1..][i], out.matches[k]);
          assert qs[1..][i] == qs[i + 1];
        }
      }
    }
  }

  /** Keyword lengths never increase along a sequence of records. */
  predicate LongestKeywordsFirst(ms: seq<Match>) {
    forall a, b :: 0 <= a < b < |ms| ==> |ms[a].keyword| >= |ms[b].keyword|
  }

  /** One query's pass keeps keyword lengths non-increasing when every kept keyword
      is at least as long as the query's. */
  lemma PassLongestFirst(sel: Selection, rs: seq<Match>, q: Query)
    requires LongestKeywordsFirst(sel.matches)
    requires forall k :: 0 <= k < |sel.matches| ==> |sel.matches[k].keyword| >= Len(q)
    ensures var sel1 := AcceptMatches(sel, rs, q);
            && LongestKeywordsFirst(sel1.matches)
            && forall k :: 0 <= k < |sel1.matches| ==> |sel1.matches[k].keyword| >= Len(q)
  {
    var sel1 := AcceptMatches(sel, rs, q);
    AcceptMatchesLabels(sel, rs, q);
    var n := |sel.matches|;
    forall k | 0 <= k < n
      ensures sel1.matches[k] == sel.matches[k]
    {
      assert sel1.matches[..n][k] == sel1.matches[k];
    }
  }

  lemma {:induction false} AcceptQueriesLongestFirst(sel: Selection, qs: seq<Query>, items: seq<TextItem>, options: HighlightOptions)
    requires AcceptQueries(sel, qs, items, options).Done?
    requires LongestFirst(qs) && LongestKeywordsFirst(sel.matches)
    requires qs != [] ==> forall k :: 0 <= k < |sel.matches| ==> |sel.matches[k].keyword| >= Len(qs[0])
    ensures LongestKeywordsFirst(AcceptQueries(sel, qs, items, options).value.matches)
    decreases |qs|
  {
    if qs != [] {
      var rs := Records(items, qs[0].keyword, options).value;
      var sel1 := AcceptMatches(sel, rs, qs[0]);
      PassLongestFirst(sel, rs, qs[0]);
      assert LongestFirst(qs[1..]);
      if |qs| > 1 {
        assert Len(qs[0]) >= Len(qs[1]);
      }
      AcceptQueriesLongestFirst(sel1, qs[1..], items, options);
    }
  }

  /** Records with the same keyword lie left to right. */
  predicate SameKeywordInOrder(ms: seq<Match>) {
    forall a, b :: 0 <= a < b < |ms| && ms[a].keyword == ms[b].keyword ==> ms[a].index + |ms[a].str| <= ms[b].index
  }

  /** All kept keywords are covered by the kept ranges. */
  predicate KeptCovered(sel: Selection, items: seq<TextItem>, options: HighlightOptions) {
    forall k :: 0 <= k < |sel.matches| ==> Covered(sel.ranges, items, sel.matches[k].keyword, options)
  }

  /** A pass for a keyword no kept record has keeps its records left to right after the others. */
  lemma PassNewKeywordInOrder(sel: Selection, rs: seq<Match>, q: Query)
    requires LeftToRight(rs) && SameKeywordInOrder(sel.matches)
    requires forall k :: 0 <= k < |sel.matches| ==> sel.matches[k].keyword != q.keyword
    ensures SameKeywordInOrder(AcceptMatches(sel, rs, q).matches)
  {
    var sel1 := AcceptMatches(sel, rs, q);
    AcceptMatchesInOrder(sel, rs, q);
    AcceptMatchesLabels(sel, rs, q);
    var n := |sel.matches|;
    assert sel1.matches[..n] == sel.matches;
    forall k | 0 <= k < n
      ensures sel1.matches[k] == sel.matches[k]
    {
      assert sel1.matches[..n][k] == sel1.matches[k];
    }
    forall a, b | 0 <= a < b < |sel1.matches| && sel1.matches[a].keyword == sel1.matches[b].keyword
      ensures sel1.matches[a].index + |sel1.matches[a].str| <= sel1.matches[b].index
    {
      if b >= n {
        // the earlier record has the query's keyword too, so it was appended by this pass
        assert sel1.matches[a] == sel1.matches[n..][a - n] && sel1.matches[b] == sel1.matches[n..][b - n];
      }
    }
  }

  /** After a pass for a keyword no kept record has, all kept keywords are still covered. */
  lemma PassNewKeywordCovered(sel: Selection, q: Query, items: seq<TextItem>, options: HighlightOptions)
    requires Records(items, q.keyword, options).Done?
    requires KeptCovered(sel, items, options)
    ensures KeptCovered(AcceptMatches(sel, Records(items, q.keyword, options).value, q), items, options)
  {
    var rs := Records(items, q.keyword, options).value;
    var sel1 := AcceptMatches(sel, rs, q);
    AcceptMatchesLabels(sel, rs, q);
    AcceptMatchesCovers(sel, rs, q);
    var n := |sel.matches|;
    forall k | 0 <= k < |sel1.matches|
      ensures Covered(sel1.ranges, items, sel1.matches[k].keyword, options)
    {
      if k < n {
        assert sel1.matches[k] == sel1.matches[..n][k];
        CoveredGrows(sel.ranges, sel1.ranges, items, sel.matches[k].keyword, options);
      } else {
        assert Covered(sel1.ranges, items, q.keyword, options);
      }
    }
  }

  /** One query's pass, given that every keyword already among the kept records is covered:
      a repeated keyword adds nothing, a new one adds its records left to right. */
  lemma PassInOrder(sel: Selection, q: Query, items: seq<TextItem>, options: HighlightOptions)
    requires Records(items, q.keyword, options).Done?
    requires SameKeywordInOrder(sel.matches) && KeptCovered(sel, items, options)
    ensures var sel1 := AcceptMatches(sel, Records(items, q.keyword, options).value, q);
            SameKeywordInOrder(sel1.matches) && KeptCovered(sel1, items, options)
  {
    var rs := Records(items, q.keyword, options).value;
    if k :| 0 <= k < |sel.matches| && sel.matches[k].keyword == q.keyword {
      assert Covered(sel.ranges, items, q.keyword, options);
      AllBlocked(sel, rs, q);
    } else {
      RecordsFound(items, q.keyword, options);
      PassNewKeywordInOrder(sel, rs, q);
      PassNewKeywordCovered(sel, q, items, options);
    }
  }

  lemma {:induction false} AcceptQueriesSameKeywordInOrder(sel: Selection, qs: seq<Query>, items: seq<TextItem>, options: HighlightOptions)
    requires AcceptQueries(sel, qs, items, options).Done?
    requires SameKeywordInOrder(sel.matches) && KeptCovered(sel, items, options)
    ensures SameKeywordInOrder(AcceptQueries(sel, qs, items, options).value.matches)
    decreases |qs|
  {
    if qs != [] {
      var rs := Records(items, qs[0].keyword, options).value;
      PassInOrder(sel, qs[0], items, options);
      AcceptQueriesSameKeywordInOrder(AcceptMatches(sel, rs, qs[0]), qs[1..], items, options);
    }
  }

  lemma {:induction false} AcceptQueriesDiverges(sel: Selection, qs: seq<Query>, items: seq<TextItem>, options: HighlightOptions)
    ensures AcceptQueries(sel, qs, items, options).Diverges? <==>
            exists i :: 0 <= i < |qs| && Search(items, qs[i].keyword, options).Diverges?
    decreases |qs|
  {
    if qs != [] && Search(items, qs[0].keyword, options).Done? {
      var rs := Records(items, qs[0].keyword, options).value;
      AcceptQueriesDiverges(AcceptMatches(sel, rs, qs[0]), qs[1..], items, options);
      assert forall i :: 1 <= i < |qs| ==> qs[i] == qs[1..][i - 1];
    }
  }

  /** A labelled record of a query points inside the text layer and is not empty. */
  lemma FoundForInRange(items: seq<TextItem>, options: HighlightOptions, q: Query, m: Match)
    requires FoundFor(items, options, q, m)
    ensures InRange(items, m) && |m.str| > 0 && m.keyword == q.keyword && m.key == q.key
  {
    var rs := Records(items, q.keyword, options).value;
    RecordsFound(items, q.keyword, options);
    var j :| 0 <= j < |rs| && m == WithQuery(rs[j], q);
  }

  /** `r` shares an offset of the joined text with one of `out`. */
  predicate Blocked(out: seq<Match>, r: Match) {
    exists k :: 0 <= k < |out| && Intersects(RangeOf(out[k]), r.index, r.index + |r.str|)
  }

  /** When the kept ranges are valid, a record of a covered keyword shares an offset
      with some kept record. */
  lemma CoveredIntersects(sel: Selection, items: seq<TextItem>, keyword: string, options: HighlightOptions)
    requires Valid(sel) && Covered(sel.ranges, items, keyword, options)
    ensures var rs := Records(items, keyword, options).value;
            forall j :: 0 <= j < |rs| ==> Blocked(sel.matches, rs[j])
  {
    var rs := Records(items, keyword, options).value;
    RecordsFound(items, keyword, options);
    forall j | 0 <= j < |rs|
      ensures Blocked(sel.matches, rs[j])
    {
      assert IsOverlapping(sel.ranges, RangeOf(rs[j]).start, RangeOf(rs[j]).end);
      OverlapBlocks(sel, rs[j]);
    }
  }

  /** One turn of the outer loop for a query whose search ends. */
  lemma AcceptQueriesStep(sel: Selection, qs: seq<Query>, items: seq<TextItem>, options: HighlightOptions)
    requires qs != [] && Search(items, qs[0].keyword, options).Done?
    ensures |items| > 0 || Search(items, qs[0].keyword, options).value == []
    ensures AcceptQueries(sel, qs, items, options) ==
            AcceptQueries(AcceptMatches(sel, Convert(items, Search(items, qs[0].keyword, options).value), qs[0]),
                          qs[1..], items, options)
  {
    SearchEmptyText(items, qs[0].keyword, options);
  }

  // ---------------------------------------------------------------------------
  // Which pass kept each record

  /** The outer loop when the records of each query are given: `rss[i]` for `qs[i]`. */
  function AcceptLists(sel: Selection, qs: seq<Query>, rss: seq<seq<Match>>): Selection
    requires |rss| == |qs|
    decreases |qs|
  {
    if qs == [] then sel else AcceptLists(AcceptMatches(sel, rss[0], qs[0]), qs[1..], rss[1..])
  }

  /** The records of a query, or none when its search never ends. */
  function RecordsOr(items: seq<TextItem>, keyword: string, options: HighlightOptions): seq<Match> {
    match Records(items, keyword, options)
    case Done(rs) => rs
    case Diverges => []
  }

  /** The records of every query, in order. */
  function RecordLists(qs: seq<Query>, items: seq<TextItem>, options: HighlightOptions): (rss: seq<seq<Match>>)
    ensures |rss| == |qs|
    decreases |qs|
  {
    if qs == [] then [] else [RecordsOr(items, qs[0].keyword, options)] + RecordLists(qs[1..], items, options)
  }

  lemma {:induction false} RecordListsAt(qs: seq<Query>, items: seq<TextItem>, options: HighlightOptions, i: nat)
    requires i < |qs|
    ensures RecordLists(qs, items, options)[i] == RecordsOr(items, qs[i].keyword, options)
    decreases i
  {
    if i > 0 {
      RecordListsAt(qs[1..], items, options, i - 1);
    }
  }

  /** When the outer loop ends, it is `AcceptLists` over the records of the queries. */
  lemma {:induction false} AcceptQueriesLists(sel: Selection, qs: seq<Query>, items: seq<TextItem>, options: HighlightOptions)
    requires AcceptQueries(sel, qs, items, options).Done?
    ensures AcceptQueries(sel, qs, items, options).value == AcceptLists(sel, qs, RecordLists(qs, items, options))
    decreases |qs|
  {
    if qs != [] {
      var sel1 := AcceptMatches(sel, Records(items, qs[0].keyword, options).value, qs[0]);
      AcceptQueriesLists(sel1, qs[1..], items, options);
    }
  }

  /** For each record the outer loop appends to `sel.matches`, the position in
      `qs` of the query whose pass kept it. */
  function Passes(sel: Selection, qs: seq<Query>, rss: seq<seq<Match>>): seq<nat>
    requires |rss| == |qs|
    decreases |qs|
  {
    if qs == [] then []
    else
      var sel1 := AcceptMatches(sel, rss[0], qs[0]);
      AcceptMatchesExtends(sel, rss[0], qs[0]);
      Zeros(|sel1.matches| - |sel.matches|) + Shift(Passes(sel1, qs[1..], rss[1..]))
  }

  function Zeros(n: nat): (z: seq<nat>)
    ensures |z| == n && forall k :: 0 <= k < n ==> z[k] == 0
  {
    seq(n, _ => 0)
  }

  function Shift(s: seq<nat>): (r: seq<nat>)
    ensures |r| == |s| && forall k :: 0 <= k < |s| ==> r[k] == s[k] + 1
  {
    seq(|s|, k requires 0 <= k < |s| => s[k] + 1)
  }

  /** The pass of the `k`-th appended record: 0 for the first pass's records, one
      more than in the loop over the remaining queries for the others. */
  lemma PassAt(sel: Selection, qs: seq<Query>, rss: seq<seq<Match>>, k: nat)
    requires |rss| == |qs| && qs != []
    requires k < |Passes(sel, qs, rss)|
    ensures var sel1 := AcceptMatches(sel, rss[0], qs[0]);
            var pos, rest := Passes(sel, qs, rss), Passes(sel1, qs[1..], rss[1..]);
            && sel.matches <= sel1.matches
            && (|sel.matches| + k < |sel1.matches| ==> pos[k] == 0)
            && (|sel.matches| + k >= |sel1.matches| ==>
                  |sel.matches| + k - |sel1.matches| < |rest| && pos[k] == rest[|sel.matches| + k - |sel1.matches|] + 1)
  {
    var sel1 := AcceptMatches(sel, rss[0], qs[0]);
    AcceptMatchesExtends(sel, rss[0], qs[0]);
    var rest := Passes(sel1, qs[1..], rss[1..]);
    var z, sh := Zeros(|sel1.matches| - |sel.matches|), Shift(rest);
    assert Passes(sel, qs, rss) == z + sh;
    if k < |z| {
      assert (z + sh)[k] == z[k];
    } else {
      assert (z + sh)[k] == sh[k - |z|];
    }
  }

  /** The outer loop only appends, one record per pass entry. */
  lemma {:induction false} AcceptListsLength(sel: Selection, qs: seq<Query>, rss: seq<seq<Match>>)
    requires |rss| == |qs|
    ensures var out := AcceptLists(sel, qs, rss);
            && sel.matches <= out.matches
            && |Passes(sel, qs, rss)| == |out.matches| - |sel.matches|
    decreases |qs|
  {
    if qs != [] {
      var sel1 := AcceptMatches(sel, rss[0], qs[0]);
      var rest := Passes(sel1, qs[1..], rss[1..]);
      AcceptMatchesExtends(sel, rss[0], qs[0]);
      AcceptListsLength(sel1, qs[1..], rss[1..]);
      assert Passes(sel, qs, rss) == Zeros(|sel1.matches| - |sel.matches|) + Shift(rest);
    }
  }

  /** The passes come in the order of `qs`, each one a position of `qs`. */
  lemma {:induction false} PassesInOrder(sel: Selection, qs: seq<Query>, rss: seq<seq<Match>>)
    requires |rss| == |qs|
    ensures var pos := Passes(sel, qs, rss);
            && (forall k :: 0 <= k < |pos| ==> pos[k] < |qs|)
            && (forall a, b :: 0 <= a < b < |pos| ==> pos[a] <= pos[b])
    decreases |qs|
  {
    if qs != [] {
      var sel1 := AcceptMatches(sel, rss[0], qs[0]);
      var rest := Passes(sel1, qs[1..], rss[1..]);
      AcceptMatchesExtends(sel, rss[0], qs[0]);
      PassesInOrder(sel1, qs[1..], rss[1..]);
      var pos := Passes(sel, qs, rss);
      forall k | 0 <= k < |pos|
        ensures pos[k] < |qs|
      {
        PassAt(sel, qs, rss, k);
      }
      forall a, b | 0 <= a < b < |pos|
        ensures pos[a] <= pos[b]
      {
        PassAt(sel, qs, rss, a);
        PassAt(sel, qs, rss, b);
      }
    }
  }

  /** `m` is one of the records `rs`, labelled with `q`. */
  predicate LabelledFrom(rs: seq<Match>, q: Query, m: Match) {
    exists j :: 0 <= j < |rs| && m == WithQuery(rs[j], q)
  }

  /** The `k`-th appended record is one of the records of its pass's query,
      labelled with that query. */
  lemma {:induction false} AcceptListsPass(sel: Selection, qs: seq<Query>, rss: seq<seq<Match>>, k: nat)
    requires |rss| == |qs|
    requires k < |Passes(sel, qs, rss)|
    ensures var out, pos := AcceptLists(sel, qs, rss), Passes(sel, qs, rss);
            && pos[k] < |qs| && |sel.matches| + k < |out.matches|
            && LabelledFrom(rss[pos[k]], qs[pos[k]], out.matches[|sel.matches| + k])
    decreases |qs|
  {
    var sel1 := AcceptMatches(sel, rss[0], qs[0]);
    var out := AcceptLists(sel1, qs[1..], rss[1..]);
    var pos, rest := Passes(sel, qs, rss), Passes(sel1, qs[1..], rss[1..]);
    var n, n1 := |sel.matches|, |sel1.matches|;
    PassAt(sel, qs, rss, k);
    AcceptListsLength(sel1, qs[1..], rss[1..]);
    if n + k < n1 {
      AcceptMatchesSound(sel, rss[0], qs[0]);
      assert out.matches[n + k] == sel1.matches[n + k];
      assert LabelledFrom(rss[0], qs[0], out.matches[n + k]);
    } else {
      var k1: nat := n + k - n1;
      AcceptListsPass(sel1, qs[1..], rss[1..], k1);
      assert qs[1..][rest[k1]] == qs[pos[k]] && rss[1..][rest[k1]] == rss[pos[k]];
    }
  }

  /** The record `out[n + p]`, appended by pass `pos[p]`, a pass at or before pass
      `i`, shares an offset with `r`. */
  predicate PassBlocks(out: seq<Match>, n: nat, pos: seq<nat>, i: nat, r: Match) {
    exists p :: 0 <= p < |pos| && n + p < |out| && pos[p] <= i &&
      Intersects(RangeOf(out[n + p]), r.index, r.index + |r.str|)
  }

  /** With valid kept ranges, a range that overlaps one of them shares an offset
      with the record it belongs to. */
  lemma OverlapBlocks(sel: Selection, r: Match)
    requires Valid(sel) && |r.str| > 0
    requires IsOverlapping(sel.ranges, RangeOf(r).start, RangeOf(r).end)
    ensures Blocked(sel.matches, r)
  {
    var k :| 0 <= k < |sel.ranges| && Intersects(sel.ranges[k], RangeOf(r).start, RangeOf(r).end);
    assert sel.ranges[k] == RangeOf(sel.matches[k]);
  }

  /** A record blocked somewhere in a list that only grew by pass 0 is blocked
      by what was there before or by that pass. */
  lemma GrownPassBlocks(before: seq<Match>, mid: seq<Match>, out: seq<Match>, pos: seq<nat>, i: nat, r: Match)
    requires before <= mid <= out && |pos| == |out| - |before|
    requires forall p :: 0 <= p < |mid| - |before| ==> pos[p] == 0
    requires Blocked(mid, r)
    ensures Blocked(before, r) || PassBlocks(out, |before|, pos, i, r)
  {
    var k :| 0 <= k < |mid| && Intersects(RangeOf(mid[k]), r.index, r.index + |r.str|);
    if k < |before| {
      assert mid[k] == before[k];
    } else {
      var p := k - |before|;
      assert pos[p] == 0 && out[|before| + p] == mid[k];
    }
  }

  /** A record blocked by what the first pass leaves is blocked by a record kept
      before the loop or by the first pass. */
  lemma FirstPassBlocks(sel: Selection, qs: seq<Query>, rss: seq<seq<Match>>, i: nat, r: Match)
    requires |rss| == |qs| && qs != []
    requires Blocked(AcceptMatches(sel, rss[0], qs[0]).matches, r)
    ensures Blocked(sel.matches, r) || PassBlocks(AcceptLists(sel, qs, rss).matches, |sel.matches|, Passes(sel, qs, rss), i, r)
  {
    var sel1 := AcceptMatches(sel, rss[0], qs[0]);
    var out := AcceptLists(sel1, qs[1..], rss[1..]);
    var pos := Passes(sel, qs, rss);
    var n := |sel.matches|;
    AcceptMatchesExtends(sel, rss[0], qs[0]);
    AcceptListsLength(sel1, qs[1..], rss[1..]);
    AcceptListsLength(sel, qs, rss);
    assert AcceptLists(sel, qs, rss) == out;
    forall p | 0 <= p < |sel1.matches| - n
      ensures pos[p] == 0
    {
      PassAt(sel, qs, rss, p);
    }
    GrownPassBlocks(sel.matches, sel1.matches, out.matches, pos, i, r);
  }

  /** Renumbering the passes from one earlier keeps a blocking record blocking. */
  lemma ShiftedPassBlocks(out: seq<Match>, n: nat, n1: nat, pos: seq<nat>, rest: seq<nat>, i: nat, r: Match)
    requires n <= n1 && i > 0 && n1 - n + |rest| <= |pos|
    requires forall p :: 0 <= p < |rest| ==> pos[n1 - n + p] == rest[p] + 1
    requires PassBlocks(out, n1, rest, i - 1, r)
    ensures PassBlocks(out, n, pos, i, r)
  {
    var p :| 0 <= p < |rest| && n1 + p < |out| && rest[p] <= i - 1 &&
             Intersects(RangeOf(out[n1 + p]), r.index, r.index + |r.str|);
    var p0 := n1 - n + p;
    assert pos[p0] == rest[p] + 1 && n + p0 == n1 + p;
  }

  /** A record blocked by a later pass, numbered from the second query on, is
      blocked by the same pass numbered from the first. */
  lemma LaterPassBlocks(sel: Selection, qs: seq<Query>, rss: seq<seq<Match>>, i: nat, r: Match)
    requires |rss| == |qs| && qs != [] && i > 0
    requires var sel1 := AcceptMatches(sel, rss[0], qs[0]);
             PassBlocks(AcceptLists(sel1, qs[1..], rss[1..]).matches, |sel1.matches|, Passes(sel1, qs[1..], rss[1..]), i - 1, r)
    ensures PassBlocks(AcceptLists(sel, qs, rss).matches, |sel.matches|, Passes(sel, qs, rss), i, r)
  {
    var sel1 := AcceptMatches(sel, rss[0], qs[0]);
    var out := AcceptLists(sel1, qs[1..], rss[1..]);
    var rest := Passes(sel1, qs[1..], rss[1..]);
    var pos := Passes(sel, qs, rss);
    var n, n1 := |sel.matches|, |sel1.matches|;
    AcceptMatchesExtends(sel, rss[0], qs[0]);
    AcceptListsLength(sel1, qs[1..], rss[1..]);
    AcceptListsLength(sel, qs, rss);
    assert AcceptLists(sel, qs, rss) == out;
    forall p | 0 <= p < |rest|
      ensures pos[n1 - n + p] == rest[p] + 1
    {
      PassAt(sel, qs, rss, n1 - n + p);
    }
    ShiftedPassBlocks(out.matches, n, n1, pos, rest, i, r);
  }

  /** A record of the query of pass `i` overlaps a record kept before the loop or
      by a pass at or before pass `i`: the filter only ever looks back. */
  lemma {:induction false} AcceptListsPriority(sel: Selection, qs: seq<Query>, rss: seq<seq<Match>>, i: nat, j: nat)
    requires |rss| == |qs| && Valid(sel)
    requires forall a, b :: 0 <= a < |rss| && 0 <= b < |rss[a]| ==> |rss[a][b].str| > 0
    requires i < |qs| && j < |rss[i]|
    ensures Blocked(sel.matches, rss[i][j]) ||
            PassBlocks(AcceptLists(sel, qs, rss).matches, |sel.matches|, Passes(sel, qs, rss), i, rss[i][j])
    decreases |qs|
  {
    var sel1 := AcceptMatches(sel, rss[0], qs[0]);
    var r := rss[i][j];
    AcceptMatchesValid(sel, rss[0], qs[0]);
    if i == 0 {
      AcceptMatchesCovers(sel, rss[0], qs[0]);
      OverlapBlocks(sel1, r);
      FirstPassBlocks(sel, qs, rss, i, r);
    } else {
      assert rss[1..][i - 1] == rss[i];
      AcceptListsPriority(sel1, qs[1..], rss[1..], i - 1, j);
      if Blocked(sel1.matches, r) {
        FirstPassBlocks(sel, qs, rss, i, r);
      } else {
        LaterPassBlocks(sel, qs, rss, i, r);
      }
    }
  }

  // ---------------------------------------------------------------------------
  // What `findMatches` promises

  /** The returned records are non-empty and no two share an offset of the joined text. */
  lemma FindAllDisjoint(queries: seq<Query>, items: seq<TextItem>, options: HighlightOptions)
    requires FindAll(queries, items, options).Done?
    ensures var out := FindAll(queries, items, options).value;
            && (forall k :: 0 <= k < |out| ==> |out[k].str| > 0)
            && forall a, b :: 0 <= a < b < |out| ==>
                 out[a].index + |out[a].str| <= out[b].index || out[b].index + |out[b].str| <= out[a].index
  {
    var sorted := SortedByLength(queries);
    AcceptQueriesValid(Selection([], []), sorted, items, options);
  }

  /** A record of any query is left out only when it overlaps a returned record
      (a returned record overlaps itself). */
  lemma FindAllComplete(queries: seq<Query>, items: seq<TextItem>, options: HighlightOptions, q: Query)
    requires FindAll(queries, items, options).Done?
    requires q in queries
    ensures Records(items, q.keyword, options).Done?
    ensures var out, rs := FindAll(queries, items, options).value, Records(items, q.keyword, options).value;
            forall j :: 0 <= j < |rs| ==> Blocked(out, rs[j])
  {
    var sorted := SortedByLength(queries);
    var i := SortedIndexOf(queries, q);
    var sel := AcceptQueries(Selection([], []), sorted, items, options).value;
    AcceptQueriesCovers(Selection([], []), sorted, items, options);
    AcceptQueriesValid(Selection([], []), sorted, items, options);
    assert Covered(sel.ranges, items, sorted[i].keyword, options);
    CoveredIntersects(sel, items, q.keyword, options);
    assert FindAll(queries, items, options).value == sel.matches;
  }

  /** For each record `findMatches` returns, the position in the sorted queries of
      the query whose pass kept it. */
  function Origins(queries: seq<Query>, items: seq<TextItem>, options: HighlightOptions): seq<nat> {
    var sorted := SortedByLength(queries);
    Passes(Selection([], []), sorted, RecordLists(sorted, items, options))
  }

  /** When `findMatches` returns, every query's search ended, and the result is the
      outer loop over the records of the sorted queries. */
  lemma FindAllLists(queries: seq<Query>, items: seq<TextItem>, options: HighlightOptions)
    requires FindAll(queries, items, options).Done?
    ensures var sorted := SortedByLength(queries);
            FindAll(queries, items, options).value ==
              AcceptLists(Selection([], []), sorted, RecordLists(sorted, items, options)).matches
  {
    var sorted := SortedByLength(queries);
    AcceptQueriesLists(Selection([], []), sorted, items, options);
  }

  /** The records of a sorted query whose search ended, as the outer loop sees them. */
  lemma FindAllRecordsAt(queries: seq<Query>, items: seq<TextItem>, options: HighlightOptions, i: nat)
    requires FindAll(queries, items, options).Done?
    requires i < |queries|
    ensures var sorted := SortedByLength(queries);
            && Records(items, sorted[i].keyword, options).Done?
            && RecordLists(sorted, items, options)[i] == Records(items, sorted[i].keyword, options).value
  {
    var sorted := SortedByLength(queries);
    AcceptQueriesDiverges(Selection([], []), sorted, items, options);
    RecordListsAt(sorted, items, options, i);
  }

  /** The passes number the returned records one each, in the sorted order. */
  lemma FindAllOriginsInOrder(queries: seq<Query>, items: seq<TextItem>, options: HighlightOptions)
    requires FindAll(queries, items, options).Done?
    ensures var out, pos := FindAll(queries, items, options).value, Origins(queries, items, options);
            && |pos| == |out|
            && (forall k :: 0 <= k < |pos| ==> pos[k] < |queries|)
            && (forall a, b :: 0 <= a < b < |pos| ==> pos[a] <= pos[b])
  {
    var sorted := SortedByLength(queries);
    var rss: seq<seq<Match>> := RecordLists(sorted, items, options);
    FindAllLists(queries, items, options);
    AcceptListsLength(Selection([], []), sorted, rss);
    PassesInOrder(Selection([], []), sorted, rss);
  }

  /** The `k`-th returned record is a record of the query of its pass, labelled with it. */
  lemma FindAllOriginAt(queries: seq<Query>, items: seq<TextItem>, options: HighlightOptions, k: nat)
    requires FindAll(queries, items, options).Done?
    requires k < |FindAll(queries, items, options).value|
    ensures var pos, sorted := Origins(queries, items, options), SortedByLength(queries);
            k < |pos| && pos[k] < |sorted| && FoundFor(items, options, sorted[pos[k]], FindAll(queries, items, options).value[k])
  {
    var sorted := SortedByLength(queries);
    var rss: seq<seq<Match>> := RecordLists(sorted, items, options);
    var pos := Origins(queries, items, options);
    var out := FindAll(queries, items, options).value;
    FindAllOriginsInOrder(queries, items, options);
    FindAllLists(queries, items, options);
    AcceptListsPass(Selection([], []), sorted, rss, k);
    FindAllRecordsAt(queries, items, options, pos[k]);
    var j :| 0 <= j < |rss[pos[k]]| && out[k] == WithQuery(rss[pos[k]][j], sorted[pos[k]]);
  }

  /** Every returned record was kept by the pass of one sorted query, a record of
      that query labelled with it, and the passes come in the sorted order: longer
      keywords first and, among equal lengths, the order the queries were given in. */
  lemma FindAllOrigins(queries: seq<Query>, items: seq<TextItem>, options: HighlightOptions)
    requires FindAll(queries, items, options).Done?
    ensures var out, pos, sorted := FindAll(queries, items, options).value, Origins(queries, items, options), SortedByLength(queries);
            && |pos| == |out|
            && (forall k :: 0 <= k < |out| ==> pos[k] < |sorted| && FoundFor(items, options, sorted[pos[k]], out[k]))
            && (forall a, b :: 0 <= a < b < |pos| ==> pos[a] <= pos[b])
  {
    var out := FindAll(queries, items, options).value;
    FindAllOriginsInOrder(queries, items, options);
    forall k | 0 <= k < |out|
      ensures Origins(queries, items, options)[k] < |queries| &&
              FoundFor(items, options, SortedByLength(queries)[Origins(queries, items, options)[k]], out[k])
    {
      FindAllOriginAt(queries, items, options, k);
    }
  }

  /** Every record of the `i`-th sorted query shares an offset with a returned
      record kept by that query's pass or an earlier one. */
  lemma FindAllPriority(queries: seq<Query>, items: seq<TextItem>, options: HighlightOptions, i: nat)
    requires FindAll(queries, items, options).Done?
    requires i < |queries|
    ensures var sorted := SortedByLength(queries);
            Records(items, sorted[i].keyword, options).Done?
    ensures var out, pos, sorted := FindAll(queries, items, options).value, Origins(queries, items, options), SortedByLength(queries);
            var rs := Records(items, sorted[i].keyword, options).value;
            forall j :: 0 <= j < |rs| ==> PassBlocks(out, 0, pos, i, rs[j])
  {
    var sorted := SortedByLength(queries);
    var rss: seq<seq<Match>> := RecordLists(sorted, items, options);
    FindAllRecordsAt(queries, items, options, i);
    FindAllLists(queries, items, options);
    forall a | 0 <= a < |rss|
      ensures forall b :: 0 <= b < |rss[a]| ==> |rss[a][b].str| > 0
    {
      FindAllRecordsAt(queries, items, options, a);
      RecordsFound(items, sorted[a].keyword, options);
    }
    forall j | 0 <= j < |rss[i]|
      ensures PassBlocks(AcceptLists(Selection([], []), sorted, rss).matches, 0, Passes(Selection([], []), sorted, rss), i, rss[i][j])
    {
      AcceptListsPriority(Selection([], []), sorted, rss, i, j);
    }
  }

  /** `m` shares an offset with a record of `out` whose keyword is at least `n`
      characters long. */
  predicate LongerBlocks(out: seq<Match>, n: nat, m: Match) {
    exists k :: 0 <= k < |out| && |out[k].keyword| >= n &&
      Intersects(RangeOf(out[k]), m.index, m.index + |m.str|)
  }

  /** A record blocked by a pass at or before the one of `sorted[i]` is blocked by a
      record whose keyword is at least as long as `sorted[i]`'s, when the passes run
      longest keyword first. */
  lemma PassBlocksLonger(sorted: seq<Query>, out: seq<Match>, pos: seq<nat>, i: nat, m: Match)
    requires LongestFirst(sorted) && i < |sorted| && |pos| == |out|
    requires forall k :: 0 <= k < |out| ==> pos[k] < |sorted| && out[k].keyword == sorted[pos[k]].keyword
    requires PassBlocks(out, 0, pos, i, m)
    ensures LongerBlocks(out, Len(sorted[i]), m)
  {
    var p :| 0 <= p < |pos| && 0 + p < |out| && pos[p] <= i &&
             Intersects(RangeOf(out[0 + p]), m.index, m.index + |m.str|);
    if pos[p] < i {
      assert Len(sorted[pos[p]]) >= Len(sorted[i]);
    }
    assert |out[p].keyword| >= Len(sorted[i]);
  }

  /** Longer keywords win: every record of a query shares an offset with a returned
      record whose keyword is at least as long as the query's. */
  lemma FindAllLongerWins(queries: seq<Query>, items: seq<TextItem>, options: HighlightOptions, q: Query)
    requires FindAll(queries, items, options).Done?
    requires q in queries
    ensures Records(items, q.keyword, options).Done?
    ensures var out, rs := FindAll(queries, items, options).value, Records(items, q.keyword, options).value;
            forall j :: 0 <= j < |rs| ==> LongerBlocks(out, |q.keyword|, rs[j])
  {
    var sorted := SortedByLength(queries);
    var out := FindAll(queries, items, options).value;
    var pos := Origins(queries, items, options);
    var i := SortedIndexOf(queries, q);
    FindAllPriority(queries, items, options, i);
    FindAllOrigins(queries, items, options);
    SortedIsLongestFirst(queries);
    forall k | 0 <= k < |out|
      ensures pos[k] < |sorted| && out[k].keyword == sorted[pos[k]].keyword
    {
      FoundForInRange(items, options, sorted[pos[k]], out[k]);
    }
    var rs := Records(items, q.keyword, options).value;
    forall j | 0 <= j < |rs|
      ensures LongerBlocks(out, |q.keyword|, rs[j])
    {
      PassBlocksLonger(sorted, out, pos, i, rs[j]);
    }
  }

  /** Every returned record is a record of one of the queries, labelled with that
      query's keyword and key. */
  lemma FindAllSound(queries: seq<Query>, items: seq<TextItem>, options: HighlightOptions)
    requires FindAll(queries, items, options).Done?
    ensures var out := FindAll(queries, items, options).value;
            forall k :: 0 <= k < |out| ==> FromSomeQuery(queries, items, options, out[k])
  {
    var sorted := SortedByLength(queries);
    var sel := AcceptQueries(Selection([], []), sorted, items, options).value;
    AcceptQueriesSound(Selection([], []), sorted, items, options);
    forall k | 0 <= k < |sel.matches|
      ensures FromSomeQuery(queries, items, options, sel.matches[k])
    {
      var i :| 0 <= i < |sorted| && FoundFor(items, options, sorted[i], sel.matches[k]);
      SortedMember(queries, i);
    }
    assert FindAll(queries, items, options).value == sel.matches;
  }

  /** Every returned record points inside the text layer. */
  lemma FindAllInRange(queries: seq<Query>, items: seq<TextItem>, options: HighlightOptions)
    requires FindAll(queries, items, options).Done?
    ensures var out := FindAll(queries, items, options).value;
            forall k :: 0 <= k < |out| ==> InRange(items, out[k])
  {
    var out := FindAll(queries, items, options).value;
    FindAllSound(queries, items, options);
    forall k | 0 <= k < |out|
      ensures InRange(items, out[k])
    {
      assert FromSomeQuery(queries, items, options, out[k]);
      var q :| q in queries && FoundFor(items, options, q, out[k]);
      FoundForInRange(items, options, q, out[k]);
    }
  }

  /** The records come grouped by query, longest keyword first. */
  lemma FindAllLongestFirst(queries: seq<Query>, items: seq<TextItem>, options: HighlightOptions)
    requires FindAll(queries, items, options).Done?
    ensures LongestKeywordsFirst(FindAll(queries, items, options).value)
  {
    SortedIsLongestFirst(queries);
    AcceptQueriesLongestFirst(Selection([], []), SortedByLength(queries), items, options);
  }

  /** Records of the same keyword come left to right in the joined text: a repeated
      keyword adds nothing after its first query. */
  lemma FindAllSameKeywordInOrder(queries: seq<Query>, items: seq<TextItem>, options: HighlightOptions)
    requires FindAll(queries, items, options).Done?
    ensures SameKeywordInOrder(FindAll(queries, items, options).value)
  {
    AcceptQueriesSameKeywordInOrder(Selection([], []), SortedByLength(queries), items, options);
  }

  /** For a list of plain keywords every record's key is its keyword, one of the list. */
  lemma FindAllPlainKeys(keywords: seq<string>, items: seq<TextItem>, options: HighlightOptions)
    requires FindAll(Normalize(keywords), items, options).Done?
    ensures var out := FindAll(Normalize(keywords), items, options).value;
            forall k :: 0 <= k < |out| ==> out[k].key == KeyString(out[k].keyword) && out[k].keyword in keywords
  {
    var qs := Normalize(keywords);
    var out := FindAll(qs, items, options).value;
    FindAllSound(qs, items, options);
    forall k | 0 <= k < |out|
      ensures out[k].key == KeyString(out[k].keyword) && out[k].keyword in keywords
    {
      assert FromSomeQuery(qs, items, options, out[k]);
      var q :| q in qs && FoundFor(items, options, q, out[k]);
      var i :| 0 <= i < |qs| && qs[i] == q;
    }
  }

  /** `findMatches` never returns exactly when the search of one of the queries never ends. */
  lemma FindAllDivergesIff(queries: seq<Query>, items: seq<TextItem>, options: HighlightOptions)
    ensures FindAll(queries, items, options).Diverges? <==>
            exists q :: q in queries && Search(items, q.keyword, options).Diverges?
  {
    var sorted := SortedByLength(queries);
    SortedIsPermutation(queries);
    AcceptQueriesDiverges(Selection([], []), sorted, items, options);
    if FindAll(queries, items, options).Diverges? {
      var i :| 0 <= i < |sorted| && Search(items, sorted[i].keyword, options).Diverges?;
      assert sorted[i] in multiset(queries);
    }
    if q :| q in queries && Search(items, q.keyword, options).Diverges? {
      var i := SortedIndexOf(queries, q);
    }
  }

  // ---------------------------------------------------------------------------
  // The loops

  /** The inner `for (const match of currentMatches)` loop of `findMatches`. */
  method AcceptAll(convertedMatches0: seq<Match>, highlightedRanges0: seq<Range>, currentMatches: seq<Match>, query: Query)
    returns (convertedMatches: seq<Match>, highlightedRanges: seq<Range>)
    ensures Selection(convertedMatches, highlightedRanges) ==
            AcceptMatches(Selection(convertedMatches0, highlightedRanges0), currentMatches, query)
  {
    convertedMatches, highlightedRanges := convertedMatches0, highlightedRanges0;
    for j := 0 to |currentMatches|
      invariant AcceptMatches(Selection(convertedMatches, highlightedRanges), currentMatches[j..], query) ==
                AcceptMatches(Selection(convertedMatches0, highlightedRanges0), currentMatches, query)
    {
      var m := currentMatches[j];
      var start := m.index;
      var end := m.index + |m.str|;
      assert currentMatches[j..][1..] == currentMatches[j + 1..];
      if !IsOverlapping(highlightedRanges, start, end) {
        highlightedRanges := highlightedRanges + [Range(start, end)];
        convertedMatches := convertedMatches + [m.(key := query.key, keyword := query.keyword)];
      }
    }
  }

  /** `findMatches` (highlight.ts:577-639). Plain keywords are copied into a new array;
      `{ keyword, key }` pairs are sorted in the caller's own array. A search that
      never ends makes the call never return: that is `Diverges`. */
  method FindMatches(queries: QueryList, items: seq<TextItem>, options: HighlightOptions)
    returns (result: Outcome<seq<Match>>)
    modifies if queries.Pairs? then {queries.pairs} else {}
    ensures queries.Keywords? ==> result == FindAll(Normalize(queries.keywords), items, options)
    ensures queries.Pairs? ==> result == FindAll(old(queries.pairs[..]), items, options)
    ensures queries.Pairs? ==> queries.pairs[..] == SortedByLength(old(queries.pairs[..]))
  {
    var normalizedQueries: array<Query>;
    if queries.Keywords? {
      var qs := Normalize(queries.keywords);
      normalizedQueries := new Query[|qs|](i requires 0 <= i < |qs| => qs[i]);
      assert normalizedQueries[..] == qs;
    } else {
      normalizedQueries := queries.pairs;
    }
    SortByLength(normalizedQueries);
    result := FilterQueries(normalizedQueries, items, options);
  }

  /** The `for (const query of normalizedQueries)` loop of `findMatches`. */
  method FilterQueries(normalizedQueries: array<Query>, items: seq<TextItem>, options: HighlightOptions)
    returns (result: Outcome<seq<Match>>)
    ensures result == Filtered(normalizedQueries[..], items, options)
  {
    ghost var sorted := normalizedQueries[..];
    ghost var target := AcceptQueries(Selection([], []), sorted, items, options);
    var convertedMatches: seq<Match> := [];
    var highlightedRanges: seq<Range> := [];
    var i := 0;
    while i < normalizedQueries.Length
      invariant 0 <= i <= normalizedQueries.Length == |sorted|
      invariant AcceptQueries(Selection(convertedMatches, highlightedRanges), sorted[i..], items, options) == target
    {
      var query := normalizedQueries[i];
      assert sorted[i..][0] == query && sorted[i..][1..] == sorted[i + 1..];
      var matches := SearchQuery(items, query.keyword, options);
      if matches.Diverges? {
        result := Diverges;
        return;
      }
      AcceptQueriesStep(Selection(convertedMatches, highlightedRanges), sorted[i..], items, options);
      var currentMatches := ConvertMatches(matches.value, items);
      convertedMatches, highlightedRanges := AcceptAll(convertedMatches, highlightedRanges, currentMatches, query);
      i := i + 1;
    }
    assert sorted[i..] == [];
    result := Done(convertedMatches);
  }
}
