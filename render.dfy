/** Stage 3: what `highlightMatches` does with each record, with the DOM taken away.
    For every record the loop either asks `appendHighlightDiv` for highlights over
    slices of single items, or hands the record to `handleMultiDivHighlight`. */
module Rendering {
  import opened Types
  import opened Flattening
  import opened Searching
  import opened Locating
  import opened Finding

  /** A call `appendHighlightDiv(match, idx, startOffset, endOffset)`. */
  datatype Segment = Segment(idx: nat, startOffset: int, endOffset: int)

  /** What the loop does with one record: highlights over item slices, or the
      multi-div handler. */
  datatype Plan = Divs(segments: seq<Segment>) | MultiDiv

  /** The branches of the loop body, in source order. `NestedMultiDiv` is the
      `isMultiDivSameLine` test inside the line-break branch; `NoHighlight` is a
      record over several items with neither flag set, which no branch handles. */
  datatype Branch = SingleDiv | NestedMultiDiv | PerLine | MultiDivSameLine | NoHighlight

  /** The branch a record takes. */
  function BranchOf(m: Match): Branch {
    if m.start.idx == m.end.idx then SingleDiv
    else if m.isMultiDivByLineBreak then (if m.isMultiDivSameLine then NestedMultiDiv else PerLine)
    else if m.isMultiDivSameLine then MultiDivSameLine
    else NoHighlight
  }

  // ---------------------------------------------------------------------------
  // appendHighlightDiv: the text of a highlight

  /** `String.prototype.substring`'s treatment of an argument: clamped into `0..n`. */
  function Clamp(x: int, n: nat): (c: nat)
    ensures c <= n
    ensures 0 <= x <= n ==> c == x
    ensures x < 0 ==> c == 0
  {
    if x < 0 then 0 else if x > n then n else x
  }

  /** `s.substring(a, b)`: both ends clamped into the string, swapped when reversed. */
  function Substring(s: string, a: int, b: int): (r: string)
    ensures 0 <= a <= b <= |s| ==> r == s[a..b]
    ensures 0 <= b <= a <= |s| ==> r == s[b..a]
    ensures |r| <= |s|
  {
    var x, y := Clamp(a, |s|), Clamp(b, |s|);
    if x <= y then s[x..y] else s[y..x]
  }

  /** The `data-text` content `appendHighlightDiv` gives a highlight; a negative
      offset stands for an absent one. */
  function DivContent(str: string, startOffset: int, endOffset: int): (content: string)
    ensures startOffset < 0 && endOffset < 0 ==> content == str
    ensures 0 <= startOffset <= endOffset <= |str| ==> content == str[startOffset..endOffset]
    ensures 0 <= startOffset <= |str| && endOffset < 0 ==> content == str[startOffset..]
    ensures startOffset < 0 && 0 <= endOffset <= |str| ==> content == str[..endOffset]
  {
    if startOffset >= 0 && endOffset >= 0 then Substring(str, startOffset, endOffset)
    else if startOffset < 0 && endOffset < 0 then str
    else if startOffset >= 0 then Substring(str, startOffset, |str|)
    else Substring(str, 0, endOffset)
  }

  // ---------------------------------------------------------------------------
  // The loop of highlightMatches

  /** The highlight the per-line loop asks for on item `idx`: from the record's
      start offset to the end of the first item, from the beginning of the last
      item to the record's end offset, and the whole text of the items between. */
  function LineSegment(items: seq<TextItem>, m: Match, idx: nat): Segment
    requires idx < |items|
  {
    if idx == m.start.idx then Segment(idx, m.start.offset, |items[idx].str|)
    else if idx == m.end.idx then Segment(idx, 0, m.end.offset)
    else Segment(idx, 0, |items[idx].str|)
  }

  function Min(a: nat, b: nat): nat {
    if a <= b then a else b
  }

  /** The number of items `idx` with `lo <= idx < hi`, or none. */
  function Span(lo: nat, hi: nat): nat {
    if lo <= hi then hi - lo else 0
  }

  /** `segs` holds one line segment for each item from the record's start item to
      its end item, in order, leaving out the indices past the last item. */
  predicate LinesOf(items: seq<TextItem>, m: Match, segs: seq<Segment>) {
    && |segs| == Span(m.start.idx, Min(m.end.idx + 1, |items|))
    && forall k :: 0 <= k < |segs| ==>
         m.start.idx + k < |items| && segs[k] == LineSegment(items, m, m.start.idx + k)
  }

  /** The plan the loop body carries out for `m`. */
  predicate PlanFor(items: seq<TextItem>, m: Match, plan: Plan) {
    match BranchOf(m)
    case SingleDiv => plan == Divs([Segment(m.start.idx, m.start.offset, m.end.offset)])
    case PerLine => plan.Divs? && LinesOf(items, m, plan.segments)
    case NestedMultiDiv => plan == MultiDiv
    case MultiDivSameLine => plan == MultiDiv
    case NoHighlight => plan == Divs([])
  }

  /** The per-line loop: one highlight per item of the record, skipping an index
      with no item. */
  method LineSegments(items: seq<TextItem>, m: Match) returns (segs: seq<Segment>)
    ensures LinesOf(items, m, segs)
  {
    segs := [];
    var idx := m.start.idx;
    while idx <= m.end.idx
      invariant m.start.idx <= idx
      invariant idx <= m.end.idx + 1 || idx == m.start.idx
      invariant |segs| == Span(m.start.idx, Min(idx, |items|))
      invariant forall k :: 0 <= k < |segs| ==>
                  m.start.idx + k < |items| && segs[k] == LineSegment(items, m, m.start.idx + k)
    {
      if idx < |items| {
        segs := segs + [LineSegment(items, m, idx)];
      }
      idx := idx + 1;
    }
  }

  /** The body of the loop over the records. */
  method PlanMatch(items: seq<TextItem>, m: Match) returns (plan: Plan)
    ensures PlanFor(items, m, plan)
  {
    if m.start.idx == m.end.idx {
      plan := Divs([Segment(m.start.idx, m.start.offset, m.end.offset)]);
    } else if m.isMultiDivByLineBreak {
      if m.isMultiDivSameLine {
        plan := MultiDiv;
      } else {
        var segs := LineSegments(items, m);
        plan := Divs(segs);
      }
    } else if m.isMultiDivSameLine {
      plan := MultiDiv;
    } else {
      plan := Divs([]);
    }
  }

  /** The loop over the records: one plan per record, in order. */
  method PlanHighlights(items: seq<TextItem>, matches: seq<Match>) returns (plans: seq<Plan>)
    ensures |plans| == |matches|
    ensures forall k :: 0 <= k < |matches| ==> PlanFor(items, matches[k], plans[k])
  {
    plans := [];
    for i := 0 to |matches|
      invariant |plans| == i
      invariant forall k :: 0 <= k < i ==> PlanFor(items, matches[k], plans[k])
    {
      var plan := PlanMatch(items, matches[i]);
      plans := plans + [plan];
    }
  }

  // ---------------------------------------------------------------------------
  // Properties

  /** A located record takes the single-div branch exactly when it lies in one
      item, the per-line branch exactly when a line ends inside it, and the
      multi-div branch otherwise: never the nested multi-div test and never the
      fall-through. */
  lemma LocatedBranch(items: seq<TextItem>, raw: RawMatch, m: Match)
    requires Located(items, raw, m)
    ensures BranchOf(m) != NestedMultiDiv && BranchOf(m) != NoHighlight
    ensures BranchOf(m) == SingleDiv <==> m.start.idx == m.end.idx
    ensures BranchOf(m) == PerLine <==>
              exists i :: m.start.idx <= i < m.end.idx && items[i].hasEOL
    ensures BranchOf(m) == MultiDivSameLine <==>
              m.start.idx < m.end.idx && forall i :: m.start.idx <= i < m.end.idx ==> !items[i].hasEOL
  {
    LocatedFlags(items, raw, m);
  }

  /** `m` takes a branch that highlights it: the single-div, per-line or
      multi-div branch. */
  predicate Highlighted(m: Match) {
    BranchOf(m) != NestedMultiDiv && BranchOf(m) != NoHighlight
  }

  /** Every record of one query takes one of the three reachable branches. */
  lemma RecordsBranch(items: seq<TextItem>, keyword: string, options: HighlightOptions, k: nat)
    requires Records(items, keyword, options).Done?
    requires k < |Records(items, keyword, options).value|
    ensures Highlighted(Records(items, keyword, options).value[k])
  {
    var raws := Search(items, keyword, options).value;
    SearchEmptyText(items, keyword, options);
    ConvertLocated(items, raws);
    LocatedFlags(items, raws[k], Convert(items, raws)[k]);
  }

  /** A record labelled with its query takes the branch it took unlabelled. */
  lemma FoundForBranch(items: seq<TextItem>, options: HighlightOptions, q: Query, m: Match)
    requires FoundFor(items, options, q, m)
    ensures Highlighted(m)
  {
    var j :| 0 <= j < |Records(items, q.keyword, options).value| &&
             m == WithQuery(Records(items, q.keyword, options).value[j], q);
    RecordsBranch(items, q.keyword, options, j);
  }

  /** The records `findMatches` returns never reach the nested multi-div test
      or fall through the loop body unhighlighted. */
  lemma FindAllBranch(queries: seq<Query>, items: seq<TextItem>, options: HighlightOptions)
    requires FindAll(queries, items, options).Done?
    ensures var out := FindAll(queries, items, options).value;
            forall k :: 0 <= k < |out| ==> Highlighted(out[k])
  {
    var out := FindAll(queries, items, options).value;
    FindAllSound(queries, items, options);
    forall k | 0 <= k < |out|
      ensures Highlighted(out[k])
    {
      assert FromSomeQuery(queries, items, options, out[k]);
      var q :| q in queries && FoundFor(items, options, q, out[k]);
      FoundForBranch(items, options, q, out[k]);
    }
  }

  /** The highlight of a record within one item shows exactly the matched text
      (newlines shown as spaces), unless the item ends a line with a hyphen:
      then the hyphen, which the joined text drops, can sit inside the slice. */
  lemma SingleDivContent(items: seq<TextItem>, raw: RawMatch, m: Match)
    requires Located(items, raw, m) && InRange(items, m)
    requires m.start.idx == m.end.idx
    requires raw.index + raw.length <= |Flatten(items)|
    requires raw.text == Flatten(items)[raw.index..raw.index + raw.length]
    requires !(items[m.start.idx].hasEOL && EndsWithHyphen(items[m.start.idx].str))
    ensures NewlinesToSpaces(DivContent(items[m.start.idx].str, m.start.offset, m.end.offset)) == m.str
  {
    var i, so, eo := m.start.idx, m.start.offset, m.end.offset;
    LocatedFlags(items, raw, m);
    ItemSliceContent(items, i, so, raw.length);
    assert DivContent(items[i].str, so, eo) == items[i].str[so..so + raw.length];
  }

  /** A slice of one item's text, newlines shown as spaces, is the flat text at the
      item's position, unless the slice takes in a final hyphen the join drops. */
  lemma ItemSliceContent(items: seq<TextItem>, i: nat, so: nat, len: nat)
    requires i < |items| && so + len <= |items[i].str|
    requires !(items[i].hasEOL && EndsWithHyphen(items[i].str) && so + len == |items[i].str|)
    ensures Pos(items, i) + so + len <= |Flatten(items)|
    ensures NewlinesToSpaces(items[i].str[so..so + len]) ==
              Flatten(items)[Pos(items, i) + so .. Pos(items, i) + so + len]
  {
    ItemSliceJoined(items, i, so, len);
    FlattenSlice(items, Pos(items, i) + so, Pos(items, i) + so + len);
  }

  /** The same before newlines become spaces: the joined text at the item's
      position holds the slice. */
  lemma ItemSliceJoined(items: seq<TextItem>, i: nat, so: nat, len: nat)
    requires i < |items| && so + len <= |items[i].str|
    requires !(items[i].hasEOL && EndsWithHyphen(items[i].str) && so + len == |items[i].str|)
    ensures Pos(items, i) + so + len <= |Joined(items)|
    ensures Joined(items)[Pos(items, i) + so .. Pos(items, i) + so + len] == items[i].str[so..so + len]
  {
    PieceSlice(items[i], so, so + len);
    JoinedSlice(items, i, so, len);
  }

  /** The per-line highlights stay inside their items' texts, the first begins at
      the record's start and the last ends at the record's end, in joined-text
      offsets. */
  lemma LineSegmentsInBounds(items: seq<TextItem>, raw: RawMatch, m: Match, segs: seq<Segment>)
    requires Located(items, raw, m) && InRange(items, m)
    requires m.start.idx < m.end.idx
    requires LinesOf(items, m, segs)
    ensures |segs| == m.end.idx - m.start.idx + 1
    ensures forall k :: 0 <= k < |segs| ==>
              segs[k].idx == m.start.idx + k &&
              0 <= segs[k].startOffset <= segs[k].endOffset <= |items[segs[k].idx].str|
    ensures Pos(items, segs[0].idx) + segs[0].startOffset == raw.index
    ensures Pos(items, segs[|segs| - 1].idx) + segs[|segs| - 1].endOffset == raw.index + raw.length
  {
    var last := |segs| - 1;
    assert segs[last] == LineSegment(items, m, m.start.idx + last);
  }

  // ---------------------------------------------------------------------------
  // The text of the per-line highlights

  /** The text of the highlight a segment asks for; a segment past the last item
      shows nothing. */
  function SegmentText(items: seq<TextItem>, seg: Segment): string {
    if seg.idx < |items| then DivContent(items[seg.idx].str, seg.startOffset, seg.endOffset) else ""
  }

  /** The highlighted text `c` of a line-ending item, read the way the join reads
      the item: a final hyphen goes, any other line end adds a line break. */
  function AsJoined(item: TextItem, c: string): string {
    if !item.hasEOL then c
    else if EndsWithHyphen(item.str) then (if c == [] then c else c[..|c| - 1])
    else c + "\n"
  }

  /** The texts of consecutive per-line highlights from the `k`-th on, joined by the
      rule of the join: every highlight but the last is read as `AsJoined` reads it. */
  function JoinedHighlights(items: seq<TextItem>, segs: seq<Segment>, k: nat := 0): string
    decreases |segs| - k
  {
    if k >= |segs| then ""
    else if k == |segs| - 1 then SegmentText(items, segs[k])
    else
      var head := if segs[k].idx < |items| then AsJoined(items[segs[k].idx], SegmentText(items, segs[k])) else "";
      head + JoinedHighlights(items, segs, k + 1)
  }

  /** Read as the join reads it, the tail of an item's text from `c0` on is the
      tail of the item's piece from `c0` on. */
  lemma AsJoinedPiece(item: TextItem, c0: nat)
    requires c0 <= |item.str|
    requires EndsWithHyphen(item.str) ==> c0 < |item.str|
    ensures AsJoined(item, item.str[c0..]) == Piece(item)[c0..]
  {
    if item.hasEOL && EndsWithHyphen(item.str) {
      assert item.str[c0..][..|item.str| - c0 - 1] == item.str[..|item.str| - 1][c0..];
    }
  }

  /** Segments `k` onwards cover items `i` to `e` in order: whole items, then the
      text `last` of item `e`. */
  predicate WholeLinesThen(items: seq<TextItem>, segs: seq<Segment>, k: nat, i: nat, e: nat, last: string)
    decreases |segs| - k
  {
    && k < |segs| && segs[k].idx == i < |items| && i <= e
    && if k == |segs| - 1 then i == e && SegmentText(items, segs[k]) == last
       else SegmentText(items, segs[k]) == items[i].str && WholeLinesThen(items, segs, k + 1, i + 1, e, last)
  }

  /** The segments after the first cover the items after the record's start item
      whole, then the end item up to the record's end offset. */
  lemma {:induction false} LinesOfWholeLines(items: seq<TextItem>, m: Match, segs: seq<Segment>, k: nat)
    requires m.start.idx < m.end.idx < |items| && 0 <= m.end.offset <= |items[m.end.idx].str|
    requires LinesOf(items, m, segs)
    requires 1 <= k < |segs|
    ensures WholeLinesThen(items, segs, k, m.start.idx + k, m.end.idx, items[m.end.idx].str[..m.end.offset])
    decreases |segs| - k
  {
    assert |segs| == m.end.idx - m.start.idx + 1;
    assert segs[k] == LineSegment(items, m, m.start.idx + k);
    if k < |segs| - 1 {
      LinesOfWholeLines(items, m, segs, k + 1);
      assert m.start.idx + (k + 1) == m.start.idx + k + 1;
    }
  }

  /** Highlights over whole items, then over the text `last` of item `e`, show the
      pieces of those items, then `last`. */
  lemma {:induction false} LaterHighlights(items: seq<TextItem>, segs: seq<Segment>, k: nat, i: nat, e: nat, last: string)
    requires WholeLinesThen(items, segs, k, i, e, last)
    ensures i <= e <= |items|
    ensures JoinedHighlights(items, segs, k) == Pieces(items, i, e) + last
    decreases |segs| - k
  {
    if k == |segs| - 1 {
      assert Pieces(items, i, e) == "";
    } else {
      LaterHighlights(items, segs, k + 1, i + 1, e, last);
      var rest := Pieces(items, i + 1, e);
      WholeLine(items, segs, k, i, rest + last);
      assert Pieces(items, i, e) == Piece(items[i]) + rest;
    }
  }

  /** A highlight over the whole of item `i`, before later ones, contributes the
      item's piece. */
  lemma WholeLine(items: seq<TextItem>, segs: seq<Segment>, k: nat, i: nat, later: string)
    requires k + 1 < |segs| && segs[k].idx == i < |items|
    requires SegmentText(items, segs[k]) == items[i].str
    requires JoinedHighlights(items, segs, k + 1) == later
    ensures JoinedHighlights(items, segs, k) == Piece(items[i]) + later
  {
    assert items[i].str[0..] == items[i].str;
    LineThen(items, segs, k, i, 0, later);
  }

  /** A highlight over item `i` from offset `c0` to the end of its text, before
      later ones, contributes the rest of the item's piece. */
  lemma LineThen(items: seq<TextItem>, segs: seq<Segment>, k: nat, i: nat, c0: nat, later: string)
    requires k + 1 < |segs| && segs[k].idx == i < |items|
    requires c0 <= |items[i].str| && (EndsWithHyphen(items[i].str) ==> c0 < |items[i].str|)
    requires SegmentText(items, segs[k]) == items[i].str[c0..]
    requires JoinedHighlights(items, segs, k + 1) == later
    ensures c0 <= Delta(items[i])
    ensures JoinedHighlights(items, segs, k) == Piece(items[i])[c0..] + later
  {
    AsJoinedPiece(items[i], c0);
  }

  /** The joined text from offset `a` of item `s` to offset `b` of item `e`: the
      rest of item `s`'s piece, the pieces of the items between, and the first `b`
      characters of item `e`, unless they take in a final hyphen the join drops. */
  lemma {:induction false} JoinedSpan(items: seq<TextItem>, s: nat, a: nat, e: nat, b: nat)
    requires s < e < |items| && a <= Delta(items[s])
    requires b <= |items[e].str|
    requires !(items[e].hasEOL && EndsWithHyphen(items[e].str) && b == |items[e].str|)
    ensures Pos(items, s) + a <= Pos(items, e) + b <= |Joined(items)|
    ensures Joined(items)[Pos(items, s) + a .. Pos(items, e) + b] ==
              Piece(items[s])[a..] + (Pieces(items, s + 1, e) + items[e].str[..b])
  {
    JoinedPieceTail(items, s, a);
    JoinedLines(items, s + 1, e, b);
    Glue(Joined(items), Pos(items, s) + a, Pos(items, s + 1), Pos(items, e) + b,
         Piece(items[s])[a..], Pieces(items, s + 1, e) + items[e].str[..b]);
  }

  /** From where item `i` begins to offset `b` of item `e`: the pieces of items `i`
      to `e` (exclusive), then the first `b` characters of item `e`. */
  lemma JoinedLines(items: seq<TextItem>, i: nat, e: nat, b: nat)
    requires i <= e < |items| && b <= |items[e].str|
    requires !(items[e].hasEOL && EndsWithHyphen(items[e].str) && b == |items[e].str|)
    ensures Pos(items, i) <= Pos(items, e) + b <= |Joined(items)|
    ensures Joined(items)[Pos(items, i) .. Pos(items, e) + b] == Pieces(items, i, e) + items[e].str[..b]
  {
    JoinedRange(items, i, e);
    JoinedHead(items, e, b);
    Glue(Joined(items), Pos(items, i), Pos(items, e), Pos(items, e) + b, Pieces(items, i, e), items[e].str[..b]);
  }

  /** From offset `a` of item `i` to where the next item begins, the joined text
      holds the rest of the item's piece. */
  lemma JoinedPieceTail(items: seq<TextItem>, i: nat, a: nat)
    requires i < |items| && a <= Delta(items[i])
    ensures Pos(items, i) + a <= Pos(items, i + 1) <= |Joined(items)|
    ensures Joined(items)[Pos(items, i) + a .. Pos(items, i + 1)] == Piece(items[i])[a..]
  {
    var len := Delta(items[i]) - a;
    JoinedSlice(items, i, a, len);
    assert Pos(items, i + 1) == Pos(items, i) + a + len;
    assert Piece(items[i])[a..] == Piece(items[i])[a..a + len];
  }

  /** From where item `i` begins, the joined text holds the first `b` characters of
      its text, unless they take in a final hyphen the join drops. */
  lemma JoinedHead(items: seq<TextItem>, i: nat, b: nat)
    requires i < |items| && b <= |items[i].str|
    requires !(items[i].hasEOL && EndsWithHyphen(items[i].str) && b == |items[i].str|)
    ensures Pos(items, i) + b <= |Joined(items)|
    ensures Joined(items)[Pos(items, i) .. Pos(items, i) + b] == items[i].str[..b]
  {
    PieceSlice(items[i], 0, b);
    JoinedSlice(items, i, 0, b);
    FromZero(Joined(items), Piece(items[i]), Pos(items, i), b);
  }

  /** A slice written from offset `0` is the same slice written without it. */
  lemma FromZero(t: string, u: string, x: nat, len: nat)
    requires x + 0 + len <= |t| && 0 + len <= |u|
    requires t[x + 0 .. x + 0 + len] == u[0 .. 0 + len]
    ensures t[x .. x + len] == u[..len]
  {
    assert x + 0 == x;
  }

  /** Up to offset `b`, an item's piece holds the item's own text, unless the
      slice takes in a final hyphen the join drops. */
  lemma PieceSlice(item: TextItem, a: nat, b: nat)
    requires a <= b <= |item.str|
    requires !(item.hasEOL && EndsWithHyphen(item.str) && b == |item.str|)
    ensures b <= Delta(item) && Piece(item)[a..b] == item.str[a..b]
  {
    if item.hasEOL && EndsWithHyphen(item.str) {
      assert item.str[..|item.str| - 1][a..b] == item.str[a..b];
    } else if item.hasEOL {
      assert (item.str + "\n")[a..b] == item.str[a..b];
    }
  }

  /** The per-line highlights, joined the way the join joins items, show the rest
      of the start item's piece, the pieces of the items between, and the end
      item's text up to the record's end offset. */
  lemma HighlightsText(items: seq<TextItem>, m: Match, segs: seq<Segment>)
    requires InRange(items, m) && m.start.idx < m.end.idx && LinesOf(items, m, segs)
    ensures m.start.offset <= Delta(items[m.start.idx])
    ensures JoinedHighlights(items, segs) ==
              Piece(items[m.start.idx])[m.start.offset..] +
              (Pieces(items, m.start.idx + 1, m.end.idx) + items[m.end.idx].str[..m.end.offset])
  {
    var s, a, e, b := m.start.idx, m.start.offset, m.end.idx, m.end.offset;
    var last := items[e].str[..b];
    LinesOfWholeLines(items, m, segs, 1);
    LaterHighlights(items, segs, 1, s + 1, e, last);
    FirstHighlight(items, m, segs);
    LineThen(items, segs, 0, s, a, Pieces(items, s + 1, e) + last);
  }

  /** The first segment of a per-line plan covers the record's start item from
      the record's start offset to the end of the item's text. */
  lemma FirstHighlight(items: seq<TextItem>, m: Match, segs: seq<Segment>)
    requires InRange(items, m) && m.start.idx < m.end.idx && LinesOf(items, m, segs)
    ensures 1 < |segs| && segs[0].idx == m.start.idx
    ensures SegmentText(items, segs[0]) == items[m.start.idx].str[m.start.offset..]
  {
    assert segs[0] == LineSegment(items, m, m.start.idx);
  }

  /** The per-line highlights, joined the way the join joins items, show exactly
      the matched text (newlines shown as spaces), unless the record ends at the
      end of a line-ending item whose text ends in `-`: the locator then counts
      the hyphen the joined text drops, and the last highlight shows the hyphen
      instead of the first character of the next line. */
  lemma LineSegmentsContent(items: seq<TextItem>, raw: RawMatch, m: Match, segs: seq<Segment>)
    requires Located(items, raw, m) && InRange(items, m)
    requires m.start.idx < m.end.idx
    requires raw.index + raw.length <= |Flatten(items)|
    requires raw.text == Flatten(items)[raw.index..raw.index + raw.length]
    requires LinesOf(items, m, segs)
    requires !(items[m.end.idx].hasEOL && EndsWithHyphen(items[m.end.idx].str) &&
               m.end.offset == |items[m.end.idx].str|)
    ensures NewlinesToSpaces(JoinedHighlights(items, segs)) == m.str
  {
    HighlightsText(items, m, segs);
    SpanContent(items, raw, m, JoinedHighlights(items, segs));
  }

  lemma SpanContent(items: seq<TextItem>, raw: RawMatch, m: Match, h: string)
    requires Located(items, raw, m) && InRange(items, m)
    requires m.start.idx < m.end.idx
    requires raw.index + raw.length <= |Flatten(items)|
    requires raw.text == Flatten(items)[raw.index..raw.index + raw.length]
    requires !(items[m.end.idx].hasEOL && EndsWithHyphen(items[m.end.idx].str) &&
               m.end.offset == |items[m.end.idx].str|)
    requires m.start.offset <= Delta(items[m.start.idx])
    requires h == Piece(items[m.start.idx])[m.start.offset..] +
                  (Pieces(items, m.start.idx + 1, m.end.idx) + items[m.end.idx].str[..m.end.offset])
    ensures NewlinesToSpaces(h) == m.str
  {
    JoinedSpan(items, m.start.idx, m.start.offset, m.end.idx, m.end.offset);
    FlattenSlice(items, raw.index, raw.index + raw.length);
  }

}
