/** Stage 2: `convertMatches` — turning flat offsets of the joined text into
    (item, offset) coordinates with a cursor that walks the text items once per
    call, and setting the two span flags. */
module Locating {
  import opened Types
  import opened Flattening
  import opened Searching

  /** Whether the cursor on item `k` must step on for `target`: the start scan
      steps when `target` is at or past the end of the item's own text, the end
      scan (`strict`) only when it is past it. */
  predicate Beyond(items: seq<TextItem>, k: nat, target: int, strict: bool)
    requires k < |items|
  {
    var itemEnd := Pos(items, k) + |items[k].str|;
    if strict then target > itemEnd else target >= itemEnd
  }

  /** Where one cursor scan of `convertMatches` stops when it starts on item `k`:
      it steps while it is not on the last item and the target is beyond the
      current item. */
  function Advance(items: seq<TextItem>, k: nat, target: int, strict: bool): (r: nat)
    requires k < |items|
    ensures k <= r < |items|
    decreases |items| - k
  {
    if k == |items| - 1 || !Beyond(items, k, target, strict) then k
    else Advance(items, k + 1, target, strict)
  }

  /** The scan passes only items the target is beyond, and it stops before the
      last item only on an item the target is not beyond. */
  lemma {:induction false} AdvanceStops(items: seq<TextItem>, k: nat, target: int, strict: bool)
    requires k < |items|
    ensures var r := Advance(items, k, target, strict);
            && (forall j :: k <= j < r ==> Beyond(items, j, target, strict))
            && (r < |items| - 1 ==> !Beyond(items, r, target, strict))
    decreases |items| - k
  {
    if k < |items| - 1 && Beyond(items, k, target, strict) {
      AdvanceStops(items, k + 1, target, strict);
    }
  }

  /** Once the scan has moved, the item it stops on begins at or before the target;
      the start scan can overshoot by one only by passing a line-ending item without
      a hyphen whose text ends exactly at the target, i.e. when the target is the
      space that item adds to the joined text. */
  lemma AdvanceReach(items: seq<TextItem>, k: nat, target: int, strict: bool)
    requires k < |items|
    ensures var r := Advance(items, k, target, strict);
            && (r > k && strict ==> Pos(items, r) <= target)
            && (r > k && !strict ==> Pos(items, r) <= target + 1)
            && (r > k && !strict && Pos(items, r) == target + 1 ==>
                  items[r - 1].hasEOL && !EndsWithHyphen(items[r - 1].str)
                  && target == Pos(items, r - 1) + |items[r - 1].str|)
  {
    var r := Advance(items, k, target, strict);
    AdvanceStops(items, k, target, strict);
    if r > k {
      assert Beyond(items, r - 1, target, strict);
    }
  }

  /** Whether no item in `[s, e)` ends a line: what `areInSameLine` reports. */
  predicate SameLine(items: seq<TextItem>, s: nat, e: nat)
    requires e <= |items|
  {
    forall i :: s <= i < e ==> !items[i].hasEOL
  }

  /** `areInSameLine` (highlight.ts:100-107): a read-only scan that returns at the
      first line-ending item of `[startIdx, endIdx)`. */
  method AreInSameLine(items: seq<TextItem>, startIdx: nat, endIdx: nat) returns (same: bool)
    requires endIdx <= |items|
    ensures same <==> SameLine(items, startIdx, endIdx)
  {
    var i := startIdx;
    while i < endIdx
      invariant startIdx <= i
      invariant forall j :: startIdx <= j < i && j < endIdx ==> !items[j].hasEOL
      invariant i > endIdx ==> i == startIdx
    {
      if items[i].hasEOL {
        return false;
      }
      i := i + 1;
    }
    return true;
  }

  /** The record `convertMatches` builds for the scan result `raw` when the cursor
      is on item `c`: the start scan, then the end scan from where the start scan
      stopped, then the span flags. `key` and `keyword` are left empty. */
  function Locate(items: seq<TextItem>, raw: RawMatch, c: nat): (m: Match)
    requires c < |items|
    ensures c <= m.start.idx <= m.end.idx < |items|
  {
    var s := Advance(items, c, raw.index, false);
    var e := Advance(items, s, raw.index + raw.length, true);
    var isMultiDiv := s != e;
    var areSameLine := SameLine(items, s, e);
    Match(DivPosition(s, raw.index - Pos(items, s)),
          DivPosition(e, raw.index + raw.length - Pos(items, e)),
          raw.text, raw.index, KeyString(""), "",
          isMultiDiv && !areSameLine, isMultiDiv && areSameLine)
  }

  /** The records for `ms` with the cursor starting on item `c`; each record's end
      item is where the cursor stays for the next one. */
  function ConvertFrom(items: seq<TextItem>, ms: seq<RawMatch>, c: nat): (out: seq<Match>)
    requires ms == [] || c < |items|
    ensures |out| == |ms|
    decreases |ms|
  {
    if ms == [] then []
    else
      var m := Locate(items, ms[0], c);
      [m] + ConvertFrom(items, ms[1..], m.end.idx)
  }

  /** `convertMatches` as a value: each call starts its cursor at `(0, 0)`. With
      no items and some match the source reads a field of `undefined` and throws. */
  function Convert(items: seq<TextItem>, ms: seq<RawMatch>): seq<Match>
    requires |items| > 0 || ms == []
  {
    ConvertFrom(items, ms, 0)
  }

  /** What a record says about its scan result, in terms of the joined text:
      its coordinates point at the flat offsets where the result begins and ends,
      an offset stays within its item's text unless the cursor was stopped by the
      last item, the flags tell line-ending items apart, and the result's `index`
      and text are copied. */
  predicate Located(items: seq<TextItem>, raw: RawMatch, m: Match) {
    && m.start.idx <= m.end.idx < |items|
    && Pos(items, m.start.idx) + m.start.offset == raw.index
    && Pos(items, m.end.idx) + m.end.offset == raw.index + raw.length
    && (m.start.idx < |items| - 1 ==> m.start.offset < |items[m.start.idx].str|)
    && (m.end.idx < |items| - 1 ==> m.end.offset <= |items[m.end.idx].str|)
    && (m.isMultiDivByLineBreak <==> exists i :: m.start.idx <= i < m.end.idx && items[i].hasEOL)
    && (m.isMultiDivSameLine <==> m.start.idx < m.end.idx && !m.isMultiDivByLineBreak)
    && m.str == raw.text && m.index == raw.index
    && m.key == KeyString("") && m.keyword == ""
  }

  /** Every record `convertMatches` builds is located, whatever the scan result. */
  lemma LocateIsLocated(items: seq<TextItem>, raw: RawMatch, c: nat)
    requires c < |items|
    ensures Located(items, raw, Locate(items, raw, c))
  {
    var s := Advance(items, c, raw.index, false);
    AdvanceStops(items, c, raw.index, false);
    AdvanceStops(items, s, raw.index + raw.length, true);
  }

  /** The span flags of a located record are never both set, both are clear
      exactly for a record within one item, and such a record's offsets are
      the result's length apart. */
  lemma LocatedFlags(items: seq<TextItem>, raw: RawMatch, m: Match)
    requires Located(items, raw, m)
    ensures !(m.isMultiDivByLineBreak && m.isMultiDivSameLine)
    ensures !m.isMultiDivByLineBreak && !m.isMultiDivSameLine <==> m.start.idx == m.end.idx
    ensures m.start.idx == m.end.idx ==> m.end.offset - m.start.offset == raw.length
  {
  }

  /** One record per scan result, each located, none starting before the
      item the cursor began on. */
  lemma {:induction false} ConvertFromLocated(items: seq<TextItem>, ms: seq<RawMatch>, c: nat)
    requires ms == [] || c < |items|
    ensures var out := ConvertFrom(items, ms, c);
            forall k :: 0 <= k < |ms| ==> Located(items, ms[k], out[k]) && c <= out[k].start.idx
    decreases |ms|
  {
    if ms != [] {
      var m := Locate(items, ms[0], c);
      var rest := ConvertFrom(items, ms[1..], m.end.idx);
      LocateIsLocated(items, ms[0], c);
      ConvertFromLocated(items, ms[1..], m.end.idx);
      var out := ConvertFrom(items, ms, c);
      forall k | 1 <= k < |ms|
        ensures Located(items, ms[k], out[k]) && c <= out[k].start.idx
      {
        assert out[k] == rest[k - 1] && ms[k] == ms[1..][k - 1];
      }
    }
  }

  /** The cursor never moves back: each record starts no earlier than the item
      the record before it ended on. */
  lemma {:induction false} ConvertFromCursor(items: seq<TextItem>, ms: seq<RawMatch>, c: nat)
    requires ms == [] || c < |items|
    ensures var out := ConvertFrom(items, ms, c);
            forall k :: 0 < k < |ms| ==> out[k - 1].end.idx <= out[k].start.idx
    decreases |ms|
  {
    if |ms| > 1 {
      var m := Locate(items, ms[0], c);
      var rest := ConvertFrom(items, ms[1..], m.end.idx);
      ConvertFromCursor(items, ms[1..], m.end.idx);
      assert forall k :: 0 < k < |ms[1..]| ==> ConvertFrom(items, ms[1..], m.end.idx)[k - 1].end.idx <= ConvertFrom(items, ms[1..], m.end.idx)[k].start.idx;
      var out := ConvertFrom(items, ms, c);
      assert out[0] == m && out[1] == rest[0];
      forall k | 1 < k < |ms| ensures out[k - 1].end.idx <= out[k].start.idx {
        assert out[k] == rest[k - 1] && out[k - 1] == rest[k - 2];
      }
    }
  }

  /** `convertMatches` returns one located record per scan result, in order, with
      a cursor that starts at item 0 and never moves back. */
  lemma ConvertLocated(items: seq<TextItem>, ms: seq<RawMatch>)
    requires |items| > 0 || ms == []
    ensures var out := Convert(items, ms);
            && |out| == |ms|
            && (forall k :: 0 <= k < |ms| ==> Located(items, ms[k], out[k]))
            && (forall k :: 0 < k < |ms| ==> out[k - 1].end.idx <= out[k].start.idx)
  {
    ConvertFromLocated(items, ms, 0);
    ConvertFromCursor(items, ms, 0);
  }

  /** `convertMatches` (highlight.ts:88-162): the cursor `(index, tindex)` walks the
      items once, and one record is appended per scan result. */
  method ConvertMatches(matches: seq<RawMatch>, items: seq<TextItem>) returns (convertedMatches: seq<Match>)
    requires |items| > 0 || matches == []
    ensures convertedMatches == Convert(items, matches)
  {
    var index: nat := 0;
    var tindex: int := 0;
    convertedMatches := [];
    var m := 0;
    ghost var target := Convert(items, matches);
    while m < |matches|
      invariant m <= |matches|
      invariant m < |matches| ==> index < |items|
      invariant index <= |items| && tindex == Pos(items, index)
      invariant convertedMatches + ConvertFrom(items, matches[m..], index) == target
    {
      ghost var c := index;
      var record;
      record, index, tindex := LocateMatch(items, matches[m], index, tindex);
      ConvertFromAppend(items, matches[m..], c, convertedMatches, target);
      assert matches[m..][0] == matches[m] && matches[m..][1..] == matches[m + 1..];
      convertedMatches := convertedMatches + [record];
      m := m + 1;
    }
    assert matches[m..] == [];
  }

  /** Moving one record from the pending conversions to the converted ones. */
  lemma ConvertFromAppend(items: seq<TextItem>, ms: seq<RawMatch>, c: nat, done: seq<Match>, target: seq<Match>)
    requires ms != [] && c < |items|
    requires done + ConvertFrom(items, ms, c) == target
    ensures var m := Locate(items, ms[0], c);
            (done + [m]) + ConvertFrom(items, ms[1..], m.end.idx) == target
  {
    var m := Locate(items, ms[0], c);
    var rest := ConvertFrom(items, ms[1..], m.end.idx);
    assert ConvertFrom(items, ms, c) == [m] + rest;
    assert done + ([m] + rest) == (done + [m]) + rest;
  }

  /** One turn of the `for` loop of `convertMatches` (highlight.ts:116-158): the
      start scan (`>=`), the end scan (`>`), the span flags and the record, with the
      cursor left on the end item. */
  method LocateMatch(items: seq<TextItem>, raw: RawMatch, index0: nat, tindex0: int)
    returns (record: Match, index: nat, tindex: int)
    requires index0 < |items| && tindex0 == Pos(items, index0)
    ensures record == Locate(items, raw, index0)
    ensures index == record.end.idx && tindex == Pos(items, index)
  {
    index, tindex := index0, tindex0;
    var end := |items| - 1;
    var mindex := raw.index;
    while index != end && mindex >= tindex + |items[index].str|
      invariant index0 <= index < |items| && tindex == Pos(items, index)
      invariant Advance(items, index, raw.index, false) == Advance(items, index0, raw.index, false)
      decreases |items| - index
    {
      var item := items[index];
      tindex := tindex + |item.str| + EndOfLineOffset(item);
      index := index + 1;
    }
    var divStart := DivPosition(index, mindex - tindex);
    mindex := mindex + raw.length;
    ghost var s := index;
    while index != end && mindex > tindex + |items[index].str|
      invariant s <= index < |items| && tindex == Pos(items, index)
      invariant Advance(items, index, mindex, true) == Advance(items, s, mindex, true)
      decreases |items| - index
    {
      var item := items[index];
      tindex := tindex + |item.str| + EndOfLineOffset(item);
      index := index + 1;
    }
    var divEnd := DivPosition(index, mindex - tindex);
    var isMultiDiv := divStart.idx != divEnd.idx;
    var areSameLine := AreInSameLine(items, divStart.idx, divEnd.idx);
    var isMultiDivByLineBreak := isMultiDiv && !areSameLine;
    var isMultiDivSameLine := isMultiDiv && areSameLine;
    record := Match(divStart, divEnd, raw.text, raw.index, KeyString(""), "",
                    isMultiDivByLineBreak, isMultiDivSameLine);
  }

  /** Flat offset `i` is not the space that a line-ending item without a hyphen
      adds after its text. */
  predicate NotSeparator(items: seq<TextItem>, i: int) {
    forall k :: 0 <= k < |items| && items[k].hasEOL && !EndsWithHyphen(items[k].str) ==>
      i != Pos(items, k) + |items[k].str|
  }

  /** The separators of the joined text are spaces, so a character that is not a
      space is not a separator. */
  lemma SeparatorsAreSpaces(items: seq<TextItem>, i: nat)
    requires i < |Flatten(items)| && Flatten(items)[i] != ' '
    ensures NotSeparator(items, i)
  {
    forall k | 0 <= k < |items| && items[k].hasEOL && !EndsWithHyphen(items[k].str)
      ensures i != Pos(items, k) + |items[k].str|
    {
      FlattenAt(items, k, |items[k].str|);
    }
  }

  /** The start scan for a flat offset `i` of the joined text that is not a
      separator, from an item that begins at or before `i`, stops on the item
      whose own text holds `i`. */
  lemma StartScanInRange(items: seq<TextItem>, c: nat, i: nat)
    requires c < |items| && Pos(items, c) <= i < Pos(items, |items|)
    requires NotSeparator(items, i)
    ensures var s := Advance(items, c, i, false);
            Pos(items, s) <= i < Pos(items, s) + |items[s].str|
  {
    AdvanceStops(items, c, i, false);
    AdvanceReach(items, c, i, false);
  }

  /** The end scan for the end `i + n` of a non-empty stretch of the joined text
      whose last character is not a separator, from an item that begins at or
      before `i`, stops on an item that begins at or before the end and whose
      own text reaches it. */
  lemma EndScanInRange(items: seq<TextItem>, s: nat, i: nat, n: nat)
    requires s < |items| && Pos(items, s) <= i
    requires n > 0 && i + n <= Pos(items, |items|)
    requires NotSeparator(items, i + n - 1)
    ensures var e := Advance(items, s, i + n, true);
            Pos(items, e) <= i + n <= Pos(items, e) + |items[e].str|
  {
    AdvanceStops(items, s, i + n, true);
    AdvanceReach(items, s, i + n, true);
  }

  /** A non-empty scan result inside the joined text that neither begins nor
      ends on a separator. */
  predicate InsideText(items: seq<TextItem>, raw: RawMatch) {
    && raw.length > 0 && raw.index + raw.length <= Pos(items, |items|)
    && NotSeparator(items, raw.index) && NotSeparator(items, raw.index + raw.length - 1)
  }

  /** The coordinates of a result inside the joined text, located with a cursor
      that begins at or before it, are offsets into the items' own texts: the
      start offset is a character of its item and the end offset is at most its
      item's length. The end item begins at or before the end of the result, so
      the next result's cursor is again at or before it. */
  lemma LocateInRange(items: seq<TextItem>, raw: RawMatch, c: nat)
    requires c < |items| && InsideText(items, raw)
    requires Pos(items, c) <= raw.index
    ensures var m := Locate(items, raw, c);
            && 0 <= m.start.offset < |items[m.start.idx].str|
            && 0 <= m.end.offset <= |items[m.end.idx].str|
            && Pos(items, m.end.idx) <= raw.index + raw.length
  {
    StartScanInRange(items, c, raw.index);
    EndScanInRange(items, Advance(items, c, raw.index, false), raw.index, raw.length);
  }

  /** The coordinates of a record are offsets into its items' own texts. */
  predicate InRange(items: seq<TextItem>, m: Match) {
    && m.start.idx < |items| && m.end.idx < |items|
    && 0 <= m.start.offset < |items[m.start.idx].str|
    && 0 <= m.end.offset <= |items[m.end.idx].str|
  }

  lemma {:induction false} ConvertFromInRange(items: seq<TextItem>, ms: seq<RawMatch>, c: nat)
    requires c < |items|
    requires Ordered(ms)
    requires forall k :: 0 <= k < |ms| ==> InsideText(items, ms[k])
    requires ms != [] ==> Pos(items, c) <= ms[0].index
    ensures forall k :: 0 <= k < |ms| ==> InRange(items, ConvertFrom(items, ms, c)[k])
    decreases |ms|
  {
    if ms != [] {
      var m := Locate(items, ms[0], c);
      LocateInRange(items, ms[0], c);
      assert Ordered(ms[1..]);
      assert |ms| > 1 ==> ms[0].index + ms[0].length <= ms[1..][0].index;
      ConvertFromInRange(items, ms[1..], m.end.idx);
      var rest := ConvertFrom(items, ms[1..], m.end.idx);
      assert ConvertFrom(items, ms, c) == [m] + rest;
      forall k | 0 <= k < |rest| + 1
        ensures InRange(items, ([m] + rest)[k])
      {
        if k > 0 {
          assert ([m] + rest)[k] == rest[k - 1];
        }
      }
    }
  }

  /** End to end: for the results of a search that ends, `convertMatches` does not
      throw (an empty text yields no results), and every record's start offset is a
      character of its start item and every end offset is at most its end item's length. */
  lemma SearchConvertInRange(items: seq<TextItem>, query: string, options: HighlightOptions)
    requires Search(items, query, options).Done?
    ensures |items| > 0 || Search(items, query, options).value == []
    ensures var ms := Search(items, query, options).value;
            forall k :: 0 <= k < |ms| ==> InRange(items, Convert(items, ms)[k])
  {
    var ms := Search(items, query, options).value;
    SearchFound(items, query, options);
    SearchInsideText(items, query, options);
    SearchEmptyText(items, query, options);
    if |items| > 0 {
      ConvertFromInRange(items, ms, 0);
    }
  }

  /** Neither edge of a search result is a line separator. */
  lemma SearchInsideText(items: seq<TextItem>, query: string, options: HighlightOptions)
    requires Search(items, query, options).Done?
    ensures var ms := Search(items, query, options).value;
            forall k :: 0 <= k < |ms| ==> InsideText(items, ms[k])
  {
    var ms, t, lit := Search(items, query, options).value, Flatten(items), Trim(query);
    SearchFound(items, query, options);
    forall k | 0 <= k < |ms| ensures InsideText(items, ms[k]) {
      assert IsFound(t, lit, options, ms[k]);
      MatchEdgesAreNotSpaces(t, query, options, ms[k].index);
      SeparatorsAreSpaces(items, ms[k].index);
      SeparatorsAreSpaces(items, ms[k].index + ms[k].length - 1);
    }
  }
}
