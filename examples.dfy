/** Worked cases of the engine on small text layers. */
module Examples {
  import opened Types
  import opened Flattening
  import opened Searching
  import opened Locating
  import opened Sorting
  import opened Finding
  import opened Rendering

  const Plain := HighlightOptions(false, false, false, [])
  const WholeWords := HighlightOptions(false, true, false, [])

  /** A line that ends in a hyphen is joined to the next without the hyphen. */
  lemma HyphenatedLineJoins()
    ensures Flatten([TextItem("ab-", true), TextItem("cd", false)]) == "abcd"
  {
    var items := [TextItem("ab-", true), TextItem("cd", false)];
    assert Joined(items[..1]) == "ab";
    assert Joined(items) == "abcd";
  }

  /** Three lines: "x" ends a line without a hyphen, "ab-" ends one with a hyphen. */
  const ThreeLines := [TextItem("x", true), TextItem("ab-", true), TextItem("cd", false)]

  /** A line that ends without a hyphen is joined to the next by a space, while
      the hyphen of the next line end is dropped. */
  lemma LineBreakBecomesSpace()
    ensures Flatten(ThreeLines) == "x abcd"
  {
    assert Joined(ThreeLines[..1]) == "x\n";
    assert Joined(ThreeLines[..2]) == "x\nab";
    assert Joined(ThreeLines) == "x\nabcd";
  }

  /** "x abc" in "x abcd" ends on the "c" of the third line, but the end scan
      compares with the length of "ab-", hyphen included, and reports the end as
      offset 3 of the second item. */
  lemma HyphenEndsMultiLineRecord()
    ensures Convert(ThreeLines, [RawMatch(0, 5, "x abc")]) ==
              [Match(DivPosition(0, 0), DivPosition(1, 3), "x abc", 0, KeyString(""), "", true, false)]
  {
    var raw := RawMatch(0, 5, "x abc");
    assert Pos(ThreeLines, 1) == 2;
    assert Advance(ThreeLines, 0, 0, false) == 0;
    assert Advance(ThreeLines, 0, 5, true) == 1;
    assert !SameLine(ThreeLines, 0, 1);
    assert Locate(ThreeLines, raw, 0) ==
             Match(DivPosition(0, 0), DivPosition(1, 3), "x abc", 0, KeyString(""), "", true, false);
    assert [raw][1..] == [];
  }

  /** That record takes the per-line branch, whose highlights are "x" and "ab-":
      the hyphen is highlighted and the "c" never is. This is the case
      `Rendering.LineSegmentsContent` leaves out. */
  lemma HyphenInsideLineHighlights()
    ensures var m := Match(DivPosition(0, 0), DivPosition(1, 3), "x abc", 0, KeyString(""), "", true, false);
            BranchOf(m) == PerLine && LinesOf(ThreeLines, m, [Segment(0, 0, 1), Segment(1, 0, 3)])
    ensures SegmentText(ThreeLines, Segment(0, 0, 1)) == "x"
    ensures SegmentText(ThreeLines, Segment(1, 0, 3)) == "ab-"
  {
    assert "ab-"[0..3] == "ab-";
  }

  /** On no items the text is empty: an empty query matches there and the scan
      never ends, but `\b\b` does not match, so the whole-word search finds nothing. */
  lemma EmptyQueryOnNoItems()
    ensures Search([], "", Plain) == Diverges
    ensures Search([], "", WholeWords) == Done([])
  {
    assert Joined([]) == "" && Flatten([]) == "";
    assert Trim("") == "";
    assert MatchAt("", "", 0, Plain);
    assert Exec("", "", Plain, 0) == Some(0);
    assert !IsBoundary("", 0);
    assert Exec("", "", WholeWords, 1) == None;
    assert Exec("", "", WholeWords, 0) == None;
  }

  /** A word split by a hyphenated line break is found and reported from the
      start of the first line to the third character of the second, as a record
      spanning a line break. */
  lemma HyphenatedWordSpansLines()
    ensures Convert([TextItem("exam-", true), TextItem("ple", false)], [RawMatch(0, 7, "example")]) ==
              [Match(DivPosition(0, 0), DivPosition(1, 3), "example", 0, KeyString(""), "", true, false)]
  {
    var items := [TextItem("exam-", true), TextItem("ple", false)];
    var raw := RawMatch(0, 7, "example");
    assert Pos(items, 1) == 4;
    assert Advance(items, 0, 0, false) == 0;
    assert Advance(items, 0, 7, true) == 1;
    assert !SameLine(items, 0, 1);
    assert Locate(items, raw, 0) ==
             Match(DivPosition(0, 0), DivPosition(1, 3), "example", 0, KeyString(""), "", true, false);
    assert [raw][1..] == [];
  }

  /** The thresholds use the item's own text length, which still counts the
      dropped hyphen: the match "bc" of "abcd" ends on the hyphen of the first
      item and is reported as a single-item record. */
  lemma HyphenCountsInItemLength()
    ensures Convert([TextItem("ab-", true), TextItem("cd", false)], [RawMatch(1, 2, "bc")]) ==
              [Match(DivPosition(0, 1), DivPosition(0, 3), "bc", 1, KeyString(""), "", false, false)]
  {
    var items := [TextItem("ab-", true), TextItem("cd", false)];
    var raw := RawMatch(1, 2, "bc");
    assert Pos(items, 0) == 0;
    assert Advance(items, 0, 1, false) == 0;
    assert Advance(items, 0, 3, true) == 0;
    assert SameLine(items, 0, 0);
    assert Locate(items, raw, 0) ==
             Match(DivPosition(0, 0 + 1), DivPosition(0, 3), "bc", 1, KeyString(""), "", false, false);
    assert [raw][1..] == [];
  }

  /** That record takes the single-div branch, and its highlight text is "b-":
      the highlight covers the hyphen and not the "c" on the next line. */
  lemma HyphenInsideHighlight()
    ensures BranchOf(Match(DivPosition(0, 1), DivPosition(0, 3), "bc", 1, KeyString(""), "", false, false)) == SingleDiv
    ensures DivContent("ab-", 1, 3) == "b-"
  {
    assert "ab-"[1..3] == "b-";
  }

  /** The scan moves past a position where the query does not match. */
  lemma ExecSkips(t: string, lit: string, options: HighlightOptions, i: nat)
    requires i <= |t| && !MatchAt(t, lit, i, options)
    ensures Exec(t, lit, options, i) == Exec(t, lit, options, i + 1)
  {
  }

  /** No position from `i` on leaves room for the query. */
  lemma ExecPastEnd(t: string, lit: string, options: HighlightOptions, i: nat)
    requires |t| < i + |lit|
    ensures Exec(t, lit, options, i) == None
    decreases |t| + 1 - i
  {
    if i <= |t| {
      ExecPastEnd(t, lit, options, i + 1);
    }
  }

  /** A text without newlines is searched as it is. */
  lemma NoNewlines(s: string)
    requires forall i :: 0 <= i < |s| ==> s[i] != '\n'
    ensures NewlinesToSpaces(s) == s
  {
  }

  lemma CatsText()
    ensures Flatten([TextItem("cats cat", false)]) == "cats cat"
  {
    var items := [TextItem("cats cat", false)];
    assert Joined(items) == Joined([]) + Piece(items[0]);
    NoNewlines("cats cat");
  }

  lemma TrimCat()
    ensures Trim("cat") == "cat"
  {
    assert !IsTrimmable('c') && !IsTrimmable('t');
    assert TrimStart("cat") == "cat";
  }

  /** In "cats cat" only position 0 and position 5 spell "cat". */
  lemma CatsSpelling(options: HighlightOptions, i: nat)
    requires !options.ignoreCase && 0 < i < 5
    ensures !MatchAt("cats cat", "cat", i, options)
  {
    var t := "cats cat";
    assert t[i] != 'c';
  }

  /** The whole-word scan of "cats cat" from the start stops at position 5. */
  lemma CatsWholeWordScan()
    ensures Exec("cats cat", "cat", WholeWords, 0) == Some(5)
  {
    var t := "cats cat";
    assert !MatchAt(t, "cat", 0, WholeWords) by {
      assert !IsBoundary(t, 3);
    }
    ExecSkips(t, "cat", WholeWords, 0);
    CatsSpelling(WholeWords, 1);
    ExecSkips(t, "cat", WholeWords, 1);
    CatsSpelling(WholeWords, 2);
    ExecSkips(t, "cat", WholeWords, 2);
    CatsSpelling(WholeWords, 3);
    ExecSkips(t, "cat", WholeWords, 3);
    CatsSpelling(WholeWords, 4);
    ExecSkips(t, "cat", WholeWords, 4);
    assert MatchAt(t, "cat", 5, WholeWords) by {
      assert IsBoundary(t, 5) && IsBoundary(t, 8);
    }
  }

  /** The plain scan of "cats cat" finds position 0, and from 3 on position 5. */
  lemma CatsPlainScan()
    ensures Exec("cats cat", "cat", Plain, 0) == Some(0)
    ensures Exec("cats cat", "cat", Plain, 3) == Some(5)
  {
    var t := "cats cat";
    assert MatchAt(t, "cat", 0, Plain);
    CatsSpelling(Plain, 3);
    ExecSkips(t, "cat", Plain, 3);
    CatsSpelling(Plain, 4);
    ExecSkips(t, "cat", Plain, 4);
    assert MatchAt(t, "cat", 5, Plain);
  }

  /** With whole words, "cat" is not found inside "cats". */
  lemma WholeWordsSkipsLongerWord()
    ensures Search([TextItem("cats cat", false)], "cat", WholeWords) == Done([RawMatch(5, 3, "cat")])
  {
    var t := "cats cat";
    CatsText();
    TrimCat();
    CatsWholeWordScan();
    ExecPastEnd(t, "cat", WholeWords, 8);
    assert MatchesFrom(t, "cat", WholeWords, 8) == [];
    assert t[5..8] == "cat";
    assert MatchesFrom(t, "cat", WholeWords, 0) == [RawMatch(5, 3, "cat")];
  }

  /** The plain scan results of "cats cat" for "cat". */
  lemma CatsPlainMatches()
    ensures MatchesFrom("cats cat", "cat", Plain, 0) == [RawMatch(0, 3, "cat"), RawMatch(5, 3, "cat")]
  {
    var t := "cats cat";
    CatsPlainScan();
    ExecPastEnd(t, "cat", Plain, 8);
    assert MatchesFrom(t, "cat", Plain, 8) == [];
    assert t[0..3] == "cat" && t[5..8] == "cat";
    assert MatchesFrom(t, "cat", Plain, 3) == [RawMatch(5, 3, "cat")];
  }

  /** Without whole words, "cat" is found inside "cats" as well. */
  lemma SubstringFindsLongerWord()
    ensures Search([TextItem("cats cat", false)], "cat", Plain) ==
              Done([RawMatch(0, 3, "cat"), RawMatch(5, 3, "cat")])
  {
    CatsText();
    TrimCat();
    CatsPlainMatches();
  }

  /** Once "New York" is kept, the record for "York" inside it is dropped. */
  lemma ContainedRecordDropped()
    ensures var newYork := Match(DivPosition(0, 0), DivPosition(0, 8), "New York", 0, KeyString(""), "", false, false);
            var york := Match(DivPosition(0, 4), DivPosition(0, 8), "York", 4, KeyString(""), "", false, false);
            var kept := AcceptMatches(Selection([], []), [newYork], Query("New York", KeyString("New York")));
            && kept.matches == [newYork.(key := KeyString("New York"), keyword := "New York")]
            && kept.ranges == [Range(0, 8)]
            && AcceptMatches(kept, [york], Query("York", KeyString("York"))) == kept
  {
    var newYork := Match(DivPosition(0, 0), DivPosition(0, 8), "New York", 0, KeyString(""), "", false, false);
    var york := Match(DivPosition(0, 4), DivPosition(0, 8), "York", 4, KeyString(""), "", false, false);
    var kept := AcceptMatches(Selection([], []), [newYork], Query("New York", KeyString("New York")));
    assert [newYork][1..] == [] && [york][1..] == [];
    var q := Query("New York", KeyString("New York"));
    assert !IsOverlapping([], 0, 8);
    assert RangeOf(newYork) == Range(0, 8);
    assert Step(Selection([], []), newYork, q) == Selection([WithQuery(newYork, q)], [Range(0, 8)]);
    assert kept == AcceptMatches(Step(Selection([], []), newYork, q), [], q);
    assert IsOverlapping(kept.ranges, 4, 8) by {
      assert kept.ranges[0].start <= 4 < kept.ranges[0].end;
    }
  }

  // ---------------------------------------------------------------------------
  // "New York" and "York" on the text "New York"

  const NewYorkLine := [TextItem("New York", false)]
  const NewYorkQuery := Query("New York", KeyString("New York"))
  const YorkQuery := Query("York", KeyString("York"))

  lemma NewYorkText()
    ensures Flatten(NewYorkLine) == "New York"
  {
    assert Joined(NewYorkLine) == Joined([]) + Piece(NewYorkLine[0]);
    NoNewlines("New York");
  }

  lemma TrimNewYork()
    ensures Trim("New York") == "New York" && Trim("York") == "York"
  {
    assert !IsTrimmable('N') && !IsTrimmable('Y') && !IsTrimmable('k');
    assert TrimStart("New York") == "New York";
    assert TrimStart("York") == "York";
  }

  /** The sort moves the longer keyword in front of the shorter one given before it. */
  lemma NewYorkFirst()
    ensures SortedByLength([YorkQuery, NewYorkQuery]) == [NewYorkQuery, YorkQuery]
  {
    assert [YorkQuery, NewYorkQuery][..1] == [YorkQuery];
    assert [YorkQuery][..0] == [];
    assert SortedByLength([YorkQuery]) == Insert(YorkQuery, []) == [YorkQuery];
    assert Len(YorkQuery) == 4 < 8 == Len(NewYorkQuery);
    assert [YorkQuery][..0] == [];
    assert Insert(NewYorkQuery, [YorkQuery]) == Insert(NewYorkQuery, []) + [YorkQuery];
  }

  /** "New York" spells itself from position 0. */
  lemma NewYorkScan()
    ensures Exec("New York", "New York", Plain, 0) == Some(0)
    ensures Exec("New York", "New York", Plain, 8) == None
    ensures MatchesFrom("New York", "New York", Plain, 0) == [RawMatch(0, 8, "New York")]
  {
    var t := "New York";
    SpellsAtIff(t, t, 0, false);
    assert MatchAt(t, t, 0, Plain);
    ExecPastEnd(t, t, Plain, 8);
    assert MatchesFrom(t, t, Plain, 8) == [];
    assert t[0..8] == t;
  }

  lemma NewYorkSearch()
    ensures Search(NewYorkLine, "New York", Plain) == Done([RawMatch(0, 8, "New York")])
  {
    NewYorkScan();
    NewYorkText();
    TrimNewYork();
  }

  /** The scan for "York" passes "New " and stops at position 4. */
  lemma YorkScan()
    ensures Exec("New York", "York", Plain, 0) == Some(4)
    ensures Exec("New York", "York", Plain, 8) == None
    ensures MatchesFrom("New York", "York", Plain, 0) == [RawMatch(4, 4, "York")]
  {
    var t := "New York";
    assert t[0] != 'Y' && t[1] != 'Y' && t[2] != 'Y' && t[3] != 'Y';
    ExecSkips(t, "York", Plain, 0);
    ExecSkips(t, "York", Plain, 1);
    ExecSkips(t, "York", Plain, 2);
    ExecSkips(t, "York", Plain, 3);
    SpellsAtIff(t, "York", 4, false);
    assert MatchAt(t, "York", 4, Plain);
    ExecPastEnd(t, "York", Plain, 8);
    assert MatchesFrom(t, "York", Plain, 8) == [];
    assert t[4..8] == "York";
  }

  /** "York" is found once, at position 4. */
  lemma YorkSearch()
    ensures Search(NewYorkLine, "York", Plain) == Done([RawMatch(4, 4, "York")])
  {
    YorkScan();
    NewYorkText();
    TrimNewYork();
  }

  /** On a single item the record of a scan result starts and ends on that item. */
  lemma OneItemConvert(items: seq<TextItem>, raw: RawMatch)
    requires |items| == 1
    ensures Convert(items, [raw]) ==
              [Match(DivPosition(0, raw.index), DivPosition(0, raw.index + raw.length), raw.text, raw.index,
                     KeyString(""), "", false, false)]
  {
    assert Pos(items, 0) == 0;
    assert [raw][1..] == [];
  }

  /** The records of a single item with a single scan result. */
  lemma OneItemRecords(items: seq<TextItem>, keyword: string, options: HighlightOptions, raw: RawMatch)
    requires |items| == 1 && Search(items, keyword, options) == Done([raw])
    ensures Records(items, keyword, options) ==
              Done([Match(DivPosition(0, raw.index), DivPosition(0, raw.index + raw.length), raw.text, raw.index,
                          KeyString(""), "", false, false)])
  {
    OneItemConvert(items, raw);
  }

  lemma NewYorkRecords()
    ensures Records(NewYorkLine, "New York", Plain) ==
              Done([Match(DivPosition(0, 0), DivPosition(0, 8), "New York", 0, KeyString(""), "", false, false)])
  {
    var raw := RawMatch(0, 8, "New York");
    NewYorkSearch();
    assert Search(NewYorkLine, "New York", Plain) == Done([raw]);
    OneItemRecords(NewYorkLine, "New York", Plain, raw);
  }

  lemma YorkRecords()
    ensures Records(NewYorkLine, "York", Plain) ==
              Done([Match(DivPosition(0, 4), DivPosition(0, 8), "York", 4, KeyString(""), "", false, false)])
  {
    var raw := RawMatch(4, 4, "York");
    YorkSearch();
    assert Search(NewYorkLine, "York", Plain) == Done([raw]);
    OneItemRecords(NewYorkLine, "York", Plain, raw);
  }

  /** End to end: given "York" before "New York", `findMatches` on the text
      "New York" returns only the "New York" record; the "York" inside it loses
      to the longer keyword. */
  lemma LongerKeywordWins()
    ensures FindAll([YorkQuery, NewYorkQuery], NewYorkLine, Plain) ==
              Done([Match(DivPosition(0, 0), DivPosition(0, 8), "New York", 0, KeyString("New York"), "New York", false, false)])
  {
    var newYork := Match(DivPosition(0, 0), DivPosition(0, 8), "New York", 0, KeyString(""), "", false, false);
    var york := Match(DivPosition(0, 4), DivPosition(0, 8), "York", 4, KeyString(""), "", false, false);
    var kept := AcceptMatches(Selection([], []), [newYork], NewYorkQuery);
    NewYorkFirst();
    NewYorkRecords();
    YorkRecords();
    ContainedRecordDropped();
    var sorted := [NewYorkQuery, YorkQuery];
    assert sorted[1..] == [YorkQuery] && [YorkQuery][1..] == [];
    assert AcceptQueries(kept, [YorkQuery], NewYorkLine, Plain) == AcceptQueries(kept, [], NewYorkLine, Plain);
    assert AcceptQueries(Selection([], []), sorted, NewYorkLine, Plain) == Done(kept);
  }
}
