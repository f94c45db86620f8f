/** Stage 1b: `searchQuery` — trimming and escaping the query and the global
    left-to-right scan of the joined text. The regular-expression engine is
    modelled for the only patterns the engine builds: an escaped literal,
    optionally between two `\b` assertions, optionally with the `i` flag. */
module Searching {
  import opened Types
  import opened Flattening

  /** The ECMAScript WhiteSpace and LineTerminator code points: what
      `String.prototype.trim` removes from both ends. */
  predicate IsTrimmable(c: char) {
    || c == '\t' || c == '\n' || c == '\U{000B}' || c == '\U{000C}' || c == '\r'
    || c == ' ' || c == '\U{00A0}' || c == '\U{1680}'
    || ('\U{2000}' <= c <= '\U{200A}')
    || c == '\U{2028}' || c == '\U{2029}' || c == '\U{202F}' || c == '\U{205F}'
    || c == '\U{3000}' || c == '\U{FEFF}'
  }

  /** Drops the leading white space: what is left is a suffix of `s`. */
  function TrimStart(s: string): (r: string)
    ensures |r| <= |s| && r == s[|s| - |r|..]
    ensures forall i :: 0 <= i < |s| - |r| ==> IsTrimmable(s[i])
    ensures r == [] || !IsTrimmable(r[0])
  {
    if s != [] && IsTrimmable(s[0]) then TrimStart(s[1..]) else s
  }

  /** Drops the trailing white space: what is left is a prefix of `s`. */
  function TrimEnd(s: string): (r: string)
    ensures |r| <= |s| && r == s[..|r|]
    ensures forall i :: |r| <= i < |s| ==> IsTrimmable(s[i])
    ensures r == [] || !IsTrimmable(r[|r| - 1])
  {
    if s != [] && IsTrimmable(s[|s| - 1]) then TrimEnd(s[..|s| - 1]) else s
  }

  /** `query.trim()`: a non-empty result neither begins nor ends with white space. */
  function Trim(s: string): (r: string)
    ensures |r| <= |s|
    ensures r == [] || (!IsTrimmable(r[0]) && !IsTrimmable(r[|r| - 1]))
  {
    TrimEnd(TrimStart(s))
  }

  /** The characters of the class `[.*+?^${}()|[\]\\]`. */
  predicate IsSyntaxCharacter(c: char) {
    c in ".*+?^${}()|[]\\"
  }

  /** `replace(/[.*+?^${}()|[\]\\]/g, "\\$&")`: a backslash before every syntax character. */
  function Escape(s: string): (p: string)
    ensures |p| >= |s|
  {
    if s == [] then ""
    else (if IsSyntaxCharacter(s[0]) then ['\\', s[0]] else [s[0]]) + Escape(s[1..])
  }

  /** A pattern made only of plain characters and escaped syntax characters:
      such a pattern matches exactly one fixed string. */
  predicate IsLiteralPattern(p: string)
    decreases |p|
  {
    || p == []
    || (|p| >= 2 && p[0] == '\\' && IsSyntaxCharacter(p[1]) && IsLiteralPattern(p[2..]))
    || (!IsSyntaxCharacter(p[0]) && IsLiteralPattern(p[1..]))
  }

  /** The string a literal pattern matches: each `\c` stands for `c`. */
  function LiteralText(p: string): (s: string)
    requires IsLiteralPattern(p)
    ensures |s| <= |p|
    decreases |p|
  {
    if p == [] then ""
    else if p[0] == '\\' then [p[1]] + LiteralText(p[2..])
    else [p[0]] + LiteralText(p[1..])
  }

  /** Escaping makes the query literal: the escaped pattern is well formed and
      matches the query itself and nothing else. */
  lemma {:induction false} EscapeIsLiteral(s: string)
    ensures IsLiteralPattern(Escape(s))
    ensures LiteralText(Escape(s)) == s
  {
    if s != [] {
      EscapeIsLiteral(s[1..]);
      var rest := Escape(s[1..]);
      if IsSyntaxCharacter(s[0]) {
        assert Escape(s) == ['\\', s[0]] + rest;
        assert Escape(s)[2..] == rest;
      } else {
        assert Escape(s) == [s[0]] + rest;
        assert Escape(s)[1..] == rest;
      }
    }
  }

  /** Case folding of the `i` flag without the `u` flag, for ASCII: lower-case
      letters fold to upper case. */
  function Canonicalize(c: char): char {
    if 'a' <= c <= 'z' then (c as int - 32) as char else c
  }

  predicate CharMatches(t: char, p: char, ignoreCase: bool) {
    if ignoreCase then Canonicalize(t) == Canonicalize(p) else t == p
  }

  /** The word characters of `\b` without the `u` flag: `[A-Za-z0-9_]`. */
  predicate IsWordChar(c: char) {
    ('a' <= c <= 'z') || ('A' <= c <= 'Z') || ('0' <= c <= '9') || c == '_'
  }

  /** Whether position `j` holds a word character; outside the text it does not. */
  predicate IsWordAt(t: string, j: int) {
    0 <= j < |t| && IsWordChar(t[j])
  }

  /** `\b` at position `p`: the characters on either side differ in being word characters. */
  predicate IsBoundary(t: string, p: int) {
    IsWordAt(t, p - 1) != IsWordAt(t, p)
  }

  /** From `i` on, `t` spells `lit`: letter by letter, up to ASCII case when `ignoreCase`. */
  predicate SpellsAt(t: string, lit: string, i: nat, ignoreCase: bool)
    requires i + |lit| <= |t|
    decreases |lit|
  {
    lit == [] || (CharMatches(t[i], lit[0], ignoreCase) && SpellsAt(t, lit[1..], i + 1, ignoreCase))
  }

  lemma {:induction false} SpellsAtIff(t: string, lit: string, i: nat, ignoreCase: bool)
    requires i + |lit| <= |t|
    ensures SpellsAt(t, lit, i, ignoreCase) <==>
              forall k :: 0 <= k < |lit| ==> CharMatches(t[i + k], lit[k], ignoreCase)
    decreases |lit|
  {
    if lit != [] {
      SpellsAtIff(t, lit[1..], i + 1, ignoreCase);
      assert forall k :: 1 <= k < |lit| ==> lit[k] == lit[1..][k - 1] && t[i + k] == t[(i + 1) + (k - 1)];
    }
  }

  /** The pattern built from the literal `lit` and the options matches at `i`. */
  predicate MatchAt(t: string, lit: string, i: nat, options: HighlightOptions) {
    && i + |lit| <= |t|
    && SpellsAt(t, lit, i, options.ignoreCase)
    && (options.completeWords ==> IsBoundary(t, i) && IsBoundary(t, i + |lit|))
  }

  /** `regex.exec(t)` with the regex's `lastIndex` at `lastIndex`: the position
      of the leftmost match at or after `lastIndex`, if any (see `ExecIsLeftmost`). */
  function Exec(t: string, lit: string, options: HighlightOptions, lastIndex: nat): (r: Option<nat>)
    decreases |t| + 1 - lastIndex
    ensures r.Some? ==> lastIndex <= r.value && r.value + |lit| <= |t|
  {
    if lastIndex > |t| then None
    else if MatchAt(t, lit, lastIndex, options) then Some(lastIndex)
    else Exec(t, lit, options, lastIndex + 1)
  }

  /** `exec` finds a match when there is one at or after `lastIndex`, and the
      one it finds is the leftmost. */
  lemma {:induction false} ExecIsLeftmost(t: string, lit: string, options: HighlightOptions, lastIndex: nat)
    ensures var r := Exec(t, lit, options, lastIndex);
            && (r.Some? ==> MatchAt(t, lit, r.value, options))
            && (forall j :: lastIndex <= j && (r.None? || j < r.value) ==> !MatchAt(t, lit, j, options))
    decreases |t| + 1 - lastIndex
  {
    if lastIndex <= |t| && !MatchAt(t, lit, lastIndex, options) {
      ExecIsLeftmost(t, lit, options, lastIndex + 1);
    }
  }

  /** A scan result `[index, length, text]` that is a match of `lit` in `t`. */
  predicate IsFound(t: string, lit: string, options: HighlightOptions, m: RawMatch) {
    && m.length == |lit| == |m.text|
    && MatchAt(t, lit, m.index, options)
    && m.text == t[m.index..m.index + m.length]
  }

  /** Two consecutive scan results do not overlap and come left to right. */
  predicate Ordered(ms: seq<RawMatch>) {
    forall k :: 0 <= k < |ms| - 1 ==> ms[k].index + ms[k].length <= ms[k + 1].index
  }

  /** The matches the `while ((match = regex.exec(t)) !== null)` loop collects
      once `lastIndex` is at `lastIndex`. */
  function MatchesFrom(t: string, lit: string, options: HighlightOptions, lastIndex: nat): seq<RawMatch>
    requires |lit| > 0
    decreases |t| + 1 - lastIndex
  {
    match Exec(t, lit, options, lastIndex)
    case None => []
    case Some(i) => [RawMatch(i, |lit|, t[i..i + |lit|])] + MatchesFrom(t, lit, options, i + |lit|)
  }

  /** Every collected match is a match of the pattern at or after `lastIndex`,
      and they come left to right without overlapping. */
  lemma {:induction false} MatchesFromFound(t: string, lit: string, options: HighlightOptions, lastIndex: nat)
    requires |lit| > 0
    ensures var ms := MatchesFrom(t, lit, options, lastIndex);
            && (forall k :: 0 <= k < |ms| ==> IsFound(t, lit, options, ms[k]) && lastIndex <= ms[k].index)
            && Ordered(ms)
    decreases |t| + 1 - lastIndex
  {
    var ms := MatchesFrom(t, lit, options, lastIndex);
    match Exec(t, lit, options, lastIndex)
    case None =>
    case Some(i) =>
      ExecIsLeftmost(t, lit, options, lastIndex);
      var rest := MatchesFrom(t, lit, options, i + |lit|);
      MatchesFromFound(t, lit, options, i + |lit|);
      assert ms == [RawMatch(i, |lit|, t[i..i + |lit|])] + rest;
      assert forall k :: 1 <= k < |ms| ==> ms[k] == rest[k - 1];
  }

  /** `searchQuery` as a value. A trimmed query that is empty builds a pattern
      that matches the empty string; once it matches, `lastIndex` never moves
      again and the loop never ends. */
  function Search(items: seq<TextItem>, query: string, options: HighlightOptions): Outcome<seq<RawMatch>>
  {
    var t := Flatten(items);
    var lit := Trim(query);
    if lit == [] then (if Exec(t, lit, options, 0).Some? then Diverges else Done([]))
    else Done(MatchesFrom(t, lit, options, 0))
  }

  /** The search results are exact, ordered and disjoint: each is a match of the
      trimmed query in the joined text, of the query's (non-zero) length, and each
      begins at or after the end of the one before. */
  lemma SearchFound(items: seq<TextItem>, query: string, options: HighlightOptions)
    requires Search(items, query, options).Done?
    ensures var ms := Search(items, query, options).value;
            && Ordered(ms)
            && forall k :: 0 <= k < |ms| ==>
                 IsFound(Flatten(items), Trim(query), options, ms[k]) && ms[k].length > 0
  {
    if Trim(query) != [] {
      MatchesFromFound(Flatten(items), Trim(query), options, 0);
    }
  }

  /** With no text items there is nothing to find. */
  lemma SearchEmptyText(items: seq<TextItem>, query: string, options: HighlightOptions)
    requires Search(items, query, options).Done?
    ensures |items| > 0 || Search(items, query, options).value == []
  {
    var t, lit := Flatten(items), Trim(query);
    if |items| == 0 && lit != [] {
      assert |t| == 0;
      assert Exec(t, lit, options, 0).None?;
    }
  }

  /** `searchQuery` (highlight.ts:46-86). */
  method SearchQuery(items: seq<TextItem>, query: string, options: HighlightOptions)
    returns (result: Outcome<seq<RawMatch>>)
    ensures result == Search(items, query, options)
  {
    var textJoined := FlattenItems(items);
    var trimmed := Trim(query);
    var fquery := Escape(trimmed);
    EscapeIsLiteral(trimmed);
    // `completeWords` wraps the pattern in `\b`; `ignoreCase` adds the `i` flag; MatchAt reads both
    var lit := LiteralText(fquery);
    if lit == [] {
      // the empty pattern matches without moving `lastIndex`: the loop below would not end
      var first := Exec(textJoined, lit, options, 0);
      result := if first.Some? then Diverges else Done([]);
      return;
    }
    var matches := ExecAll(textJoined, lit, options);
    result := Done(matches);
  }

  /** The `while ((match = regex.exec(textJoined)) !== null)` loop of `searchQuery`:
      repeated `exec` calls, each resuming at the end of the previous match. */
  method ExecAll(textJoined: string, lit: string, options: HighlightOptions) returns (matches: seq<RawMatch>)
    requires |lit| > 0
    ensures matches == MatchesFrom(textJoined, lit, options, 0)
  {
    matches := [];
    var lastIndex: nat := 0;
    ghost var rest := MatchesFrom(textJoined, lit, options, 0);
    while true
      invariant lastIndex <= |textJoined|
      invariant rest == MatchesFrom(textJoined, lit, options, lastIndex)
      invariant matches + rest == MatchesFrom(textJoined, lit, options, 0)
      decreases |textJoined| - lastIndex
    {
      var found := Exec(textJoined, lit, options, lastIndex);
      if found.None? {
        assert matches + rest == matches;
        break;
      }
      var index := found.value;
      var m := RawMatch(index, |lit|, textJoined[index..index + |lit|]);
      assert rest == [m] + rest[1..];
      assert matches + rest == (matches + [m]) + rest[1..];
      matches := matches + [m];
      lastIndex := index + |lit|;
      rest := rest[1..];
    }
  }

  /** The scan misses nothing: every position where the pattern matches at or
      after `lastIndex` lies inside one of the collected matches, the `k`-th. */
  lemma {:induction false} MatchesFromCover(t: string, lit: string, options: HighlightOptions, lastIndex: nat, j: nat)
    returns (k: nat)
    requires |lit| > 0
    requires lastIndex <= j && MatchAt(t, lit, j, options)
    ensures k < |MatchesFrom(t, lit, options, lastIndex)|
    ensures MatchesFrom(t, lit, options, lastIndex)[k].index <= j
              < MatchesFrom(t, lit, options, lastIndex)[k].index + MatchesFrom(t, lit, options, lastIndex)[k].length
    decreases |t| + 1 - lastIndex
  {
    var ms := MatchesFrom(t, lit, options, lastIndex);
    ExecIsLeftmost(t, lit, options, lastIndex);
    var i := Exec(t, lit, options, lastIndex).value;
    var rest := MatchesFrom(t, lit, options, i + |lit|);
    assert ms == [RawMatch(i, |lit|, t[i..i + |lit|])] + rest;
    if j >= i + |lit| {
      var k' := MatchesFromCover(t, lit, options, i + |lit|, j);
      k := k' + 1;
      assert ms[k] == rest[k'];
    } else {
      k := 0;
    }
  }

  /** The search result is the greedy left-to-right tiling of the pattern's
      occurrences: every occurrence of the trimmed query is covered by a result. */
  lemma SearchCoversEveryOccurrence(items: seq<TextItem>, query: string, options: HighlightOptions, j: nat)
    returns (k: nat)
    requires Trim(query) != []
    requires MatchAt(Flatten(items), Trim(query), j, options)
    ensures Search(items, query, options).Done?
    ensures k < |Search(items, query, options).value|
    ensures Search(items, query, options).value[k].index <= j
              < Search(items, query, options).value[k].index + Search(items, query, options).value[k].length
  {
    assert Search(items, query, options) == Done(MatchesFrom(Flatten(items), Trim(query), options, 0));
    k := MatchesFromCover(Flatten(items), Trim(query), options, 0, j);
  }

  /** Without `ignoreCase` a scan result's text is the literal itself; with it,
      the two agree letter by letter up to ASCII case. */
  lemma FoundText(t: string, lit: string, options: HighlightOptions, m: RawMatch)
    requires IsFound(t, lit, options, m)
    ensures m.length == |m.text| == |lit|
    ensures !options.ignoreCase ==> m.text == lit
    ensures forall c :: 0 <= c < |lit| ==> Canonicalize(m.text[c]) == Canonicalize(lit[c])
  {
    SpellsAtIff(t, lit, m.index, options.ignoreCase);
    forall c | 0 <= c < |lit|
      ensures Canonicalize(m.text[c]) == Canonicalize(lit[c])
      ensures !options.ignoreCase ==> m.text[c] == lit[c]
    {
      assert m.text[c] == t[m.index + c];
      assert CharMatches(t[m.index + c], lit[c], options.ignoreCase);
    }
  }

  /** Each search result spells the trimmed query (up to ASCII case with `ignoreCase`,
      exactly without it). */
  lemma SearchResultText(items: seq<TextItem>, query: string, options: HighlightOptions, k: nat)
    requires Search(items, query, options).Done?
    requires k < |Search(items, query, options).value|
    ensures var m := Search(items, query, options).value[k];
            && m.length == |m.text| == |Trim(query)| > 0
            && (!options.ignoreCase ==> m.text == Trim(query))
            && (forall c :: 0 <= c < |Trim(query)| ==> Canonicalize(m.text[c]) == Canonicalize(Trim(query)[c]))
  {
    var ms := Search(items, query, options).value;
    SearchFound(items, query, options);
    FoundText(Flatten(items), Trim(query), options, ms[k]);
  }

  /** With `completeWords` every search result is a whole word: the `\b` assertions
      hold at both of its ends. */
  lemma SearchResultWholeWord(items: seq<TextItem>, query: string, options: HighlightOptions, k: nat)
    requires options.completeWords
    requires Search(items, query, options).Done?
    requires k < |Search(items, query, options).value|
    ensures var m, t := Search(items, query, options).value[k], Flatten(items);
            IsBoundary(t, m.index) && IsBoundary(t, m.index + m.length)
  {
    SearchFound(items, query, options);
  }

  /** The source loops forever exactly when the trimmed query is empty and the
      empty pattern matches somewhere: always without `completeWords`, and with it
      exactly when the text holds a word character (there is then a `\b`). */
  lemma SearchDivergesIff(items: seq<TextItem>, query: string, options: HighlightOptions)
    ensures Search(items, query, options).Diverges? <==>
              && Trim(query) == []
              && (!options.completeWords ||
                  exists j :: 0 <= j < |Flatten(items)| && IsWordChar(Flatten(items)[j]))
  {
    var t, lit := Flatten(items), Trim(query);
    if lit == [] {
      ExecIsLeftmost(t, lit, options, 0);
      if !options.completeWords {
        assert MatchAt(t, lit, 0, options);
      } else if exists j :: 0 <= j < |t| && IsWordChar(t[j]) {
        var j :| 0 <= j < |t| && IsWordChar(t[j]);
        var f := FirstWordChar(t, j);
        assert MatchAt(t, lit, f, options);
      } else {
        forall p: nat | p <= |t| ensures !MatchAt(t, lit, p, options) {
          assert !IsWordAt(t, p - 1) && !IsWordAt(t, p);
        }
      }
    }
  }

  /** The first word character of a text that has one. */
  lemma {:induction false} FirstWordChar(t: string, j: nat) returns (f: nat)
    requires j < |t| && IsWordChar(t[j])
    ensures f <= j && IsWordChar(t[f]) && IsBoundary(t, f)
  {
    if j > 0 && IsWordChar(t[j - 1]) {
      f := FirstWordChar(t, j - 1);
    } else {
      f := j;
    }
  }

  /** A match of a non-empty trimmed query neither begins nor ends on a space:
      the first and last query characters are not white space, and no other
      character folds to a space. */
  lemma MatchEdgesAreNotSpaces(t: string, query: string, options: HighlightOptions, i: nat)
    requires Trim(query) != []
    requires MatchAt(t, Trim(query), i, options)
    ensures t[i] != ' ' && t[i + |Trim(query)| - 1] != ' '
  {
    var lit := Trim(query);
    SpellsAtIff(t, lit, i, options.ignoreCase);
    assert CharMatches(t[i], lit[0], options.ignoreCase);
    assert CharMatches(t[i + (|lit| - 1)], lit[|lit| - 1], options.ignoreCase);
  }
}
