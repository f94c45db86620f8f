/** Stage 1a: joining the text items into the one string the search runs on,
    and the per-item offset model that the locator shares with it. */
module Flattening {
  import opened Types

  predicate EndsWithHyphen(s: string) {
    |s| > 0 && s[|s| - 1] == '-'
  }

  /** `endOfLineOffset`: how much an item's share of the joined text differs
      from the length of its own text. */
  function EndOfLineOffset(item: TextItem): int {
    if item.hasEOL then (if EndsWithHyphen(item.str) then -1 else 1) else 0
  }

  /** What an item contributes to the joined text before newlines become spaces:
      a line-ending item ending in `-` loses its last character (which is its last
      hyphen), any other line-ending item gains a "\n", any other item is copied. */
  function Piece(item: TextItem): (p: string)
    ensures |p| == |item.str| + EndOfLineOffset(item)
    ensures forall j :: 0 <= j < |p| && j < |item.str| ==> p[j] == item.str[j]
    ensures |p| > |item.str| ==> p[|item.str|] == '\n'
  {
    if item.hasEOL then
      if EndsWithHyphen(item.str) then item.str[..|item.str| - 1] else item.str + "\n"
    else item.str
  }

  /** The number of characters an item occupies in the joined text. */
  function Delta(item: TextItem): nat {
    |item.str| + EndOfLineOffset(item)
  }

  /** `strs.join("")`: the pieces of all items, in order. */
  function Joined(items: seq<TextItem>): string {
    if items == [] then "" else Joined(items[..|items| - 1]) + Piece(items[|items| - 1])
  }

  /** One step of `replace(/\n/g, " ")`. */
  function SpaceFor(c: char): char {
    if c == '\n' then ' ' else c
  }

  /** `replace(/\n/g, " ")`: every newline, including those inside item texts, becomes a space. */
  function NewlinesToSpaces(s: string): (r: string)
    ensures |r| == |s|
    ensures forall i :: 0 <= i < |s| ==> r[i] == SpaceFor(s[i])
    ensures forall i :: 0 <= i < |r| ==> r[i] != '\n'
  {
    if s == [] then "" else [SpaceFor(s[0])] + NewlinesToSpaces(s[1..])
  }

  /** The flat offset at which item `k` begins: the sum of the deltas of items `0..k-1`.
      This is the value the locator's `tindex` holds while its cursor is on item `k`. */
  function Pos(items: seq<TextItem>, k: nat): nat
    requires k <= |items|
  {
    if k == 0 then 0 else Pos(items, k - 1) + Delta(items[k - 1])
  }

  /** `textJoined`: the text the query is searched in. Its length is the sum of the
      per-item deltas, the same delta the locator adds to `tindex`. */
  function Flatten(items: seq<TextItem>): (t: string)
    ensures |t| == Pos(items, |items|)
  {
    JoinedPrefixLength(items, |items|);
    assert items[..|items|] == items;
    NewlinesToSpaces(Joined(items))
  }

  lemma {:induction false} JoinedPrefixLength(items: seq<TextItem>, k: nat)
    requires k <= |items|
    ensures |Joined(items[..k])| == Pos(items, k)
  {
    if k > 0 {
      JoinedPrefixLength(items, k - 1);
      assert items[..k][..k - 1] == items[..k - 1];
    }
  }

  /** The joined text ends where the last item's share ends. */
  lemma JoinedLength(items: seq<TextItem>)
    ensures |Joined(items)| == Pos(items, |items|)
  {
    JoinedPrefixLength(items, |items|);
    assert items[..|items|] == items;
  }

  /** Item `k` begins at the same offset in every prefix that contains it. */
  lemma {:induction false} PosPrefix(items: seq<TextItem>, n: nat, k: nat)
    requires k <= n <= |items|
    ensures Pos(items[..n], k) == Pos(items, k)
  {
    if k > 0 {
      PosPrefix(items, n, k - 1);
    }
  }

  /** The offsets never decrease as the cursor moves right. */
  lemma {:induction false} PosMonotone(items: seq<TextItem>, j: nat, k: nat)
    requires j <= k <= |items|
    ensures Pos(items, j) <= Pos(items, k)
  {
    if j < k {
      PosMonotone(items, j, k - 1);
    }
  }

  /** Character `j` of item `k`'s share of the joined text sits at flat offset
      `Pos(items, k) + j`: inside the item's own text it is that character (a newline
      shown as a space), and just past a line-ending item without a hyphen it is the
      separating space. */
  lemma FlattenAt(items: seq<TextItem>, k: nat, j: nat)
    requires k < |items|
    requires j < Delta(items[k])
    ensures Pos(items, k) + j < |Flatten(items)|
    ensures Flatten(items)[Pos(items, k) + j] ==
              (if j < |items[k].str| then SpaceFor(items[k].str[j]) else ' ')
  {
    JoinedAt(items, k, j);
    assert Flatten(items) == NewlinesToSpaces(Joined(items));
  }

  /** A slice of the flat text is the same slice of the joined text with its
      newlines shown as spaces. */
  lemma FlattenSlice(items: seq<TextItem>, a: nat, b: nat)
    requires a <= b <= |Joined(items)|
    ensures b <= |Flatten(items)|
    ensures NewlinesToSpaces(Joined(items)[a..b]) == Flatten(items)[a..b]
  {
    assert Flatten(items) == NewlinesToSpaces(Joined(items));
  }

  /** The same, before newlines become spaces: the joined text holds item `k`'s piece
      from offset `Pos(items, k)` on. */
  lemma {:induction false} JoinedAt(items: seq<TextItem>, k: nat, j: nat)
    requires k < |items|
    requires j < Delta(items[k])
    ensures Pos(items, k) + j < |Joined(items)|
    ensures Joined(items)[Pos(items, k) + j] == Piece(items[k])[j]
    decreases |items|
  {
    var n := |items| - 1;
    var init := items[..n];
    assert Joined(items) == Joined(init) + Piece(items[n]);
    JoinedPrefixLength(items, n);
    if k < n {
      JoinedAt(init, k, j);
      PosPrefix(items, n, k);
      PosMonotone(items, k + 1, n);
    }
  }

  /** The pieces of items `lo` to `hi - 1`, in order. */
  function Pieces(items: seq<TextItem>, lo: nat, hi: nat): string
    requires lo <= hi <= |items|
    decreases hi - lo
  {
    if lo == hi then "" else Piece(items[lo]) + Pieces(items, lo + 1, hi)
  }

  /** Between where item `lo` begins and where item `hi` begins, the joined text
      holds the pieces of the items in between. */
  lemma {:induction false} JoinedRange(items: seq<TextItem>, lo: nat, hi: nat)
    requires lo <= hi <= |items|
    ensures Pos(items, lo) <= Pos(items, hi) <= |Joined(items)|
    ensures Joined(items)[Pos(items, lo)..Pos(items, hi)] == Pieces(items, lo, hi)
    decreases hi - lo
  {
    PosMonotone(items, lo, hi);
    PosMonotone(items, hi, |items|);
    JoinedLength(items);
    if lo < hi {
      JoinedRange(items, lo + 1, hi);
      JoinedSlice(items, lo, 0, Delta(items[lo]));
      assert Piece(items[lo])[0..Delta(items[lo])] == Piece(items[lo]);
      Glue(Joined(items), Pos(items, lo), Pos(items, lo + 1), Pos(items, hi),
           Piece(items[lo]), Pieces(items, lo + 1, hi));
    }
  }

  /** The joined text holds `len` characters of item `i`'s piece from offset `c0`
      on, starting `c0` past where the item begins. */
  lemma {:induction false} JoinedSlice(items: seq<TextItem>, i: nat, c0: nat, len: nat)
    requires i < |items| && c0 + len <= Delta(items[i])
    ensures Pos(items, i) + c0 + len <= |Joined(items)|
    ensures Joined(items)[Pos(items, i) + c0 .. Pos(items, i) + c0 + len] == Piece(items[i])[c0 .. c0 + len]
  {
    var joined, piece, x := Joined(items), Piece(items[i]), Pos(items, i) + c0;
    if len == 0 {
      PosMonotone(items, i + 1, |items|);
      JoinedLength(items);
    } else {
      JoinedSlice(items, i, c0, len - 1);
      JoinedAt(items, i, c0 + len - 1);
      SliceSnoc(joined, piece, x, c0, len);
    }
  }

  /** Two equal slices stay equal when each takes in one more, equal, character. */
  lemma SliceSnoc(t: string, u: string, x: nat, y: nat, len: nat)
    requires 0 < len && x + len <= |t| && y + len <= |u|
    requires t[x..x + len - 1] == u[y..y + len - 1] && t[x + len - 1] == u[y + len - 1]
    ensures t[x..x + len] == u[y..y + len]
  {
    assert t[x..x + len] == t[x..x + len - 1] + [t[x + len - 1]];
    assert u[y..y + len] == u[y..y + len - 1] + [u[y + len - 1]];
  }

  /** Two adjacent slices of `t` make up the slice that spans both. */
  lemma Glue(t: string, from: nat, mid: nat, to: nat, x: string, y: string)
    requires from <= mid <= to <= |t|
    requires t[from..mid] == x && t[mid..to] == y
    ensures t[from..to] == x + y
  {
    assert t[from..to] == t[from..mid] + t[mid..to];
  }

  /** The first loop of `searchQuery` and the join: pushes each item's pieces onto
      `strs`, joins them and turns newlines into spaces. */
  method FlattenItems(items: seq<TextItem>) returns (textJoined: string)
    ensures textJoined == Flatten(items)
    ensures |textJoined| == Pos(items, |items|)
  {
    var strs: seq<string> := [];
    var i := 0;
    while i < |items|
      invariant 0 <= i <= |items|
      invariant Concat(strs) == Joined(items[..i])
    {
      strs := PushItem(strs, items[i]);
      JoinedPush(items, i);
      i := i + 1;
    }
    assert items[..i] == items;
    textJoined := NewlinesToSpaces(Concat(strs));
  }

  /** The body of that loop: pushes the strings one item contributes. */
  method PushItem(strs: seq<string>, textItem: TextItem) returns (pushed: seq<string>)
    ensures Concat(pushed) == Concat(strs) + Piece(textItem)
  {
    if textItem.hasEOL {
      if EndsWithHyphen(textItem.str) {
        // the text ends in '-', so its last hyphen is its last character
        var lastHyphen := |textItem.str| - 1;
        pushed := strs + [textItem.str[..lastHyphen]];
        ConcatPush(strs, textItem.str[..lastHyphen]);
      } else {
        pushed := strs + [textItem.str] + ["\n"];
        ConcatPush(strs, textItem.str);
        ConcatPush(strs + [textItem.str], "\n");
      }
    } else {
      pushed := strs + [textItem.str];
      ConcatPush(strs, textItem.str);
    }
  }

  lemma ConcatPush(strs: seq<string>, x: string)
    ensures Concat(strs + [x]) == Concat(strs) + x
  {
    assert (strs + [x])[..|strs|] == strs;
  }

  lemma JoinedPush(items: seq<TextItem>, i: nat)
    requires i < |items|
    ensures Joined(items[..i + 1]) == Joined(items[..i]) + Piece(items[i])
  {
    assert items[..i + 1][..i] == items[..i];
  }

  /** `Array.prototype.join("")`. */
  function Concat(strs: seq<string>): string {
    if strs == [] then "" else Concat(strs[..|strs| - 1]) + strs[|strs| - 1]
  }
}
