/** `normalizedQueries.sort((a, b) => b.keyword.length - a.keyword.length)`:
    a stable sort of the queries by keyword length, longest first
    (highlight.ts:588-589). */
module Sorting {
  import opened Types

  /** `keyword.length`. */
  function Len(q: Query): nat {
    |q.keyword|
  }

  /** Longest keywords first. */
  predicate LongestFirst(s: seq<Query>) {
    forall i, j :: 0 <= i < j < |s| ==> Len(s[i]) >= Len(s[j])
  }

  /** Puts `x` right after the last element whose keyword is at least as long,
      counting from the end: the place the comparator and a stable sort give it
      when `s` is already sorted and `x` comes after all of `s` in the input. */
  function Insert(x: Query, s: seq<Query>): (r: seq<Query>)
    ensures |r| == |s| + 1
    decreases |s|
  {
    if s == [] || Len(s[|s| - 1]) >= Len(x) then s + [x]
    else Insert(x, s[..|s| - 1]) + [s[|s| - 1]]
  }

  /** The order the stable sort produces. */
  function SortedByLength(s: seq<Query>): (r: seq<Query>)
    ensures |r| == |s|
  {
    if s == [] then [] else Insert(s[|s| - 1], SortedByLength(s[..|s| - 1]))
  }

  /** The elements of `s` whose keyword has length `n`, in their order in `s`. */
  function WithLength(s: seq<Query>, n: nat): seq<Query> {
    if s == [] then []
    else WithLength(s[..|s| - 1], n) + (if Len(s[|s| - 1]) == n then [s[|s| - 1]] else [])
  }

  lemma {:induction false} InsertLongestFirst(x: Query, s: seq<Query>)
    requires LongestFirst(s)
    ensures LongestFirst(Insert(x, s))
    decreases |s|
  {
    if s == [] || Len(s[|s| - 1]) >= Len(x) {
    } else {
      var init, last := s[..|s| - 1], s[|s| - 1];
      InsertLongestFirst(x, init);
      InsertBounds(x, init, Len(last));
      var r := Insert(x, init) + [last];
      assert forall i :: 0 <= i < |r| - 1 ==> Len(r[i]) >= Len(last);
    }
  }

  /** Every element of `Insert(x, s)` has a keyword at least `n` long when every
      element of `s` and `x` do. */
  lemma {:induction false} InsertBounds(x: Query, s: seq<Query>, n: nat)
    requires Len(x) >= n && forall i :: 0 <= i < |s| ==> Len(s[i]) >= n
    ensures forall i :: 0 <= i < |s| + 1 ==> Len(Insert(x, s)[i]) >= n
    decreases |s|
  {
    if s != [] && Len(s[|s| - 1]) < Len(x) {
      InsertBounds(x, s[..|s| - 1], n);
    }
  }

  lemma {:induction false} InsertMultiset(x: Query, s: seq<Query>)
    ensures multiset(Insert(x, s)) == multiset(s) + multiset{x}
    decreases |s|
  {
    if s != [] && Len(s[|s| - 1]) < Len(x) {
      var init, last := s[..|s| - 1], s[|s| - 1];
      InsertMultiset(x, init);
      assert s == init + [last];
    }
  }

  lemma WithLengthAppend(s: seq<Query>, x: Query, n: nat)
    ensures WithLength(s + [x], n) == WithLength(s, n) + (if Len(x) == n then [x] else [])
  {
    assert (s + [x])[..|s|] == s;
  }

  /** Inserting `x` keeps the order among the other elements of each length, and
      puts `x` after every element of its own length. */
  lemma {:induction false} InsertWithLength(x: Query, s: seq<Query>, n: nat)
    ensures WithLength(Insert(x, s), n) == WithLength(s, n) + (if Len(x) == n then [x] else [])
    decreases |s|
  {
    if s == [] || Len(s[|s| - 1]) >= Len(x) {
      WithLengthAppend(s, x, n);
    } else {
      var init, last := s[..|s| - 1], s[|s| - 1];
      InsertWithLength(x, init, n);
      WithLengthAppend(Insert(x, init), last, n);
    }
  }

  /** The sort puts the longest keywords first. */
  lemma {:induction false} SortedIsLongestFirst(s: seq<Query>)
    ensures LongestFirst(SortedByLength(s))
  {
    if s != [] {
      SortedIsLongestFirst(s[..|s| - 1]);
      InsertLongestFirst(s[|s| - 1], SortedByLength(s[..|s| - 1]));
    }
  }

  /** The sort is a permutation. */
  lemma {:induction false} SortedIsPermutation(s: seq<Query>)
    ensures multiset(SortedByLength(s)) == multiset(s)
  {
    if s != [] {
      var init, last := s[..|s| - 1], s[|s| - 1];
      SortedIsPermutation(init);
      InsertMultiset(last, SortedByLength(init));
      assert s == init + [last];
    }
  }

  /** The sort is stable: queries with keywords of equal length keep their input order. */
  lemma {:induction false} SortedIsStable(s: seq<Query>, n: nat)
    ensures WithLength(SortedByLength(s), n) == WithLength(s, n)
  {
    if s != [] {
      var init, last := s[..|s| - 1], s[|s| - 1];
      SortedIsStable(init, n);
      InsertWithLength(last, SortedByLength(init), n);
    }
  }

  /** `Insert` puts `x` at `j` when the elements from `j` on have shorter keywords
      and the one before `j` (if any) does not. */
  lemma {:induction false} InsertSplice(x: Query, s: seq<Query>, j: nat)
    requires j <= |s|
    requires forall k :: j <= k < |s| ==> Len(s[k]) < Len(x)
    requires j == 0 || Len(s[j - 1]) >= Len(x)
    ensures Insert(x, s) == s[..j] + [x] + s[j..]
    decreases |s|
  {
    if j == |s| {
      assert s[..j] == s && s[j..] == [];
    } else {
      var init, last := s[..|s| - 1], s[|s| - 1];
      InsertSplice(x, init, j);
      assert init[..j] == s[..j] && init[j..] + [last] == s[j..];
    }
  }

  /** One pass of the insertion sort: `a[..i]` is sorted; moves `a[i]` left past
      the queries with shorter keywords. */
  method InsertAt(a: array<Query>, i: nat)
    requires i < a.Length
    modifies a
    ensures a[..i + 1] == Insert(old(a[i]), old(a[..i]))
    ensures a[i + 1..] == old(a[i + 1..])
  {
    var x := a[i];
    ghost var sorted := a[..i];
    var j := i;
    while j > 0 && Len(a[j - 1]) < Len(x)
      invariant 0 <= j <= i
      invariant forall k :: 0 <= k < j ==> a[k] == old(a[k])
      invariant forall k :: j < k <= i ==> a[k] == old(a[k - 1])
      invariant forall k :: i < k < a.Length ==> a[k] == old(a[k])
      invariant forall k :: j <= k < i ==> Len(old(a[k])) < Len(x)
    {
      a[j] := a[j - 1];
      j := j - 1;
    }
    a[j] := x;
    InsertSplice(x, sorted, j);
    Spliced(a[..i + 1], sorted, x, j);
    assert a[i + 1..] == old(a[i + 1..]);
  }

  /** A sequence that agrees with `s` before `j`, holds `x` at `j` and agrees with
      `s` shifted one place after `j` is `s` with `x` spliced in at `j`. */
  lemma Spliced(b: seq<Query>, s: seq<Query>, x: Query, j: nat)
    requires j <= |s| && |b| == |s| + 1
    requires forall k :: 0 <= k < j ==> b[k] == s[k]
    requires b[j] == x
    requires forall k :: j < k < |b| ==> b[k] == s[k - 1]
    ensures b == s[..j] + [x] + s[j..]
  {
    assert b[..j] == s[..j];
    assert b[j + 1..] == s[j..];
    assert b == b[..j] + [b[j]] + b[j + 1..];
  }

  lemma SortStep(s: seq<Query>, i: nat)
    requires i < |s|
    ensures SortedByLength(s[..i + 1]) == Insert(s[i], SortedByLength(s[..i]))
  {
    assert s[..i + 1][..i] == s[..i];
  }

  /** The in-place sort of the queries array: an insertion sort that moves each
      query left past the queries with shorter keywords. */
  method SortByLength(a: array<Query>)
    modifies a
    ensures a[..] == SortedByLength(old(a[..]))
  {
    ghost var s0 := a[..];
    var i := 0;
    while i < a.Length
      invariant 0 <= i <= a.Length
      invariant a[..i] == SortedByLength(s0[..i])
      invariant a[i..] == s0[i..]
    {
      InsertAt(a, i);
      SortStep(s0, i);
      assert a[i + 1..] == s0[i + 1..];
      i := i + 1;
    }
    assert a[..] == a[..a.Length];
    assert s0 == s0[..a.Length];
  }

  /** Every query of the sorted array was in the input. */
  lemma SortedMember(s: seq<Query>, i: nat)
    requires i < |s|
    ensures SortedByLength(s)[i] in s
  {
    SortedIsPermutation(s);
    assert SortedByLength(s)[i] in multiset(SortedByLength(s));
  }

  /** Every input query is somewhere in the sorted array. */
  lemma SortedIndexOf(s: seq<Query>, q: Query) returns (i: nat)
    requires q in s
    ensures i < |s| && SortedByLength(s)[i] == q
  {
    SortedIsPermutation(s);
    assert q in multiset(SortedByLength(s));
    i :| 0 <= i < |s| && SortedByLength(s)[i] == q;
  }
}
