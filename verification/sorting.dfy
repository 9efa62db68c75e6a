/**
 * Ascending integer sort, as `ArrayList<Integer>.sort((a, b) -> Integer.compare(a, b))`
 * leaves a list. The sorted order of a multiset of integers is unique, so a
 * functional insertion sort is an exact reference for the library sort.
 */
module Sorting {

  predicate Ascending(s: seq<int>)
  {
    forall k, l :: 0 <= k < l < |s| ==> s[k] <= s[l]
  }

  /** Inserts x in front of the first element not smaller than it. */
  function Insert(x: int, s: seq<int>): (r: seq<int>)
    ensures multiset(r) == multiset(s) + multiset{x}
    ensures |r| == |s| + 1
    ensures r[0] == x || (s != [] && r[0] == s[0])
  {
    if s == [] || x <= s[0] then
      [x] + s
    else
      assert s == [s[0]] + s[1..];
      [s[0]] + Insert(x, s[1..])
  }

  lemma {:induction false} InsertKeepsAscending(x: int, s: seq<int>)
    requires Ascending(s)
    ensures Ascending(Insert(x, s))
  {
    if s != [] && x > s[0] {
      var rest := Insert(x, s[1..]);
      InsertKeepsAscending(x, s[1..]);
      assert Insert(x, s) == [s[0]] + rest;
      assert s[0] <= rest[0];
    }
  }

  /** The list sorted into ascending order. */
  function SortAsc(s: seq<int>): (r: seq<int>)
    ensures Ascending(r)
    ensures multiset(r) == multiset(s)
    ensures |r| == |s|
  {
    if s == [] then
      []
    else
      assert s == [s[0]] + s[1..];
      InsertKeepsAscending(s[0], SortAsc(s[1..]));
      Insert(s[0], SortAsc(s[1..]))
  }

  /** How many elements of s are strictly smaller than v. */
  function CountLess(s: seq<int>, v: int): nat
  {
    if s == [] then 0 else (if s[0] < v then 1 else 0) + CountLess(s[1..], v)
  }

  /** How many elements of s are strictly greater than v. */
  function CountGreater(s: seq<int>, v: int): nat
  {
    if s == [] then 0 else (if s[0] > v then 1 else 0) + CountGreater(s[1..], v)
  }

  lemma {:induction false} CountsOfConcat(s: seq<int>, t: seq<int>, v: int)
    ensures CountLess(s + t, v) == CountLess(s, v) + CountLess(t, v)
    ensures CountGreater(s + t, v) == CountGreater(s, v) + CountGreater(t, v)
  {
    if s == [] {
      assert s + t == t;
    } else {
      assert (s + t)[0] == s[0];
      assert (s + t)[1..] == s[1..] + t;
      CountsOfConcat(s[1..], t, v);
    }
  }

  lemma {:induction false} InsertCounts(x: int, s: seq<int>, v: int)
    ensures CountLess(Insert(x, s), v) == (if x < v then 1 else 0) + CountLess(s, v)
    ensures CountGreater(Insert(x, s), v) == (if x > v then 1 else 0) + CountGreater(s, v)
  {
    if s != [] && x > s[0] {
      InsertCounts(x, s[1..], v);
    }
  }

  /** Sorting keeps how many elements lie below and above any value. */
  lemma {:induction false} SortKeepsCounts(s: seq<int>, v: int)
    ensures CountLess(SortAsc(s), v) == CountLess(s, v)
    ensures CountGreater(SortAsc(s), v) == CountGreater(s, v)
  {
    if s != [] {
      SortKeepsCounts(s[1..], v);
      InsertCounts(s[0], SortAsc(s[1..]), v);
    }
  }

  /** In an ascending list, fewer than k elements lie below the k-th, and fewer than |s| - k above it. */
  lemma {:induction false} AscendingCounts(s: seq<int>, k: nat)
    requires Ascending(s) && k < |s|
    ensures CountLess(s, s[k]) <= k
    ensures CountGreater(s, s[k]) <= |s| - 1 - k
  {
    assert s == s[..k] + [s[k]] + s[k + 1..];
    CountsOfConcat(s[..k] + [s[k]], s[k + 1..], s[k]);
    CountsOfConcat(s[..k], [s[k]], s[k]);
    CountLessBelowLength(s[..k], s[k]);
    CountGreaterBelowLength(s[k + 1..], s[k]);
    NoneBelow(s[k + 1..], s[k]);
    NoneAbove(s[..k], s[k]);
  }

  lemma {:induction false} CountLessBelowLength(s: seq<int>, v: int)
    ensures CountLess(s, v) <= |s|
  {
    if s != [] {
      CountLessBelowLength(s[1..], v);
    }
  }

  lemma {:induction false} CountGreaterBelowLength(s: seq<int>, v: int)
    ensures CountGreater(s, v) <= |s|
  {
    if s != [] {
      CountGreaterBelowLength(s[1..], v);
    }
  }

  lemma {:induction false} NoneBelow(s: seq<int>, v: int)
    requires forall k :: 0 <= k < |s| ==> v <= s[k]
    ensures CountLess(s, v) == 0
  {
    if s != [] {
      NoneBelow(s[1..], v);
    }
  }

  lemma {:induction false} NoneAbove(s: seq<int>, v: int)
    requires forall k :: 0 <= k < |s| ==> s[k] <= v
    ensures CountGreater(s, v) == 0
  {
    if s != [] {
      NoneAbove(s[1..], v);
    }
  }
}
