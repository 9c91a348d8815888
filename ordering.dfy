/** Ordered sequences of offsets: Python's `sorted(set(xs))` and `sorted(xs)`
    on integers, with the facts the reconciliation proofs need about them. */
module Ordering {

  predicate StrictlyIncreasing(s: seq<int>) {
    forall i, j :: 0 <= i < j < |s| ==> s[i] < s[j]
  }

  predicate NonDecreasing(s: seq<int>) {
    forall i, j :: 0 <= i < j < |s| ==> s[i] <= s[j]
  }

  /** Adds `x` to a strictly increasing sequence unless it is already there. */
  function InsertDistinct(x: int, s: seq<int>): (r: seq<int>)
    requires StrictlyIncreasing(s)
    ensures StrictlyIncreasing(r)
    ensures forall e :: e in r <==> e in s || e == x
  {
    if s == [] || x < s[0] then [x] + s
    else if x == s[0] then s
    else
      var rest := InsertDistinct(x, s[1..]);
      assert forall k :: 0 <= k < |rest| ==> s[0] < rest[k] by {
        forall k | 0 <= k < |rest| ensures s[0] < rest[k] {
          assert rest[k] in rest;
        }
      }
      [s[0]] + rest
  }

  /** `sorted(set(s))`: the distinct elements of `s` in increasing order. */
  function SortedDistinct(s: seq<int>): (r: seq<int>)
    ensures StrictlyIncreasing(r)
    ensures forall e :: e in r <==> e in s
  {
    if s == [] then [] else InsertDistinct(s[0], SortedDistinct(s[1..]))
  }

  /** A strictly increasing sequence is determined by its elements. */
  lemma {:induction false} StrictlyIncreasingUnique(a: seq<int>, b: seq<int>)
    requires StrictlyIncreasing(a) && StrictlyIncreasing(b)
    requires forall e :: e in a <==> e in b
    ensures a == b
  {
    assert a == [] <==> b == [] by {
      if a != [] { assert a[0] in b; }
      if b != [] { assert b[0] in a; }
    }
    if a != [] {
      assert a[0] == b[0] by {
        assert a[0] in a && b[0] in b;
      }
      forall e ensures e in a[1..] <==> e in b[1..] {
        if e in a[1..] {
          assert e in b && e > b[0];
        }
        if e in b[1..] {
          assert e in a && e > a[0];
        }
      }
      StrictlyIncreasingUnique(a[1..], b[1..]);
      assert a == [a[0]] + a[1..] && b == [b[0]] + b[1..];
    }
  }

  /** Sorting and de-duplicating an already strictly increasing sequence
      changes nothing. */
  lemma SortedDistinctOfIncreasing(s: seq<int>)
    requires StrictlyIncreasing(s)
    ensures SortedDistinct(s) == s
  {
    StrictlyIncreasingUnique(SortedDistinct(s), s);
  }

  /** `sorted(set(s))` depends only on which values occur in `s`. */
  lemma SortedDistinctOfSameElements(s: seq<int>, t: seq<int>)
    requires forall e :: e in s <==> e in t
    ensures SortedDistinct(s) == SortedDistinct(t)
  {
    StrictlyIncreasingUnique(SortedDistinct(s), SortedDistinct(t));
  }

  /** Inserts `x` into a non-decreasing sequence, before the first larger
      element. */
  function Insert(x: int, s: seq<int>): (r: seq<int>)
    requires NonDecreasing(s)
    ensures NonDecreasing(r) && |r| == |s| + 1
    ensures forall k :: 0 <= k < |r| ==> r[k] == x || r[k] in s
  {
    if s == [] || x <= s[0] then [x] + s
    else
      var rest := Insert(x, s[1..]);
      assert s == [s[0]] + s[1..];
      HeadBelowTail(s);
      assert forall k :: 0 <= k < |rest| ==> s[0] <= rest[k];
      [s[0]] + rest
  }

  /** Insertion adds one copy of `x` and keeps everything else. */
  lemma {:induction false} InsertCount(x: int, s: seq<int>)
    requires NonDecreasing(s)
    ensures multiset(Insert(x, s)) == multiset(s) + multiset{x}
  {
    if s != [] && x > s[0] {
      InsertCount(x, s[1..]);
      assert s == [s[0]] + s[1..];
    }
  }

  lemma HeadBelowTail(s: seq<int>)
    requires NonDecreasing(s) && s != []
    ensures forall e :: e in s[1..] ==> s[0] <= e
  {
    forall e | e in s[1..] ensures s[0] <= e {
      var j :| 0 <= j < |s[1..]| && s[1..][j] == e;
      assert s[j + 1] == e;
    }
  }

  /** `sorted(s)`: the elements of `s`, with their multiplicities, in
      non-decreasing order. */
  function Sort(s: seq<int>): (r: seq<int>)
    ensures NonDecreasing(r)
    ensures multiset(r) == multiset(s)
  {
    if s == [] then []
    else
      assert s == [s[0]] + s[1..];
      InsertCount(s[0], Sort(s[1..]));
      Insert(s[0], Sort(s[1..]))
  }

  /** Sorting a sorted sequence changes nothing. */
  lemma {:induction false} SortOfSorted(s: seq<int>)
    requires NonDecreasing(s)
    ensures Sort(s) == s
  {
    if s != [] {
      SortOfSorted(s[1..]);
      assert Sort(s[1..]) == s[1..];
    }
  }
}
