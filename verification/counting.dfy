/** Counting arguments: distinct elements of a finite set, and the pigeonhole principle. */
module Counting {

  ghost predicate Distinct<T>(s: seq<T>) {
    forall i, j :: 0 <= i < j < |s| ==> s[i] != s[j]
  }

  lemma DistinctConcat<T>(a: seq<T>, b: seq<T>)
    requires Distinct(a) && Distinct(b) && forall i, j :: 0 <= i < |a| && 0 <= j < |b| ==> a[i] != b[j]
    ensures Distinct(a + b)
  {
  }

  lemma {:induction false} SubsetSize<T>(a: set<T>, b: set<T>)
    requires a <= b
    ensures |a| <= |b|
  {
    if a != {} {
      var x :| x in a;
      SubsetSize(a - {x}, b - {x});
    }
  }

  /** A duplicate-free list of members of a set is no longer than the set is large. */
  lemma {:induction false} DistinctBound<T>(s: seq<T>, members: set<T>)
    requires Distinct(s)
    requires forall x :: x in s ==> x in members
    ensures |s| <= |members|
  {
    if s != [] {
      var last := s[|s| - 1];
      var rest := s[..|s| - 1];
      assert last in s;
      forall x | x in rest ensures x in members - {last} {
        var i :| 0 <= i < |rest| && rest[i] == x;
        assert s[i] == x && s[i] != last;
      }
      DistinctBound(rest, members - {last});
    }
  }

  /** A list of members longer than the set repeats an element. */
  lemma Pigeonhole<T>(s: seq<T>, members: set<T>) returns (i: nat, j: nat)
    requires |s| > |members|
    requires forall x :: x in s ==> x in members
    ensures i < j < |s| && s[i] == s[j]
  {
    if Distinct(s) {
      DistinctBound(s, members);
      assert false;
    }
    i, j :| 0 <= i < j < |s| && s[i] == s[j];
  }

  ghost function Range(lo: nat, hi: nat): (r: set<nat>)
    ensures forall x :: x in r <==> lo <= x < hi
    decreases hi - lo
  {
    if lo < hi then Range(lo, hi - 1) + {hi - 1} else {}
  }

  lemma RangeParts(lo: nat, hi: nat)
    requires lo <= hi
    ensures if lo == hi then Range(lo, hi) == {}
            else Range(lo, hi) == Range(lo, hi - 1) + {hi - 1} && hi - 1 !in Range(lo, hi - 1)
  {
  }

  lemma {:induction false} RangeSize(lo: nat, hi: nat)
    requires lo <= hi
    ensures |Range(lo, hi)| == hi - lo
  {
    hide Range;
    RangeParts(lo, hi);
    if lo < hi {
      RangeSize(lo, hi - 1);
    }
  }
}
