/** Iterative quicksort with an explicit stack of intervals (src/ubin/sort.py `quick`). */
module QuickSort {
  import opened Arithmetic
  import opened Bytes
  import opened StableOrder

  /** An inclusive interval of positions that still has to be sorted. */
  datatype Interval = Interval(lo: int, hi: int) {
    predicate Has(k: int) { lo <= k <= hi }

    function Size(): nat { if lo <= hi then hi - lo + 1 else 0 }

    /** Work left: splitting an interval into two smaller ones always lowers it. */
    function Weight(): nat { if Size() == 0 then 0 else 2 * Size() - 1 }
  }

  function TotalWeight(stack: seq<Interval>): nat {
    if stack == [] then 0 else TotalWeight(stack[..|stack| - 1]) + stack[|stack| - 1].Weight()
  }

  lemma WeightOfPush(stack: seq<Interval>, top: Interval)
    ensures TotalWeight(stack + [top]) == TotalWeight(stack) + top.Weight()
  {
    assert (stack + [top])[..|stack|] == stack;
  }

  function KeyOrder<K>(lt: Less<K>, reverse: bool): Less<K> {
    (a, b) => if reverse then lt(b, a) else lt(a, b)
  }

  lemma KeyOrderIsStrictWeak<K(!new)>(lt: Less<K>, reverse: bool)
    requires StrictWeak(lt)
    ensures StrictWeak(KeyOrder(lt, reverse))
  {
  }

  /** Some pending interval holds both positions. */
  ghost predicate Pending(stack: seq<Interval>, p: int, q: int) {
    exists k :: 0 <= k < |stack| && stack[k].Has(p) && stack[k].Has(q)
  }

  /** Any two keys are in order unless one pending interval holds both. */
  ghost predicate OrderedOutside<K>(before: Less<K>, keys: seq<K>, stack: seq<Interval>) {
    forall p, q :: 0 <= p < q < |keys| ==> !before(keys[q], keys[p]) || Pending(stack, p, q)
  }

  ghost predicate Disjoint(a: Interval, b: Interval) {
    a.hi < b.lo || b.hi < a.lo
  }

  /**
   Pending intervals lie inside the list, do not overlap, and the one at depth k has at most
   n / 2^k positions.
   */
  ghost predicate WellStacked(stack: seq<Interval>, n: nat) {
    InPlace(stack, n) && Halving(stack, n)
  }

  ghost predicate InPlace(stack: seq<Interval>, n: nat) {
    && (forall k :: 0 <= k < |stack| ==> 0 <= stack[k].lo && stack[k].hi < n)
    && (forall k, m :: 0 <= k < m < |stack| ==> Disjoint(stack[k], stack[m]))
  }

  ghost predicate Halving(stack: seq<Interval>, n: nat) {
    forall k :: 0 <= k < |stack| ==> Shrunk(stack[k], k, n)
  }

  ghost predicate Shrunk(x: Interval, depth: nat, n: nat) {
    x.Size() * Pow2(depth) <= n
  }

  /** Only intervals of two or more positions are stacked. */
  ghost predicate AllPairs(stack: seq<Interval>) {
    forall k :: 0 <= k < |stack| ==> stack[k].lo < stack[k].hi
  }

  /** The stack is at most log2(n) deep. */
  lemma DepthBound(stack: seq<Interval>, n: nat)
    requires WellStacked(stack, n) && AllPairs(stack) && n >= 1
    ensures Pow2(|stack|) <= n
  {
    if stack != [] {
      var top := |stack| - 1;
      assert Shrunk(stack[top], top, n);
      ProductMonotone(2, stack[top].Size(), Pow2(top));
    }
  }

  lemma Halved(small: Interval, whole: Interval, depth: nat, n: nat)
    requires 2 * small.Size() <= whole.Size() && Shrunk(whole, depth, n)
    ensures Shrunk(small, depth + 1, n)
  {
    ProductMonotone(2 * small.Size(), whole.Size(), Pow2(depth));
    assert small.Size() * Pow2(depth + 1) == 2 * small.Size() * Pow2(depth);
  }

  lemma Shrinks(part: Interval, whole: Interval, depth: nat, n: nat)
    requires part.Size() <= whole.Size() && Shrunk(whole, depth, n)
    ensures Shrunk(part, depth, n)
  {
    ProductMonotone(part.Size(), whole.Size(), Pow2(depth));
  }

  /** Two parts of an interval, one to stack (if it is a pair or more) and one to go on with. */
  ghost predicate SplitsInto(whole: Interval, a: Interval, b: Interval) {
    && whole.lo <= a.lo && a.hi <= whole.hi && whole.lo <= b.lo && b.hi <= whole.hi
    && Disjoint(a, b) && a.Size() + b.Size() <= whole.Size()
    && a.Size() < whole.Size() && b.Size() < whole.Size()
  }

  function Pushed(stack: seq<Interval>, large: Interval): seq<Interval> {
    if large.lo < large.hi then stack + [large] else stack
  }

  lemma SplitKeepsPlaces(stack: seq<Interval>, whole: Interval, large: Interval, small: Interval, n: nat)
    requires InPlace(stack + [whole], n) && SplitsInto(whole, large, small)
    ensures InPlace(Pushed(stack, large) + [small], n)
  {
    var full, next := stack + [whole], Pushed(stack, large) + [small];
    assert full[|stack|] == whole;
    forall k | 0 <= k < |next| ensures 0 <= next[k].lo && next[k].hi < n {
      if k < |stack| {
        assert next[k] == full[k];
      }
    }
    forall k, m | 0 <= k < m < |next| ensures Disjoint(next[k], next[m]) {
      if k < |stack| {
        assert next[k] == full[k] && Disjoint(full[k], full[|stack|]);
        if m < |stack| {
          assert next[m] == full[m] && Disjoint(full[k], full[m]);
        }
      }
    }
  }

  lemma SplitKeepsHalving(stack: seq<Interval>, whole: Interval, large: Interval, small: Interval, n: nat)
    requires Halving(stack + [whole], n)
    requires SplitsInto(whole, large, small) && small.Size() <= large.Size()
    ensures Halving(Pushed(stack, large) + [small], n)
  {
    var full, next := stack + [whole], Pushed(stack, large) + [small];
    var d := |stack|;
    assert full[d] == whole && Shrunk(full[d], d, n);
    Shrinks(large, whole, d, n);
    Shrinks(small, whole, d, n);
    Halved(small, whole, d, n);
    forall k | 0 <= k < |next| ensures Shrunk(next[k], k, n) {
      if k < d {
        assert Shrunk(full[k], k, n) && next[k] == full[k];
      }
    }
  }

  lemma SplitLosesWeight(stack: seq<Interval>, whole: Interval, large: Interval, small: Interval)
    requires SplitsInto(whole, large, small)
    ensures TotalWeight(Pushed(stack, large) + [small]) < TotalWeight(stack + [whole])
  {
    WeightOfPush(stack, whole);
    WeightOfPush(stack, large);
    WeightOfPush(Pushed(stack, large), small);
  }

  /** Keys below the interval are not greater, keys above it not smaller, than keys inside it. */
  ghost predicate Separated<K>(before: Less<K>, keys: seq<K>, x: Interval) {
    forall p, q :: 0 <= p < q < |keys| && x.Has(p) != x.Has(q) ==> !before(keys[q], keys[p])
  }

  lemma TopIsSeparated<K>(before: Less<K>, keys: seq<K>, stack: seq<Interval>, x: Interval)
    requires WellStacked(stack + [x], |keys|) && OrderedOutside(before, keys, stack + [x])
    ensures Separated(before, keys, x) && 0 <= x.lo && x.hi < |keys|
  {
    var full := stack + [x];
    assert full[|stack|] == x;
    forall p, q | 0 <= p < q < |keys| && x.Has(p) != x.Has(q) ensures !before(keys[q], keys[p]) {
      forall k | 0 <= k < |full| ensures !(full[k].Has(p) && full[k].Has(q)) {
        assert full[|stack|] == x;
        assert k < |stack| ==> Disjoint(full[k], full[|stack|]);
      }
    }
  }

  /** What a partition step of x leaves: a part below, a part above, and pivots in between. */
  ghost predicate Partitioned<K>(before: Less<K>, keys: seq<K>, x: Interval, j: int, i: int) {
    forall p, q :: 0 <= p < q < |keys| && x.Has(p) && x.Has(q) && !(q <= j) && !(i <= p) ==> !before(keys[q], keys[p])
  }

  /** Partitioning the top interval leaves only the two parts unordered. */
  lemma SplitKeepsOrder<K>(before: Less<K>, was: seq<K>, keys: seq<K>, stack: seq<Interval>, x: Interval,
                           j: int, i: int, large: Interval, small: Interval)
    requires |was| == |keys| && OrderedOutside(before, was, stack + [x])
    requires forall k :: 0 <= k < |keys| && !x.Has(k) ==> keys[k] == was[k]
    requires Separated(before, keys, x) && Partitioned(before, keys, x, j, i)
    requires (large == Interval(x.lo, j) && small == Interval(i, x.hi))
             || (small == Interval(x.lo, j) && large == Interval(i, x.hi))
    ensures OrderedOutside(before, keys, Pushed(stack, large) + [small])
  {
    var full, next := stack + [x], Pushed(stack, large) + [small];
    forall p, q | 0 <= p < q < |keys| ensures !before(keys[q], keys[p]) || Pending(next, p, q) {
      if x.Has(p) && x.Has(q) {
        if q <= j || i <= p {
          if small.Has(p) && small.Has(q) {
            assert next[|next| - 1] == small;
          } else {
            assert large.Has(p) && large.Has(q) && next[|stack|] == large;
          }
        }
      } else if !x.Has(p) && !x.Has(q) && before(keys[q], keys[p]) {
        assert Pending(full, p, q);
        var k :| 0 <= k < |full| && full[k].Has(p) && full[k].Has(q);
        assert k < |stack| && next[k] == full[k];
      }
    }
  }

  /** An interval of at most one position hides nothing. */
  lemma DropSmall<K>(before: Less<K>, keys: seq<K>, stack: seq<Interval>, x: Interval)
    requires OrderedOutside(before, keys, stack + [x]) && x.lo >= x.hi
    ensures OrderedOutside(before, keys, stack)
  {
    var full := stack + [x];
    forall p, q | 0 <= p < q < |keys| ensures !before(keys[q], keys[p]) || Pending(stack, p, q) {
      if Pending(full, p, q) {
        var k :| 0 <= k < |full| && full[k].Has(p) && full[k].Has(q);
        assert k < |stack| && stack[k] == full[k];
      }
    }
  }

  // The algorithm

  method Swap<T, K>(data: array<T>, keys: array<K>, ghost key: T -> K, i: nat, j: nat)
    requires data.Length == keys.Length && (data as object) != (keys as object)
    requires i < data.Length && j < data.Length
    requires Keyed(key, data[..], keys[..])
    modifies data, keys
    ensures Keyed(key, data[..], keys[..])
    ensures multiset(data[..]) == multiset(old(data[..]))
    ensures keys[..] == old(keys[..])[i := old(keys[j])][j := old(keys[i])]
  {
    data[i], data[j] := data[j], data[i];
    keys[i], keys[j] := keys[j], keys[i];
  }

  lemma SwapKeepsSeparated<K>(before: Less<K>, keys: seq<K>, x: Interval, i: nat, j: nat)
    requires Separated(before, keys, x) && i < |keys| && j < |keys| && x.Has(i) && x.Has(j)
    ensures Separated(before, keys[i := keys[j]][j := keys[i]], x)
  {
  }

  /** Skips keys that come before the pivot. */
  method ScanUp<K(!new)>(keys: array<K>, before: Less<K>, pivot: K, from: nat, hi: nat) returns (i: nat)
    requires from <= hi + 1 && hi < keys.Length && StrictWeak(before)
    ensures from <= i <= hi + 1
    ensures forall k :: from <= k < i ==> before(keys[k], pivot) && !before(pivot, keys[k])
    ensures i <= hi ==> !before(keys[i], pivot)
  {
    i := from;
    while i <= hi && before(keys[i], pivot)
      invariant from <= i <= hi + 1
      invariant forall k :: from <= k < i ==> before(keys[k], pivot) && !before(pivot, keys[k])
    {
      i := i + 1;
    }
  }

  /** Skips keys, downwards, that come after the pivot. */
  method ScanDown<K(!new)>(keys: array<K>, before: Less<K>, pivot: K, from: int, lo: nat) returns (j: int)
    requires lo <= from + 1 && from < keys.Length && StrictWeak(before)
    ensures lo <= j + 1 && j <= from
    ensures forall k :: j < k <= from ==> before(pivot, keys[k]) && !before(keys[k], pivot)
    ensures lo <= j ==> !before(pivot, keys[j])
  {
    j := from;
    while j >= lo && before(pivot, keys[j])
      invariant lo <= j + 1 && j <= from
      invariant forall k :: j < k <= from ==> before(pivot, keys[k]) && !before(keys[k], pivot)
    {
      j := j - 1;
    }
  }

  /** What the partition loop has found out so far. */
  ghost predicate Scanned<K>(before: Less<K>, keys: seq<K>, pivot: K, x: Interval, j: int, i: int) {
    && 0 <= x.lo <= i <= x.hi + 1 <= |keys| && x.lo <= j + 1 && j <= x.hi
    && (forall k :: x.lo <= k < i ==> !before(pivot, keys[k]))
    && (forall k :: j < k <= x.hi ==> !before(keys[k], pivot))
  }

  lemma SwapKeepsScanned<K>(before: Less<K>, keys: seq<K>, pivot: K, x: Interval, j: int, i: int)
    requires Scanned(before, keys, pivot, x, j, i) && i <= j
    requires !before(keys[i], pivot) && !before(pivot, keys[j])
    ensures Scanned(before, keys[i := keys[j]][j := keys[i]], pivot, x, j - 1, i + 1)
  {
  }

  lemma ScannedIsPartitioned<K(!new)>(before: Less<K>, keys: seq<K>, pivot: K, x: Interval, j: int, i: int)
    requires StrictWeak(before) && Scanned(before, keys, pivot, x, j, i) && j < i
    ensures Partitioned(before, keys, x, j, i)
  {
    forall p, q | 0 <= p < q < |keys| && x.Has(p) && x.Has(q) && !(q <= j) && !(i <= p)
      ensures !before(keys[q], keys[p])
    {
      assert !before(pivot, keys[p]) && !before(keys[q], pivot);
    }
  }

  /** The Hoare partition loop on lo..hi. */
  method Partition<T, K(!new)>(data: array<T>, keys: array<K>, ghost key: T -> K, before: Less<K>, lo: nat, hi: nat)
    returns (j: int, i: int)
    requires data.Length == keys.Length && (data as object) != (keys as object)
    requires lo < hi < data.Length && StrictWeak(before)
    requires Keyed(key, data[..], keys[..]) && Separated(before, keys[..], Interval(lo, hi))
    modifies data, keys
    ensures lo <= j + 1 && j < i <= hi + 1 && j < hi && lo < i
    ensures Keyed(key, data[..], keys[..]) && multiset(data[..]) == multiset(old(data[..]))
    ensures forall k :: 0 <= k < keys.Length && !Interval(lo, hi).Has(k) ==> keys[..][k] == old(keys[..])[k]
    ensures Separated(before, keys[..], Interval(lo, hi))
    ensures Partitioned(before, keys[..], Interval(lo, hi), j, i)
  {
    hide Separated, Partitioned, StrictWeak, Keyed;
    i, j := lo, hi;
    var middle := lo + (hi - lo) / 2;
    var pivot := keys[middle];
    ghost var x, was := Interval(lo, hi), keys[..];
    while i <= j
      invariant if i == lo then j == hi && keys[middle] == pivot else j < hi
      invariant Scanned(before, keys[..], pivot, x, j, i)
      invariant Keyed(key, data[..], keys[..]) && multiset(data[..]) == multiset(old(data[..]))
      invariant forall k :: 0 <= k < keys.Length && !x.Has(k) ==> keys[..][k] == was[k]
      invariant Separated(before, keys[..], x)
      decreases j - i + 1
    {
      i := ScanUp(keys, before, pivot, i, hi);
      j := ScanDown(keys, before, pivot, j, lo);
      assert Scanned(before, keys[..], pivot, x, j, i);
      if i <= j {
        SwapKeepsScanned(before, keys[..], pivot, x, j, i);
        SwapKeepsSeparated(before, keys[..], x, i, j);
        Swap(data, keys, key, i, j);
        i, j := i + 1, j - 1;
      }
    }
    ScannedIsPartitioned(before, keys[..], pivot, x, j, i);
  }

  /** Everything that holds between steps: what is left to sort is what is on the stack. */
  ghost predicate Progress<T, K>(key: T -> K, before: Less<K>, items: seq<T>, data: seq<T>, keys: seq<K>,
                                 stack: seq<Interval>)
  {
    && Keyed(key, data, keys) && multiset(data) == multiset(items) && |data| == |items|
    && WellStacked(stack, |items|) && OrderedOutside(before, keys, stack)
  }

  /** One interval pushed or popped. */
  ghost predicate OneMove(a: seq<Interval>, b: seq<Interval>) {
    (a != [] && b == a[..|a| - 1]) || (b != [] && a == b[..|b| - 1])
  }

  /**
   The stack as it was after each push and each pop: it starts with the whole array, changes one
   interval at a time, is `stack` now, and never held more than log2(n) intervals.
   */
  ghost predicate Logged(log: seq<seq<Interval>>, stack: seq<Interval>, n: nat) {
    && log != [] && log[0] == [Interval(0, n - 1)] && log[|log| - 1] == stack
    && (forall k :: 0 < k < |log| ==> OneMove(log[k - 1], log[k]))
    && (forall s :: s in log ==> Pow2(|s|) <= n)
  }

  lemma LogMove(log: seq<seq<Interval>>, stack: seq<Interval>, next: seq<Interval>, n: nat)
    requires Logged(log, stack, n) && OneMove(stack, next) && Pow2(|next|) <= n
    ensures Logged(log + [next], next, n)
  {
    hide OneMove;
  }

  lemma LogPop(log: seq<seq<Interval>>, stack: seq<Interval>, n: nat)
    requires Logged(log, stack, n) && stack != []
    ensures Logged(log + [stack[..|stack| - 1]], stack[..|stack| - 1], n)
  {
    Pow2Monotone(|stack| - 1, |stack|);
    LogMove(log, stack, stack[..|stack| - 1], n);
  }

  lemma LogPush(log: seq<seq<Interval>>, stack: seq<Interval>, x: Interval, n: nat)
    requires Logged(log, stack, n) && Pow2(|stack| + 1) <= n
    ensures Logged(log + [stack + [x]], stack + [x], n)
  {
    assert (stack + [x])[..|stack|] == stack;
    LogMove(log, stack, stack + [x], n);
  }

  /** Sorts one interval down to nothing, stacking the larger part of every split. */
  method SortTop<T, K(!new)>(data: array<T>, keys: array<K>, ghost key: T -> K, before: Less<K>, ghost items: seq<T>,
                             stack: seq<Interval>, top: Interval, ghost logged: seq<seq<Interval>>)
    returns (rest: seq<Interval>, ghost log: seq<seq<Interval>>)
    requires data.Length == keys.Length && (data as object) != (keys as object)
    requires StrictWeak(before) && AllPairs(stack) && top.lo < top.hi
    requires Progress(key, before, items, data[..], keys[..], stack + [top])
    requires Logged(logged, stack, |items|)
    modifies data, keys
    ensures Progress(key, before, items, data[..], keys[..], rest) && AllPairs(rest)
    ensures TotalWeight(rest) < TotalWeight(stack + [top])
    ensures Logged(log, rest, |items|) && logged <= log
  {
    hide Separated, Partitioned, StrictWeak, Keyed, OrderedOutside, InPlace, Halving, TotalWeight, Pow2, Logged;
    var lo, hi := top.lo, top.hi;
    rest, log := stack, logged;
    while lo < hi
      invariant Progress(key, before, items, data[..], keys[..], rest + [Interval(lo, hi)]) && AllPairs(rest)
      invariant Logged(log, rest, |items|) && logged <= log
      invariant if lo < hi then TotalWeight(rest + [Interval(lo, hi)]) <= TotalWeight(stack + [top])
                else TotalWeight(rest + [Interval(lo, hi)]) < TotalWeight(stack + [top])
      decreases TotalWeight(rest + [Interval(lo, hi)])
    {
      ghost var x, was, pending := Interval(lo, hi), keys[..], rest;
      assert (rest + [x])[|rest|] == x;
      TopIsSeparated(before, was, rest, x);
      var j, i := Partition(data, keys, key, before, lo, hi);
      var leftSize, rightSize := j - lo, hi - i;
      ghost var left, right := Interval(lo, j), Interval(i, hi);
      ghost var large := if leftSize < rightSize then right else left;
      ghost var small := if leftSize < rightSize then left else right;
      SplitKeepsPlaces(rest, x, large, small, |items|);
      SplitKeepsHalving(rest, x, large, small, |items|);
      SplitLosesWeight(rest, x, large, small);
      SplitKeepsOrder(before, was, keys[..], rest, x, j, i, large, small);
      if leftSize < rightSize {
        if i < hi {
          rest := rest + [Interval(i, hi)];
        }
        hi := j;
      } else {
        if lo < j {
          rest := rest + [Interval(lo, j)];
        }
        lo := i;
      }
      StackPart(rest, Interval(lo, hi), |items|);
      DepthBound(rest, |items|);
      if large.lo < large.hi {
        LogPush(log, pending, large, |items|);
        log := log + [rest];
      }
    }
    DropSmall(before, keys[..], rest, Interval(lo, hi));
    StackPart(rest, Interval(lo, hi), |items|);
    WeightOfPush(rest, Interval(lo, hi));
  }

  /**
   The result is ascending by key, or descending if reversed, for every strict weak order on the
   keys, and a permutation; the stack never held more than log2(n) intervals.
   */
  method Quick<T(!new), K(!new)>(items: seq<T>, key: T -> K, lt: Less<K>, reverse: bool)
    returns (r: seq<T>, ghost log: seq<seq<Interval>>)
    requires StrictWeak(lt)
    ensures forall i, j :: 0 <= i < j < |r| ==>
              if reverse then !lt(key(r[i]), key(r[j])) else !lt(key(r[j]), key(r[i]))
    ensures multiset(r) == multiset(items)
    ensures |items| >= 2 ==> Logged(log, [], |items|)
  {
    hide StrictWeak, OrderedOutside, WellStacked, TotalWeight;
    if |items| < 2 {
      return items, [];
    }
    var n := |items|;
    var data := new T[n](i requires 0 <= i < n => items[i]);
    var keys := new K[n](i requires 0 <= i < n => key(items[i]));
    var before := KeyOrder(lt, reverse);
    KeyOrderIsStrictWeak(lt, reverse);
    var stack := [Interval(0, n - 1)];
    assert data[..] == items;
    AllPending(before, keys[..]);
    log := [stack];
    while stack != []
      invariant Progress(key, before, items, data[..], keys[..], stack) && AllPairs(stack)
      invariant Logged(log, stack, n)
      decreases TotalWeight(stack)
    {
      var top := stack[|stack| - 1];
      assert stack == stack[..|stack| - 1] + [top];
      LogPop(log, stack, n);
      stack, log := SortTop(data, keys, key, before, items, stack[..|stack| - 1], top, log + [stack[..|stack| - 1]]);
    }
    SortedByKeys(key, lt, reverse, data[..], keys[..]);
    return data[..], log;
  }

  /** At first everything is pending. */
  lemma AllPending<K>(before: Less<K>, keys: seq<K>)
    requires |keys| >= 2
    ensures var stack := [Interval(0, |keys| - 1)];
            OrderedOutside(before, keys, stack) && WellStacked(stack, |keys|) && AllPairs(stack)
  {
    var stack := [Interval(0, |keys| - 1)];
    assert Shrunk(stack[0], 0, |keys|);
    forall p, q | 0 <= p < q < |keys| ensures Pending(stack, p, q) {
      assert stack[0].Has(p) && stack[0].Has(q);
    }
  }

  lemma StackPart(stack: seq<Interval>, x: Interval, n: nat)
    requires WellStacked(stack + [x], n)
    ensures WellStacked(stack, n)
  {
    var full := stack + [x];
    assert forall k :: 0 <= k < |stack| ==> full[k] == stack[k];
    forall k | 0 <= k < |stack| ensures Shrunk(stack[k], k, n) {
      assert Shrunk(full[k], k, n);
    }
  }

  lemma SortedByKeys<T, K>(key: T -> K, lt: Less<K>, reverse: bool, data: seq<T>, keys: seq<K>)
    requires Keyed(key, data, keys) && OrderedOutside(KeyOrder(lt, reverse), keys, [])
    ensures forall p, q :: 0 <= p < q < |data| ==>
              if reverse then !lt(key(data[p]), key(data[q])) else !lt(key(data[q]), key(data[p]))
  {
    forall p, q | 0 <= p < q < |data|
      ensures if reverse then !lt(key(data[p]), key(data[q])) else !lt(key(data[q]), key(data[p]))
    {
      assert !KeyOrder(lt, reverse)(keys[q], keys[p]) || Pending([], p, q);
    }
  }
}
