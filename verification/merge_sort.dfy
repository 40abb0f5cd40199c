/** Bottom-up merge sort over a pair of ping-pong buffers (src/ubin/sort.py `merge`). */
module MergeSort {
  import opened Arithmetic
  import opened StableOrder

  /** Run i of the given width, cut off at the end. */
  ghost function Run<T>(s: seq<T>, width: nat, i: nat): seq<T> {
    s[Min(Offset(i, width), |s|)..Min(Offset(i, width) + width, |s|)]
  }

  /** Run i of data holds the stable arrangement of run i of the items. */
  ghost predicate RunSorted<T>(lt: Less<T>, items: seq<T>, data: seq<T>, width: nat, i: nat) {
    Run(data, width, i) == Values(lt, Run(items, width, i))
  }

  /** The four buffers are different objects, whatever their element types. */
  ghost predicate Apart<T, K>(data: array<T>, keys: array<K>, out: array<T>, outKeys: array<K>) {
    && data != out && keys != outKeys
    && (data as object) != (keys as object) && (data as object) != (outKeys as object)
    && (out as object) != (keys as object) && (out as object) != (outKeys as object)
  }

  lemma {:induction false} OffsetDoubles(i: nat, width: nat)
    ensures Offset(2 * i, width) == Offset(i, 2 * width)
  {
    if i > 0 {
      OffsetDoubles(i - 1, width);
      assert Offset(2 * i, width) == Offset(2 * i - 1, width) + width;
    }
  }

  /** Runs 2p and 2p + 1 make up run p of twice the width. */
  lemma HalfRuns<T>(s: seq<T>, width: nat, p: nat, a: nat, m: nat, b: nat)
    requires a == Offset(p, 2 * width) < |s|
    requires m == Min(a + width, |s|) && b == Min(a + 2 * width, |s|)
    ensures Run(s, width, 2 * p) == s[a..m] && Run(s, width, 2 * p + 1) == s[m..b]
    ensures Run(s, 2 * width, p) == s[a..b] == s[a..m] + s[m..b]
  {
    OffsetDoubles(p, width);
  }

  /** Merging runs 2p and 2p + 1 gives run p of twice the width. */
  lemma MergedRun<T(!new)>(lt: Less<T>, items: seq<T>, data: seq<T>, width: nat, p: nat)
    requires StrictWeak(lt) && |data| == |items|
    requires RunSorted(lt, items, data, width, 2 * p) && RunSorted(lt, items, data, width, 2 * p + 1)
    requires Offset(p, 2 * width) < |items|
    ensures Merged(lt, Run(data, width, 2 * p), Run(data, width, 2 * p + 1)) == Values(lt, Run(items, 2 * width, p))
  {
    var a := Offset(p, 2 * width);
    HalfRuns(items, width, p, a, Min(a + width, |items|), Min(a + 2 * width, |items|));
    ValuesConcat(lt, Run(items, width, 2 * p), Run(items, width, 2 * p + 1));
  }

  // One merge

  /** The merge of s[left..middle] and s[right..end], by position. */
  ghost function MergedFrom<T>(lt: Less<T>, s: seq<T>, left: nat, middle: nat, right: nat, end: nat): (r: seq<T>)
    requires left <= middle <= right <= end <= |s|
    ensures |r| == (middle - left) + (end - right)
    decreases (middle - left) + (end - right)
  {
    if left == middle then s[right..end]
    else if right == end then s[left..middle]
    else if lt(s[right], s[left]) then [s[right]] + MergedFrom(lt, s, left, middle, right + 1, end)
    else [s[left]] + MergedFrom(lt, s, left + 1, middle, right, end)
  }

  lemma {:induction false} MergedFromIsMerged<T>(lt: Less<T>, s: seq<T>, left: nat, middle: nat, right: nat, end: nat)
    requires left <= middle <= right <= end <= |s|
    ensures MergedFrom(lt, s, left, middle, right, end) == Merged(lt, s[left..middle], s[right..end])
    decreases (middle - left) + (end - right)
  {
    if left < middle && right < end {
      assert s[left..middle][1..] == s[left + 1..middle];
      assert s[right..end][1..] == s[right + 1..end];
      if lt(s[right], s[left]) {
        MergedFromIsMerged(lt, s, left, middle, right + 1, end);
      } else {
        MergedFromIsMerged(lt, s, left + 1, middle, right, end);
      }
    }
  }

  /** now is was with the first n elements of goal written from position start on. */
  ghost predicate Written<T>(was: seq<T>, now: seq<T>, start: nat, goal: seq<T>, n: nat) {
    && |now| == |was| && start + |goal| <= |was| && n <= |goal|
    && (forall k :: start <= k < start + n ==> now[k] == goal[k - start])
    && (forall k :: 0 <= k < start || start + n <= k < |was| ==> now[k] == was[k])
  }

  lemma WrittenNothing<T>(was: seq<T>, start: nat, goal: seq<T>)
    requires start + |goal| <= |was|
    ensures Written(was, was, start, goal, 0)
  {
  }

  lemma WrittenOne<T>(was: seq<T>, now: seq<T>, start: nat, goal: seq<T>, n: nat)
    requires Written(was, now, start, goal, n) && n < |goal|
    ensures |now| == |was| && start + n < |now| && Written(was, now[start + n := goal[n]], start, goal, n + 1)
  {
  }

  /** Copies one item and its key. */
  method CopyOne<T, K>(data: array<T>, keys: array<K>, out: array<T>, outKeys: array<K>,
                       ghost key: T -> K, from: nat, write: nat)
    requires from < data.Length && write < out.Length
    requires out.Length == data.Length == keys.Length == outKeys.Length
    requires Apart(data, keys, out, outKeys)
    requires Keyed(key, data[..], keys[..]) && Keyed(key, out[..], outKeys[..])
    modifies out, outKeys
    ensures Keyed(key, out[..], outKeys[..])
    ensures out[..] == old(out[..])[write := data[from]]
  {
    out[write], outKeys[write] := data[from], keys[from];
  }

  /** Copies the rest of one run and its keys; these items are the next ones of goal. */
  method CopyRest<T, K>(data: array<T>, keys: array<K>, out: array<T>, outKeys: array<K>,
                        ghost key: T -> K, from: nat, to: nat, write: nat,
                        ghost was: seq<T>, ghost start: nat, ghost goal: seq<T>)
    requires from <= to <= data.Length && start <= write && write + (to - from) <= start + |goal|
    requires out.Length == data.Length == keys.Length == outKeys.Length
    requires Apart(data, keys, out, outKeys)
    requires Keyed(key, data[..], keys[..]) && Keyed(key, out[..], outKeys[..])
    requires Written(was, out[..], start, goal, write - start)
    requires forall k :: from <= k < to ==> data[k] == goal[write - start + (k - from)]
    modifies out, outKeys
    ensures Keyed(key, out[..], outKeys[..])
    ensures Written(was, out[..], start, goal, write - start + (to - from))
  {
    var k := from;
    while k < to
      invariant from <= k <= to
      invariant Keyed(key, out[..], outKeys[..])
      invariant Written(was, out[..], start, goal, write - start + (k - from))
    {
      CopyOne(data, keys, out, outKeys, key, k, write + (k - from));
      k := k + 1;
    }
  }

  /** The next item of the merge, and what is left after it. */
  lemma FrontStep<T>(lt: Less<T>, s: seq<T>, left: nat, middle: nat, right: nat, end: nat, goal: seq<T>, n: nat)
    requires left < middle <= right < end <= |s| && n <= |goal|
    requires goal[n..] == MergedFrom(lt, s, left, middle, right, end)
    ensures n < |goal|
    ensures if lt(s[right], s[left])
            then goal[n] == s[right] && goal[n + 1..] == MergedFrom(lt, s, left, middle, right + 1, end)
            else goal[n] == s[left] && goal[n + 1..] == MergedFrom(lt, s, left + 1, middle, right, end)
  {
    assert goal[n..][0] == goal[n] && goal[n..][1..] == goal[n + 1..];
  }

  /** The first loop of a merge: runs until one of the two runs is used up. */
  method MergeFronts<T, K>(data: array<T>, keys: array<K>, out: array<T>, outKeys: array<K>,
                           key: T -> K, lt: Less<K>, reverse: bool, start: nat, middle: nat, end: nat,
                           ghost goal: seq<T>)
    returns (left: nat, right: nat)
    requires start <= middle <= end <= data.Length
    requires out.Length == data.Length == keys.Length == outKeys.Length
    requires Apart(data, keys, out, outKeys)
    requires Keyed(key, data[..], keys[..]) && Keyed(key, out[..], outKeys[..])
    requires goal == MergedFrom(OrderOf(key, lt, reverse), data[..], start, middle, middle, end)
    modifies out, outKeys
    ensures start <= left <= middle <= right <= end && (left == middle || right == end)
    ensures Keyed(key, out[..], outKeys[..])
    ensures Written(old(out[..]), out[..], start, goal, left + right - start - middle)
    ensures goal[left + right - start - middle..]
            == MergedFrom(OrderOf(key, lt, reverse), data[..], left, middle, right, end)
  {
    hide MergedFrom, Written;
    ghost var order := OrderOf(key, lt, reverse);
    ghost var was, d := out[..], data[..];
    left, right := start, middle;
    WrittenNothing(was, start, goal);
    assert goal[0..] == goal;
    var write := start;
    while left < middle && right < end
      invariant start <= left <= middle <= right <= end
      invariant write == left + right - middle
      invariant Keyed(key, out[..], outKeys[..])
      invariant Written(was, out[..], start, goal, write - start)
      invariant goal[write - start..] == MergedFrom(order, d, left, middle, right, end)
    {
      FrontStep(order, d, left, middle, right, end, goal, write - start);
      var rightPrecedes := if reverse then lt(keys[left], keys[right]) else lt(keys[right], keys[left]);
      assert rightPrecedes == order(d[right], d[left]);
      var from := if rightPrecedes then right else left;
      WrittenOne(was, out[..], start, goal, write - start);
      CopyOne(data, keys, out, outKeys, key, from, write);
      left, right := if rightPrecedes then left else left + 1, if rightPrecedes then right + 1 else right;
      write := write + 1;
    }
  }

  /** Once one run is used up the goal ends with the rest of the other. */
  lemma LeftOver<T>(lt: Less<T>, s: seq<T>, left: nat, middle: nat, right: nat, end: nat, goal: seq<T>, n: nat)
    requires left <= middle <= right <= end <= |s| && n <= |goal| && (left == middle || right == end)
    requires goal[n..] == MergedFrom(lt, s, left, middle, right, end)
    ensures |goal| == n + (middle - left) + (end - right)
    ensures forall k :: left <= k < middle ==> s[k] == goal[n + (k - left)]
    ensures forall k :: right <= k < end ==> s[k] == goal[n + (middle - left) + (k - right)]
  {
    forall k | left <= k < middle ensures s[k] == goal[n + (k - left)] {
      assert goal[n..][k - left] == s[left..middle][k - left];
    }
    forall k | right <= k < end ensures s[k] == goal[n + (middle - left) + (k - right)] {
      assert goal[n..][middle - left + (k - right)] == s[right..end][k - right];
    }
  }

  /** Merges data[start..middle] and data[middle..end] into out; keys travel with their items. */
  method MergeRuns<T, K>(data: array<T>, keys: array<K>, out: array<T>, outKeys: array<K>,
                         key: T -> K, lt: Less<K>, reverse: bool, start: nat, middle: nat, end: nat)
    requires start <= middle <= end <= data.Length
    requires out.Length == data.Length == keys.Length == outKeys.Length
    requires Apart(data, keys, out, outKeys)
    requires Keyed(key, data[..], keys[..]) && Keyed(key, out[..], outKeys[..])
    modifies out, outKeys
    ensures Keyed(key, out[..], outKeys[..])
    ensures var goal := MergedFrom(OrderOf(key, lt, reverse), data[..], start, middle, middle, end);
            Written(old(out[..]), out[..], start, goal, |goal|)
  {
    ghost var was, d := out[..], data[..];
    ghost var goal := MergedFrom(OrderOf(key, lt, reverse), d, start, middle, middle, end);
    var left, right := MergeFronts(data, keys, out, outKeys, key, lt, reverse, start, middle, end, goal);
    LeftOver(OrderOf(key, lt, reverse), d, left, middle, right, end, goal, left + right - middle - start);
    hide MergedFrom, OrderOf;
    var write := left + right - middle;
    CopyRest(data, keys, out, outKeys, key, left, middle, write, was, start, goal);
    CopyRest(data, keys, out, outKeys, key, right, end, write + (middle - left), was, start, goal);
  }

  lemma EarlierRunStays<T>(items: seq<T>, before: seq<T>, after: seq<T>, width: nat, p: nat, i: nat, run: seq<T>)
    requires |before| == |items| && Offset(p, width) < |items| && i < p
    requires Written(before, after, Offset(p, width), run, |run|)
    ensures Run(after, width, i) == Run(before, width, i)
  {
    OffsetGap(i, p, width);
  }

  lemma NewRunIsThere<T>(items: seq<T>, before: seq<T>, after: seq<T>, width: nat, p: nat, run: seq<T>)
    requires |before| == |items| && Offset(p, width) < |items| && |run| == |Run(items, width, p)|
    requires Written(before, after, Offset(p, width), run, |run|)
    ensures Run(after, width, p) == run
  {
  }

  /** Writing run p finishes it and does not touch the runs before it. */
  lemma RunWritten<T>(lt: Less<T>, items: seq<T>, before: seq<T>, after: seq<T>, width: nat, p: nat, run: seq<T>)
    requires |before| == |items| && Offset(p, width) < |items|
    requires |run| == |Run(items, width, p)|
    requires Written(before, after, Offset(p, width), run, |run|) && run == Values(lt, Run(items, width, p))
    requires forall i: nat :: i < p ==> RunSorted(lt, items, before, width, i)
    ensures forall i: nat :: i < p + 1 ==> RunSorted(lt, items, after, width, i)
  {
    hide Values, Run, Written, Offset;
    forall i: nat | i < p + 1 ensures RunSorted(lt, items, after, width, i) {
      if i < p {
        assert RunSorted(lt, items, before, width, i);
        EarlierRunStays(items, before, after, width, p, i, run);
      } else {
        NewRunIsThere(items, before, after, width, p, run);
      }
    }
  }

  /** One pass: every pair of neighbouring runs is merged into the other buffer. */
  method MergePass<T(!new), K(!new)>(ghost items: seq<T>, data: array<T>, keys: array<K>, out: array<T>,
                                     outKeys: array<K>,
                         key: T -> K, lt: Less<K>, reverse: bool, width: nat)
    requires StrictWeak(OrderOf(key, lt, reverse)) && width > 0
    requires out.Length == data.Length == keys.Length == outKeys.Length == |items|
    requires Apart(data, keys, out, outKeys)
    requires Keyed(key, data[..], keys[..]) && Keyed(key, out[..], outKeys[..])
    requires forall i: nat :: RunSorted(OrderOf(key, lt, reverse), items, data[..], width, i)
    modifies out, outKeys
    ensures Keyed(key, out[..], outKeys[..])
    ensures forall i: nat :: RunSorted(OrderOf(key, lt, reverse), items, out[..], 2 * width, i)
  {
    ghost var order := OrderOf(key, lt, reverse);
    ghost var d := data[..];
    var count := data.Length;
    var start := 0;
    ghost var p: nat := 0;
    while start < count
      invariant start == Offset(p, 2 * width)
      invariant Keyed(key, out[..], outKeys[..])
      invariant forall i: nat :: i < p ==> RunSorted(order, items, out[..], 2 * width, i)
      decreases count - start
    {
      var middle := Min(start + width, count);
      var end := Min(start + 2 * width, count);
      ghost var before := out[..];
      assert RunSorted(order, items, d, width, 2 * p) && RunSorted(order, items, d, width, 2 * p + 1);
      MergedRun(order, items, d, width, p);
      HalfRuns(d, width, p, start, middle, end);
      MergeRuns(data, keys, out, outKeys, key, lt, reverse, start, middle, end);
      MergedFromIsMerged(order, d, start, middle, middle, end);
      RunWritten(order, items, before, out[..], 2 * width, p, MergedFrom(order, d, start, middle, middle, end));
      start, p := start + 2 * width, p + 1;
    }
    RunsBeyond(order, items, out[..], 2 * width, p);
  }

  /** Once the runs reach the end, the rest are empty. */
  lemma RunsBeyond<T>(lt: Less<T>, items: seq<T>, data: seq<T>, width: nat, p: nat)
    requires |data| == |items| <= Offset(p, width)
    requires forall i: nat :: i < p ==> RunSorted(lt, items, data, width, i)
    ensures forall i: nat :: RunSorted(lt, items, data, width, i)
  {
    forall i: nat ensures RunSorted(lt, items, data, width, i) {
      if i > p {
        OffsetGap(p, i, width);
      }
    }
  }

  /**
   Ascending by key, or descending if reversed; a permutation of the items in which those with tied
   keys keep the order in which they were given.
   */
  method Merge<T(!new), K(!new)>(items: seq<T>, key: T -> K, lt: Less<K>, reverse: bool) returns (r: seq<T>)
    requires StrictWeak(lt)
    ensures forall i, j :: 0 <= i < j < |r| ==>
              if reverse then !lt(key(r[i]), key(r[j])) else !lt(key(r[j]), key(r[i]))
    ensures multiset(r) == multiset(items)
    ensures forall g :: TiedWith(key, lt, g, r) == TiedWith(key, lt, g, items)
    ensures r == Values(OrderOf(key, lt, reverse), items)
  {
    hide StrictWeak, TiedWith;
    ghost var order := OrderOf(key, lt, reverse);
    OrderIsStrictWeak(key, lt, reverse);
    var count := |items|;
    if count < 2 {
      if count == 1 {
        assert items == [items[0]] + [];
      }
      ValuesByKey(key, lt, reverse, items);
      return items;
    }
    var data := new T[count](i requires 0 <= i < count => items[i]);
    var keys := new K[count](i requires 0 <= i < count => key(items[i]));
    var out := new T[count](i requires 0 <= i < count => items[i]);
    var outKeys := new K[count](i requires 0 <= i < count => key(items[i]));
    var width := 1;
    SingleRuns(order, items, data[..]);
    while width < count
      invariant width > 0
      invariant fresh(data) && fresh(keys) && fresh(out) && fresh(outKeys)
      invariant out.Length == data.Length == keys.Length == outKeys.Length == count
      invariant Apart(data, keys, out, outKeys)
      invariant Keyed(key, data[..], keys[..]) && Keyed(key, out[..], outKeys[..])
      invariant forall i: nat :: RunSorted(order, items, data[..], width, i)
      decreases count - width
    {
      MergePass(items, data, keys, out, outKeys, key, lt, reverse, width);
      assert forall i: nat :: RunSorted(order, items, out[..], 2 * width, i);
      data, out := out, data;
      keys, outKeys := outKeys, keys;
      width := 2 * width;
    }
    assert RunSorted(order, items, data[..], width, 0);
    assert Run(data[..], width, 0) == data[..] && Run(items, width, 0) == items;
    ValuesByKey(key, lt, reverse, items);
    return data[..];
  }

  /** A run of one item is already arranged. */
  lemma SingleRuns<T>(lt: Less<T>, items: seq<T>, data: seq<T>)
    requires data == items
    ensures forall i: nat :: RunSorted(lt, items, data, 1, i)
  {
    forall i: nat ensures RunSorted(lt, items, data, 1, i) {
      if Offset(i, 1) < |items| {
        var run := Run(items, 1, i);
        assert run == [run[0]] && run[1..] == [];
      }
    }
  }
}
