/**
 Cycle walking: a permutation of [0, size) is applied again and again until the value falls
 below `count`.  Nothing here depends on which permutation is walked.
 */
module CycleWalk {
  import opened Bytes
  import opened Counting

  type Step = nat -> nat

  ghost predicate PermutesAt(p: Step, q: Step, size: nat, x: nat) {
    p(x) < size && q(x) < size && q(p(x)) == x && p(q(x)) == x
  }

  /** p permutes [0, size) and q is its inverse there. */
  ghost predicate Permutes(p: Step, q: Step, size: nat) {
    forall x: nat :: x < size ==> PermutesAt(p, q, size, x)
  }

  function Iterate(p: Step, k: nat, x: nat): nat {
    if k == 0 then x else p(Iterate(p, k - 1, x))
  }

  /** The guarded walk: at most `fuel` steps, None when none of them lands below count. */
  function Walk(p: Step, count: nat, fuel: nat, x: nat): (r: Option<nat>)
    ensures r.Some? ==> r.value < count
  {
    if fuel == 0 then None
    else if p(x) < count then Some(p(x))
    else Walk(p, count, fuel - 1, p(x))
  }

  /** The k-th step is the first one that lands below count. */
  ghost predicate ReturnsAt(p: Step, count: nat, k: nat, x: nat) {
    1 <= k && Iterate(p, k, x) < count && forall j :: 1 <= j < k ==> Iterate(p, j, x) >= count
  }

  lemma {:induction false} IterateShift(p: Step, k: nat, x: nat)
    ensures Iterate(p, k + 1, x) == Iterate(p, k, p(x))
  {
    if k > 0 {
      IterateShift(p, k - 1, x);
    }
  }

  lemma {:induction false} IterateInRange(p: Step, q: Step, size: nat, k: nat, x: nat)
    requires Permutes(p, q, size) && x < size
    ensures Iterate(p, k, x) < size
  {
    if k > 0 {
      IterateInRange(p, q, size, k - 1, x);
      assert PermutesAt(p, q, size, Iterate(p, k - 1, x));
    }
  }

  /** Walking k steps back along the inverse from a walk of k + j steps leaves j steps. */
  lemma {:induction false} IterateBack(p: Step, q: Step, size: nat, j: nat, k: nat, x: nat)
    requires Permutes(p, q, size) && x < size
    ensures Iterate(q, k, Iterate(p, j + k, x)) == Iterate(p, j, x)
  {
    if k > 0 {
      IterateInRange(p, q, size, j + k - 1, x);
      assert PermutesAt(p, q, size, Iterate(p, j + k - 1, x));
      IterateShift(q, k - 1, Iterate(p, j + k, x));
      IterateBack(p, q, size, j, k - 1, x);
    }
  }

  lemma PermutesInverse(p: Step, q: Step, size: nat)
    requires Permutes(p, q, size)
    ensures Permutes(q, p, size)
  {
    forall x: nat | x < size ensures PermutesAt(q, p, size, x) {
      assert PermutesAt(p, q, size, x);
    }
  }

  /** The walk finds a value exactly when some step within the fuel is a first return. */
  lemma {:induction false} WalkIsFirstReturn(p: Step, count: nat, fuel: nat, x: nat)
    ensures Walk(p, count, fuel, x).Some? <==> exists k: nat :: k <= fuel && ReturnsAt(p, count, k, x)
    ensures forall k: nat :: k <= fuel && ReturnsAt(p, count, k, x) ==>
              Walk(p, count, fuel, x) == Some(Iterate(p, k, x))
    ensures Walk(p, count, fuel, x).None? <==> forall k :: 1 <= k <= fuel ==> Iterate(p, k, x) >= count
  {
    assert Iterate(p, 0, x) == x;
    assert Iterate(p, 1, x) == p(x);
    hide Iterate;
    if fuel > 0 {
      if p(x) < count {
        assert ReturnsAt(p, count, 1, x);
      } else {
        WalkIsFirstReturn(p, count, fuel - 1, p(x));
        forall k: nat ensures Iterate(p, k + 1, x) == Iterate(p, k, p(x)) {
          IterateShift(p, k, x);
        }
        forall k | 1 <= k <= fuel ensures Iterate(p, k, x) == Iterate(p, k - 1, p(x)) {
          assert Iterate(p, (k - 1) + 1, x) == Iterate(p, k - 1, p(x));
        }
        forall k: nat | k <= fuel && ReturnsAt(p, count, k, x)
          ensures ReturnsAt(p, count, k - 1, p(x))
        {
          forall j | 1 <= j < k - 1 ensures Iterate(p, j, p(x)) >= count {
            assert Iterate(p, j + 1, x) >= count;
          }
        }
        if Walk(p, count, fuel - 1, p(x)).Some? {
          var k: nat :| k <= fuel - 1 && ReturnsAt(p, count, k, p(x));
          forall j | 1 <= j < k + 1 ensures Iterate(p, j, x) >= count {
            if j > 1 {
              assert Iterate(p, j - 1, p(x)) >= count;
            }
          }
          assert ReturnsAt(p, count, k + 1, x);
          assert Iterate(p, k + 1, x) < count;
        } else {
          forall k | 1 <= k <= fuel ensures Iterate(p, k, x) >= count {
            if k > 1 {
              assert Iterate(p, k - 1, p(x)) >= count;
            }
          }
        }
      }
    }
  }

  /** The values of steps 1 to k. */
  ghost function Steps(p: Step, k: nat, x: nat): (s: seq<nat>)
    ensures |s| == k
    ensures forall i :: 0 <= i < k ==> s[i] == Iterate(p, i + 1, x)
  {
    if k == 0 then [] else Steps(p, k - 1, x) + [Iterate(p, k, x)]
  }

  /** Steps i and j of a walk agree only when the walk came back to its start after j - i. */
  lemma RepeatMeansReturn(p: Step, q: Step, size: nat, i: nat, j: nat, x: nat)
    requires Permutes(p, q, size) && x < size && i < j
    requires Iterate(p, i, x) == Iterate(p, j, x)
    ensures Iterate(p, j - i, x) == x
  {
    IterateBack(p, q, size, 0, i, x);
    IterateBack(p, q, size, j - i, i, x);
  }

  /** A walk that stays in [count, size) visits size - count values at most. */
  lemma StayingOutIsShort(p: Step, q: Step, size: nat, count: nat, fuel: nat, x: nat)
    requires Permutes(p, q, size) && x < count <= size
    requires forall k :: 1 <= k <= fuel ==> Iterate(p, k, x) >= count
    ensures fuel <= size - count
  {
    hide Iterate, Permutes, Range;
    if fuel > size - count {
      var steps := Steps(p, fuel, x);
      forall v | v in steps ensures v in Range(count, size) {
        var k :| 0 <= k < fuel && steps[k] == v;
        IterateInRange(p, q, size, k + 1, x);
      }
      RangeSize(count, size);
      var i, j := Pigeonhole(steps, Range(count, size));
      RepeatMeansReturn(p, q, size, i + 1, j + 1, x);
      assert false;
    }
  }

  /**
   Pigeonhole bound: from x < count, one of the first size - count + 1 steps returns, because
   the steps before it are distinct values of [count, size).
   */
  lemma WalkFinishes(p: Step, q: Step, size: nat, count: nat, x: nat)
    requires Permutes(p, q, size) && x < count <= size
    ensures Walk(p, count, size - count + 1, x).Some?
  {
    WalkIsFirstReturn(p, count, size - count + 1, x);
    if Walk(p, count, size - count + 1, x).None? {
      StayingOutIsShort(p, q, size, count, size - count + 1, x);
    }
  }

  lemma {:induction false} WalkMoreFuel(p: Step, count: nat, fuel: nat, more: nat, x: nat)
    requires fuel <= more && Walk(p, count, fuel, x).Some?
    ensures Walk(p, count, more, x) == Walk(p, count, fuel, x)
  {
    if !(p(x) < count) {
      WalkMoreFuel(p, count, fuel - 1, more - 1, p(x));
    }
  }

  /** Two walks, whatever their guards, that end in the same place began in the same place. */
  lemma WalkInjective(p: Step, q: Step, size: nat, count: nat, fuel: nat, x: nat, y: nat)
    requires Permutes(p, q, size) && x < count <= size && y < count
    requires Walk(p, count, fuel, x).Some? && Walk(p, count, fuel, x) == Walk(p, count, fuel, y)
    ensures x == y
  {
    WalkIsFirstReturn(p, count, fuel, x);
    WalkIsFirstReturn(p, count, fuel, y);
    var a: nat :| a <= fuel && ReturnsAt(p, count, a, x);
    var b: nat :| b <= fuel && ReturnsAt(p, count, b, y);
    SameEnd(p, q, size, count, a, x, b, y);
  }

  lemma SameEnd(p: Step, q: Step, size: nat, count: nat, a: nat, x: nat, b: nat, y: nat)
    requires Permutes(p, q, size) && x < count <= size && y < count
    requires ReturnsAt(p, count, a, x) && ReturnsAt(p, count, b, y)
    requires Iterate(p, a, x) == Iterate(p, b, y)
    ensures x == y
    decreases a > b
  {
    if a > b {
      SameEnd(p, q, size, count, b, y, a, x);
    } else {
      IterateBack(p, q, size, 0, a, x);
      IterateBack(p, q, size, b - a, a, y);
      assert x == Iterate(p, b - a, y);
    }
  }

  /** Every target is the end of a walk: the one that the inverse permutation walks to. */
  lemma WalkSurjective(p: Step, q: Step, size: nat, count: nat, z: nat) returns (x: nat)
    requires Permutes(p, q, size) && z < count <= size
    ensures x < count && Walk(p, count, size - count + 1, x) == Some(z)
  {
    var fuel := size - count + 1;
    PermutesInverse(p, q, size);
    WalkFinishes(q, p, size, count, z);
    WalkIsFirstReturn(q, count, fuel, z);
    var k: nat :| k <= fuel && ReturnsAt(q, count, k, z);
    x := Iterate(q, k, z);
    IterateInRange(q, p, size, k, z);
    forall j | 0 <= j <= k ensures Iterate(p, j, x) == Iterate(q, k - j, z) {
      IterateBack(q, p, size, k - j, j, z);
    }
    assert ReturnsAt(p, count, k, x);
    WalkIsFirstReturn(p, count, fuel, x);
  }

  /** The walk without a guard, as a total map of [0, count). */
  ghost function Return(p: Step, q: Step, size: nat, count: nat, x: nat): (y: nat)
    requires Permutes(p, q, size) && x < count <= size
    ensures y < count
  {
    WalkFinishes(p, q, size, count, x);
    Walk(p, count, size - count + 1, x).value
  }

  ghost predicate IsReturnOf(p: Step, q: Step, size: nat, count: nat, x: nat, z: nat)
    requires Permutes(p, q, size) && count <= size
  {
    x < count && Return(p, q, size, count, x) == z
  }

  ghost predicate IsReturn(p: Step, q: Step, size: nat, count: nat, z: nat)
    requires Permutes(p, q, size) && count <= size
  {
    exists x: nat :: IsReturnOf(p, q, size, count, x, z)
  }

  /** The unguarded walk is a bijection of [0, count). */
  lemma ReturnIsBijection(p: Step, q: Step, size: nat, count: nat)
    requires Permutes(p, q, size) && count <= size
    ensures forall x: nat, y: nat ::
              x < count && y < count && Return(p, q, size, count, x) == Return(p, q, size, count, y) ==>
                x == y
    ensures forall z: nat :: z < count ==> IsReturn(p, q, size, count, z)
  {
    forall x: nat, y: nat | x < count && y < count && Return(p, q, size, count, x) == Return(p, q, size, count, y)
      ensures x == y
    {
      WalkFinishes(p, q, size, count, x);
      WalkFinishes(p, q, size, count, y);
      WalkInjective(p, q, size, count, size - count + 1, x, y);
    }
    forall z: nat | z < count ensures IsReturn(p, q, size, count, z) {
      var x := WalkSurjective(p, q, size, count, z);
      assert IsReturnOf(p, q, size, count, x, z);
    }
  }

  /** When a guarded walk finishes from every start, its ends cover all of [0, count). */
  lemma GuardedSurjective(p: Step, q: Step, size: nat, count: nat, fuel: nat, z: nat) returns (x: nat)
    requires Permutes(p, q, size) && z < count <= size
    requires forall i: nat :: i < count ==> Walk(p, count, fuel, i).Some?
    ensures x < count && Walk(p, count, fuel, x) == Some(z)
  {
    x := WalkSurjective(p, q, size, count, z);
    if fuel <= size - count + 1 {
      WalkMoreFuel(p, count, fuel, size - count + 1, x);
    } else {
      WalkMoreFuel(p, count, size - count + 1, fuel, x);
    }
  }
}
