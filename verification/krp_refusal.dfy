/** When the walk limit in src/ubin/secure/krp.py can fire: digest functions under which a walk is refused. */
module KrpRefusal {
  import opened Arithmetic
  import opened Bitwise
  import opened Bytes
  import opened CycleWalk
  import opened Feistel
  import opened Krp
  import opened KrpBlocks

  lemma {:induction false} XorZero(a: nat)
    ensures Xor(a, 0) == a && Xor(0, a) == a
  {
    if a > 0 {
      XorZero(a / 2);
    }
  }

  /** Combining a with the difference of a and b gives b. */
  lemma XorTurns(a: nat, b: nat)
    ensures Xor(a, Xor(a, b)) == b && Xor(Xor(a, b), a) == b
  {
    XorSymmetric(a, b);
    XorSymmetric(a, Xor(b, a));
    XorCancels(b, a);
  }

  // The round function

  /** The last half. */
  function Top(h: nat): nat {
    Pow2(h) - 1
  }

  function Succ(h: nat, x: nat): nat {
    if x == Top(h) then 0 else x + 1
  }

  function Pred(h: nat, x: nat): nat {
    if x == 0 then Top(h) else x - 1
  }

  /**
   Three rounds that move the right half one up in the last row, and the start from row 0 into the
   last row; the other rounds only swap.
   */
  function Mix(h: nat, start: nat, round: nat, x: nat): nat {
    if round == 0 then Xor(if x == start then Top(h) else 0, Xor(x, Succ(h, x)))
    else if round == 1 then Xor(x, Top(h))
    else if round == 2 then Xor(Pred(h, x), x)
    else 0
  }

  lemma MixBounded(h: nat, start: nat, round: nat, x: nat)
    requires x < Pow2(h)
    ensures Mix(h, start, round, x) < Pow2(h)
  {
    hide Xor, Pow2;
    XorBounded(x, Succ(h, x), h);
    XorBounded(if x == start then Top(h) else 0, Xor(x, Succ(h, x)), h);
    XorBounded(x, Top(h), h);
    XorBounded(Pred(h, x), x, h);
  }

  /** The digest, of at least 32 bytes, of a message that ends with the round number and the right half. */
  function Digest(h: nat, start: nat, message: seq<byte>): seq<byte> {
    var n := HalfBytes(h);
    var x := if |message| <= n then 0 else FromBytes(message[|message| - n..]);
    var value := if |message| > n && x < Pow2(h) then Mix(h, start, message[|message| - n - 1], x) else 0;
    HalfFits(h);
    assert value < Pow2(h) by {
      if x < Pow2(h) && |message| > n {
        MixBounded(h, start, message[|message| - n - 1], x);
      }
    }
    ToBytes(value, n) + seq(if n < 32 then 32 - n else 0, _ => 0)
  }

  function Keyed(h: nat, start: nat): (c: Keying)
    ensures ContextFits(c) && |c.key| >= MIN_KEY
  {
    Keying((key: seq<byte>, message: seq<byte>) => Digest(h, start, message), seq(MIN_KEY, _ => 0), [])
  }

  lemma RoundIsMix(h: nat, start: nat, round: byte, x: nat)
    requires x < Pow2(h)
    ensures RoundsOf(Keyed(h, start), h)(round, x) == Mix(h, start, round, x) < Pow2(h)
  {
    hide Mix, Pow2, ToBytes, FromBytes, HalfBytes;
    HalfFits(h);
    Pow256Values();
    MixBounded(h, start, round, x);
    var n, c := HalfBytes(h), Keyed(h, start);
    var payload := ROUND_LABEL + ToBytes(|c.context|, 2) + c.context + ToBytes(round, 1) + ToBytes(x, n);
    OneByte(round);
    FromToBytes(x, n);
    assert payload[|payload| - n..] == ToBytes(x, n) && payload[|payload| - n - 1] == round;
    var digest := Digest(h, start, payload);
    FromToBytes(Mix(h, start, round, x), n);
    assert digest[..Min(n, |digest|)] == ToBytes(Mix(h, start, round, x), n);
  }

  lemma OneByte(b: byte)
    ensures Pow256(1) == 256 && ToBytes(b, 1) == [b]
  {
  }

  lemma RoundBy(h: nat, start: nat, round: byte, left: nat, right: nat)
    requires right < Pow2(h)
    ensures Round(RoundsOf(Keyed(h, start), h), h, round, (left, right))
            == (right, Xor(left, Mix(h, start, round, right)))
  {
    hide Xor, RoundsOf, Mix, Pow2, Keyed;
    RoundIsMix(h, start, round, right);
  }

  lemma IdleRound(h: nat, start: nat, round: byte, left: nat, right: nat)
    requires right < Pow2(h) && round >= 3
    ensures Round(RoundsOf(Keyed(h, start), h), h, round, (left, right)) == (right, left)
  {
    hide Xor, RoundsOf, Pow2, Round, Keyed;
    RoundBy(h, start, round, left, right);
    XorZero(left);
  }

  // One step of the walk

  /** Where the rounds move a half x of the last row, or the start of row 0. */
  ghost predicate Moves(h: nat, start: nat, left: nat, x: nat) {
    x < Pow2(h) && ((left == Top(h) && x != start) || (left == 0 && x == start))
  }

  /** What the left half has become after round 0. */
  function Turned(h: nat, x: nat): nat {
    Xor(Top(h), Xor(x, Succ(h, x)))
  }

  lemma RoundZero(h: nat, start: nat, left: nat, x: nat)
    requires Moves(h, start, left, x)
    ensures Round(RoundsOf(Keyed(h, start), h), h, 0, (left, x)) == (x, Turned(h, x))
    ensures Turned(h, x) < Pow2(h)
  {
    hide Xor, RoundsOf, Pow2, Round, Keyed;
    RoundBy(h, start, 0, left, x);
    XorBounded(x, Succ(h, x), h);
    XorBounded(Top(h), Xor(x, Succ(h, x)), h);
    XorZero(Xor(x, Succ(h, x)));
    XorZero(Turned(h, x));
  }

  lemma RoundsOneAndTwo(h: nat, start: nat, x: nat)
    requires x < Pow2(h) && Turned(h, x) < Pow2(h)
    ensures Round(RoundsOf(Keyed(h, start), h), h, 1, (x, Turned(h, x))) == (Turned(h, x), Succ(h, x))
    ensures Round(RoundsOf(Keyed(h, start), h), h, 2, (Turned(h, x), Succ(h, x))) == (Succ(h, x), Top(h))
  {
    hide Xor, RoundsOf, Pow2, Round, Keyed;
    var a, s, d := Turned(h, x), Succ(h, x), Xor(x, Succ(h, x));
    RoundBy(h, start, 1, x, a);
    XorTurns(Top(h), d);
    XorTurns(x, s);
    RoundBy(h, start, 2, a, s);
    assert Pred(h, s) == x;
    XorCancels(Top(h), d);
  }

  lemma ForwardStep(f: RoundFn, h: nat, k: nat, halves: (nat, nat))
    ensures Forward(f, h, 0, halves) == halves
    ensures Forward(f, h, k + 1, halves) == Round(f, h, k, Forward(f, h, k, halves))
  {
  }

  lemma SixRounds(h: nat, start: nat, left: nat, x: nat)
    requires Moves(h, start, left, x)
    ensures Forward(RoundsOf(Keyed(h, start), h), h, ROUNDS, (left, x)) == (Top(h), Succ(h, x))
  {
    hide Forward, Round, Xor, RoundsOf, Pow2, Keyed, Turned;
    var f, from := RoundsOf(Keyed(h, start), h), (left, x);
    RoundZero(h, start, left, x);
    RoundsOneAndTwo(h, start, x);
    ForwardStep(f, h, 0, from);
    ForwardStep(f, h, 1, from);
    ForwardStep(f, h, 2, from);
    IdleRound(h, start, 3, Succ(h, x), Top(h));
    ForwardStep(f, h, 3, from);
    IdleRound(h, start, 4, Top(h), Succ(h, x));
    ForwardStep(f, h, 4, from);
    IdleRound(h, start, 5, Succ(h, x), Top(h));
    ForwardStep(f, h, 5, from);
  }

  lemma OneStep(count: nat, h: nat, start: nat, left: nat, x: nat)
    requires count >= 1 && WidthBits(count) == 2 * h && Moves(h, start, left, x)
    ensures StepOf(Keyed(h, start), count)(Join(h, (left, x))) == Join(h, (Top(h), Succ(h, x)))
  {
    hide RoundsOf, Forward, Pow2, WidthBits, Keyed, Join, Split;
    SixRounds(h, start, left, x);
    SplitJoin(h, (left, x));
  }

  // The walk

  /** The half before the last 128. */
  function Start(h: nat): nat
    requires Pow2(h) >= WALK_LIMIT
  {
    if Pow2(h) == WALK_LIMIT then Top(h) else Pow2(h) - WALK_LIMIT - 1
  }

  lemma IterateStep(p: Step, k: nat, x: nat)
    ensures Iterate(p, 0, x) == x && Iterate(p, k + 1, x) == p(Iterate(p, k, x))
  {
  }

  lemma RowZero(h: nat, x: nat)
    ensures Join(h, (0, x)) == x
  {
  }

  /** The walk from the start goes through the last 128 values of the domain. */
  lemma {:induction false} WalkThroughTop(count: nat, h: nat, k: nat)
    requires count >= 1 && WidthBits(count) == 2 * h && Pow2(h) >= WALK_LIMIT && 1 <= k <= WALK_LIMIT
    ensures Iterate(StepOf(Keyed(h, Start(h)), count), k, Start(h)) == Join(h, (Top(h), Pow2(h) - WALK_LIMIT - 1 + k))
  {
    hide StepOf, Pow2, WidthBits, Keyed, Join, Iterate;
    var p := StepOf(Keyed(h, Start(h)), count);
    IterateStep(p, k - 1, Start(h));
    if k == 1 {
      RowZero(h, Start(h));
      OneStep(count, h, Start(h), 0, Start(h));
    } else {
      WalkThroughTop(count, h, k - 1);
      OneStep(count, h, Start(h), Top(h), Pow2(h) - WALK_LIMIT - 2 + k);
    }
  }

  lemma HalfWidth(count: nat) returns (h: nat)
    requires count > 4096
    ensures WidthBits(count) == 2 * h && DomainSize(count) == Pow2(h) * Pow2(h) && Pow2(h) >= WALK_LIMIT
            && Pow2(h) <= count
  {
    hide Pow2, BitLength;
    h := WidthBits(count) / 2;
    DomainBounds(count);
    Pow2Add(h, h);
    SevenBits();
    if h < 7 {
      Pow2Monotone(2 * h, 12);
      assert false;
    }
    Pow2Monotone(7, h);
    ProductMonotone(128, Pow2(h), Pow2(h));
  }

  lemma SevenBits()
    ensures Pow2(7) == 128 && Pow2(12) == 4096
  {
    assert Pow2(6) == 64 by { assert Pow2(3) == 8; }
    Pow2Add(6, 6);
    assert Pow2(7) == 2 * Pow2(6);
  }

  /**
   With more than 4096 blocks, and 128 or more values of the domain outside, some digest function makes
   the walk from some block leave the indexes for the whole limit.
   */
  lemma WalksCanBeRefused(count: nat) returns (c: Keying, index: nat)
    requires count > 4096 && DomainSize(count) - count >= WALK_LIMIT
    ensures |c.key| >= MIN_KEY && ContextFits(c) && index < count
    ensures TargetOf(c, count, index) == Err(WalkLimitExceeded)
    ensures Refusal(c, DEFAULT_BLOCK_SIZE, count * DEFAULT_BLOCK_SIZE) == Some(WalkLimitExceeded)
  {
    hide Pow2, WidthBits, StepOf, Iterate, Mix, Digest;
    var h := HalfWidth(count);
    index := Start(h);
    c := Keyed(h, index);
    forall k | 1 <= k <= WALK_LIMIT ensures Iterate(StepOf(c, count), k, index) >= count {
      WalkThroughTop(count, h, k);
      ProductGap(Top(h), Pow2(h), Pow2(h));
    }
    GuardFiresExactly(c, count, index);
    RefusalOf(c, count, index);
    DivModUnique(count, 0, DEFAULT_BLOCK_SIZE);
  }

  /**
   Exactly when the limit can fire, for a count of blocks that a caller knows beforehand: no digest
   function, key and context refuse a walk if and only if fewer than 128 domain values are no index.
   */
  lemma LimitExactly(count: nat)
    requires 1 <= count <= 64 || count > 4096
    ensures (forall c: Keying :: ContextFits(c) ==> AllTargetsExist(c, count)) <==>
              DomainSize(count) - count <= WALK_LIMIT - 1
  {
    hide TargetOf, WidthBits, Pow2;
    if DomainSize(count) - count <= WALK_LIMIT - 1 {
      forall c: Keying, i: nat | ContextFits(c) && i < count ensures TargetOf(c, count, i).Ok? {
        GuardCannotFire(c, count, i);
      }
    } else if count > 4096 {
      var c, index := WalksCanBeRefused(count);
      assert !AllTargetsExist(c, count);
    } else {
      SmallDomain(count);
    }
  }

  lemma SmallDomain(count: nat)
    requires 1 <= count <= 64
    ensures DomainSize(count) <= 64
  {
    assert Pow2(2) == 4 && Pow2(6) == 64 by { assert Pow2(3) == 8; }
    if count >= 2 {
      WidthIsSmallest(count, 6);
      Pow2Monotone(WidthBits(count), 6);
    } else {
      assert BitLength(0) == 0;
    }
  }
}
