/**
 Keyed reversible permutation of the complete blocks of a byte string (src/ubin/secure/krp.py).
 The keyed digest is a parameter, so every result holds for any digest function.
 */
module Krp {
  import opened Arithmetic
  import opened Bitwise
  import opened Bytes
  import opened CycleWalk
  import opened Feistel

  const WALK_LIMIT: nat := 128
  const MIN_KEY: nat := 16

  /** mac(key, message) */
  type Mac = (seq<byte>, seq<byte>) -> seq<byte>

  datatype Keying = Keying(mac: Mac, key: seq<byte>, context: seq<byte>)

  datatype KrpError = BadKey | BadBlockSize | IndexOutOfRange | ContextTooLong | WalkLimitExceeded

  // The round function

  /** "UBIN-KRP-v0.5" and a zero byte. */
  const ROUND_LABEL: seq<byte> := [85, 66, 73, 78, 45, 75, 82, 80, 45, 118, 48, 46, 53, 0]

  /** The context length goes into a two-byte field. */
  predicate ContextFits(c: Keying) {
    |c.context| < 0x1_0000
  }

  function HalfBytes(h: nat): nat {
    (h + 7) / 8
  }

  lemma HalfFits(h: nat)
    ensures Pow2(h) <= Pow256(HalfBytes(h))
  {
    Pow256IsPow2(HalfBytes(h));
    Pow2Monotone(h, 8 * HalfBytes(h));
  }

  function RoundValue(c: Keying, roundNo: nat, right: nat, halfBytes: nat): nat
    requires ContextFits(c) && roundNo < 256 && right < Pow256(halfBytes)
  {
    Pow256Values();
    var payload := ROUND_LABEL + ToBytes(|c.context|, 2) + c.context + ToBytes(roundNo, 1) + ToBytes(right, halfBytes);
    var digest := c.mac(c.key, payload);
    FromBytes(digest[..Min(halfBytes, |digest|)])
  }

  function RoundsOf(c: Keying, h: nat): RoundFn
    requires ContextFits(c)
  {
    (roundNo: nat, right: nat) =>
      if roundNo < 256 && right < Pow256(HalfBytes(h)) then RoundValue(c, roundNo, right, HalfBytes(h)) else 0
  }

  // What the rounds are, written out

  /**
   The bytes under the digest: label, two bytes of context length, context, one byte of round number, the
   right half.
   */
  ghost predicate IsMessage(m: seq<byte>, context: seq<byte>, roundNo: nat, right: nat, halfBytes: nat) {
    && |m| == 17 + |context| + halfBytes
    && m[..14] == [85, 66, 73, 78, 45, 75, 82, 80, 45, 118, 48, 46, 53, 0]
    && 0x100 * (m[14] as nat) + m[15] as nat == |context|
    && m[16..16 + |context|] == context
    && m[16 + |context|] == roundNo
    && Number(m[17 + |context|..]) == right
  }

  /** The message of a round determines context, round number and right half. */
  lemma MessageDetermines(m: seq<byte>, context: seq<byte>, roundNo: nat, right: nat, n: nat,
                          context': seq<byte>, roundNo': nat, right': nat, n': nat)
    requires IsMessage(m, context, roundNo, right, n) && IsMessage(m, context', roundNo', right', n')
    ensures context == context' && roundNo == roundNo' && right == right' && n == n'
  {
  }

  /** One round: the halves change places, and the masked front of the digest goes into the old left one. */
  ghost predicate IsRound(c: Keying, h: nat, roundNo: nat, before: (nat, nat), after: (nat, nat)) {
    && after.0 == before.1
    && exists m :: IsMessage(m, c.context, roundNo, before.1, (h + 7) / 8) && TurnsInto(c, h, m, before.0, after.1)
  }

  ghost predicate TurnsInto(c: Keying, h: nat, m: seq<byte>, left: nat, turned: nat) {
    var digest := c.mac(c.key, m);
    var front := if |digest| <= (h + 7) / 8 then digest else digest[..(h + 7) / 8];
    turned == Xor(left, Number(front) % Pow2(h))
  }

  /** Seven pairs of halves, from those of the index to those of the value. */
  ghost predicate IsTrace(c: Keying, h: nat, halves: seq<(nat, nat)>, index: nat, value: nat) {
    && |halves| == 7
    && halves[0] == (index / Pow2(h), index % Pow2(h))
    && (forall i :: 0 <= i < 6 ==> IsRound(c, h, i, halves[i], halves[i + 1]))
    && value == halves[6].0 * Pow2(h) + halves[6].1
  }

  /** Six rounds turn the index into the value. */
  ghost predicate Turns(c: Keying, h: nat, index: nat, value: nat) {
    exists halves :: IsTrace(c, h, halves, index, value)
  }

  lemma RoundIsRound(c: Keying, h: nat, roundNo: nat, before: (nat, nat))
    requires ContextFits(c) && roundNo < 256 && Bounded(h, before)
    ensures IsRound(c, h, roundNo, before, Round(RoundsOf(c, h), h, roundNo, before))
  {
    hide ToBytes, FromBytes, Number, Xor, Pow2;
    HalfFits(h);
    Pow256Values();
    var n := HalfBytes(h);
    var m := ROUND_LABEL + ToBytes(|c.context|, 2) + c.context + ToBytes(roundNo, 1) + ToBytes(before.1, n);
    ToBytesIsNumber(|c.context|, 2);
    NumberDigits(ToBytes(|c.context|, 2));
    ToBytesIsNumber(roundNo, 1);
    NumberDigits(ToBytes(roundNo, 1));
    ToBytesIsNumber(before.1, n);
    assert m[14..16] == ToBytes(|c.context|, 2) && m[17 + |c.context|..] == ToBytes(before.1, n);
    assert m[16 + |c.context|] == ToBytes(roundNo, 1)[0];
    assert IsMessage(m, c.context, roundNo, before.1, n);
    var digest := c.mac(c.key, m);
    assert digest[..|digest|] == digest;
    FromBytesIsNumber(digest[..Min(n, |digest|)]);
    assert TurnsInto(c, h, m, before.0, Round(RoundsOf(c, h), h, roundNo, before).1);
  }

  /** The first k rounds of the trace. */
  lemma {:induction false} RoundsTraced(c: Keying, h: nat, k: nat, start: (nat, nat)) returns (halves: seq<(nat, nat)>)
    requires ContextFits(c) && k <= 6 && Bounded(h, start)
    ensures |halves| == k + 1 && halves[0] == start && halves[k] == Forward(RoundsOf(c, h), h, k, start)
    ensures Bounded(h, halves[k])
    ensures forall i :: 0 <= i < k ==> IsRound(c, h, i, halves[i], halves[i + 1])
  {
    hide IsRound, RoundsOf;
    if k == 0 {
      halves := [start];
    } else {
      var before := RoundsTraced(c, h, k - 1, start);
      RoundFacts(RoundsOf(c, h), h, k - 1, before[k - 1]);
      RoundIsRound(c, h, k - 1, before[k - 1]);
      halves := before + [Round(RoundsOf(c, h), h, k - 1, before[k - 1])];
    }
  }

  lemma EncipherTurns(c: Keying, h: nat, index: nat)
    requires ContextFits(c) && index < Pow2(2 * h)
    ensures Turns(c, h, index, Encipher(RoundsOf(c, h), h, index))
  {
    hide IsRound, RoundsOf, Pow2, Forward;
    JoinSplit(h, index);
    var halves := RoundsTraced(c, h, 6, Split(h, index));
    assert IsTrace(c, h, halves, index, Encipher(RoundsOf(c, h), h, index));
  }

  /** The Feistel loop, on the two halves of the index. */
  method FeistelOnce(index: nat, c: Keying, widthBits: nat) returns (value: nat)
    requires ContextFits(c) && widthBits % 2 == 0 && index < Pow2(widthBits)
    ensures value == Encipher(RoundsOf(c, widthBits / 2), widthBits / 2, index)
    ensures value < Pow2(widthBits) && Turns(c, widthBits / 2, index, value)
  {
    EncipherTurns(c, widthBits / 2, index);
    hide Turns;
    var h := widthBits / 2;
    ghost var f := RoundsOf(c, h);
    var halfMask := Pow2(h);
    var halfBytes := HalfBytes(h);
    HalfFits(h);
    JoinSplit(h, index);
    DivMod(index, halfMask);
    var left, right := index / halfMask, index % halfMask;
    for roundNo := 0 to ROUNDS
      invariant (left, right) == Forward(f, h, roundNo, Split(h, index))
      invariant left < halfMask && right < halfMask
    {
      RoundFacts(f, h, roundNo, (left, right));
      var v := RoundValue(c, roundNo, right, halfBytes) % halfMask;
      left, right := right, Xor(left, v);
    }
    SplitJoin(h, (left, right));
    value := left * halfMask + right;
  }

  // The containing domain

  /** The number of binary digits of n. */
  function BitLength(n: nat): nat {
    if n == 0 then 0 else 1 + BitLength(n / 2)
  }

  lemma {:induction false} BitLengthBounds(n: nat)
    requires n > 0
    ensures BitLength(n) >= 1 && Pow2(BitLength(n) - 1) <= n < Pow2(BitLength(n))
  {
    if n == 1 {
      assert BitLength(n / 2) == 0;
    } else {
      BitLengthBounds(n / 2);
    }
  }

  function WidthBits(count: nat): (w: nat)
    requires count >= 1
    ensures w % 2 == 0
  {
    var bits := if BitLength(count - 1) < 2 then 2 else BitLength(count - 1);
    if bits % 2 != 0 then bits + 1 else bits
  }

  function DomainSize(count: nat): nat
    requires count >= 1
  {
    Pow2(WidthBits(count))
  }

  /** The domain holds every index and is less than four times as large as needed. */
  lemma DomainBounds(count: nat)
    requires count >= 2
    ensures count <= DomainSize(count) <= 4 * (count - 1)
  {
    var bits := BitLength(count - 1);
    BitLengthBounds(count - 1);
    Pow2Monotone(bits, WidthBits(count));
    assert Pow2(bits) == 2 * Pow2(bits - 1);
    assert Pow2(2) == 2 * Pow2(1) == 4;
    if bits >= 2 {
      Pow2Monotone(WidthBits(count), bits + 1);
      assert Pow2(bits + 1) == 2 * Pow2(bits);
    }
  }

  /** No smaller even width of at least two bits holds every index. */
  lemma WidthIsSmallest(count: nat, width: nat)
    requires count >= 2 && width >= 2 && width % 2 == 0 && count <= Pow2(width)
    ensures WidthBits(count) <= width
  {
    BitLengthBounds(count - 1);
    if width < BitLength(count - 1) {
      Pow2Monotone(width, BitLength(count - 1) - 1);
    }
  }

  // Permuted indexes

  function StepOf(c: Keying, count: nat): Step
    requires ContextFits(c) && count >= 1
  {
    var h := WidthBits(count) / 2;
    (x: nat) => Encipher(RoundsOf(c, h), h, x)
  }

  function StepBackOf(c: Keying, count: nat): Step
    requires ContextFits(c) && count >= 1
  {
    var h := WidthBits(count) / 2;
    (x: nat) => Decipher(RoundsOf(c, h), h, x)
  }

  lemma StepPermutes(c: Keying, count: nat)
    requires ContextFits(c) && count >= 2
    ensures Permutes(StepOf(c, count), StepBackOf(c, count), DomainSize(count))
    ensures count <= DomainSize(count)
  {
    var h := WidthBits(count) / 2;
    EncipherPermutes(RoundsOf(c, h), h);
    DomainBounds(count);
    forall x: nat | x < DomainSize(count)
      ensures PermutesAt(StepOf(c, count), StepBackOf(c, count), DomainSize(count), x)
    {
      assert PermutesAt((x: nat) => Encipher(RoundsOf(c, h), h, x), (x: nat) => Decipher(RoundsOf(c, h), h, x),
                        Pow2(2 * h), x);
    }
  }

  /** Where a block index goes, or why it cannot be computed. */
  function TargetOf(c: Keying, count: nat, index: int): (r: Result<nat, KrpError>)
    ensures r.Ok? ==> r.value < count
  {
    if !(0 <= index < count) then Err(IndexOutOfRange)
    else if count <= 1 then Ok(index)
    else if !ContextFits(c) then Err(ContextTooLong)
    else match Walk(StepOf(c, count), count, WALK_LIMIT, index)
         case Some(target) => Ok(target)
         case None => Err(WalkLimitExceeded)
  }

  /** Half the least even width of at least two bits that holds every index. */
  ghost predicate IsHalfWidth(count: nat, h: nat) {
    h >= 1 && count <= Pow2(2 * h) && (h > 1 ==> Pow2(2 * h - 2) < count)
  }

  /** The values of a walk: each turns into the next, and all but the first and the last are no index. */
  ghost predicate IsWalk(c: Keying, count: nat, h: nat, path: seq<nat>, index: nat) {
    && path != [] && path[0] == index
    && (forall i :: 0 <= i < |path| - 1 ==> Turns(c, h, path[i], path[i + 1]))
    && (forall i :: 0 < i < |path| - 1 ==> path[i] >= count)
  }

  /** The target is the end of a walk of at most 128 steps; there is none if 128 steps lead to no index. */
  ghost predicate WalksTo(c: Keying, count: nat, index: nat, r: Result<nat, KrpError>) {
    exists h: nat, path: seq<nat> ::
      IsHalfWidth(count, h) && IsWalk(c, count, h, path, index) && 2 <= |path| <= 129
      && (if path[|path| - 1] < count then r == Ok(path[|path| - 1]) else |path| == 129 && r == Err(WalkLimitExceeded))
  }

  /** What the target of an index is when there are two or more blocks. */
  lemma TargetIsWalked(c: Keying, count: nat, index: nat)
    requires index < count && count >= 2 && ContextFits(c)
    ensures WalksTo(c, count, index, TargetOf(c, count, index))
  {
    hide Turns, Pow2, Encipher, RoundsOf, BitLength;
    var h := WidthBits(count) / 2;
    StepPermutes(c, count);
    HalfWidthOf(count);
    var path := Walked(c, count, h, WALK_LIMIT, index);
  }

  lemma HalfWidthOf(count: nat)
    requires count >= 2
    ensures WidthBits(count) == 2 * (WidthBits(count) / 2) && IsHalfWidth(count, WidthBits(count) / 2)
  {
    hide Pow2, BitLength;
    DomainBounds(count);
    var w := WidthBits(count);
    if w > 2 && count <= Pow2(w - 2) {
      WidthIsSmallest(count, w - 2);
    }
  }

  /** The walk with some of its steps left. */
  lemma {:induction false} Walked(c: Keying, count: nat, h: nat, fuel: nat, x: nat) returns (path: seq<nat>)
    requires ContextFits(c) && count >= 2 && h == WidthBits(count) / 2 && x < DomainSize(count) && fuel >= 1
    ensures IsWalk(c, count, h, path, x) && 2 <= |path| <= fuel + 1
    ensures var r := Walk(StepOf(c, count), count, fuel, x);
            if path[|path| - 1] < count then r == Some(path[|path| - 1]) else |path| == fuel + 1 && r == None
  {
    hide Turns, Pow2, Encipher, RoundsOf, BitLength, WidthBits;
    HalfWidthOf(count);
    StepPermutes(c, count);
    var next := StepOf(c, count)(x);
    assert PermutesAt(StepOf(c, count), StepBackOf(c, count), DomainSize(count), x);
    EncipherTurns(c, h, x);
    if next < count || fuel == 1 {
      path := [x, next];
    } else {
      var rest := Walked(c, count, h, fuel - 1, next);
      path := [x] + rest;
    }
  }

  /** The guarded cycle walk. */
  method PermutedIndex(index: int, count: nat, c: Keying) returns (r: Result<nat, KrpError>)
    ensures r == TargetOf(c, count, index)
    ensures 0 <= index < count && count >= 2 && |c.context| < 0x1_0000 ==> WalksTo(c, count, index, r)
    ensures r == Err(IndexOutOfRange) <==> !(0 <= index < count)
    ensures r == Err(ContextTooLong) <==> 0 <= index < count && count >= 2 && |c.context| >= 0x1_0000
    ensures index == 0 && count == 1 ==> r == Ok(0)
  {
    hide WalksTo, Turns, Walk, StepOf, Encipher, RoundsOf, WidthBits, BitLength, Pow2;
    if 0 <= index < count && count >= 2 && ContextFits(c) {
      TargetIsWalked(c, count, index);
    }
    if !(0 <= index < count) {
      return Err(IndexOutOfRange);
    }
    if count <= 1 {
      return Ok(index);
    }
    if !ContextFits(c) {
      return Err(ContextTooLong);
    }
    var widthBits := WidthBits(count);
    DomainBounds(count);
    var value: nat := index;
    for i := 0 to WALK_LIMIT
      invariant value < Pow2(widthBits)
      invariant Walk(StepOf(c, count), count, WALK_LIMIT, index) == Walk(StepOf(c, count), count, WALK_LIMIT - i, value)
    {
      OneStepFurther(c, count, WALK_LIMIT - i, value);
      value := FeistelOnce(value, c, widthBits);
      if value < count {
        return Ok(value);
      }
    }
    NoStepsLeft(c, count, value);
    return Err(WalkLimitExceeded);
  }

  lemma OneStepFurther(c: Keying, count: nat, fuel: nat, x: nat)
    requires ContextFits(c) && count >= 1 && fuel >= 1
    ensures var h := WidthBits(count) / 2;
            var next := Encipher(RoundsOf(c, h), h, x);
            Walk(StepOf(c, count), count, fuel, x)
            == if next < count then Some(next) else Walk(StepOf(c, count), count, fuel - 1, next)
  {
    hide Encipher, RoundsOf, WidthBits;
  }

  lemma NoStepsLeft(c: Keying, count: nat, x: nat)
    requires ContextFits(c) && count >= 1
    ensures Walk(StepOf(c, count), count, 0, x) == None
  {
  }

  /** Two indexes whose walks finish never share a target. */
  lemma TargetInjective(c: Keying, count: nat, i: int, j: int)
    requires TargetOf(c, count, i).Ok? && TargetOf(c, count, i) == TargetOf(c, count, j)
    ensures i == j
  {
    if count >= 2 {
      StepPermutes(c, count);
      WalkInjective(StepOf(c, count), StepBackOf(c, count), DomainSize(count), count, WALK_LIMIT, i, j);
    }
  }

  /** When every walk finishes, every index is some index's target. */
  lemma TargetSurjective(c: Keying, count: nat, target: nat) returns (index: nat)
    requires target < count
    requires forall i: nat :: i < count ==> TargetOf(c, count, i).Ok?
    ensures index < count && TargetOf(c, count, index) == Ok(target)
  {
    if count <= 1 {
      index := target;
    } else {
      assert TargetOf(c, count, target).Ok?;
      StepPermutes(c, count);
      forall i: nat | i < count ensures Walk(StepOf(c, count), count, WALK_LIMIT, i).Some? {
        assert TargetOf(c, count, i).Ok?;
      }
      index := GuardedSurjective(StepOf(c, count), StepBackOf(c, count), DomainSize(count), count, WALK_LIMIT, target);
    }
  }

  /** The guard stops a walk exactly when none of its first 128 values is an index. */
  lemma GuardFiresExactly(c: Keying, count: nat, index: nat)
    requires index < count && count >= 2 && ContextFits(c)
    ensures TargetOf(c, count, index).Err?
            <==> forall k :: 1 <= k <= WALK_LIMIT ==> Iterate(StepOf(c, count), k, index) >= count
  {
    WalkIsFirstReturn(StepOf(c, count), count, WALK_LIMIT, index);
  }

  /** The guard cannot fire when fewer than 128 domain values are not indexes. */
  lemma GuardCannotFire(c: Keying, count: nat, index: nat)
    requires index < count && ContextFits(c)
    requires DomainSize(count) - count <= WALK_LIMIT - 1
    ensures TargetOf(c, count, index).Ok?
  {
    if count >= 2 {
      StepPermutes(c, count);
      WalkFinishes(StepOf(c, count), StepBackOf(c, count), DomainSize(count), count, index);
      WalkMoreFuel(StepOf(c, count), count, DomainSize(count) - count + 1, WALK_LIMIT, index);
    }
  }

  /** Up to 64 blocks the guard never fires. */
  lemma SmallCountsAlwaysFinish(c: Keying, count: nat, index: nat)
    requires index < count <= 64 && ContextFits(c)
    ensures TargetOf(c, count, index).Ok?
  {
    if count >= 2 {
      assert Pow2(2) == 4 && Pow2(4) == 16 && Pow2(6) == 64 by { assert Pow2(3) == 8; }
      WidthIsSmallest(count, 6);
      Pow2Monotone(WidthBits(count), 6);
    } else {
      assert BitLength(0) == 0 && DomainSize(1) == Pow2(2) == 4;
    }
    GuardCannotFire(c, count, index);
  }
}
