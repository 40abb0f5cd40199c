/** Scattering and gathering of blocks, in a buffer and in files (src/ubin/secure/krp.py). */
module KrpBlocks {
  import opened Arithmetic
  import opened Bytes
  import opened Krp

  const DEFAULT_BLOCK_SIZE: nat := 4096

  // Block positions

  /** A byte string of this length has exactly count complete blocks. */
  ghost predicate Holds(count: nat, size: nat, length: nat) {
    Offset(count, size) <= length < Offset(count, size) + size
  }

  lemma CountHolds(size: nat, length: nat)
    requires size > 0
    ensures length / size >= 0 && Holds(length / size, size, length)
  {
    DivMod(length, size);
    OffsetIsProduct(length / size, size);
  }

  /** Every position is in one block or in the tail. */
  lemma {:induction false} BlockOf(k: nat, count: nat, size: nat) returns (i: nat)
    requires k < Offset(count, size)
    ensures i < count && Offset(i, size) <= k < Offset(i, size) + size
  {
    if k < Offset(count - 1, size) {
      i := BlockOf(k, count - 1, size);
    } else {
      i := count - 1;
    }
  }

  // Specification

  /** Block i of raw is the block of out at i's target. */
  ghost predicate BlockMoved(c: Keying, size: nat, count: nat, raw: seq<byte>, out: seq<byte>, i: nat) {
    && TargetOf(c, count, i).Ok?
    && SameBlock(size, raw, i, out, TargetOf(c, count, i).value)
  }

  ghost predicate SameBlock(size: nat, raw: seq<byte>, i: nat, out: seq<byte>, t: nat) {
    && Offset(t, size) + size <= |out| && Offset(i, size) + size <= |raw|
    && raw[Offset(i, size)..Offset(i, size) + size] == out[Offset(t, size)..Offset(t, size) + size]
  }

  /** Complete blocks moved to their targets, short tail unmoved. */
  ghost predicate PermutedBlocks(c: Keying, size: nat, count: nat, raw: seq<byte>, out: seq<byte>) {
    && |out| == |raw|
    && (forall i: nat :: i < count ==> BlockMoved(c, size, count, raw, out, i))
    && Offset(count, size) <= |raw|
    && raw[Offset(count, size)..] == out[Offset(count, size)..]
  }

  /** out is raw with every complete block moved to its target and the short tail unmoved. */
  ghost predicate Permuted(c: Keying, size: nat, raw: seq<byte>, out: seq<byte>)
    requires size > 0
  {
    |raw| / size >= 0 && PermutedBlocks(c, size, |raw| / size, raw, out)
  }

  ghost predicate AllTargetsExist(c: Keying, count: nat) {
    forall i: nat :: i < count ==> TargetOf(c, count, i).Ok?
  }

  function Validate(c: Keying, blockSize: int): Option<KrpError> {
    if |c.key| < MIN_KEY then Some(BadKey)
    else if blockSize <= 0 then Some(BadBlockSize)
    else None
  }

  /** Why this many blocks cannot be permuted, or None. */
  ghost function CountRefusal(c: Keying, count: nat): Option<KrpError> {
    if AllTargetsExist(c, count) then None
    else if !ContextFits(c) then Some(ContextTooLong)
    else Some(WalkLimitExceeded)
  }

  /** Why a byte string of this length is refused, or None.  It does not depend on the bytes. */
  ghost function Refusal(c: Keying, blockSize: int, length: nat): Option<KrpError> {
    if Validate(c, blockSize).Some? then Validate(c, blockSize)
    else CountHolds(blockSize, length); CountRefusal(c, length / blockSize)
  }

  lemma RefusalOf(c: Keying, count: nat, i: nat)
    requires i < count && TargetOf(c, count, i).Err?
    ensures CountRefusal(c, count) == Some(TargetOf(c, count, i).error)
  {
    assert !AllTargetsExist(c, count);
  }

  // What is moved where, written out

  /** Block i of n goes to t: nowhere else if it is the only one, or else to the end of its walk. */
  ghost predicate GoesTo(c: Keying, n: nat, i: nat, t: nat) {
    if n <= 1 then t == i else WalksTo(c, n, i, Ok(t))
  }

  ghost predicate BlockArrived(c: Keying, size: nat, n: nat, raw: seq<byte>, out: seq<byte>, i: nat) {
    exists t: nat :: GoesTo(c, n, i, t) && BlockAt(size, raw, i * size, out, t * size)
  }

  ghost predicate BlockAt(size: nat, raw: seq<byte>, a: nat, out: seq<byte>, b: nat) {
    a + size <= |raw| && b + size <= |out| && raw[a..a + size] == out[b..b + size]
  }

  /** Each of the n complete blocks is where it goes, and what follows them stays. */
  ghost predicate Rearranged(c: Keying, size: nat, raw: seq<byte>, out: seq<byte>) {
    exists n: nat ::
      && n * size <= |raw| == |out| < n * size + size
      && (forall i: nat :: i < n ==> BlockArrived(c, size, n, raw, out, i))
      && raw[n * size..] == out[n * size..]
  }

  lemma MovedHasArrived(c: Keying, size: nat, n: nat, raw: seq<byte>, out: seq<byte>, i: nat)
    requires i < n && BlockMoved(c, size, n, raw, out, i)
    ensures BlockArrived(c, size, n, raw, out, i)
  {
    hide WalksTo, TargetOf;
    var t := TargetOf(c, n, i).value;
    OffsetIsProduct(i, size);
    OffsetIsProduct(t, size);
    GoesToTarget(c, n, i);
    assert BlockAt(size, raw, i * size, out, t * size);
  }

  lemma GoesToTarget(c: Keying, n: nat, i: nat)
    requires i < n && TargetOf(c, n, i).Ok?
    ensures GoesTo(c, n, i, TargetOf(c, n, i).value)
  {
    if n >= 2 {
      TargetIsWalked(c, n, i);
    }
  }

  lemma PermutedIsRearranged(c: Keying, size: nat, raw: seq<byte>, out: seq<byte>)
    requires size > 0 && Permuted(c, size, raw, out)
    ensures Rearranged(c, size, raw, out)
  {
    hide BlockMoved, BlockArrived;
    var n := |raw| / size;
    CountHolds(size, |raw|);
    OffsetIsProduct(n, size);
    forall i: nat | i < n ensures BlockArrived(c, size, n, raw, out, i) {
      MovedHasArrived(c, size, n, raw, out, i);
    }
  }

  /** Why n blocks are refused: the context is too long for its field, or a walk of 128 steps finds no index. */
  ghost predicate Blocked(c: Keying, n: nat, e: KrpError) {
    n >= 2
    && if |c.context| >= 0x1_0000 then e == ContextTooLong
       else e == WalkLimitExceeded && exists i: nat :: i < n && WalksTo(c, n, i, Err(WalkLimitExceeded))
  }

  /** The first reason to refuse a byte string: a key under 16 bytes, no block size, or its number of blocks. */
  ghost predicate Refused(c: Keying, blockSize: int, length: nat, e: KrpError) {
    if |c.key| < 16 then e == BadKey
    else if blockSize <= 0 then e == BadBlockSize
    else exists n: nat :: n * blockSize <= length < n * blockSize + blockSize && Blocked(c, n, e)
  }

  lemma RefusalIsRefused(c: Keying, blockSize: int, length: nat)
    requires Refusal(c, blockSize, length).Some?
    ensures Refused(c, blockSize, length, Refusal(c, blockSize, length).value)
  {
    hide WalksTo, TargetOf;
    if |c.key| >= 16 && blockSize > 0 {
      var n := length / blockSize;
      CountHolds(blockSize, length);
      OffsetIsProduct(n, blockSize);
      var i: nat :| i < n && TargetOf(c, n, i).Err?;
      BlockedAt(c, n, i);
    }
  }

  lemma BlockedAt(c: Keying, n: nat, i: nat)
    requires i < n && TargetOf(c, n, i).Err?
    ensures Blocked(c, n, if ContextFits(c) then WalkLimitExceeded else ContextTooLong)
  {
    hide WalksTo;
    if ContextFits(c) && n >= 2 {
      TargetIsWalked(c, n, i);
    }
  }

  // Writing one block

  /** The bytes of s with those from offset on replaced by block. */
  function Overwrite(s: seq<byte>, offset: nat, block: seq<byte>): (r: seq<byte>)
    requires offset + |block| <= |s|
    ensures |r| == |s|
  {
    s[..offset] + block + s[offset + |block|..]
  }

  lemma OverwriteKeeps(s: seq<byte>, offset: nat, block: seq<byte>, a: nat, b: nat)
    requires offset + |block| <= |s| && a <= b <= |s|
    requires b <= offset || offset + |block| <= a
    ensures Overwrite(s, offset, block)[a..b] == s[a..b]
  {
  }

  lemma OverwriteSets(s: seq<byte>, offset: nat, block: seq<byte>)
    requires offset + |block| <= |s|
    ensures Overwrite(s, offset, block)[offset..offset + |block|] == block
  {
  }

  lemma Disjoint(size: nat, a: nat, b: nat)
    requires a != b
    ensures Offset(a, size) + size <= Offset(b, size) || Offset(b, size) + size <= Offset(a, size)
  {
    if a < b { OffsetGap(a, b, size); } else { OffsetGap(b, a, size); }
  }

  /** Writing block i at its target keeps the blocks already written: no target is used twice. */
  lemma ScatterStep(c: Keying, size: nat, count: nat, raw: seq<byte>, out: seq<byte>, i: nat, block: seq<byte>)
    requires |out| == |raw| && Offset(count, size) <= |raw| && i < count
    requires TargetOf(c, count, i).Ok?
    requires forall j: nat :: j < i ==> BlockMoved(c, size, count, raw, out, j)
    requires Offset(i, size) + size <= |raw| && block == raw[Offset(i, size)..Offset(i, size) + size]
    requires Offset(TargetOf(c, count, i).value, size) + size <= |out|
    ensures forall j: nat :: j <= i ==>
              BlockMoved(c, size, count, raw, Overwrite(out, Offset(TargetOf(c, count, i).value, size), block), j)
  {
    hide TargetOf, Overwrite;
    var t := TargetOf(c, count, i).value;
    var next := Overwrite(out, Offset(t, size), block);
    forall j: nat | j <= i ensures BlockMoved(c, size, count, raw, next, j) {
      if j < i {
        assert BlockMoved(c, size, count, raw, out, j);
        var u := TargetOf(c, count, j).value;
        if u == t {
          TargetInjective(c, count, i, j);
        }
        Disjoint(size, u, t);
        OverwriteKeeps(out, Offset(t, size), block, Offset(u, size), Offset(u, size) + size);
      } else {
        OverwriteSets(out, Offset(t, size), block);
      }
    }
  }

  /** Reading block i's target into place i keeps the blocks already read. */
  lemma GatherStep(c: Keying, size: nat, count: nat, raw: seq<byte>, out: seq<byte>, i: nat, block: seq<byte>)
    requires |out| == |raw| && Offset(count, size) <= |raw| && i < count
    requires TargetOf(c, count, i).Ok?
    requires forall j: nat :: j < i ==> BlockMoved(c, size, count, out, raw, j)
    requires Offset(i, size) + size <= |raw|
    requires Offset(TargetOf(c, count, i).value, size) + size <= |raw|
    requires block == raw[Offset(TargetOf(c, count, i).value, size)..Offset(TargetOf(c, count, i).value, size) + size]
    ensures forall j: nat :: j <= i ==> BlockMoved(c, size, count, Overwrite(out, Offset(i, size), block), raw, j)
  {
    hide TargetOf, Overwrite;
    var next := Overwrite(out, Offset(i, size), block);
    forall j: nat | j <= i ensures BlockMoved(c, size, count, next, raw, j) {
      if j < i {
        assert BlockMoved(c, size, count, out, raw, j);
        Disjoint(size, j, i);
        OverwriteKeeps(out, Offset(i, size), block, Offset(j, size), Offset(j, size) + size);
      } else {
        OverwriteSets(out, Offset(i, size), block);
      }
    }
  }

  /** Blocks keep their places when only the tail is written. */
  lemma TailKeeps(size: nat, count: nat, s: seq<byte>, i: nat, tail: seq<byte>)
    requires i < count && Offset(count, size) + |tail| == |s|
    ensures Offset(i, size) + size <= |s|
    ensures Overwrite(s, Offset(count, size), tail)[Offset(i, size)..Offset(i, size) + size]
            == s[Offset(i, size)..Offset(i, size) + size]
  {
    OffsetGap(i, count, size);
    OverwriteKeeps(s, Offset(count, size), tail, Offset(i, size), Offset(i, size) + size);
  }

  lemma ScatterTail(c: Keying, size: nat, count: nat, raw: seq<byte>, out: seq<byte>)
    requires |out| == |raw| && Offset(count, size) <= |raw|
    requires forall j: nat :: j < count ==> BlockMoved(c, size, count, raw, out, j)
    ensures PermutedBlocks(c, size, count, raw, Overwrite(out, Offset(count, size), raw[Offset(count, size)..]))
  {
    hide TargetOf, Overwrite;
    var tail := raw[Offset(count, size)..];
    var done := Overwrite(out, Offset(count, size), tail);
    OverwriteSets(out, Offset(count, size), tail);
    assert done[Offset(count, size)..] == done[Offset(count, size)..Offset(count, size) + |tail|];
    forall j: nat | j < count ensures BlockMoved(c, size, count, raw, done, j) {
      assert BlockMoved(c, size, count, raw, out, j);
      TailKeeps(size, count, out, TargetOf(c, count, j).value, tail);
    }
  }

  lemma GatherTail(c: Keying, size: nat, count: nat, raw: seq<byte>, out: seq<byte>)
    requires |out| == |raw| && Offset(count, size) <= |raw|
    requires forall j: nat :: j < count ==> BlockMoved(c, size, count, out, raw, j)
    ensures PermutedBlocks(c, size, count, Overwrite(out, Offset(count, size), raw[Offset(count, size)..]), raw)
  {
    hide TargetOf, Overwrite;
    var tail := raw[Offset(count, size)..];
    var done := Overwrite(out, Offset(count, size), tail);
    OverwriteSets(out, Offset(count, size), tail);
    assert done[Offset(count, size)..] == done[Offset(count, size)..Offset(count, size) + |tail|];
    forall j: nat | j < count ensures BlockMoved(c, size, count, done, raw, j) {
      assert BlockMoved(c, size, count, out, raw, j);
      TailKeeps(size, count, out, j, tail);
    }
  }

  lemma AllMovedAllExist(c: Keying, size: nat, count: nat, raw: seq<byte>, out: seq<byte>)
    requires forall j: nat :: j < count ==> BlockMoved(c, size, count, raw, out, j)
    ensures AllTargetsExist(c, count)
  {
    forall i: nat | i < count ensures TargetOf(c, count, i).Ok? {
      assert BlockMoved(c, size, count, raw, out, i);
    }
  }

  /** With at most one complete block nothing moves. */
  lemma OneBlockStays(c: Keying, size: nat, count: nat, raw: seq<byte>)
    requires Holds(count, size, |raw|) && count <= 1
    ensures PermutedBlocks(c, size, count, raw, raw) && AllTargetsExist(c, count)
  {
    forall i: nat | i < count ensures BlockMoved(c, size, count, raw, raw, i) {
      assert Offset(count, size) == Offset(0, size) + size;
    }
    AllMovedAllExist(c, size, count, raw, raw);
  }

  // Round trips

  /** Byte strings that agree on every complete block and on the tail are equal. */
  lemma SameBytes(size: nat, count: nat, a: seq<byte>, b: seq<byte>)
    requires |a| == |b| && Offset(count, size) <= |a|
    requires forall i: nat :: i < count ==> SameBlock(size, a, i, b, i)
    requires a[Offset(count, size)..] == b[Offset(count, size)..]
    ensures a == b
  {
    forall k: nat | k < |a| ensures a[k] == b[k] {
      if k < Offset(count, size) {
        var i := BlockOf(k, count, size);
        assert SameBlock(size, a, i, b, i);
        assert a[Offset(i, size)..Offset(i, size) + size][k - Offset(i, size)]
            == b[Offset(i, size)..Offset(i, size) + size][k - Offset(i, size)];
      } else {
        assert a[Offset(count, size)..][k - Offset(count, size)] == b[Offset(count, size)..][k - Offset(count, size)];
      }
    }
  }

  /** Only one byte string can have been permuted into a given one: restoring recovers it. */
  lemma RestoreInvertsPermute(c: Keying, size: nat, raw: seq<byte>, wire: seq<byte>, restored: seq<byte>)
    requires size > 0 && Permuted(c, size, raw, wire) && Permuted(c, size, restored, wire)
    ensures restored == raw
  {
    var count: nat := |raw| / size;
    forall i: nat | i < count ensures SameBlock(size, raw, i, restored, i) {
      assert BlockMoved(c, size, count, raw, wire, i);
      assert BlockMoved(c, size, count, restored, wire, i);
    }
    SameBytes(size, count, raw, restored);
  }

  /** Permuting has one result only, so permuting what was restored gives it back. */
  lemma PermuteInvertsRestore(c: Keying, size: nat, raw: seq<byte>, wire: seq<byte>, again: seq<byte>)
    requires size > 0 && Permuted(c, size, raw, wire) && Permuted(c, size, raw, again)
    ensures again == wire
  {
    var count: nat := |raw| / size;
    AllMovedAllExist(c, size, count, raw, wire);
    forall t: nat | t < count ensures SameBlock(size, wire, t, again, t) {
      var i := TargetSurjective(c, count, t);
      assert BlockMoved(c, size, count, raw, wire, i);
      assert BlockMoved(c, size, count, raw, again, i);
    }
    SameBytes(size, count, wire, again);
  }

  /** What has been permuted is refused neither way. */
  lemma SameRefusal(c: Keying, size: nat, raw: seq<byte>, wire: seq<byte>)
    requires size > 0 && |c.key| >= MIN_KEY && Permuted(c, size, raw, wire)
    ensures Refusal(c, size, |wire|).None? && Refusal(c, size, |raw|).None?
  {
    AllMovedAllExist(c, size, |raw| / size, raw, wire);
  }

  // Block by block

  function Zeros(n: nat): (s: seq<byte>)
    ensures |s| == n && forall i :: 0 <= i < n ==> s[i] == 0
  {
    seq(n, _ => 0)
  }

  ghost predicate Targeted(c: Keying, size: nat, count: nat, length: nat, i: nat) {
    Holds(count, size, length) && i <= count && forall j: nat :: j < i ==> TargetOf(c, count, j).Ok?
  }

  /** The first i blocks at their targets, and zeros everywhere else. */
  ghost function Scattering(c: Keying, size: nat, count: nat, raw: seq<byte>, i: nat): (out: seq<byte>)
    requires Targeted(c, size, count, |raw|, i)
    ensures |out| == |raw|
  {
    if i == 0 then Zeros(|raw|)
    else
      Positions(c, count, size, |raw|, i - 1);
      Overwrite(Scattering(c, size, count, raw, i - 1), Offset(TargetOf(c, count, i - 1).value, size),
                raw[Offset(i - 1, size)..Offset(i - 1, size) + size])
  }

  /** The first i blocks from their targets, and zeros behind them. */
  ghost function Gathering(c: Keying, size: nat, count: nat, wire: seq<byte>, i: nat): (out: seq<byte>)
    requires Targeted(c, size, count, |wire|, i)
    ensures |out| == |wire|
  {
    if i == 0 then Zeros(|wire|)
    else
      Positions(c, count, size, |wire|, i - 1);
      var at := Offset(TargetOf(c, count, i - 1).value, size);
      Overwrite(Gathering(c, size, count, wire, i - 1), Offset(i - 1, size), wire[at..at + size])
  }

  /** Block k is the first whose walk is refused. */
  ghost predicate FirstRefused(c: Keying, size: nat, count: nat, length: nat, k: nat) {
    Targeted(c, size, count, length, k) && k < count && TargetOf(c, count, k).Err?
  }

  lemma IsFirstRefused(c: Keying, size: nat, count: nat, length: nat, k: nat)
    requires Targeted(c, size, count, length, k) && k < count && TargetOf(c, count, k).Err?
    ensures FirstRefused(c, size, count, length, k)
  {
  }

  lemma ScatteringStarts(c: Keying, size: nat, count: nat, raw: seq<byte>)
    requires Holds(count, size, |raw|)
    ensures Targeted(c, size, count, |raw|, 0) && Scattering(c, size, count, raw, 0) == Zeros(|raw|)
  {
  }

  lemma ScatteringFurther(c: Keying, size: nat, count: nat, raw: seq<byte>, i: nat)
    requires Targeted(c, size, count, |raw|, i) && i < count && TargetOf(c, count, i).Ok?
    ensures Targeted(c, size, count, |raw|, i + 1)
    ensures var at, to := Offset(i, size), Offset(TargetOf(c, count, i).value, size);
            && at + size <= |raw| && to + size <= |raw|
            && Scattering(c, size, count, raw, i + 1)
               == Overwrite(Scattering(c, size, count, raw, i), to, raw[at..at + size])
  {
    hide TargetOf, Overwrite, Holds;
    Positions(c, count, size, |raw|, i);
  }

  lemma GatheringStarts(c: Keying, size: nat, count: nat, wire: seq<byte>)
    requires Holds(count, size, |wire|)
    ensures Targeted(c, size, count, |wire|, 0) && Gathering(c, size, count, wire, 0) == Zeros(|wire|)
  {
  }

  lemma GatheringFurther(c: Keying, size: nat, count: nat, wire: seq<byte>, i: nat)
    requires Targeted(c, size, count, |wire|, i) && i < count && TargetOf(c, count, i).Ok?
    ensures Targeted(c, size, count, |wire|, i + 1)
    ensures var at, to := Offset(TargetOf(c, count, i).value, size), Offset(i, size);
            && at + size <= |wire| && to + size <= |wire|
            && Gathering(c, size, count, wire, i + 1)
               == Overwrite(Gathering(c, size, count, wire, i), to, wire[at..at + size])
  {
    hide TargetOf, Overwrite, Holds;
    Positions(c, count, size, |wire|, i);
  }

  lemma {:induction false} ScatteringMoves(c: Keying, size: nat, count: nat, raw: seq<byte>, i: nat)
    requires Targeted(c, size, count, |raw|, i)
    ensures forall j: nat :: j < i ==> BlockMoved(c, size, count, raw, Scattering(c, size, count, raw, i), j)
  {
    hide TargetOf, Overwrite;
    if i > 0 {
      ScatteringMoves(c, size, count, raw, i - 1);
      ScatteringFurther(c, size, count, raw, i - 1);
      var block := raw[Offset(i - 1, size)..Offset(i - 1, size) + size];
      ScatterStep(c, size, count, raw, Scattering(c, size, count, raw, i - 1), i - 1, block);
    }
  }

  lemma {:induction false} GatheringMoves(c: Keying, size: nat, count: nat, wire: seq<byte>, i: nat)
    requires Targeted(c, size, count, |wire|, i)
    ensures forall j: nat :: j < i ==> BlockMoved(c, size, count, Gathering(c, size, count, wire, i), wire, j)
  {
    hide TargetOf, Overwrite;
    if i > 0 {
      GatheringMoves(c, size, count, wire, i - 1);
      GatheringFurther(c, size, count, wire, i - 1);
      var at := Offset(TargetOf(c, count, i - 1).value, size);
      GatherStep(c, size, count, wire, Gathering(c, size, count, wire, i - 1), i - 1, wire[at..at + size]);
    }
  }

  /**
   A length is refused on the way out exactly when it is on the way back: exactly when some byte string
   has no counterpart.
   */
  lemma RefusedBothWays(c: Keying, size: nat, data: seq<byte>)
    requires size > 0 && |c.key| >= MIN_KEY
    ensures Refusal(c, size, |data|).None? <==> exists wire :: Permuted(c, size, data, wire)
    ensures Refusal(c, size, |data|).None? <==> exists raw :: Permuted(c, size, raw, data)
  {
    CountHolds(size, |data|);
    var count: nat := |data| / size;
    if Refusal(c, size, |data|).None? {
      ScatteringMoves(c, size, count, data, count);
      var out := Scattering(c, size, count, data, count);
      ScatterTail(c, size, count, data, out);
      assert Permuted(c, size, data, Overwrite(out, Offset(count, size), data[Offset(count, size)..]));
      GatheringMoves(c, size, count, data, count);
      var raw := Gathering(c, size, count, data, count);
      GatherTail(c, size, count, data, raw);
      assert Permuted(c, size, Overwrite(raw, Offset(count, size), data[Offset(count, size)..]), data);
    }
    if wire :| Permuted(c, size, data, wire) {
      SameRefusal(c, size, data, wire);
    }
    if raw :| Permuted(c, size, raw, data) {
      SameRefusal(c, size, raw, data);
    }
  }

  // In a buffer

  /** The positions of block i and of its target, as the code computes them. */
  lemma Positions(c: Keying, count: nat, size: nat, length: nat, i: nat)
    requires i < count && Holds(count, size, length)
    ensures Offset(i, size) == i * size && Offset(i, size) + size <= length
    ensures TargetOf(c, count, i).Ok? ==>
              var t := TargetOf(c, count, i).value;
              Offset(t, size) == t * size && Offset(t, size) + size <= length
  {
    OffsetIsProduct(i, size);
    OffsetGap(i, count, size);
    if TargetOf(c, count, i).Ok? {
      OffsetIsProduct(TargetOf(c, count, i).value, size);
      OffsetGap(TargetOf(c, count, i).value, count, size);
    }
  }

  method CopyBlock(out: array<byte>, dst: nat, raw: seq<byte>, src: nat, size: nat)
    requires dst + size <= out.Length && src + size <= |raw|
    modifies out
    ensures out[..] == Overwrite(old(out[..]), dst, raw[src..src + size])
  {
    forall k | 0 <= k < size {
      out[dst + k] := raw[src + k];
    }
  }

  method PermuteBlocks(data: seq<byte>, c: Keying, blockSize: int) returns (r: Result<seq<byte>, KrpError>)
    ensures r.Ok? <==> Refusal(c, blockSize, |data|).None?
    ensures r.Err? ==> Refusal(c, blockSize, |data|) == Some(r.error)
    ensures r.Ok? ==> Permuted(c, blockSize, data, r.value)
    ensures r.Ok? ==> blockSize > 0 && Rearranged(c, blockSize, data, r.value)
    ensures r.Err? ==> Refused(c, blockSize, |data|, r.error)
  {
    hide Rearranged, Refused, WalksTo;
    if Refusal(c, blockSize, |data|).Some? {
      RefusalIsRefused(c, blockSize, |data|);
    }
    var refused := Validate(c, blockSize);
    if refused.Some? {
      return Err(refused.value);
    }
    CountHolds(blockSize, |data|);
    var blockCount: nat := |data| / blockSize;
    if blockCount <= 1 {
      OneBlockStays(c, blockSize, blockCount, data);
      PermutedIsRearranged(c, blockSize, data, data);
      return Ok(data);
    }
    OffsetIsProduct(blockCount, blockSize);
    var fullLen := blockCount * blockSize;
    var out := new byte[|data|](_ => 0);
    for sourceIndex := 0 to blockCount
      invariant forall j: nat :: j < sourceIndex ==> BlockMoved(c, blockSize, blockCount, data, out[..], j)
    {
      var target := PermutedIndex(sourceIndex, blockCount, c);
      if target.Err? {
        RefusalOf(c, blockCount, sourceIndex);
        return Err(target.error);
      }
      Positions(c, blockCount, blockSize, |data|, sourceIndex);
      var src := sourceIndex * blockSize;
      var dst := target.value * blockSize;
      ScatterStep(c, blockSize, blockCount, data, out[..], sourceIndex, data[src..src + blockSize]);
      CopyBlock(out, dst, data, src, blockSize);
    }
    AllMovedAllExist(c, blockSize, blockCount, data, out[..]);
    ScatterTail(c, blockSize, blockCount, data, out[..]);
    CopyBlock(out, fullLen, data, fullLen, |data| - fullLen);
    assert data[fullLen..fullLen + (|data| - fullLen)] == data[fullLen..];
    PermutedIsRearranged(c, blockSize, data, out[..]);
    return Ok(out[..]);
  }

  method RestoreBlocks(data: seq<byte>, c: Keying, blockSize: int) returns (r: Result<seq<byte>, KrpError>)
    ensures r.Ok? <==> Refusal(c, blockSize, |data|).None?
    ensures r.Err? ==> Refusal(c, blockSize, |data|) == Some(r.error)
    ensures r.Ok? ==> Permuted(c, blockSize, r.value, data)
    ensures r.Ok? ==> blockSize > 0 && Rearranged(c, blockSize, r.value, data)
    ensures r.Err? ==> Refused(c, blockSize, |data|, r.error)
  {
    hide Rearranged, Refused, WalksTo;
    if Refusal(c, blockSize, |data|).Some? {
      RefusalIsRefused(c, blockSize, |data|);
    }
    var refused := Validate(c, blockSize);
    if refused.Some? {
      return Err(refused.value);
    }
    CountHolds(blockSize, |data|);
    var blockCount: nat := |data| / blockSize;
    if blockCount <= 1 {
      OneBlockStays(c, blockSize, blockCount, data);
      PermutedIsRearranged(c, blockSize, data, data);
      return Ok(data);
    }
    OffsetIsProduct(blockCount, blockSize);
    var fullLen := blockCount * blockSize;
    var out := new byte[|data|](_ => 0);
    for originalIndex := 0 to blockCount
      invariant forall j: nat :: j < originalIndex ==> BlockMoved(c, blockSize, blockCount, out[..], data, j)
    {
      var permuted := PermutedIndex(originalIndex, blockCount, c);
      if permuted.Err? {
        RefusalOf(c, blockCount, originalIndex);
        return Err(permuted.error);
      }
      Positions(c, blockCount, blockSize, |data|, originalIndex);
      var src := permuted.value * blockSize;
      var dst := originalIndex * blockSize;
      GatherStep(c, blockSize, blockCount, data, out[..], originalIndex, data[src..src + blockSize]);
      CopyBlock(out, dst, data, src, blockSize);
    }
    AllMovedAllExist(c, blockSize, blockCount, out[..], data);
    GatherTail(c, blockSize, blockCount, data, out[..]);
    CopyBlock(out, fullLen, data, fullLen, |data| - fullLen);
    assert data[fullLen..fullLen + (|data| - fullLen)] == data[fullLen..];
    PermutedIsRearranged(c, blockSize, out[..], data);
    return Ok(out[..]);
  }
}
