/** Key and context decide where blocks go (src/ubin/secure/krp.py). */
module KrpKeys {
  import opened Bitwise
  import opened Bytes
  import opened Feistel
  import opened Krp

  /** The digest of one byte that tells one key and context from all others. */
  function Telling(key: seq<byte>, context: seq<byte>): Mac
    requires |context| < 0x1_0000
  {
    Pow256Values();
    (k: seq<byte>, m: seq<byte>) => if k == key && IsFor(m, context) then [1] else [0]
  }

  predicate IsFor(m: seq<byte>, context: seq<byte>)
    requires |context| < 0x1_0000
  {
    Pow256Values();
    |m| >= 16 + |context| && m[14..16] == ToBytes(|context|, 2) && m[16..16 + |context|] == context
  }

  lemma TellsApart(key: seq<byte>, context: seq<byte>, key': seq<byte>, context': seq<byte>, roundNo: nat, x: nat)
    requires |context| < 0x1_0000 && |context'| < 0x1_0000 && roundNo < 256 && x < 2
    ensures RoundsOf(Keying(Telling(key, context), key', context'), 1)(roundNo, x)
            == if key == key' && context == context' then 1 else 0
  {
    hide ToBytes, FromBytes;
    Pow256Values();
    var m := ROUND_LABEL + ToBytes(|context'|, 2) + context' + ToBytes(roundNo, 1) + ToBytes(x, 1);
    assert m[14..16] == ToBytes(|context'|, 2) && m[16..16 + |context'|] == context';
    if IsFor(m, context) {
      ToBytesInjective(|context|, |context'|, 2);
    }
    assert RoundsOf(Keying(Telling(key, context), key', context'), 1)(roundNo, x)
           == FromBytes(Telling(key, context)(key', m)[..1]);
    OneDigit(0);
    OneDigit(1);
    assert [0][..1] == [0] && [1][..1] == [1];
  }

  lemma OneDigit(b: byte)
    ensures FromBytes([b]) == b
  {
    assert [b][..0] == [];
  }

  /** The digits 0 and 1, combined with a digit. */
  lemma DigitsXor()
    ensures Xor(0, 0) == 0 && Xor(0, 1) == 1 && Xor(1, 0) == 1 && Xor(1, 1) == 0
  {
  }

  ghost predicate AlwaysGives(f: RoundFn, v: nat) {
    forall i: nat, x: nat :: i < 6 && x < 2 ==> f(i, x) == v
  }

  /** Six rounds that always give the same digit. */
  lemma SameDigit(f: RoundFn, v: nat)
    requires v < 2 && AlwaysGives(f, v)
    ensures Encipher(f, 1, 1) == if v == 1 then 2 else 1
  {
    DigitsXor();
    assert Pow2(1) == 2;
    hide Xor, Pow2;
    var flip: nat := 1 - v;
    assert Forward(f, 1, 1, (0, 1)) == (1, v);
    assert Forward(f, 1, 2, (0, 1)) == (v, flip);
    assert Forward(f, 1, 3, (0, 1)) == (flip, 0);
    assert Forward(f, 1, 4, (0, 1)) == (0, 1);
    assert Forward(f, 1, 5, (0, 1)) == (1, v);
    assert Forward(f, 1, 6, (0, 1)) == (v, flip);
  }

  lemma FourBlocks(c: Keying, v: nat)
    requires ContextFits(c) && v < 2 && AlwaysGives(RoundsOf(c, 1), v)
    ensures TargetOf(c, 4, 1) == Ok(if v == 1 then 2 else 1)
  {
    assert WidthBits(4) == 2 by {
      assert BitLength(3) == 2 by { assert BitLength(1) == 1; }
    }
    hide WidthBits, RoundsOf, Encipher;
    SameDigit(RoundsOf(c, 1), v);
  }

  /** For any two different pairs of key and context some digest function puts block 1 of 4 at different places. */
  lemma KeyAndContextMatter(key: seq<byte>, context: seq<byte>, key': seq<byte>, context': seq<byte>) returns (mac: Mac)
    requires |context| < 0x1_0000 && |context'| < 0x1_0000 && (key != key' || context != context')
    ensures TargetOf(Keying(mac, key, context), 4, 1) == Ok(2)
    ensures TargetOf(Keying(mac, key', context'), 4, 1) == Ok(1)
  {
    hide TargetOf, RoundsOf, Telling;
    mac := Telling(key, context);
    forall i: nat, x: nat | i < 6 && x < 2
      ensures RoundsOf(Keying(mac, key, context), 1)(i, x) == 1
      ensures RoundsOf(Keying(mac, key', context'), 1)(i, x) == 0
    {
      TellsApart(key, context, key, context, i, x);
      TellsApart(key, context, key', context', i, x);
    }
    FourBlocks(Keying(mac, key, context), 1);
    FourBlocks(Keying(mac, key', context'), 0);
  }
}
