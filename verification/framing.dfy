/**
 What all framed formats share: integer fields, frame counts, nonces and frame records
 (src/ubin/secure/format.py).
 */
module Framing {
  import opened Arithmetic
  import opened Bitwise
  import opened Bytes

  const GCM_TAG_SIZE: nat := 16
  const FINAL_CIPHERTEXT_SIZE: nat := 48
  const MIN_FRAME_SIZE := 1
  const MAX_FRAME_SIZE := 67_108_864
  const MAX_FRAME_COUNT := 0xFFFF_FFFF_FFFF_FFFE

  /** Big-endian fields of the wire formats. */
  function Field(v: int, n: nat): (s: seq<byte>)
    requires 0 <= v < Pow256(n)
    ensures |s| == n
  {
    ToBytes(v, n)
  }

  lemma FieldRoundTrip(v: int, n: nat)
    requires 0 <= v < Pow256(n)
    ensures FromBytes(Field(v, n)) == v
  {
    FromToBytes(v, n);
  }

  lemma FieldCanonical(s: seq<byte>)
    ensures Field(FromBytes(s), |s|) == s
  {
    ToFromBytes(s);
  }

  predicate Fits(v: int, n: nat) {
    0 <= v < Pow256(n)
  }

  /** How many frames a source of this size takes. */
  function FrameCount(size: nat, frameSize: nat): (n: nat)
    requires frameSize >= 1
  {
    if size == 0 then 0 else DivMod(size + frameSize - 1, frameSize); (size + frameSize - 1) / frameSize
  }

  /** Taking one frame off leaves one frame less. */
  lemma FrameCountStep(size: nat, frameSize: nat)
    requires frameSize >= 1 && size > 0
    ensures FrameCount(size, frameSize) == 1 + FrameCount(size - Min(frameSize, size), frameSize)
  {
    if size <= frameSize {
      DivModUnique(1, size - 1, frameSize);
      assert size + frameSize - 1 == 1 * frameSize + (size - 1);
    } else {
      var rest := size - frameSize + frameSize - 1;
      DivMod(rest, frameSize);
      var q, r := rest / frameSize, rest % frameSize;
      ProductGap(q, q + 1, frameSize);
      assert size + frameSize - 1 == (q + 1) * frameSize + r;
      DivModUnique(q + 1, r, frameSize);
    }
  }

  lemma NoFramesLeft(size: nat, frameSize: nat)
    requires frameSize >= 1
    ensures FrameCount(size, frameSize) == 0 <==> size == 0
  {
    if size > 0 {
      FrameCountStep(size, frameSize);
    }
  }

  /** count frames hold the size, and one frame less does not. */
  ghost predicate IsCount(size: nat, frameSize: nat, count: nat) {
    size <= count * frameSize && (count > 0 ==> (count - 1) * frameSize < size)
  }

  lemma CountExactly(size: nat, frameSize: nat, count: nat)
    requires frameSize >= 1
    ensures IsCount(size, frameSize, count) <==> count == FrameCount(size, frameSize)
  {
    var n := FrameCount(size, frameSize);
    DivMod(size + frameSize - 1, frameSize);
    assert IsCount(size, frameSize, n) by {
      if size > 0 {
        assert (n - 1) * frameSize == n * frameSize - frameSize;
      }
    }
    if IsCount(size, frameSize, count) {
      if count < n {
        ProductGap(count, n, frameSize);
      } else if n < count {
        ProductGap(n, count, frameSize);
      }
    }
  }

  // Nonces

  lemma CombinedFits(low: seq<byte>, n: nat)
    requires |low| == 8 && Fits(n, 8)
    ensures Xor(FromBytes(low), n) < Pow256(8)
  {
    hide FromBytes, Xor;
    Pow256IsPow2(8);
    XorBounded(FromBytes(low), n, 64);
  }

  /** The base with the frame number combined into its last eight bytes. */
  function FrameNonce(base: seq<byte>, frameNumber: nat): (nonce: seq<byte>)
    requires |base| == 12 && Fits(frameNumber, 8)
    ensures |nonce| == 12
  {
    CombinedFits(base[4..], frameNumber);
    base[..4] + ToBytes(Xor(FromBytes(base[4..]), frameNumber), 8)
  }

  /** Different frame numbers have different nonces. */
  lemma NonceInjective(base: seq<byte>, m: nat, n: nat)
    requires |base| == 12 && Fits(m, 8) && Fits(n, 8)
    requires FrameNonce(base, m) == FrameNonce(base, n)
    ensures m == n
  {
    var low := FromBytes(base[4..]);
    CombinedFits(base[4..], m);
    CombinedFits(base[4..], n);
    assert FrameNonce(base, m)[4..] == ToBytes(Xor(low, m), 8);
    assert FrameNonce(base, n)[4..] == ToBytes(Xor(low, n), 8);
    ToBytesInjective(Xor(low, m), Xor(low, n), 8);
    XorInjective(m, n, low);
  }

  // Frame records

  function FrameMeta(frameNumber: nat, plaintextLen: nat, ciphertextLen: nat): (s: seq<byte>)
    requires Fits(frameNumber, 8) && Fits(plaintextLen, 4) && Fits(ciphertextLen, 4)
    ensures |s| == 16
  {
    Field(frameNumber, 8) + Field(plaintextLen, 4) + Field(ciphertextLen, 4)
  }

  lemma FrameMetaFields(frameNumber: nat, plaintextLen: nat, ciphertextLen: nat)
    requires Fits(frameNumber, 8) && Fits(plaintextLen, 4) && Fits(ciphertextLen, 4)
    ensures var s := FrameMeta(frameNumber, plaintextLen, ciphertextLen);
            FromBytes(s[..8]) == frameNumber && FromBytes(s[8..12]) == plaintextLen
            && FromBytes(s[12..16]) == ciphertextLen
  {
    hide ToBytes, FromBytes;
    var s := FrameMeta(frameNumber, plaintextLen, ciphertextLen);
    FieldRoundTrip(frameNumber, 8);
    FieldRoundTrip(plaintextLen, 4);
    FieldRoundTrip(ciphertextLen, 4);
    assert s[..8] == Field(frameNumber, 8) && s[8..12] == Field(plaintextLen, 4)
           && s[12..16] == Field(ciphertextLen, 4);
  }

  lemma FrameMetaCanonical(s: seq<byte>)
    requires |s| == 16
    ensures Fits(FromBytes(s[..8]), 8) && Fits(FromBytes(s[8..12]), 4) && Fits(FromBytes(s[12..16]), 4)
    ensures FrameMeta(FromBytes(s[..8]), FromBytes(s[8..12]), FromBytes(s[12..16])) == s
  {
    hide ToBytes, FromBytes;
    FieldCanonical(s[..8]);
    FieldCanonical(s[8..12]);
    FieldCanonical(s[12..16]);
    assert s == s[..8] + s[8..12] + s[12..16];
  }

  // Nonces and records, byte by byte

  /** The nonce of a frame: the base, its last eight bytes combined with the number. */
  ghost predicate IsNonce(base: seq<byte>, n: nat, nonce: seq<byte>) {
    && |base| == |nonce| == 12
    && nonce[..4] == base[..4] && Number(nonce[4..]) == Xor(Number(base[4..]), n)
  }

  lemma NonceExactly(base: seq<byte>, n: nat, nonce: seq<byte>)
    requires |base| == 12 && Fits(n, 8)
    ensures IsNonce(base, n, nonce) <==> nonce == FrameNonce(base, n)
  {
    hide ToBytes, FromBytes, Number, Xor;
    var correct := FrameNonce(base, n);
    FromBytesIsNumber(base[4..]);
    CombinedFits(base[4..], n);
    ToBytesIsNumber(Xor(FromBytes(base[4..]), n), 8);
    assert correct[..4] == base[..4] && correct[4..] == ToBytes(Xor(FromBytes(base[4..]), n), 8);
    if IsNonce(base, n, nonce) {
      NumberInjective(nonce[4..], correct[4..]);
      assert nonce == nonce[..4] + nonce[4..] && correct == correct[..4] + correct[4..];
    }
  }

  /** A frame's record: its number in eight bytes, its length in four, and the length with the tag in four. */
  ghost predicate IsRecord(record: seq<byte>, n: nat, len: nat) {
    && |record| == 16
    && Number(record[..8]) == n && Number(record[8..12]) == len && Number(record[12..16]) == len + 16
  }

  lemma RecordExactly(record: seq<byte>, n: nat, len: nat)
    requires Fits(n, 8) && Fits(len + GCM_TAG_SIZE, 4)
    ensures IsRecord(record, n, len) <==> record == FrameMeta(n, len, len + GCM_TAG_SIZE)
  {
    hide ToBytes, FromBytes, Number;
    var correct := FrameMeta(n, len, len + GCM_TAG_SIZE);
    FrameMetaFields(n, len, len + GCM_TAG_SIZE);
    FromBytesIsNumber(correct[..8]);
    FromBytesIsNumber(correct[8..12]);
    FromBytesIsNumber(correct[12..16]);
    if IsRecord(record, n, len) {
      NumberInjective(record[..8], correct[..8]);
      NumberInjective(record[8..12], correct[8..12]);
      NumberInjective(record[12..16], correct[12..16]);
      assert record == record[..8] + record[8..12] + record[12..16];
      assert correct == correct[..8] + correct[8..12] + correct[12..16];
    }
  }

  // A source that need not have its size any more

  /** What the source has, cut or filled up to the size in the header. */
  ghost function Supplied(source: seq<byte>, size: nat): (p: seq<byte>)
    ensures |p| == size
  {
    if |source| >= size then source[..size] else source + seq(size - |source|, _ => 0)
  }

  lemma SuppliedAll(source: seq<byte>, size: nat)
    ensures size <= |source| ==> Supplied(source, size) == source[..size]
  {
  }

  lemma SuppliedPart(source: seq<byte>, size: nat, at: nat, len: nat)
    requires at + len <= size && at + len <= |source|
    ensures var rest := Supplied(source, size)[at..];
            rest[..len] == source[at..at + len] && rest[len..] == Supplied(source, size)[at + len..]
  {
  }
}
