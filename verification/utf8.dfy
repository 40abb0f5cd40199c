/** UTF-8 as in sections 3 and 4 of RFC 3629, over code points that may include surrogates. */
module Utf8 {
  import opened Bytes

  type CodePoint = c: int | 0 <= c <= 0x10FFFF

  /** Surrogates have no encoding. */
  predicate IsScalar(c: CodePoint) {
    !(0xD800 <= c <= 0xDFFF)
  }

  predicate Encodable(s: seq<CodePoint>) {
    forall i :: 0 <= i < |s| ==> IsScalar(s[i])
  }

  function EncodeOne(c: CodePoint): (r: seq<byte>)
    ensures 1 <= |r| <= 4
  {
    if c < 0x80 then [c]
    else if c < 0x800 then [0xC0 + c / 64, 0x80 + c % 64]
    else if c < 0x1_0000 then [0xE0 + c / 4096, 0x80 + c / 64 % 64, 0x80 + c % 64]
    else [0xF0 + c / 262144, 0x80 + c / 4096 % 64, 0x80 + c / 64 % 64, 0x80 + c % 64]
  }

  function Encode(s: seq<CodePoint>): seq<byte> {
    if s == [] then [] else EncodeOne(s[0]) + Encode(s[1..])
  }

  predicate IsTail(b: byte) {
    0x80 <= b <= 0xBF
  }

  /** The payload bits of a byte whose marker is base. */
  function Bits(b: byte, base: int): int {
    b - base
  }

  /** The first code point and its length, with the byte ranges of the syntax in section 4. */
  function DecodeOne(b: seq<byte>): (r: Option<(CodePoint, nat)>)
    ensures r.Some? ==> 1 <= r.value.1 <= |b|
  {
    if b == [] then None
    else if b[0] < 0x80 then Some((b[0], 1))
    else if 0xC2 <= b[0] <= 0xDF then
      if |b| >= 2 && IsTail(b[1]) then Some((Bits(b[0], 0xC0) * 64 + Bits(b[1], 0x80), 2)) else None
    else if 0xE0 <= b[0] <= 0xEF then
      if |b| >= 3 && IsTail(b[1]) && IsTail(b[2]) && (b[0] == 0xE0 ==> b[1] >= 0xA0) && (b[0] == 0xED ==> b[1] <= 0x9F)
      then Some((Bits(b[0], 0xE0) * 4096 + Bits(b[1], 0x80) * 64 + Bits(b[2], 0x80), 3)) else None
    else if 0xF0 <= b[0] <= 0xF4 then
      if |b| >= 4 && IsTail(b[1]) && IsTail(b[2]) && IsTail(b[3])
         && (b[0] == 0xF0 ==> b[1] >= 0x90) && (b[0] == 0xF4 ==> b[1] <= 0x8F)
      then Some((Bits(b[0], 0xF0) * 262144 + Bits(b[1], 0x80) * 4096 + Bits(b[2], 0x80) * 64 + Bits(b[3], 0x80), 4))
      else None
    else None
  }

  function Decode(b: seq<byte>): Option<seq<CodePoint>> {
    if b == [] then Some([])
    else match DecodeOne(b)
         case None => None
         case Some((c, n)) =>
           match Decode(b[n..])
           case None => None
           case Some(rest) => Some([c] + rest)
  }

  /** The base-64 digits of a code point. */
  lemma Digits(c: CodePoint)
    ensures c == c / 64 * 64 + c % 64
    ensures c / 64 == c / 4096 * 64 + c / 64 % 64
    ensures c / 4096 == c / 262144 * 64 + c / 4096 % 64
  {
  }

  lemma DigitsUnique(q: int, r: int)
    requires 0 <= r < 64
    ensures (q * 64 + r) / 64 == q && (q * 64 + r) % 64 == r
  {
  }

  lemma DecodeTwo(c: CodePoint, b: seq<byte>)
    requires 0x80 <= c < 0x800 && |b| >= 2 && b[0] == 0xC0 + c / 64 && b[1] == 0x80 + c % 64
    ensures DecodeOne(b) == Some((c, 2))
  {
    Digits(c);
  }

  lemma DecodeThree(c: CodePoint, b: seq<byte>)
    requires 0x800 <= c < 0x1_0000 && IsScalar(c)
    requires |b| >= 3 && b[0] == 0xE0 + c / 4096 && b[1] == 0x80 + c / 64 % 64 && b[2] == 0x80 + c % 64
    ensures DecodeOne(b) == Some((c, 3))
  {
    Digits(c);
  }

  lemma DecodeFour(c: CodePoint, b: seq<byte>)
    requires 0x1_0000 <= c
    requires |b| >= 4 && b[0] == 0xF0 + c / 262144 && b[1] == 0x80 + c / 4096 % 64
    requires b[2] == 0x80 + c / 64 % 64 && b[3] == 0x80 + c % 64
    ensures DecodeOne(b) == Some((c, 4))
  {
    Digits(c);
  }

  lemma DecodeEncodeOne(c: CodePoint, rest: seq<byte>)
    requires IsScalar(c)
    ensures DecodeOne(EncodeOne(c) + rest) == Some((c, |EncodeOne(c)|))
  {
    var b := EncodeOne(c) + rest;
    if c < 0x80 {
    } else if c < 0x800 {
      DecodeTwo(c, b);
    } else if c < 0x1_0000 {
      DecodeThree(c, b);
    } else {
      DecodeFour(c, b);
    }
  }

  lemma EncodeTwo(c: CodePoint, b0: byte, b1: byte)
    requires 0xC2 <= b0 <= 0xDF && IsTail(b1) && c == Bits(b0, 0xC0) * 64 + Bits(b1, 0x80)
    ensures IsScalar(c) && EncodeOne(c) == [b0, b1]
  {
    DigitsUnique(Bits(b0, 0xC0), Bits(b1, 0x80));
  }

  lemma EncodeThree(c: CodePoint, b0: byte, b1: byte, b2: byte)
    requires 0xE0 <= b0 <= 0xEF && IsTail(b1) && IsTail(b2) && (b0 == 0xE0 ==> b1 >= 0xA0)
             && (b0 == 0xED ==> b1 <= 0x9F)
    requires c == Bits(b0, 0xE0) * 4096 + Bits(b1, 0x80) * 64 + Bits(b2, 0x80)
    ensures IsScalar(c) && EncodeOne(c) == [b0, b1, b2]
  {
    var high := Bits(b0, 0xE0) * 64 + Bits(b1, 0x80);
    assert c == high * 64 + Bits(b2, 0x80);
    DigitsUnique(high, Bits(b2, 0x80));
    DigitsUnique(Bits(b0, 0xE0), Bits(b1, 0x80));
    assert c / 4096 == c / 64 / 64;
  }

  lemma EncodeFour(c: CodePoint, b0: byte, b1: byte, b2: byte, b3: byte)
    requires 0xF0 <= b0 <= 0xF4 && IsTail(b1) && IsTail(b2) && IsTail(b3)
    requires (b0 == 0xF0 ==> b1 >= 0x90) && (b0 == 0xF4 ==> b1 <= 0x8F)
    requires c == Bits(b0, 0xF0) * 262144 + Bits(b1, 0x80) * 4096 + Bits(b2, 0x80) * 64 + Bits(b3, 0x80)
    ensures IsScalar(c) && EncodeOne(c) == [b0, b1, b2, b3]
  {
    var top := Bits(b0, 0xF0) * 64 + Bits(b1, 0x80);
    var high := top * 64 + Bits(b2, 0x80);
    assert c == high * 64 + Bits(b3, 0x80);
    DigitsUnique(high, Bits(b3, 0x80));
    DigitsUnique(top, Bits(b2, 0x80));
    DigitsUnique(Bits(b0, 0xF0), Bits(b1, 0x80));
    assert c / 4096 == c / 64 / 64 && c / 262144 == c / 64 / 64 / 64;
  }

  lemma EncodeDecodeOne(b: seq<byte>)
    requires DecodeOne(b).Some?
    ensures var (c, n) := DecodeOne(b).value; IsScalar(c) && EncodeOne(c) == b[..n]
  {
    var (c, n) := DecodeOne(b).value;
    if n == 2 {
      EncodeTwo(c, b[0], b[1]);
    } else if n == 3 {
      EncodeThree(c, b[0], b[1], b[2]);
    } else if n == 4 {
      EncodeFour(c, b[0], b[1], b[2], b[3]);
    }
  }

  /** Decoding undoes encoding. */
  lemma {:induction false} DecodeEncode(s: seq<CodePoint>)
    requires Encodable(s)
    ensures Decode(Encode(s)) == Some(s)
  {
    hide DecodeOne, EncodeOne;
    if s != [] {
      var first, rest := EncodeOne(s[0]), Encode(s[1..]);
      DecodeEncodeOne(s[0], rest);
      assert (first + rest)[|first|..] == rest;
      DecodeEncode(s[1..]);
      assert s == [s[0]] + s[1..];
    }
  }

  /** Only canonical byte strings decode: re-encoding gives the same bytes. */
  lemma {:induction false} EncodeDecode(b: seq<byte>)
    requires Decode(b).Some?
    ensures Encodable(Decode(b).value) && Encode(Decode(b).value) == b
  {
    hide DecodeOne, EncodeOne;
    if b != [] {
      var (c, n) := DecodeOne(b).value;
      EncodeDecodeOne(b);
      EncodeDecode(b[n..]);
      var rest := Decode(b[n..]).value;
      assert ([c] + rest)[1..] == rest;
      assert b == b[..n] + b[n..];
    }
  }

  lemma EncodeInjective(s: seq<CodePoint>, t: seq<CodePoint>)
    requires Encodable(s) && Encodable(t) && Encode(s) == Encode(t)
    ensures s == t
  {
    DecodeEncode(s);
    DecodeEncode(t);
  }

  // The bytes of a text, written out

  predicate IsContinuation(b: byte) {
    0x80 <= b < 0xC0
  }

  /** The shortest form that holds the code point: marker bits and then groups of six bits. */
  predicate IsForm(c: CodePoint, b: seq<byte>) {
    || (|b| == 1 && c < 0x80 && c == b[0])
    || (|b| == 2 && 0x80 <= c && 0xC0 <= b[0] < 0xE0 && IsContinuation(b[1])
        && c == (b[0] as int - 0xC0) * 0x40 + (b[1] as int - 0x80))
    || (|b| == 3 && 0x800 <= c && 0xE0 <= b[0] < 0xF0 && IsContinuation(b[1]) && IsContinuation(b[2])
        && c == (b[0] as int - 0xE0) * 0x1000 + (b[1] as int - 0x80) * 0x40 + (b[2] as int - 0x80))
    || (|b| == 4 && 0x1_0000 <= c && 0xF0 <= b[0] < 0xF8 && IsContinuation(b[1]) && IsContinuation(b[2])
        && IsContinuation(b[3])
        && c == (b[0] as int - 0xF0) * 0x4_0000 + (b[1] as int - 0x80) * 0x1000 + (b[2] as int - 0x80) * 0x40
                + (b[3] as int - 0x80))
  }

  lemma FormOf(c: CodePoint)
    ensures IsForm(c, EncodeOne(c))
  {
    Digits(c);
  }

  lemma FormIsUnique(c: CodePoint, b: seq<byte>)
    requires IsForm(c, b)
    ensures b == EncodeOne(c)
  {
    if |b| == 1 {
      assert b == [b[0]];
    } else if |b| == 2 {
      DigitsUnique(b[0] as int - 0xC0, b[1] as int - 0x80);
      assert b == [b[0], b[1]];
    } else if |b| == 3 {
      var high := (b[0] as int - 0xE0) * 64 + (b[1] as int - 0x80);
      DigitsUnique(high, b[2] as int - 0x80);
      DigitsUnique(b[0] as int - 0xE0, b[1] as int - 0x80);
      assert c / 4096 == c / 64 / 64 && b == [b[0], b[1], b[2]];
    } else {
      var high := (b[0] as int - 0xF0) * 64 + (b[1] as int - 0x80);
      var middle := high * 64 + (b[2] as int - 0x80);
      DigitsUnique(middle, b[3] as int - 0x80);
      DigitsUnique(high, b[2] as int - 0x80);
      DigitsUnique(b[0] as int - 0xF0, b[1] as int - 0x80);
      assert c / 4096 == c / 64 / 64 && c / 262144 == c / 4096 / 64 && b == [b[0], b[1], b[2], b[3]];
    }
  }

  /** One form after the other. */
  ghost predicate IsTextForm(s: seq<CodePoint>, b: seq<byte>) {
    if s == [] then b == []
    else exists n: nat :: n <= |b| && IsForm(s[0], b[..n]) && IsTextForm(s[1..], b[n..])
  }

  /** The encoding of a text is its form, and nothing else is. */
  lemma {:induction false} EncodeExactly(s: seq<CodePoint>, b: seq<byte>)
    ensures IsTextForm(s, b) <==> b == Encode(s)
  {
    hide IsForm, EncodeOne;
    if s != [] {
      var first, rest := EncodeOne(s[0]), Encode(s[1..]);
      if b == Encode(s) {
        FormOf(s[0]);
        EncodeExactly(s[1..], b[|first|..]);
        assert b[..|first|] == first && b[|first|..] == rest;
      }
      if n: nat :| n <= |b| && IsForm(s[0], b[..n]) && IsTextForm(s[1..], b[n..]) {
        FormIsUnique(s[0], b[..n]);
        EncodeExactly(s[1..], b[n..]);
        assert b == b[..n] + b[n..];
      }
    }
  }
}
