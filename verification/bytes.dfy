/** Bytes, option and result types, powers of two and big-endian integers. */
module Bytes {

  type byte = x: int | 0 <= x < 256

  datatype Option<+T> = None | Some(value: T)

  datatype Result<+T, +E> = Ok(value: T) | Err(error: E) {
    predicate IsFailure() { Err? }

    function PropagateFailure<U>(): Result<U, E>
      requires Err?
    {
      Err(error)
    }

    function Extract(): T
      requires Ok?
    {
      value
    }
  }

  function Pow2(n: nat): (p: nat)
    ensures p >= 1
  {
    if n == 0 then 1 else 2 * Pow2(n - 1)
  }

  lemma {:induction false} Pow2Add(a: nat, b: nat)
    ensures Pow2(a + b) == Pow2(a) * Pow2(b)
  {
    if a > 0 {
      Pow2Add(a - 1, b);
      assert Pow2(a + b) == 2 * Pow2(a - 1 + b);
    }
  }

  lemma {:induction false} Pow2Monotone(a: nat, b: nat)
    requires a <= b
    ensures Pow2(a) <= Pow2(b)
  {
    if a < b {
      Pow2Monotone(a, b - 1);
    }
  }

  /** Number of values that fit in n bytes. */
  function Pow256(n: nat): (p: nat)
    ensures p >= 1
  {
    if n == 0 then 1 else 256 * Pow256(n - 1)
  }

  lemma Pow256Values()
    ensures Pow256(0) == 1 && Pow256(1) == 256 && Pow256(2) == 0x1_0000
    ensures Pow256(4) == 0x1_0000_0000
    ensures Pow256(8) == 0x1_0000_0000_0000_0000
  {
    assert Pow256(3) == 0x100_0000;
    assert Pow256(5) == 0x100_0000_0000;
    assert Pow256(6) == 0x1_0000_0000_0000;
    assert Pow256(7) == 0x100_0000_0000_0000;
  }

  /** The n-byte big-endian form of v. */
  function ToBytes(v: nat, n: nat): (s: seq<byte>)
    requires v < Pow256(n)
    ensures |s| == n
  {
    if n == 0 then [] else ToBytes(v / 256, n - 1) + [v % 256]
  }

  /** The integer that a big-endian byte string denotes. */
  function FromBytes(s: seq<byte>): (v: nat)
    ensures v < Pow256(|s|)
  {
    if s == [] then 0 else 256 * FromBytes(s[..|s| - 1]) + s[|s| - 1]
  }

  /** The number that a byte string stands for, most significant byte first, with what has been read so far. */
  ghost function NumberFrom(read: nat, s: seq<byte>): nat
    decreases |s|
  {
    if s == [] then read else NumberFrom(256 * read + s[0], s[1..])
  }

  ghost function Number(s: seq<byte>): nat {
    NumberFrom(0, s)
  }

  lemma {:induction false} NumberLast(read: nat, s: seq<byte>, b: byte)
    ensures NumberFrom(read, s + [b]) == 256 * NumberFrom(read, s) + b
    decreases |s|
  {
    if s == [] {
      assert (s + [b])[1..] == [];
    } else {
      assert (s + [b])[1..] == s[1..] + [b];
      NumberLast(256 * read + s[0], s[1..], b);
    }
  }

  /** Reading a field gives its number. */
  lemma {:induction false} FromBytesIsNumber(s: seq<byte>)
    ensures FromBytes(s) == Number(s)
  {
    if s != [] {
      FromBytesIsNumber(s[..|s| - 1]);
      NumberLast(0, s[..|s| - 1], s[|s| - 1]);
      assert s == s[..|s| - 1] + [s[|s| - 1]];
    }
  }

  /** Writing a number gives the bytes that stand for it. */
  lemma ToBytesIsNumber(v: nat, n: nat)
    requires v < Pow256(n)
    ensures Number(ToBytes(v, n)) == v
  {
    FromToBytes(v, n);
    FromBytesIsNumber(ToBytes(v, n));
  }

  /** Fields of two and four bytes, digit by digit. */
  lemma NumberDigits(s: seq<byte>)
    ensures |s| == 1 ==> Number(s) == s[0] as nat
    ensures |s| == 2 ==> Number(s) == s[0] as nat * 0x100 + s[1] as nat
    ensures |s| == 4 ==>
              Number(s) == s[0] as nat * 0x100_0000 + s[1] as nat * 0x1_0000 + s[2] as nat * 0x100 + s[3] as nat
  {
    if |s| == 1 || |s| == 2 || |s| == 4 {
      var first: nat := s[0];
      assert Number(s) == NumberFrom(first, s[1..]);
      if |s| >= 2 {
        var two: nat := 256 * first + s[1];
        assert NumberFrom(first, s[1..]) == NumberFrom(two, s[2..]);
        if |s| == 4 {
          var three: nat := 256 * two + s[2];
          assert NumberFrom(two, s[2..]) == NumberFrom(three, s[3..]);
        }
      }
    }
  }

  /** Byte strings of one length are equal if their numbers are. */
  lemma NumberInjective(s: seq<byte>, t: seq<byte>)
    requires |s| == |t| && Number(s) == Number(t)
    ensures s == t
  {
    FromBytesIsNumber(s);
    FromBytesIsNumber(t);
    ToFromBytes(s);
    ToFromBytes(t);
  }

  lemma {:induction false} FromToBytes(v: nat, n: nat)
    requires v < Pow256(n)
    ensures FromBytes(ToBytes(v, n)) == v
  {
    if n > 0 {
      FromToBytes(v / 256, n - 1);
      assert ToBytes(v, n)[..n - 1] == ToBytes(v / 256, n - 1);
    }
  }

  lemma {:induction false} ToFromBytes(s: seq<byte>)
    ensures ToBytes(FromBytes(s), |s|) == s
  {
    if s != [] {
      ToFromBytes(s[..|s| - 1]);
    }
  }

  lemma ToBytesInjective(v: nat, w: nat, n: nat)
    requires v < Pow256(n) && w < Pow256(n)
    requires ToBytes(v, n) == ToBytes(w, n)
    ensures v == w
  {
    FromToBytes(v, n);
    FromToBytes(w, n);
  }

  lemma {:induction false} Pow256IsPow2(n: nat)
    ensures Pow256(n) == Pow2(8 * n)
  {
    if n > 0 {
      Pow256IsPow2(n - 1);
      Pow2Add(8, 8 * (n - 1));
      assert Pow2(8) == 256 by { assert Pow2(4) == 16; Pow2Add(4, 4); }
    }
  }
}
