/** An authenticated cipher as a parameter: seal and open take key, nonce, text and associated data. */
module IdealCipher {
  import opened Bytes
  import opened Framing

  datatype Aead = Aead(
    seal: (seq<byte>, seq<byte>, seq<byte>, seq<byte>) -> seq<byte>,
    open: (seq<byte>, seq<byte>, seq<byte>, seq<byte>) -> Option<seq<byte>>)

  /** Ideal: opens exactly what it sealed under the same key, nonce and associated data. */
  ghost predicate Ideal(a: Aead) {
    && (forall k, n, p, d ::
          |a.seal(k, n, p, d)| == |p| + GCM_TAG_SIZE && a.open(k, n, a.seal(k, n, p, d), d) == Some(p))
    && (forall k, n, c, d :: a.open(k, n, c, d).Some? ==> c == a.seal(k, n, a.open(k, n, c, d).value, d))
  }

  /** The assumption can be met: appending a tag of zeros meets it, without keeping any secret. */
  lemma IdealCiphersExist() returns (a: Aead)
    ensures Ideal(a)
  {
    var tag: seq<byte> := seq(GCM_TAG_SIZE, _ => 0);
    a := Aead((k, n, p, d) => p + tag,
              (k, n, c: seq<byte>, d) =>
                if |c| >= GCM_TAG_SIZE && c[|c| - GCM_TAG_SIZE..] == tag then Some(c[..|c| - GCM_TAG_SIZE]) else None);
    forall k: seq<byte>, n: seq<byte>, p: seq<byte>, d: seq<byte>
      ensures |a.seal(k, n, p, d)| == |p| + GCM_TAG_SIZE && a.open(k, n, a.seal(k, n, p, d), d) == Some(p)
    {
      var c := p + tag;
      assert c[|c| - GCM_TAG_SIZE..] == tag && c[..|c| - GCM_TAG_SIZE] == p;
    }
    forall k: seq<byte>, n: seq<byte>, c: seq<byte>, d: seq<byte> | a.open(k, n, c, d).Some?
      ensures c == a.seal(k, n, a.open(k, n, c, d).value, d)
    {
      assert c == c[..|c| - GCM_TAG_SIZE] + c[|c| - GCM_TAG_SIZE..];
    }
  }
}
