/**
 Containers cannot borrow each other's records (src/ubin/secure/container.py, format.py): the cipher
 is ideal and seals no text alike under the two headers in question.
 */
module ContainerExchange {
  import opened Bytes
  import opened Container
  import opened ContainerForm
  import opened Framing
  import opened IdealCipher

  /** No ciphertext comes about under both of these associated data, whatever the nonces and texts. */
  ghost predicate NeverAlike(s: Suite, d: seq<byte>, d': seq<byte>) {
    forall nonce, nonce', p, p' :: s.aead.seal(s.key, nonce, p, d) != s.aead.seal(s.key, nonce', p', d')
  }

  /** The bytes between the header and the second frame, by the length in the first frame's record. */
  ghost function FirstFrame(data: seq<byte>): seq<byte>
    requires |data| >= 74 && |data| >= 90 + Number(data[66..70])
  {
    data[58..90 + Number(data[66..70])]
  }

  /** An accepted container with content starts with a frame whose text it seals with its header. */
  ghost predicate Opens(s: Suite, data: seq<byte>) {
    && |data| >= 74 && |data| >= 90 + Number(data[66..70]) && Number(data[58..66]) == 0
    && exists nonce, part ::
         data[74..90 + Number(data[66..70])] == s.aead.seal(s.key, nonce, part, data[..58] + data[58..74])
  }

  lemma StartsWithFrame(s: Suite, data: seq<byte>, p: seq<byte>)
    requires Lawful(s) && Restore(s, data) == Ok(p) && p != []
    ensures Opens(s, data)
  {
    hide Restore, Number;
    RestoreExactly(s, data, p);
    var frameSize: nat, sessionId, nonceBase :|
      IsContainer(s.aead, s.hash, s.key, frameSize, sessionId, nonceBase, p, data);
    var len := if |p| < frameSize then |p| else frameSize;
    var frames := data[58..|data| - 56];
    assert IsFrame(s.aead, s.key, data[..58], 0, p[..len], frames[..len + 32]);
    RecordInside(data, len);
    var nonce :| IsNonce(data[..58][46..58], 0, nonce)
                 && frames[..len + 32][16..]
                    == s.aead.seal(s.key, nonce, p[..len], data[..58] + frames[..len + 32][..16]);
  }

  lemma RecordInside(data: seq<byte>, len: nat)
    requires |data| >= 58 + 56 + len + 32
    ensures var frame := data[58..|data| - 56][..len + 32];
            && frame[16..] == data[74..90 + len] && frame[..16] == data[58..74]
            && frame[..16][..8] == data[58..66] && frame[..16][8..12] == data[66..70]
  {
    var frames := data[58..|data| - 56];
    assert frames[..len + 32] == data[58..90 + len];
    var frame := data[58..90 + len];
    PartOfPart(data, 58, 90 + len, 16, len + 32);
    PartOfPart(data, 58, 90 + len, 0, 16);
    PartOfPart(data, 58, 74, 0, 8);
    PartOfPart(data, 58, 74, 8, 12);
  }

  lemma PartOfPart<T>(s: seq<T>, a: nat, b: nat, c: nat, d: nat)
    requires a <= b <= |s| && c <= d <= b - a
    ensures s[a..b][c..d] == s[a + c..a + d]
    ensures c == 0 ==> s[a..b][..d] == s[a..a + d]
    ensures d == b - a ==> s[a..b][c..] == s[a + c..b]
  {
    var part, whole := s[a..b][c..d], s[a + c..a + d];
    forall i | 0 <= i < d - c ensures part[i] == whole[i] {
      assert s[a..b][c + i] == s[a + c + i];
    }
    assert part == whole;
  }

  /** The frame that was put behind another header is there with its record. */
  lemma Moved(raw: seq<byte>, other: seq<byte>, tail: seq<byte>, len: nat)
    requires |raw| == 58 && |other| >= 90 + len
    ensures var data := raw + other[58..90 + len] + tail;
            && data[..58] == raw && data[58..74] == other[58..74] && data[58..66] == other[58..66]
            && data[66..70] == other[66..70] && data[74..90 + len] == other[74..90 + len]
  {
    var data := raw + other[58..90 + len] + tail;
    assert data[58..90 + len] == other[58..90 + len];
    PartOfPart(data, 58, 90 + len, 0, 16);
    PartOfPart(other, 58, 90 + len, 0, 16);
    PartOfPart(data, 58, 90 + len, 0, 8);
    PartOfPart(other, 58, 90 + len, 0, 8);
    PartOfPart(data, 58, 90 + len, 8, 12);
    PartOfPart(other, 58, 90 + len, 8, 12);
    PartOfPart(data, 58, 90 + len, 16, len + 32);
    PartOfPart(other, 58, 90 + len, 16, len + 32);
  }

  /** An accepted container ends with a digest that it seals with its header. */
  ghost predicate Closes(s: Suite, data: seq<byte>) {
    && |data| >= 114 && data[|data| - 56..][..8] == [69, 78, 68, 49, 0, 0, 0, 48]
    && exists nonce, digest ::
         data[|data| - 56..][8..] == s.aead.seal(s.key, nonce, digest, data[..58] + [69, 78, 68, 49, 0, 0, 0, 48])
  }

  lemma EndsWithFinal(s: Suite, data: seq<byte>, p: seq<byte>)
    requires Lawful(s) && Restore(s, data) == Ok(p)
    ensures Closes(s, data)
    ensures p == [] ==> data[58..66] == [69, 78, 68, 49, 0, 0, 0, 48]
  {
    hide Restore, Number;
    RestoreExactly(s, data, p);
    var frameSize: nat, sessionId, nonceBase :|
      IsContainer(s.aead, s.hash, s.key, frameSize, sessionId, nonceBase, p, data);
    var final := data[|data| - 56..];
    var nonce :| IsNonce(data[..58][46..58], Number(data[..58][22..30]), nonce)
                 && final[8..] == s.aead.seal(s.key, nonce, s.hash(p), data[..58] + final[..8]);
  }

  /** No container with another header is accepted that starts with the first frame of this one. */
  lemma ForeignFrameRefused(s: Suite, raw: seq<byte>, other: seq<byte>, p: seq<byte>, tail: seq<byte>)
    requires Lawful(s) && Restore(s, other) == Ok(p) && p != []
    requires |raw| == 58 && |other| >= 74 && NeverAlike(s, raw + other[58..74], other[..58] + other[58..74])
    ensures |other| >= 90 + Number(other[66..70])
    ensures Restore(s, raw + FirstFrame(other) + tail).Err?
  {
    hide Restore, Number;
    StartsWithFrame(s, other, p);
    var data := raw + FirstFrame(other) + tail;
    Moved(raw, other, tail, Number(other[66..70]));
    if Restore(s, data).Ok? {
      var q := Restore(s, data).value;
      EndsWithFinal(s, data, q);
      if q == [] {
        FinalIsNoFrame(data[58..66]);
      } else {
        StartsWithFrame(s, data, q);
      }
    }
  }

  lemma FinalIsNoFrame(s: seq<byte>)
    requires s == [69, 78, 68, 49, 0, 0, 0, 48]
    ensures Number(s) != 0
  {
    hide FromBytes, Number;
    FromBytesIsNumber(s);
    ToFromBytes(s);
    assert ToBytes(FromBytes(s), 8) == s;
    assert s[7] == FromBytes(s) % 256;
  }

  /** No container is accepted that ends with the final record of another header's. */
  lemma ForeignFinalRefused(s: Suite, front: seq<byte>, other: seq<byte>)
    requires Lawful(s) && Restore(s, other).Ok? && |front| >= 58 && |other| >= 114
    requires NeverAlike(s, front[..58] + [69, 78, 68, 49, 0, 0, 0, 48], other[..58] + [69, 78, 68, 49, 0, 0, 0, 48])
    ensures Restore(s, front + other[|other| - 56..]).Err?
  {
    hide Restore, Number;
    EndsWithFinal(s, other, Restore(s, other).value);
    var data := front + other[|other| - 56..];
    assert data[..58] == front[..58] && data[|data| - 56..] == other[|other| - 56..];
    if Restore(s, data).Ok? {
      EndsWithFinal(s, data, Restore(s, data).value);
    }
  }

  /** The assumption can be met for any two associated data: tags that tell them apart meet it. */
  lemma SeparatingSuite(d: seq<byte>, d': seq<byte>) returns (s: Suite)
    requires d != d'
    ensures Lawful(s) && NeverAlike(s, d, d')
  {
    var tag := (x: seq<byte>) => if x == d then seq(GCM_TAG_SIZE, _ => 1 as byte)
                                 else seq(GCM_TAG_SIZE, _ => 0 as byte);
    var aead := Aead((k, n, p, x) => p + tag(x),
                     (k, n, c: seq<byte>, x) =>
                       if |c| >= GCM_TAG_SIZE && c[|c| - GCM_TAG_SIZE..] == tag(x)
                       then Some(c[..|c| - GCM_TAG_SIZE]) else None);
    s := Suite(aead, m => seq(32, _ => 0 as byte), []);
    assert Ideal(aead) by {
      forall k: seq<byte>, n: seq<byte>, p: seq<byte>, x: seq<byte>
        ensures |aead.seal(k, n, p, x)| == |p| + GCM_TAG_SIZE && aead.open(k, n, aead.seal(k, n, p, x), x) == Some(p)
      {
        var c := p + tag(x);
        assert c[|c| - GCM_TAG_SIZE..] == tag(x) && c[..|c| - GCM_TAG_SIZE] == p;
      }
      forall k: seq<byte>, n: seq<byte>, c: seq<byte>, x: seq<byte> | aead.open(k, n, c, x).Some?
        ensures c == aead.seal(k, n, aead.open(k, n, c, x).value, x)
      {
        assert c == c[..|c| - GCM_TAG_SIZE] + c[|c| - GCM_TAG_SIZE..];
      }
    }
    forall nonce, nonce', p: seq<byte>,
      p': seq<byte> ensures aead.seal([], nonce, p, d) != aead.seal([], nonce', p', d') {
      var c, c' := p + tag(d), p' + tag(d');
      assert c[|c| - 1] == 1 && c'[|c'| - 1] == 0;
    }
  }
}
