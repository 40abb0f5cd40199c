/** What the bytes of a container are, one field after the other (src/ubin/secure/container.py, format.py). */
module ContainerForm {
  import opened Bytes
  import opened Framing
  import opened IdealCipher

  /**
   "UBS1", version 0.2, algorithm 1, no flags and a length of 58 bytes, then frame size, size, frame
   count, session id and nonce base; one number is left for the final record.
   */
  ghost predicate IsHeader(raw: seq<byte>, frameSize: nat, size: nat, sessionId: seq<byte>, nonceBase: seq<byte>) {
    && |raw| == 58
    && raw[..10] == [85, 66, 83, 49, 0, 2, 1, 0, 0, 58]
    && Number(raw[10..14]) == frameSize && Number(raw[14..22]) == size && 1 <= frameSize <= 67_108_864
    && IsCount(size, frameSize, Number(raw[22..30])) && Number(raw[22..30]) < 0xFFFF_FFFF_FFFF_FFFF
    && raw[30..46] == sessionId && raw[46..58] == nonceBase
  }

  /**
   A frame: its record of 16 bytes, then the part of the plaintext, sealed under the nonce of its
   number with the header and this record as associated data.
   */
  ghost predicate IsFrame(aead: Aead, key: seq<byte>, raw: seq<byte>, n: nat, part: seq<byte>, bytes: seq<byte>)
    requires |raw| == 58
  {
    && |bytes| >= 16 && IsRecord(bytes[..16], n, |part|)
    && exists nonce :: IsNonce(raw[46..58], n, nonce) && bytes[16..] == aead.seal(key, nonce, part, raw + bytes[..16])
  }

  /** Frames from number n on: each but the last is full, and the last is not empty. */
  ghost predicate AreFrames(aead: Aead, key: seq<byte>, raw: seq<byte>, frameSize: nat, n: nat, p: seq<byte>,
                            bytes: seq<byte>)
    requires |raw| == 58 && frameSize >= 1
    decreases |p|
  {
    if p == [] then bytes == []
    else
      var len := if |p| < frameSize then |p| else frameSize;
      && |bytes| >= len + 32
      && IsFrame(aead, key, raw, n, p[..len], bytes[..len + 32])
      && AreFrames(aead, key, raw, frameSize, n + 1, p[len..], bytes[len + 32..])
  }

  /** "END1", the length 48, and the sealed digest with the header and these eight bytes as associated data. */
  ghost predicate IsFinal(aead: Aead, key: seq<byte>, raw: seq<byte>, digest: seq<byte>, bytes: seq<byte>)
    requires |raw| == 58
  {
    && |bytes| >= 8 && bytes[..8] == [69, 78, 68, 49, 0, 0, 0, 48]
    && exists nonce ::
         && IsNonce(raw[46..58], Number(raw[22..30]), nonce)
         && bytes[8..] == aead.seal(key, nonce, digest, raw + bytes[..8])
  }

  /** Header, frames and final record of a plaintext, and nothing else. */
  ghost predicate IsContainer(aead: Aead, hash: seq<byte> -> seq<byte>, key: seq<byte>, frameSize: nat,
                              sessionId: seq<byte>, nonceBase: seq<byte>, p: seq<byte>, data: seq<byte>)
  {
    && |data| >= 58 + 56 && IsHeader(data[..58], frameSize, |p|, sessionId, nonceBase)
    && AreFrames(aead, key, data[..58], frameSize, 0, p, data[58..|data| - 56])
    && IsFinal(aead, key, data[..58], hash(p), data[|data| - 56..])
  }
}
