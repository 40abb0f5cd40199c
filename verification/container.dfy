/**
 The encrypted container (src/ubin/secure/container.py).  The cipher and the hash are parameters;
 the cipher is ideal: it opens exactly what it sealed under the same key, nonce and data.
 */
module Container {
  import opened Arithmetic
  import opened Bytes
  import opened ContainerForm
  import opened Format
  import opened Framing
  import opened IdealCipher

  datatype Suite = Suite(aead: Aead, hash: seq<byte> -> seq<byte>, key: seq<byte>)

  ghost predicate Lawful(s: Suite) {
    Ideal(s.aead) && forall m :: |s.hash(m)| == 32
  }

  datatype Error =
    | FrameSizeRange
    | OutputExists
    | NoSource
    | SamePath
    | SourceChanged
    | Header(error: HeaderError)
    | Truncated
    | FrameOrder
    | FrameTooLong
    | CiphertextLength
    | FrameLength
    | SizeMismatch
    | FinalMissing
    | FinalLength
    | Authentication
    | DigestMismatch
    | TrailingData

  // What a container is

  function Frame(s: Suite, h: SecureHeader, raw: seq<byte>, n: nat, plaintext: seq<byte>): seq<byte>
    requires |h.nonceBase| == 12 && Fits(n, 8) && |plaintext| <= MAX_FRAME_SIZE
  {
    Pow256Values();
    FrameMeta(n, |plaintext|, |plaintext| + GCM_TAG_SIZE)
    + s.aead.seal(s.key, FrameNonce(h.nonceBase, n), plaintext, FrameAad(raw, n, |plaintext|))
  }

  /** Headers whose frames can be numbered. */
  predicate Usable(h: SecureHeader) {
    |h.nonceBase| == 12 && 1 <= h.frameSize <= MAX_FRAME_SIZE && h.frameCount <= MAX_FRAME_COUNT
  }

  /** The frames of the rest of the plaintext, numbered from n. */
  function FramesOf(s: Suite, h: SecureHeader, raw: seq<byte>, n: nat, p: seq<byte>): seq<byte>
    requires Usable(h) && n + FrameCount(|p|, h.frameSize) == h.frameCount
    decreases |p|
  {
    if p == [] then []
    else
      var len := Min(h.frameSize, |p|);
      FrameCountStep(|p|, h.frameSize);
      Pow256Values();
      Frame(s, h, raw, n, p[..len]) + FramesOf(s, h, raw, n + 1, p[len..])
  }

  function FinalRecord(s: Suite, h: SecureHeader, raw: seq<byte>, p: seq<byte>): seq<byte>
    requires Usable(h) && h.frameCount >= 0
  {
    Pow256Values();
    FinalMeta() + s.aead.seal(s.key, FrameNonce(h.nonceBase, h.frameCount), s.hash(p), FinalAad(raw))
  }

  /** The container of a plaintext under a header. */
  function ContainerOf(s: Suite, h: SecureHeader, p: seq<byte>): seq<byte>
    requires Pack(h).Ok? && Consistent(h) && |p| == h.originalSize
  {
    var raw := Pack(h).value;
    raw + FramesOf(s, h, raw, 0, p) + FinalRecord(s, h, raw, p)
  }

  ghost predicate NoncesDiffer(base: seq<byte>, m: nat, n: nat) {
    |base| == 12 && Fits(m, 8) && Fits(n, 8) && FrameNonce(base, m) != FrameNonce(base, n)
  }

  /** No two of the frame_count + 1 sealed records of a container share a nonce. */
  lemma NoncesDistinct(h: SecureHeader)
    requires Usable(h)
    ensures forall m: nat, n: nat :: m < n <= h.frameCount ==> NoncesDiffer(h.nonceBase, m, n)
  {
    Pow256Values();
    forall m: nat, n: nat | m < n <= h.frameCount ensures NoncesDiffer(h.nonceBase, m, n) {
      if FrameNonce(h.nonceBase, m) == FrameNonce(h.nonceBase, n) {
        NonceInjective(h.nonceBase, m, n);
      }
    }
  }

  // Reading a container, as a function

  function ReadExact(rest: seq<byte>, amount: nat): Result<(seq<byte>, seq<byte>), Error> {
    if amount > |rest| then Err(Truncated) else Ok((rest[..amount], rest[amount..]))
  }

  /** One frame of the expected number, with `left` bytes of plaintext still to come. */
  function ReadFrame(s: Suite, h: SecureHeader, raw: seq<byte>, n: nat, left: nat, rest: seq<byte>)
    : Result<(seq<byte>, seq<byte>), Error>
    requires Usable(h) && n < h.frameCount
  {
    Pow256Values();
    var (meta, body) :- ReadExact(rest, 16);
    var number, plaintextLen, ciphertextLen := FromBytes(meta[..8]), FromBytes(meta[8..12]), FromBytes(meta[12..16]);
    if number != n then Err(FrameOrder)
    else if plaintextLen > h.frameSize then Err(FrameTooLong)
    else if ciphertextLen != plaintextLen + GCM_TAG_SIZE then Err(CiphertextLength)
    else if plaintextLen != Min(h.frameSize, left) then Err(FrameLength)
    else
      var (ciphertext, after) :- ReadExact(body, ciphertextLen);
      match s.aead.open(s.key, FrameNonce(h.nonceBase, n), ciphertext, FrameAad(raw, n, plaintextLen))
      case None => Err(Authentication)
      case Some(plaintext) => Ok((plaintext, after))
  }

  function ReadFrames(s: Suite, h: SecureHeader, raw: seq<byte>, n: nat, left: int, rest: seq<byte>)
    : Result<(seq<byte>, seq<byte>), Error>
    requires Usable(h)
    decreases h.frameCount - n
  {
    if n >= h.frameCount then Ok(([], rest))
    else if left < 0 then Err(FrameLength)
    else
      var (first, after) :- ReadFrame(s, h, raw, n, left, rest);
      var (others, end) :- ReadFrames(s, h, raw, n + 1, left - |first|, after);
      Ok((first + others, end))
  }

  function ReadFinal(s: Suite, h: SecureHeader, raw: seq<byte>, p: seq<byte>, rest: seq<byte>): Result<(), Error>
    requires Usable(h) && h.frameCount >= 0
  {
    Pow256Values();
    var (meta, body) :- ReadExact(rest, 8);
    if meta[..4] != FINAL_MAGIC then Err(FinalMissing)
    else if FromBytes(meta[4..8]) != FINAL_CIPHERTEXT_SIZE then Err(FinalLength)
    else
      var (ciphertext, after) :- ReadExact(body, FINAL_CIPHERTEXT_SIZE);
      match s.aead.open(s.key, FrameNonce(h.nonceBase, h.frameCount), ciphertext, FinalAad(raw))
      case None => Err(Authentication)
      case Some(digest) =>
        if digest != s.hash(p) then Err(DigestMismatch)
        else if after != [] then Err(TrailingData)
        else Ok(())
  }

  /** What is restored from the bytes of a container, or why they are refused. */
  function Restore(s: Suite, data: seq<byte>): Result<seq<byte>, Error> {
    var (raw, body) :- ReadExact(data, HEADER_SIZE);
    match Unpack(raw)
    case Err(e) => Err(Header(e))
    case Ok(h) =>
      var (p, rest) :- ReadFrames(s, h, raw, 0, h.originalSize, body);
      if |p| != h.originalSize then Err(SizeMismatch)
      else
        var _ :- ReadFinal(s, h, raw, p, rest);
        Ok(p)
  }

  // Round trip

  lemma ReadFront(front: seq<byte>, rest: seq<byte>)
    ensures ReadExact(front + rest, |front|) == Ok((front, rest))
  {
  }

  lemma ReadSplits(rest: seq<byte>, amount: nat)
    requires ReadExact(rest, amount).Ok?
    ensures var (front, after) := ReadExact(rest, amount).value; rest == front + after && |front| == amount
  {
  }

  lemma ReadWrittenFrame(s: Suite, h: SecureHeader, raw: seq<byte>, n: nat, left: nat, p: seq<byte>, rest: seq<byte>)
    requires Lawful(s) && Usable(h) && n < h.frameCount && |p| == Min(h.frameSize, left)
    ensures Fits(n, 8)
    ensures ReadFrame(s, h, raw, n, left, Frame(s, h, raw, n, p) + rest) == Ok((p, rest))
  {
    hide FromBytes, FrameMeta, FrameNonce, FrameAad;
    Pow256Values();
    var meta := FrameMeta(n, |p|, |p| + GCM_TAG_SIZE);
    var ciphertext := s.aead.seal(s.key, FrameNonce(h.nonceBase, n), p, FrameAad(raw, n, |p|));
    FrameMetaFields(n, |p|, |p| + GCM_TAG_SIZE);
    assert Frame(s, h, raw, n, p) + rest == meta + (ciphertext + rest);
    ReadFront(meta, ciphertext + rest);
    ReadFront(ciphertext, rest);
  }

  lemma {:induction false} ReadWrittenFrames(s: Suite, h: SecureHeader, raw: seq<byte>, n: nat, p: seq<byte>,
                                             rest: seq<byte>)
    requires Lawful(s) && Usable(h) && n + FrameCount(|p|, h.frameSize) == h.frameCount
    ensures ReadFrames(s, h, raw, n, |p|, FramesOf(s, h, raw, n, p) + rest) == Ok((p, rest))
    decreases |p|
  {
    hide ReadFrame, Frame;
    NoFramesLeft(|p|, h.frameSize);
    if p == [] {
      assert FramesOf(s, h, raw, n, p) + rest == rest;
    } else {
      FrameCountStep(|p|, h.frameSize);
      Pow256Values();
      var len := Min(h.frameSize, |p|);
      var others := FramesOf(s, h, raw, n + 1, p[len..]);
      assert FramesOf(s, h, raw, n, p) + rest == Frame(s, h, raw, n, p[..len]) + (others + rest);
      ReadWrittenFrame(s, h, raw, n, |p|, p[..len], others + rest);
      ReadWrittenFrames(s, h, raw, n + 1, p[len..], rest);
      assert p[..len] + p[len..] == p;
    }
  }

  lemma ReadWrittenFinal(s: Suite, h: SecureHeader, raw: seq<byte>, p: seq<byte>)
    requires Lawful(s) && Usable(h) && h.frameCount >= 0
    ensures ReadFinal(s, h, raw, p, FinalRecord(s, h, raw, p)) == Ok(())
  {
    hide FromBytes, ToBytes, FrameNonce;
    Pow256Values();
    var ciphertext := s.aead.seal(s.key, FrameNonce(h.nonceBase, h.frameCount), s.hash(p), FinalAad(raw));
    ReadFront(FinalMeta(), ciphertext);
    FieldRoundTrip(FINAL_CIPHERTEXT_SIZE, 4);
    assert FinalMeta()[..4] == FINAL_MAGIC && FinalMeta()[4..8] == Field(FINAL_CIPHERTEXT_SIZE, 4);
    assert ciphertext + [] == ciphertext;
    ReadFront(ciphertext, []);
  }

  /** A container restores to the plaintext it was made from, at every legal frame size. */
  lemma RestoreUndoesSave(s: Suite, h: SecureHeader, p: seq<byte>)
    requires Lawful(s) && Pack(h).Ok? && Consistent(h) && |p| == h.originalSize
    ensures Restore(s, ContainerOf(s, h, p)) == Ok(p)
  {
    hide Unpack, Pack, ReadFrames, ReadFinal, FramesOf, FinalRecord;
    var raw := Pack(h).value;
    UnpackUndoesPack(h);
    PackedIsUsable(h);
    var frames, final := FramesOf(s, h, raw, 0, p), FinalRecord(s, h, raw, p);
    assert ContainerOf(s, h, p) == raw + (frames + final);
    ReadFront(raw, frames + final);
    ReadWrittenFrames(s, h, raw, 0, p, final);
    ReadWrittenFinal(s, h, raw, p);
  }

  lemma PackedIsUsable(h: SecureHeader)
    requires Pack(h).Ok?
    ensures Usable(h)
  {
  }

  // Canonical form

  lemma ReadFrameIsWritten(s: Suite, h: SecureHeader, raw: seq<byte>, n: nat, left: nat, rest: seq<byte>)
    requires Lawful(s) && Usable(h) && n < h.frameCount && ReadFrame(s, h, raw, n, left, rest).Ok?
    ensures var (p, after) := ReadFrame(s, h, raw, n, left, rest).value;
            Fits(n, 8) && |p| == Min(h.frameSize, left) && rest == Frame(s, h, raw, n, p) + after
  {
    hide FromBytes, FrameMeta, FrameNonce, FrameAad;
    Pow256Values();
    ReadSplits(rest, 16);
    var (meta, body) := ReadExact(rest, 16).value;
    FrameMetaCanonical(meta);
    ReadSplits(body, FromBytes(meta[12..16]));
    var (p, after) := ReadFrame(s, h, raw, n, left, rest).value;
    assert rest == meta + (body[..|p| + GCM_TAG_SIZE] + after);
  }

  lemma {:induction false} ReadFramesAreWritten(s: Suite, h: SecureHeader, raw: seq<byte>, n: nat, left: nat,
                                                rest: seq<byte>)
    requires Lawful(s) && Usable(h) && n + FrameCount(left, h.frameSize) == h.frameCount
    requires ReadFrames(s, h, raw, n, left, rest).Ok?
    ensures var (p, after) := ReadFrames(s, h, raw, n, left, rest).value;
            |p| == left && rest == FramesOf(s, h, raw, n, p) + after
    decreases h.frameCount - n
  {
    hide ReadFrame, Frame;
    NoFramesLeft(left, h.frameSize);
    if left > 0 {
      FrameCountStep(left, h.frameSize);
      var (first, after) := ReadFrame(s, h, raw, n, left, rest).value;
      ReadFrameIsWritten(s, h, raw, n, left, rest);
      ReadFramesAreWritten(s, h, raw, n + 1, left - |first|, after);
      var (others, end) := ReadFrames(s, h, raw, n + 1, left - |first|, after).value;
      assert (first + others)[..|first|] == first && (first + others)[|first|..] == others;
      assert rest == Frame(s, h, raw, n, first) + (FramesOf(s, h, raw, n + 1, others) + end);
    }
  }

  lemma ReadFinalIsWritten(s: Suite, h: SecureHeader, raw: seq<byte>, p: seq<byte>, rest: seq<byte>)
    requires Lawful(s) && Usable(h) && h.frameCount >= 0 && ReadFinal(s, h, raw, p, rest).Ok?
    ensures rest == FinalRecord(s, h, raw, p)
  {
    hide FromBytes, ToBytes, FrameNonce;
    Pow256Values();
    ReadSplits(rest, 8);
    var (meta, body) := ReadExact(rest, 8).value;
    FieldCanonical(meta[4..8]);
    assert meta == meta[..4] + meta[4..8];
    ReadSplits(body, FINAL_CIPHERTEXT_SIZE);
    assert body == body[..FINAL_CIPHERTEXT_SIZE] + [];
  }

  /** Any accepted container is, byte for byte, the one that its header and plaintext make. */
  lemma SaveUndoesRestore(s: Suite, data: seq<byte>)
    requires Lawful(s) && Restore(s, data).Ok?
    ensures |data| >= HEADER_SIZE && Unpack(data[..HEADER_SIZE]).Ok?
    ensures var h := Unpack(data[..HEADER_SIZE]).value;
            var p := Restore(s, data).value;
            Pack(h).Ok? && Consistent(h) && |p| == h.originalSize && data == ContainerOf(s, h, p)
  {
    hide Unpack, Pack, ReadFrames, ReadFinal, FramesOf, FinalRecord;
    ReadSplits(data, HEADER_SIZE);
    var (raw, body) := ReadExact(data, HEADER_SIZE).value;
    var h := Unpack(raw).value;
    PackUndoesUnpack(raw);
    PackedIsUsable(h);
    var (p, rest) := ReadFrames(s, h, raw, 0, h.originalSize, body).value;
    ReadFramesAreWritten(s, h, raw, 0, h.originalSize, body);
    ReadFinalIsWritten(s, h, raw, p, rest);
    assert data == raw + FramesOf(s, h, raw, 0, p) + FinalRecord(s, h, raw, p);
  }

  // Byte by byte

  function HeaderFor(size: nat, frameSize: nat, sessionId: seq<byte>, nonceBase: seq<byte>): SecureHeader
    requires frameSize >= 1
  {
    SecureHeader(frameSize, size, FrameCount(size, frameSize), sessionId, nonceBase,
                 ALGORITHM_AES_256_GCM, FLAGS_NONE, VERSION_MAJOR, VERSION_MINOR)
  }

  lemma FrameExactly(s: Suite, h: SecureHeader, raw: seq<byte>, n: nat, part: seq<byte>, bytes: seq<byte>)
    requires Lawful(s) && |raw| == 58 && h.nonceBase == raw[46..58] && Fits(n, 8) && |part| <= MAX_FRAME_SIZE
    ensures IsFrame(s.aead, s.key, raw, n, part, bytes) <==> bytes == Frame(s, h, raw, n, part)
    ensures |Frame(s, h, raw, n, part)| == |part| + 32
  {
    hide IsNonce, IsRecord, FrameNonce, FrameMeta;
    Pow256Values();
    var frame := Frame(s, h, raw, n, part);
    var meta := FrameMeta(n, |part|, |part| + GCM_TAG_SIZE);
    assert frame[..16] == meta && frame[16..]
           == s.aead.seal(s.key, FrameNonce(h.nonceBase, n), part, raw + frame[..16]);
    NonceExactly(h.nonceBase, n, FrameNonce(h.nonceBase, n));
    RecordExactly(frame[..16], n, |part|);
    if IsFrame(s.aead, s.key, raw, n, part, bytes) {
      RecordExactly(bytes[..16], n, |part|);
      var nonce :| IsNonce(raw[46..58], n, nonce) && bytes[16..] == s.aead.seal(s.key, nonce, part, raw + bytes[..16]);
      NonceExactly(h.nonceBase, n, nonce);
      assert bytes == bytes[..16] + bytes[16..];
    }
  }

  lemma {:induction false} FramesExactly(s: Suite, h: SecureHeader, raw: seq<byte>, n: nat, p: seq<byte>,
                                         bytes: seq<byte>)
    requires Lawful(s) && Usable(h) && |raw| == 58 && h.nonceBase == raw[46..58]
    requires n + FrameCount(|p|, h.frameSize) == h.frameCount
    ensures AreFrames(s.aead, s.key, raw, h.frameSize, n, p, bytes) <==> bytes == FramesOf(s, h, raw, n, p)
    decreases |p|
  {
    hide Lawful, Frame, IsFrame;
    if p != [] {
      var len := Min(h.frameSize, |p|);
      FrameCountStep(|p|, h.frameSize);
      Pow256Values();
      var first, others := Frame(s, h, raw, n, p[..len]), FramesOf(s, h, raw, n + 1, p[len..]);
      FrameExactly(s, h, raw, n, p[..len], first);
      if |bytes| >= len + 32 {
        FrameExactly(s, h, raw, n, p[..len], bytes[..len + 32]);
        FramesExactly(s, h, raw, n + 1, p[len..], bytes[len + 32..]);
        assert bytes == bytes[..len + 32] + bytes[len + 32..];
        assert (first + others)[..len + 32] == first && (first + others)[len + 32..] == others;
      }
    }
  }

  lemma FinalExactly(s: Suite, h: SecureHeader, raw: seq<byte>, p: seq<byte>, bytes: seq<byte>)
    requires Lawful(s) && Usable(h) && h.frameCount >= 0
    requires |raw| == 58 && h.nonceBase == raw[46..58] && Number(raw[22..30]) == h.frameCount
    ensures IsFinal(s.aead, s.key, raw, s.hash(p), bytes) <==> bytes == FinalRecord(s, h, raw, p)
    ensures |FinalRecord(s, h, raw, p)| == 56
  {
    hide IsNonce, FrameNonce;
    Pow256Values();
    FinalMetaBytes();
    var final := FinalRecord(s, h, raw, p);
    NonceExactly(h.nonceBase, h.frameCount, FrameNonce(h.nonceBase, h.frameCount));
    assert final[..8] == FinalMeta() && final[8..]
           == s.aead.seal(s.key, FrameNonce(h.nonceBase, h.frameCount), s.hash(p), raw + final[..8]);
    if IsFinal(s.aead, s.key, raw, s.hash(p), bytes) {
      var nonce :| IsNonce(raw[46..58], Number(raw[22..30]), nonce)
                   && bytes[8..] == s.aead.seal(s.key, nonce, s.hash(p), raw + bytes[..8]);
      NonceExactly(h.nonceBase, h.frameCount, nonce);
      assert bytes == bytes[..8] + bytes[8..];
    }
  }

  lemma FinalMetaBytes()
    ensures FinalMeta() == [69, 78, 68, 49, 0, 0, 0, 48]
  {
    Pow256Values();
    assert ToBytes(0, 0) == [] && ToBytes(0, 1) == [0] && ToBytes(0, 2) == [0, 0] && ToBytes(0, 3) == [0, 0, 0];
    assert ToBytes(48, 4) == [0, 0, 0, 48];
  }

  /** The container of a plaintext, byte by byte. */
  lemma ContainerExactly(s: Suite, h: SecureHeader, p: seq<byte>, data: seq<byte>)
    requires Lawful(s) && Pack(h).Ok? && Consistent(h) && |p| == h.originalSize
    ensures IsContainer(s.aead, s.hash, s.key, h.frameSize, h.sessionId, h.nonceBase, p, data)
            <==> data == ContainerOf(s, h, p)
  {
    hide Lawful, Pack, AreFrames, FramesOf, IsFinal, FinalRecord, IsHeader;
    PackedIsUsable(h);
    PackedNumbers(h);
    var raw := Pack(h).value;
    var frames, final := FramesOf(s, h, raw, 0, p), FinalRecord(s, h, raw, p);
    FinalExactly(s, h, raw, p, final);
    if data == ContainerOf(s, h, p) {
      Cut(data, raw, frames, final);
    }
    if |data| >= 58 + 56 {
      HeaderExactly(h, data[..58]);
      FramesExactly(s, h, raw, 0, p, data[58..|data| - 56]);
      FinalExactly(s, h, raw, p, data[|data| - 56..]);
      Joined(data);
    }
  }

  lemma Cut(data: seq<byte>, raw: seq<byte>, frames: seq<byte>, final: seq<byte>)
    requires data == raw + frames + final && |raw| == 58 && |final| == 56
    ensures |data| >= 58 + 56
    ensures data[..58] == raw && data[58..|data| - 56] == frames && data[|data| - 56..] == final
  {
  }

  lemma Joined(data: seq<byte>)
    requires |data| >= 58 + 56
    ensures data == data[..58] + data[58..|data| - 56] + data[|data| - 56..]
  {
  }

  /** data is a container of p for some frame size, session id and nonce base. */
  ghost predicate Holds(s: Suite, data: seq<byte>, p: seq<byte>) {
    exists frameSize: nat, sessionId, nonceBase ::
      IsContainer(s.aead, s.hash, s.key, frameSize, sessionId, nonceBase, p, data)
  }

  lemma HeldPacks(raw: seq<byte>, frameSize: nat, size: nat, sessionId: seq<byte>, nonceBase: seq<byte>)
    requires IsHeader(raw, frameSize, size, sessionId, nonceBase)
    ensures var h := HeaderFor(size, frameSize, sessionId, nonceBase); Pack(h).Ok? && Consistent(h)
  {
    hide Number, FromBytes, IsCount, FrameCount;
    Pow256Values();
    FromBytesIsNumber(raw[14..22]);
    CountExactly(size, frameSize, Number(raw[22..30]));
  }

  /** What is restored is what the bytes hold, whatever the frame size; everything else is refused. */
  lemma RestoreExactly(s: Suite, data: seq<byte>, p: seq<byte>)
    requires Lawful(s)
    ensures Restore(s, data) == Ok(p) <==> Holds(s, data, p)
  {
    hide Lawful, Restore, IsContainer, Pack, ContainerOf;
    if Restore(s, data) == Ok(p) {
      SaveUndoesRestore(s, data);
      var h := Unpack(data[..HEADER_SIZE]).value;
      ContainerExactly(s, h, p, data);
      UsableSize(h);
    }
    if Holds(s, data, p) {
      var frameSize: nat, sessionId, nonceBase :|
        IsContainer(s.aead, s.hash, s.key, frameSize, sessionId, nonceBase, p, data);
      ContainerStarts(s, frameSize, sessionId, nonceBase, p, data);
      HeldPacks(data[..58], frameSize, |p|, sessionId, nonceBase);
      var h := HeaderFor(|p|, frameSize, sessionId, nonceBase);
      ContainerExactly(s, h, p, data);
      RestoreUndoesSave(s, h, p);
    }
  }

  lemma UsableSize(h: SecureHeader)
    requires Pack(h).Ok?
    ensures h.frameSize >= 0
  {
  }

  lemma ContainerStarts(s: Suite, frameSize: nat, sessionId: seq<byte>, nonceBase: seq<byte>, p: seq<byte>,
                        data: seq<byte>)
    requires IsContainer(s.aead, s.hash, s.key, frameSize, sessionId, nonceBase, p, data)
    ensures |data| >= 58 && IsHeader(data[..58], frameSize, |p|, sessionId, nonceBase) && frameSize >= 1
  {
  }

  // Saving and restoring files

  /** A path; content is None while no file is there. */
  class File {
    var content: Option<seq<byte>>

    constructor (content: Option<seq<byte>>)
      ensures this.content == content
    {
      this.content := content;
    }
  }

  /** Appending one frame to the frames written so far. */
  lemma FramesStep(s: Suite, h: SecureHeader, raw: seq<byte>, n: nat, p: seq<byte>, out: seq<byte>)
    requires Usable(h) && n + FrameCount(|p|, h.frameSize) == h.frameCount && p != []
    ensures var len := Min(h.frameSize, |p|);
            && Fits(n, 8) && n + 1 + FrameCount(|p| - len, h.frameSize) == h.frameCount
            && out + FramesOf(s, h, raw, n, p)
               == out + Frame(s, h, raw, n, p[..len]) + FramesOf(s, h, raw, n + 1, p[len..])
  {
    hide Frame;
    Pow256Values();
    FrameCountStep(|p|, h.frameSize);
  }

  /** The header and the frame loop; the bytes that went into the digest are those that were read. */
  method WriteFrames(source: seq<byte>, size: nat, s: Suite, h: SecureHeader, raw: seq<byte>)
    returns (r: Result<(seq<byte>, seq<byte>), Error>)
    requires Usable(h) && h.frameCount == FrameCount(size, h.frameSize)
    ensures if |source| < size then r == Err(SourceChanged)
            else r == Ok((raw + FramesOf(s, h, raw, 0, source[..size]), source[..size]))
  {
    hide Frame, FrameCount, Supplied;
    var out, digested := raw, [];
    ghost var whole := Supplied(source, size);
    var offset: nat := 0;
    assert whole[0..] == whole;
    for frameNumber := 0 to h.frameCount
      invariant offset <= size && offset <= |source| && digested == source[..offset]
      invariant frameNumber + FrameCount(size - offset, h.frameSize) == h.frameCount
      invariant raw + FramesOf(s, h, raw, 0, whole) == out + FramesOf(s, h, raw, frameNumber, whole[offset..])
    {
      NoFramesLeft(size - offset, h.frameSize);
      FramesStep(s, h, raw, frameNumber, whole[offset..], out);
      var plaintextLen := Min(h.frameSize, size - offset);
      if offset + plaintextLen > |source| {
        return Err(SourceChanged);
      }
      var plaintext := source[offset..offset + plaintextLen];
      SuppliedPart(source, size, offset, plaintextLen);
      digested := digested + plaintext;
      out := out + Frame(s, h, raw, frameNumber, plaintext);
      offset := offset + plaintextLen;
    }
    NoFramesLeft(size - offset, h.frameSize);
    SuppliedAll(source, size);
    assert whole[offset..] == [] && out + [] == out;
    return Ok((out, digested));
  }

  /**
   Replaces the destination by the whole container, or leaves it alone.  `read` is what reading the
   source gives, which may have changed since its size was taken; the random session id and nonce
   base are parameters.
   */
  method Save(source: File, read: seq<byte>, destination: File, s: Suite, frameSize: int, overwrite: bool,
              sessionId: seq<byte>, nonceBase: seq<byte>) returns (r: Result<(), Error>)
    requires |sessionId| == 16 && |nonceBase| == 12
    modifies destination
    ensures r.Err? ==> destination.content == old(destination.content)
    ensures if !(1 <= frameSize <= MAX_FRAME_SIZE) then r == Err(FrameSizeRange)
            else if old(destination.content).Some? && !overwrite then r == Err(OutputExists)
            else if old(source.content).None? then r == Err(NoSource)
            else if source == destination then r == Err(SamePath)
            else
              var size := |old(source.content).value|;
              var h := HeaderFor(size, frameSize, sessionId, nonceBase);
              if Pack(h).Err? then r == Err(Header(Pack(h).error))
              else if |read| < size then r == Err(SourceChanged)
              else r == Ok(()) && destination.content == Some(ContainerOf(s, h, read[..size]))
    ensures Lawful(s) && r.Ok? ==>
              && |read| >= |old(source.content).value|
              && IsContainer(s.aead, s.hash, s.key, frameSize, sessionId, nonceBase,
                             read[..|old(source.content).value|],
                             destination.content.value)
  {
    if !(1 <= frameSize <= MAX_FRAME_SIZE) {
      return Err(FrameSizeRange);
    }
    if destination.content.Some? && !overwrite {
      return Err(OutputExists);
    }
    if source.content.None? {
      return Err(NoSource);
    }
    if source == destination {
      return Err(SamePath);
    }
    hide Lawful, Pack, FramesOf, FinalRecord, FrameCount, IsContainer;
    var h := HeaderFor(|source.content.value|, frameSize, sessionId, nonceBase);
    var packed := Pack(h);
    if packed.Err? {
      return Err(Header(packed.error));
    }
    PackedIsUsable(h);
    var frames :- WriteFrames(read, h.originalSize, s, h, packed.value);
    var (out, digested) := frames;
    destination.content := Some(out + FinalRecord(s, h, packed.value, digested));
    if Lawful(s) {
      ContainerExactly(s, h, digested, destination.content.value);
    }
    return Ok(());
  }

  ghost function Prefixed(front: seq<byte>, r: Result<(seq<byte>, seq<byte>), Error>)
    : Result<(seq<byte>, seq<byte>), Error>
  {
    if r.Ok? then Ok((front + r.value.0, r.value.1)) else r
  }

  lemma FramesFrom(s: Suite, h: SecureHeader, raw: seq<byte>, n: nat, left: int, rest: seq<byte>, front: seq<byte>)
    requires Usable(h) && n < h.frameCount && left >= 0
    ensures var first := ReadFrame(s, h, raw, n, left, rest);
            Prefixed(front, ReadFrames(s, h, raw, n, left, rest))
            == if first.Err? then Err(first.error)
               else Prefixed(front + first.value.0, ReadFrames(s, h, raw, n + 1, left - |first.value.0|, first.value.1))
  {
    hide ReadFrame;
    var first := ReadFrame(s, h, raw, n, left, rest);
    if first.Ok? {
      var others := ReadFrames(s, h, raw, n + 1, left - |first.value.0|, first.value.1);
      if others.Ok? {
        assert front + (first.value.0 + others.value.0) == front + first.value.0 + others.value.0;
      }
    }
  }

  /** The frame loop of a restore. */
  method DecryptFrames(s: Suite, h: SecureHeader, raw: seq<byte>, body: seq<byte>)
    returns (r: Result<(seq<byte>, seq<byte>), Error>)
    requires Lawful(s) && Usable(h) && h.frameCount >= 0 && h.originalSize >= 0
    ensures r == ReadFrames(s, h, raw, 0, h.originalSize, body)
  {
    hide ReadFrame;
    ghost var goal := ReadFrames(s, h, raw, 0, h.originalSize, body);
    var out: seq<byte> := [];
    var rest := body;
    assert goal.Ok? ==> [] + goal.value.0 == goal.value.0;
    for n := 0 to h.frameCount
      invariant |out| <= h.originalSize
      invariant goal == Prefixed(out, ReadFrames(s, h, raw, n, h.originalSize - |out|, rest))
    {
      FramesFrom(s, h, raw, n, h.originalSize - |out|, rest, out);
      var frame :- ReadFrame(s, h, raw, n, h.originalSize - |out|, rest);
      ReadFrameIsWritten(s, h, raw, n, h.originalSize - |out|, rest);
      out, rest := out + frame.0, frame.1;
    }
    assert out + [] == out;
    return Ok((out, rest));
  }

  /** Replaces the destination by the restored plaintext only after every check has passed. */
  method DecryptFile(source: File, destination: File, s: Suite, overwrite: bool) returns (r: Result<nat, Error>)
    requires Lawful(s)
    modifies destination
    ensures r.Err? ==> destination.content == old(destination.content)
    ensures if old(destination.content).Some? && !overwrite then r == Err(OutputExists)
            else if source == destination then r == Err(SamePath)
            else if source.content.None? then r == Err(NoSource)
            else match Restore(s, source.content.value)
                 case Ok(p) => r == Ok(|p|) && destination.content == Some(p) && Holds(s, old(source.content).value, p)
                 case Err(e) => r == Err(e) && forall p :: !Holds(s, old(source.content).value, p)
  {
    if destination.content.Some? && !overwrite {
      return Err(OutputExists);
    }
    if source == destination {
      return Err(SamePath);
    }
    if source.content.None? {
      return Err(NoSource);
    }
    hide Unpack, ReadFrames, ReadFinal, Holds;
    forall p ensures Restore(s, source.content.value) == Ok(p) <==> Holds(s, source.content.value, p) {
      RestoreExactly(s, source.content.value, p);
    }
    var start :- ReadExact(source.content.value, HEADER_SIZE);
    var (raw, body) := start;
    var unpacked := Unpack(raw);
    if unpacked.Err? {
      return Err(Header(unpacked.error));
    }
    var h := unpacked.value;
    PackUndoesUnpack(raw);
    PackedIsUsable(h);
    var frames :- DecryptFrames(s, h, raw, body);
    var (out, rest) := frames;
    if |out| != h.originalSize {
      return Err(SizeMismatch);
    }
    var _ :- ReadFinal(s, h, raw, out, rest);
    destination.content := Some(out);
    return Ok(|out|);
  }
}
