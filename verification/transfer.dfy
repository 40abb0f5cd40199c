/**
 The frame loops of resumable transfers on the wire (src/ubin/secure/resume.py and
 src/ubin/secure/krp_transfer.py, which permutes the blocks of every ciphertext).
 */
module Transfer {
  import opened Arithmetic
  import opened Bytes
  import opened Framing
  import opened IdealCipher
  import opened Krp
  import opened KrpBlocks
  import opened TransferFormat

  /** What both ends of a connection share once the status has been sent. */
  datatype Session = Session(
    variant: Variant, aead: Aead, key: seq<byte>, mac: Mac, permutationKey: seq<byte>,
    header: TransferHeader, headerBytes: seq<byte>, statusBytes: seq<byte>)

  /** The status has its fixed size and the derived permutation key has 32 bytes. */
  ghost predicate Ready(s: Session) {
    && Ideal(s.aead) && |s.permutationKey| == 32 && |s.statusBytes| == STATUS_SIZE
    && Pack(s.variant, s.header) == Ok(s.headerBytes)
  }

  /** "UBIN-KRP-FRAME-v0.5" and a zero byte. */
  const FRAME_LABEL: seq<byte> := [85, 66, 73, 78, 45, 75, 82, 80, 45, 70, 82, 65, 77, 69, 45, 118, 48, 46, 53, 0]

  /** Every frame of every connection is permuted with a context of its own. */
  function FrameContext(transferId: seq<byte>, nonceBase: seq<byte>, frameNumber: nat): seq<byte>
    requires |transferId| == 16 && |nonceBase| == 12 && Fits(frameNumber, 8)
  {
    FRAME_LABEL + transferId + nonceBase + Field(frameNumber, 8)
  }

  lemma FrameContextBinds(id: seq<byte>, base: seq<byte>, n: nat, id': seq<byte>, base': seq<byte>, n': nat)
    requires |id| == |id'| == 16 && |base| == |base'| == 12 && Fits(n, 8) && Fits(n', 8)
    requires FrameContext(id, base, n) == FrameContext(id', base', n')
    ensures id == id' && base == base' && n == n'
  {
    hide ToBytes, FromBytes;
    var c, c' := FrameContext(id, base, n), FrameContext(id', base', n');
    assert id == c[20..36] && base == c[36..48] && Field(n, 8) == c[48..];
    assert id' == c'[20..36] && base' == c'[36..48] && Field(n', 8) == c'[48..];
    FieldRoundTrip(n, 8);
    FieldRoundTrip(n', 8);
  }

  ghost predicate Numbered(s: Session, n: nat) {
    Ready(s) && n < s.header.frameCount
  }

  lemma NumberFits(s: Session, n: nat)
    requires Ready(s) && n <= s.header.frameCount
    ensures Fits(n, 8) && |s.header.transferId| == 16 && |s.header.nonceBase| == 12
    ensures 1 <= s.header.frameSize <= MAX_FRAME_SIZE && s.header.originalSize >= 0
    ensures Sized(s.header.frameSize, s.header.originalSize, s.header.frameCount)
  {
    hide FrameCount;
    Pow256Values();
  }

  function KeyingFor(s: Session, n: nat): (c: Keying)
    requires Numbered(s, n)
    ensures ContextFits(c) && |c.key| >= MIN_KEY
  {
    NumberFits(s, n);
    Keying(s.mac, s.permutationKey, FrameContext(s.header.transferId, s.header.nonceBase, n))
  }

  function Ciphertext(s: Session, n: nat, plaintext: seq<byte>): seq<byte>
    requires Numbered(s, n) && |plaintext| <= MAX_FRAME_SIZE
  {
    NumberFits(s, n);
    s.aead.seal(s.key, FrameNonce(s.header.nonceBase, n), plaintext,
                FrameAad(s.headerBytes, s.statusBytes, n, |plaintext|))
  }

  function Opened(s: Session, n: nat, ciphertext: seq<byte>, plaintextLen: nat): Option<seq<byte>>
    requires Numbered(s, n) && plaintextLen <= MAX_FRAME_SIZE
  {
    NumberFits(s, n);
    s.aead.open(s.key, FrameNonce(s.header.nonceBase, n), ciphertext,
                FrameAad(s.headerBytes, s.statusBytes, n, plaintextLen))
  }

  // What a stream of frames is

  /** The bytes on the wire that stand for a ciphertext. */
  ghost predicate Layout(s: Session, n: nat, ciphertext: seq<byte>, wire: seq<byte>)
    requires Numbered(s, n)
  {
    match s.variant
    case Resumable => wire == ciphertext
    case KrpResumable => Permuted(KeyingFor(s, n), DEFAULT_BLOCK_SIZE, ciphertext, wire)
  }

  function Meta(s: Session, n: nat, len: nat): (m: seq<byte>)
    requires Numbered(s, n) && len <= MAX_FRAME_SIZE
    ensures |m| == 16
  {
    NumberFits(s, n);
    Pow256Values();
    FrameMeta(n, len, len + GCM_TAG_SIZE)
  }

  /** One frame on the wire. */
  ghost predicate Record(s: Session, n: nat, plaintext: seq<byte>, record: seq<byte>)
    requires Numbered(s, n) && |plaintext| <= MAX_FRAME_SIZE
  {
    && |record| == RecordSize(|plaintext|) && record[..16] == Meta(s, n, |plaintext|)
    && Layout(s, n, Ciphertext(s, n, plaintext), record[16..])
  }

  function RecordSize(len: nat): nat {
    len + 32
  }

  ghost predicate Remaining(s: Session, n: nat, left: nat) {
    Ready(s) && s.header.frameSize >= 1 && n + FrameCount(left, s.header.frameSize) == s.header.frameCount
  }

  function FrameLen(s: Session, left: nat): nat
    requires s.header.frameSize >= 0
  {
    Min(s.header.frameSize, left)
  }

  lemma RemainingStep(s: Session, n: nat, left: nat)
    requires Remaining(s, n, left)
    ensures n <= s.header.frameCount && (n == s.header.frameCount <==> left == 0)
            && s.header.frameSize <= MAX_FRAME_SIZE
    ensures left > 0 ==> Numbered(s, n) && 0 < FrameLen(s, left) && Remaining(s, n + 1, left - FrameLen(s, left))
  {
    NumberFits(s, 0);
    NoFramesLeft(left, s.header.frameSize);
    if left > 0 {
      FrameCountStep(left, s.header.frameSize);
    }
  }

  /** The wire starts with the frames of the plaintext p, numbered from n. */
  ghost predicate Carries(s: Session, n: nat, p: seq<byte>, wire: seq<byte>)
    requires Remaining(s, n, |p|)
    decreases |p|
  {
    RemainingStep(s, n, |p|);
    p == [] || (
      var len := FrameLen(s, |p|);
      && |wire| >= RecordSize(len) && Record(s, n, p[..len], wire[..RecordSize(len)])
      && Carries(s, n + 1, p[len..], wire[RecordSize(len)..]))
  }

  /** How many bytes the frames of that many bytes take. */
  function StreamSize(s: Session, n: nat, left: nat): nat
    requires s.header.frameCount >= n
  {
    left + 32 * (s.header.frameCount - n)
  }

  // What the bytes on the wire are

  /** "UBIN-KRP-FRAME-v0.5", a zero byte, the header's transfer id and nonce base, and the frame number. */
  ghost predicate IsContext(s: Session, n: nat, context: seq<byte>) {
    && |s.headerBytes| >= 90 && |context| == 56
    && context[..20] == [85, 66, 73, 78, 45, 75, 82, 80, 45, 70, 82, 65, 77, 69, 45, 118, 48, 46, 53, 0]
    && context[20..36] == s.headerBytes[28..44] && context[36..48] == s.headerBytes[44..56]
    && Number(context[48..56]) == n
  }

  /** The ciphertext itself, or with its blocks of 4096 bytes rearranged under the context of the frame. */
  ghost predicate StandsFor(s: Session, n: nat, ciphertext: seq<byte>, wire: seq<byte>) {
    match s.variant
    case Resumable => wire == ciphertext
    case KrpResumable =>
      exists context ::
        IsContext(s, n, context) && Rearranged(Keying(s.mac, s.permutationKey, context), 4096, ciphertext, wire)
  }

  /**
   A frame: its record of 16 bytes, then what stands for its part of the source, sealed under the
   nonce of its number with header, status and this record as associated data.
   */
  ghost predicate IsFrame(s: Session, n: nat, part: seq<byte>, bytes: seq<byte>) {
    && |s.headerBytes| >= 90 && |bytes| == |part| + 32 && IsRecord(bytes[..16], n, |part|)
    && exists nonce ::
         && IsNonce(s.headerBytes[44..56], n, nonce)
         && StandsFor(s, n, s.aead.seal(s.key, nonce, part, s.headerBytes + s.statusBytes + bytes[..16]), bytes[16..])
  }

  /** The wire starts with the frames of p from number n on, full ones of the header's frame size but for the last. */
  ghost predicate AreFrames(s: Session, n: nat, p: seq<byte>, wire: seq<byte>)
    requires |s.headerBytes| >= 90
    decreases |p|
  {
    p == []
    || (var size := Number(s.headerBytes[8..12]);
        var len := if |p| < size then |p| else size;
        && 0 < len && |wire| >= len + 32
        && IsFrame(s, n, p[..len], wire[..len + 32])
        && AreFrames(s, n + 1, p[len..], wire[len + 32..]))
  }

  /** "NEND", the length 48, and the header's hash, sealed with header, status and these eight bytes. */
  ghost predicate IsFinal(s: Session, bytes: seq<byte>) {
    && |s.headerBytes| >= 90 && |bytes| == 56 && bytes[..8] == [78, 69, 78, 68, 0, 0, 0, 48]
    && exists nonce ::
         && IsNonce(s.headerBytes[44..56], Number(s.headerBytes[20..28]), nonce)
         && bytes[8..] == s.aead.seal(s.key, nonce, s.headerBytes[56..88], s.headerBytes + s.statusBytes + bytes[..8])
  }

  lemma ReadyHeader(s: Session)
    requires Ready(s)
    ensures |s.headerBytes| >= 90 && s.headerBytes[28..44] == s.header.transferId
    ensures s.headerBytes[44..56] == s.header.nonceBase && s.headerBytes[56..88] == s.header.sourceHash
    ensures s.header.frameSize >= 1 && Number(s.headerBytes[8..12]) == s.header.frameSize
    ensures s.header.frameCount >= 0 && Number(s.headerBytes[20..28]) == s.header.frameCount
  {
    hide Pack, Number;
    PackedNumbers(s.variant, s.header);
  }

  lemma ContextShows(s: Session, n: nat)
    requires Numbered(s, n)
    ensures IsContext(s, n, KeyingFor(s, n).context)
  {
    hide Pack, ToBytes, FromBytes, Number;
    NumberFits(s, n);
    ReadyHeader(s);
    ToBytesIsNumber(n, 8);
    var context := KeyingFor(s, n).context;
    assert context[48..56] == ToBytes(n, 8);
  }

  lemma LayoutShows(s: Session, n: nat, ciphertext: seq<byte>, wire: seq<byte>)
    requires Numbered(s, n) && Layout(s, n, ciphertext, wire)
    ensures StandsFor(s, n, ciphertext, wire)
  {
    hide Pack, IsContext, Rearranged, Permuted;
    if s.variant.KrpResumable? {
      ContextShows(s, n);
      PermutedIsRearranged(KeyingFor(s, n), DEFAULT_BLOCK_SIZE, ciphertext, wire);
    }
  }

  /** A record of the model is a frame as written out. */
  lemma RecordShows(s: Session, n: nat, part: seq<byte>, record: seq<byte>)
    requires Numbered(s, n) && |part| <= MAX_FRAME_SIZE && Record(s, n, part, record)
    ensures IsFrame(s, n, part, record)
  {
    hide Pack, Layout, StandsFor, IsRecord, IsNonce, FrameMeta, FrameNonce;
    NumberFits(s, n);
    Pow256Values();
    ReadyHeader(s);
    RecordExactly(record[..16], n, |part|);
    NonceExactly(s.header.nonceBase, n, FrameNonce(s.header.nonceBase, n));
    LayoutShows(s, n, Ciphertext(s, n, part), record[16..]);
    assert FrameAad(s.headerBytes, s.statusBytes, n, |part|) == s.headerBytes + s.statusBytes + record[..16];
  }

  lemma {:induction false} CarriesShows(s: Session, n: nat, p: seq<byte>, wire: seq<byte>)
    requires Remaining(s, n, |p|) && Carries(s, n, p, wire)
    ensures |s.headerBytes| >= 90 && AreFrames(s, n, p, wire)
    decreases |p|
  {
    hide Record, IsFrame, Remaining, Numbered;
    RemainingIsReady(s, n, |p|);
    ReadyHeader(s);
    if p != [] {
      RemainingStep(s, n, |p|);
      var len := FrameLen(s, |p|);
      RecordShows(s, n, p[..len], wire[..RecordSize(len)]);
      CarriesShows(s, n + 1, p[len..], wire[RecordSize(len)..]);
    }
  }

  lemma RemainingIsReady(s: Session, n: nat, left: nat)
    requires Remaining(s, n, left)
    ensures Ready(s)
  {
  }

  // A record determines its plaintext

  lemma SealInjective(s: Session, n: nat, p: seq<byte>, q: seq<byte>)
    requires Numbered(s, n) && |p| == |q| <= MAX_FRAME_SIZE && Ciphertext(s, n, p) == Ciphertext(s, n, q)
    ensures p == q
  {
    hide FrameNonce, FrameAad, Pack;
    assert Opened(s, n, Ciphertext(s, n, p), |p|) == Some(p);
    assert Opened(s, n, Ciphertext(s, n, q), |q|) == Some(q);
  }

  lemma LayoutInjective(s: Session, n: nat, c: seq<byte>, d: seq<byte>, wire: seq<byte>)
    requires Numbered(s, n) && Layout(s, n, c, wire) && Layout(s, n, d, wire)
    ensures c == d
  {
    if s.variant.KrpResumable? {
      RestoreInvertsPermute(KeyingFor(s, n), DEFAULT_BLOCK_SIZE, c, wire, d);
    }
  }

  /** With permuted blocks, the receiver restores exactly the ciphertext that the plain variant sends. */
  lemma KrpCarriesPlainCiphertext(s: Session, n: nat, p: seq<byte>, record: seq<byte>, restored: seq<byte>)
    requires Numbered(s, n) && s.variant.KrpResumable? && |p| <= MAX_FRAME_SIZE && Record(s, n, p, record)
    requires Permuted(KeyingFor(s, n), DEFAULT_BLOCK_SIZE, restored, record[16..])
    ensures restored == Ciphertext(s, n, p) && Opened(s, n, restored, |p|) == Some(p)
  {
    hide FrameNonce, FrameAad, Pack, Permuted, KeyingFor;
    LayoutInjective(s, n, Ciphertext(s, n, p), restored, record[16..]);
  }

  lemma {:induction false} CarriesUnique(s: Session, n: nat, p: seq<byte>, q: seq<byte>, wire: seq<byte>)
    requires |p| == |q| && Remaining(s, n, |p|) && Carries(s, n, p, wire) && Carries(s, n, q, wire)
    ensures p == q
    decreases |p|
  {
    hide Layout, Ciphertext, Meta, Remaining, Ready, Numbered;
    if p != [] {
      RemainingStep(s, n, |p|);
      var len := FrameLen(s, |p|);
      var record := wire[..RecordSize(len)];
      LayoutInjective(s, n, Ciphertext(s, n, p[..len]), Ciphertext(s, n, q[..len]), record[16..]);
      SealInjective(s, n, p[..len], q[..len]);
      CarriesUnique(s, n + 1, p[len..], q[len..], wire[RecordSize(len)..]);
      assert p == p[..len] + p[len..] && q == q[..len] + q[len..];
    }
  }

  // The sender

  ghost predicate Exactly(s: Session, n: nat, p: seq<byte>, wire: seq<byte>) {
    Remaining(s, n, |p|) && n <= s.header.frameCount && |wire| == StreamSize(s, n, |p|) && Carries(s, n, p, wire)
  }

  lemma ExactlyStep(s: Session, n: nat, p: seq<byte>, record: seq<byte>, wire: seq<byte>)
    requires Remaining(s, n, |p|) && p != []
    requires var len := FrameLen(s, |p|);
             n < s.header.frameCount && len <= MAX_FRAME_SIZE && Record(s, n, p[..len], record)
             && Exactly(s, n + 1, p[len..], wire)
    ensures Exactly(s, n, p, record + wire)
  {
    hide Layout, Ciphertext, Meta, Remaining;
    RemainingStep(s, n, |p|);
    var len := FrameLen(s, |p|);
    assert (record + wire)[..RecordSize(len)] == record && (record + wire)[RecordSize(len)..] == wire;
  }

  /** out is the beginning of the stream; what is missing are the frames from n on. */
  ghost predicate Sent(s: Session, first: nat, whole: seq<byte>, out: seq<byte>, n: nat, rest: seq<byte>) {
    forall wire :: Exactly(s, n, rest, wire) ==> Exactly(s, first, whole, out + wire)
  }

  lemma SentStep(s: Session, first: nat, whole: seq<byte>, out: seq<byte>, n: nat, rest: seq<byte>, record: seq<byte>)
    requires Sent(s, first, whole, out, n, rest) && Remaining(s, n, |rest|) && rest != []
    requires var len := FrameLen(s, |rest|);
             n < s.header.frameCount && len <= MAX_FRAME_SIZE && Record(s, n, rest[..len], record)
    ensures Sent(s, first, whole, out + record, n + 1, rest[FrameLen(s, |rest|)..])
  {
    hide Record, Remaining, Exactly;
    forall wire | Exactly(s, n + 1, rest[FrameLen(s, |rest|)..], wire)
      ensures Exactly(s, first, whole, out + record + wire)
    {
      ExactlyStep(s, n, rest, record, wire);
      assert out + record + wire == out + (record + wire);
    }
  }

  /** The bytes that precede frame n. */
  function Expected(s: Session, n: nat): Option<nat>
    requires s.header.frameSize >= 1 && s.header.originalSize >= 0 && s.header.frameCount >= 0
  {
    ExpectedBytes(n, s.header.frameSize, s.header.originalSize, s.header.frameCount)
  }

  datatype SendError = SourceChanged | Refused(error: KrpError)

  /** Why frame n cannot be sent: the source ends before it does, or else the walk limit refuses its blocks. */
  ghost predicate Stops(s: Session, n: nat, available: nat, e: SendError)
    requires Numbered(s, n)
  {
    NumberFits(s, n);
    var at := Expected(s, n).value;
    at <= s.header.originalSize
    && var length := FrameLen(s, s.header.originalSize - at);
       match e
       case SourceChanged => available < at + length
       case Refused(error) =>
         available >= at + length && s.variant.KrpResumable?
         && Refusal(KeyingFor(s, n), DEFAULT_BLOCK_SIZE, length + GCM_TAG_SIZE) == Some(error)
  }

  ghost predicate NoneStops(s: Session, first: nat, n: nat, available: nat)
    requires Ready(s) && n <= s.header.frameCount
  {
    forall k: nat, e :: first <= k < n ==> !Stops(s, k, available, e)
  }

  /** Frames of up to 64 complete blocks are never refused, whatever the keys are. */
  lemma SmallFramesAreSendable(s: Session, n: nat, available: nat, e: KrpError)
    requires Numbered(s, n) && s.header.frameSize + GCM_TAG_SIZE < 65 * DEFAULT_BLOCK_SIZE
    ensures !Stops(s, n, available, Refused(e))
  {
    hide Pack, KeyingFor, TargetOf;
    if Stops(s, n, available, Refused(e)) {
      NumberFits(s, n);
      var at := Expected(s, n).value;
      var length := FrameLen(s, s.header.originalSize - at) + GCM_TAG_SIZE;
      CountHolds(DEFAULT_BLOCK_SIZE, length);
      QuotientBound(length, DEFAULT_BLOCK_SIZE, 65);
      forall i: nat | i < length / DEFAULT_BLOCK_SIZE
        ensures TargetOf(KeyingFor(s, n), length / DEFAULT_BLOCK_SIZE, i).Ok?
      {
        SmallCountsAlwaysFinish(KeyingFor(s, n), length / DEFAULT_BLOCK_SIZE, i);
      }
    }
  }

  /** The ciphertext as it goes on the wire. */
  method LayOut(s: Session, n: nat, ciphertext: seq<byte>) returns (r: Result<seq<byte>, KrpError>)
    requires Numbered(s, n)
    ensures r.Ok? ==> Layout(s, n, ciphertext, r.value) && |r.value| == |ciphertext|
    ensures r.Err? <==> s.variant.KrpResumable? && Refusal(KeyingFor(s, n), DEFAULT_BLOCK_SIZE, |ciphertext|).Some?
    ensures r.Err? ==> Refusal(KeyingFor(s, n), DEFAULT_BLOCK_SIZE, |ciphertext|) == Some(r.error)
  {
    match s.variant {
      case Resumable => return Ok(ciphertext);
      case KrpResumable =>
        NumberFits(s, n);
        r := PermuteBlocks(ciphertext,
                           Keying(s.mac, s.permutationKey, FrameContext(s.header.transferId, s.header.nonceBase, n)),
                           DEFAULT_BLOCK_SIZE);
    }
  }

  method SendFrame(s: Session, n: nat, plaintext: seq<byte>) returns (r: Result<seq<byte>, KrpError>)
    requires Numbered(s, n) && |plaintext| <= MAX_FRAME_SIZE
    ensures r.Ok? ==> Record(s, n, plaintext, r.value) && IsFrame(s, n, plaintext, r.value)
    ensures r.Err? <==>
              s.variant.KrpResumable? && Refusal(KeyingFor(s, n), DEFAULT_BLOCK_SIZE, |plaintext| + GCM_TAG_SIZE).Some?
    ensures r.Err? ==> Refusal(KeyingFor(s, n), DEFAULT_BLOCK_SIZE, |plaintext| + GCM_TAG_SIZE) == Some(r.error)
  {
    hide FrameNonce, FrameAad, Pack, Layout, FrameMeta, Refusal, KeyingFor, IsFrame;
    var ciphertext := Ciphertext(s, n, plaintext);
    var wire :- LayOut(s, n, ciphertext);
    var record := Meta(s, n, |plaintext|) + wire;
    assert record[..16] == Meta(s, n, |plaintext|) && record[16..] == wire;
    RecordShows(s, n, plaintext, record);
    return Ok(record);
  }

  /**
   The frame loop of the sender: the frames from the checkpoint in the status to the end, or the first
   that cannot be sent.  `received` is the byte count of that checkpoint, and `source` what is there
   when it is read, which need not have the size in the header any more.
   */
  method SendFrames(source: seq<byte>, s: Session, next: nat, received: nat)
    returns (r: Result<seq<byte>, SendError>, sent: nat)
    requires Ready(s) && s.header.frameSize >= 1 && s.header.originalSize >= 0
    requires ExpectedBytes(next, s.header.frameSize, s.header.originalSize, s.header.frameCount) == Some(received)
    ensures received <= s.header.originalSize && next + sent <= s.header.frameCount
    ensures NoneStops(s, next, next + sent, |source|)
    ensures r.Ok? ==> next + sent == s.header.frameCount && (sent > 0 ==> s.header.originalSize <= |source|)
                      && Exactly(s, next, Supplied(source, s.header.originalSize)[received..], r.value)
    ensures r.Ok? && s.header.originalSize <= |source| ==>
              && |s.headerBytes| >= 90 && |r.value| == s.header.originalSize - received + 32 * sent
              && AreFrames(s, next, source[received..s.header.originalSize], r.value)
    ensures r.Err? ==> next + sent < s.header.frameCount && Stops(s, next + sent, |source|, r.error)
  {
    hide Exactly, Record, Pack, FrameCount, Refusal, KeyingFor, NoneStops, Supplied, Stops, IsFrame, AreFrames;
    var h := s.header;
    NumberFits(s, 0);
    FramesLeft(next, h.frameSize, h.originalSize, h.frameCount);
    var out: seq<byte> := [];
    var offset: nat := received;
    ghost var whole := Supplied(source, h.originalSize);
    NothingStops(s, next, |source|);
    sent := 0;
    assert forall wire: seq<byte> :: [] + wire == wire;
    for n := next to h.frameCount
      invariant offset <= h.originalSize && sent == n - next && (sent > 0 ==> offset <= |source|)
      invariant ExpectedBytes(n, h.frameSize, h.originalSize, h.frameCount) == Some(offset)
      invariant Remaining(s, n, h.originalSize - offset)
      invariant Sent(s, next, whole[received..], out, n, whole[offset..])
      invariant NoneStops(s, next, n, |source|)
    {
      ExpectedStep(n, h.frameSize, h.originalSize, h.frameCount);
      RemainingStep(s, n, h.originalSize - offset);
      var plaintextLen := Min(h.frameSize, h.originalSize - offset);
      if offset + plaintextLen > |source| {
        EndsHere(s, n, |source|);
        return Err(SourceChanged), sent;
      }
      var plaintext := source[offset..offset + plaintextLen];
      SuppliedPart(source, h.originalSize, offset, plaintextLen);
      var frame := SendFrame(s, n, plaintext);
      if frame.Err? {
        RefusedHere(s, n, |source|, frame.error);
        return Err(Refused(frame.error)), sent;
      }
      GoesHere(s, next, n, |source|);
      SentStep(s, next, whole[received..], out, n, whole[offset..], frame.value);
      out := out + frame.value;
      offset := offset + plaintextLen;
      sent := sent + 1;
    }
    NothingLeft(s, whole[offset..]);
    assert out + [] == out;
    SentShows(s, next, source, received, out);
    return Ok(out), sent;
  }

  lemma SentShows(s: Session, next: nat, source: seq<byte>, received: nat, out: seq<byte>)
    requires Ready(s) && 0 <= received <= s.header.originalSize
    requires Exactly(s, next, Supplied(source, s.header.originalSize)[received..], out)
    ensures next <= s.header.frameCount
    ensures s.header.originalSize <= |source| ==>
              && |s.headerBytes| >= 90
              && |out| == s.header.originalSize - received + 32 * (s.header.frameCount - next)
              && AreFrames(s, next, source[received..s.header.originalSize], out)
  {
    hide Pack, AreFrames, Carries, Remaining, Ready;
    SuppliedAll(source, s.header.originalSize);
    if s.header.originalSize <= |source| {
      assert source[..s.header.originalSize][received..] == source[received..s.header.originalSize];
      CarriesShows(s, next, source[received..s.header.originalSize], out);
    }
  }

  lemma NothingStops(s: Session, n: nat, available: nat)
    requires Ready(s) && n <= s.header.frameCount
    ensures NoneStops(s, n, n, available)
  {
  }

  lemma EndsHere(s: Session, n: nat, available: nat)
    requires Numbered(s, n) && Expected(s, n).Some? && Expected(s, n).value <= s.header.originalSize
    requires available < Expected(s, n).value + FrameLen(s, s.header.originalSize - Expected(s, n).value)
    ensures Stops(s, n, available, SourceChanged)
  {
    hide Refusal, KeyingFor, Pack;
  }

  lemma RefusedHere(s: Session, n: nat, available: nat, e: KrpError)
    requires Numbered(s, n) && s.variant.KrpResumable?
    requires Expected(s, n).Some? && Expected(s, n).value <= s.header.originalSize
    requires var length := FrameLen(s, s.header.originalSize - Expected(s, n).value);
             Expected(s, n).value + length <= available
             && Refusal(KeyingFor(s, n), DEFAULT_BLOCK_SIZE, length + GCM_TAG_SIZE) == Some(e)
    ensures Stops(s, n, available, Refused(e))
  {
    hide Refusal, KeyingFor, Pack;
  }

  lemma GoesHere(s: Session, first: nat, n: nat, available: nat)
    requires Numbered(s, n) && NoneStops(s, first, n, available)
    requires Expected(s, n).Some? && Expected(s, n).value <= s.header.originalSize
    requires var length := FrameLen(s, s.header.originalSize - Expected(s, n).value);
             Expected(s, n).value + length <= available
             && (s.variant.KrpResumable? ==> Refusal(KeyingFor(s, n), DEFAULT_BLOCK_SIZE, length + GCM_TAG_SIZE).None?)
    ensures NoneStops(s, first, n + 1, available)
  {
    hide Refusal, KeyingFor, Pack;
  }

  lemma NothingLeft(s: Session, rest: seq<byte>)
    requires s.header.frameCount >= 0 && Remaining(s, s.header.frameCount, |rest|)
    ensures rest == [] && Exactly(s, s.header.frameCount, rest, [])
  {
    RemainingStep(s, s.header.frameCount, |rest|);
  }

  // The receiver

  datatype ReceiveError =
    | Closed
    | FrameOrder
    | FrameLength
    | CiphertextLength
    | Permutation(error: KrpError)
    | Authentication

  predicate MetaMatches(s: Session, n: nat, len: nat, wire: seq<byte>)
    requires |wire| >= 16
  {
    FromBytes(wire[..8]) == n && FromBytes(wire[8..12]) == len && FromBytes(wire[12..16]) == len + GCM_TAG_SIZE
  }

  lemma MetaMatchesExactly(s: Session, n: nat, len: nat, wire: seq<byte>)
    requires Numbered(s, n) && len <= MAX_FRAME_SIZE && |wire| >= 16
    ensures MetaMatches(s, n, len, wire) <==> wire[..16] == Meta(s, n, len)
  {
    hide FromBytes, ToBytes, Pack;
    NumberFits(s, n);
    Pow256Values();
    var meta := wire[..16];
    assert meta[..8] == wire[..8] && meta[8..12] == wire[8..12] && meta[12..16] == wire[12..16];
    FrameMetaFields(n, len, len + GCM_TAG_SIZE);
    FrameMetaCanonical(meta);
  }

  /** Exactly when a frame is refused for which reason; the first check that fails decides. */
  ghost predicate Rejected(s: Session, n: nat, len: nat, wire: seq<byte>, e: ReceiveError)
    requires Numbered(s, n) && len <= MAX_FRAME_SIZE
  {
    if |wire| < 16 then e == Closed
    else if FromBytes(wire[..8]) != n then e == FrameOrder
    else if FromBytes(wire[8..12]) != len then e == FrameLength
    else if FromBytes(wire[12..16]) != len + GCM_TAG_SIZE then e == CiphertextLength
    else if |wire| < RecordSize(len) then e == Closed
    else if s.variant.KrpResumable? && Refusal(KeyingFor(s, n), DEFAULT_BLOCK_SIZE, len + GCM_TAG_SIZE).Some? then
      e == Permutation(Refusal(KeyingFor(s, n), DEFAULT_BLOCK_SIZE, len + GCM_TAG_SIZE).value)
    else
      && e == Authentication
      && forall c :: Layout(s, n, c, wire[16..RecordSize(len)]) ==> Opened(s, n, c, len) == None
  }

  ghost predicate Starts(s: Session, n: nat, plaintext: seq<byte>, wire: seq<byte>)
    requires Numbered(s, n) && |plaintext| <= MAX_FRAME_SIZE
  {
    |wire| >= RecordSize(|plaintext|) && Record(s, n, plaintext, wire[..RecordSize(|plaintext|)])
  }

  /** A refused frame is no honest frame of any plaintext. */
  lemma RejectedIsNoRecord(s: Session, n: nat, len: nat, wire: seq<byte>, e: ReceiveError, p: seq<byte>)
    requires Numbered(s, n) && len <= MAX_FRAME_SIZE && Rejected(s, n, len, wire, e) && |p| == len
    ensures !Starts(s, n, p, wire)
  {
    hide FromBytes, ToBytes, FrameNonce, FrameAad, Pack, Permuted, Refusal, Meta, KeyingFor;
    if Starts(s, n, p, wire) {
      var record := wire[..RecordSize(len)];
      assert record[..16] == wire[..16] && record[16..] == wire[16..RecordSize(len)];
      MetaMatchesExactly(s, n, len, wire);
      var c := Ciphertext(s, n, p);
      assert Opened(s, n, c, len) == Some(p);
      assert |c| == len + GCM_TAG_SIZE;
      if s.variant.KrpResumable? {
        SameRefusal(KeyingFor(s, n), DEFAULT_BLOCK_SIZE, c, record[16..]);
      }
    }
  }

  /** The ciphertext that the bytes on the wire stand for. */
  method TakeIn(s: Session, n: nat, wire: seq<byte>) returns (r: Result<seq<byte>, KrpError>)
    requires Numbered(s, n)
    ensures r.Ok? <==> s.variant.Resumable? || Refusal(KeyingFor(s, n), DEFAULT_BLOCK_SIZE, |wire|).None?
    ensures r.Ok? ==> Layout(s, n, r.value, wire)
    ensures r.Err? ==> Refusal(KeyingFor(s, n), DEFAULT_BLOCK_SIZE, |wire|) == Some(r.error)
  {
    match s.variant {
      case Resumable => return Ok(wire);
      case KrpResumable =>
        NumberFits(s, n);
        r := RestoreBlocks(wire,
                           Keying(s.mac, s.permutationKey, FrameContext(s.header.transferId, s.header.nonceBase, n)),
                           DEFAULT_BLOCK_SIZE);
    }
  }

  /** One frame of the receiver's loop. */
  method ReceiveFrame(s: Session, n: nat, len: nat, wire: seq<byte>) returns (r: Result<seq<byte>, ReceiveError>)
    requires Numbered(s, n) && len <= MAX_FRAME_SIZE
    ensures r.Ok? ==> |r.value| == len && Starts(s, n, r.value, wire)
    ensures r.Ok? ==> |wire| >= len + 32 && IsFrame(s, n, r.value, wire[..len + 32])
    ensures r.Err? ==> Rejected(s, n, len, wire, r.error)
  {
    hide FromBytes, ToBytes, FrameNonce, FrameAad, Pack, Refusal, Meta, KeyingFor, Layout, IsFrame;
    if |wire| < 16 {
      return Err(Closed);
    }
    var number, plaintextLen, ciphertextLen := FromBytes(wire[..8]), FromBytes(wire[8..12]), FromBytes(wire[12..16]);
    if number != n {
      return Err(FrameOrder);
    }
    if plaintextLen != len {
      return Err(FrameLength);
    }
    if ciphertextLen != plaintextLen + GCM_TAG_SIZE {
      return Err(CiphertextLength);
    }
    if |wire| < RecordSize(len) {
      return Err(Closed);
    }
    var record := wire[..RecordSize(len)];
    assert record[..16] == wire[..16] && record[16..] == wire[16..RecordSize(len)];
    MetaMatchesExactly(s, n, len, wire);
    var taken := TakeIn(s, n, wire[16..RecordSize(len)]);
    if taken.Err? {
      return Err(Permutation(taken.error));
    }
    match Opened(s, n, taken.value, plaintextLen) {
      case None =>
        forall c | Layout(s, n, c, wire[16..RecordSize(len)]) ensures Opened(s, n, c, len) == None {
          LayoutInjective(s, n, c, taken.value, wire[16..RecordSize(len)]);
        }
        return Err(Authentication);
      case Some(plaintext) =>
        SealedLength(s, n, taken.value, wire[16..RecordSize(len)], len);
        RecordShows(s, n, plaintext, record);
        return Ok(plaintext);
    }
  }

  lemma SealedLength(s: Session, n: nat, c: seq<byte>, wire: seq<byte>, len: nat)
    requires Numbered(s, n) && len <= MAX_FRAME_SIZE && Layout(s, n, c, wire) && |wire| == len + GCM_TAG_SIZE
    requires Opened(s, n, c, len).Some?
    ensures |Opened(s, n, c, len).value| == len && Ciphertext(s, n, Opened(s, n, c, len).value) == c
  {
    hide FrameNonce, FrameAad, Pack, KeyingFor;
    assert |c| == |wire|;
  }

  /** What has been read so far: the wire carries p exactly if p starts with out and the rest carries the rest. */
  ghost predicate HasRead(s: Session, first: nat, total: nat, wire: seq<byte>, out: seq<byte>, n: nat,
                          rest: seq<byte>)
  {
    && |out| <= total
    && forall p :: |p| == total ==> ReadAs(s, first, p, wire, out, n, rest)
  }

  ghost predicate ReadAs(s: Session, first: nat, p: seq<byte>, wire: seq<byte>, out: seq<byte>, n: nat, rest: seq<byte>)
    requires |out| <= |p|
  {
    CarriesAll(s, first, p, wire) <==> out <= p && CarriesAll(s, n, p[|out|..], rest)
  }

  lemma PrefixParts(out: seq<byte>, frame: seq<byte>, p: seq<byte>)
    requires |out| + |frame| <= |p|
    ensures out + frame <= p <==> out <= p && frame <= p[|out|..]
    ensures p[|out|..][|frame|..] == p[|out + frame|..]
  {
    assert p[..|out| + |frame|] == p[..|out|] + p[|out|..][..|frame|];
  }

  lemma HasReadNothing(s: Session, first: nat, total: nat, wire: seq<byte>)
    ensures HasRead(s, first, total, wire, [], first, wire)
  {
    hide CarriesAll;
    forall p: seq<byte> | |p| == total ensures ReadAs(s, first, p, wire, [], first, wire) {
      assert p[0..] == p;
    }
  }

  lemma HasReadEverything(s: Session, first: nat, wire: seq<byte>, out: seq<byte>, n: nat, rest: seq<byte>)
    requires HasRead(s, first, |out|, wire, out, n, rest) && Remaining(s, n, 0)
    ensures CarriesAll(s, first, out, wire)
  {
    assert ReadAs(s, first, out, wire, out, n, rest);
    assert out[|out|..] == [];
  }

  /** The wire starts with the frames from n on, and they carry exactly p. */
  ghost predicate CarriesAll(s: Session, n: nat, p: seq<byte>, wire: seq<byte>) {
    Remaining(s, n, |p|) && Carries(s, n, p, wire)
  }

  lemma FrameRead(s: Session, n: nat, p: seq<byte>, wire: seq<byte>, frame: seq<byte>)
    requires Remaining(s, n, |p|) && p != [] && |frame| == FrameLen(s, |p|) && Numbered(s, n)
             && |frame| <= MAX_FRAME_SIZE
    requires Starts(s, n, frame, wire)
    ensures CarriesAll(s, n, p, wire) <==> frame <= p && CarriesAll(s, n + 1, p[|frame|..], wire[RecordSize(|frame|)..])
  {
    hide Layout, Ciphertext, Meta, Remaining;
    RemainingStep(s, n, |p|);
    var len := |frame|;
    var record := wire[..RecordSize(len)];
    if Record(s, n, p[..len], record) {
      LayoutInjective(s, n, Ciphertext(s, n, p[..len]), Ciphertext(s, n, frame), record[16..]);
      SealInjective(s, n, p[..len], frame);
    }
    assert frame <= p <==> p[..len] == frame;
  }

  lemma ReadOneMore(s: Session, first: nat, p: seq<byte>, wire: seq<byte>, out: seq<byte>, n: nat, rest: seq<byte>,
                    frame: seq<byte>)
    requires |out| < |p| && ReadAs(s, first, p, wire, out, n, rest) && Remaining(s, n, |p| - |out|) && Numbered(s, n)
    requires |frame| == FrameLen(s, |p| - |out|) <= MAX_FRAME_SIZE && Starts(s, n, frame, rest)
    ensures ReadAs(s, first, p, wire, out + frame, n + 1, rest[RecordSize(|frame|)..])
  {
    FrameRead(s, n, p[|out|..], rest, frame);
    hide CarriesAll, Remaining, Record;
    PrefixParts(out, frame, p);
  }

  lemma HasReadStep(s: Session, first: nat, total: nat, wire: seq<byte>, out: seq<byte>, n: nat, rest: seq<byte>,
                    frame: seq<byte>)
    requires HasRead(s, first, total, wire, out, n, rest) && |out| < total && Remaining(s, n, total - |out|)
             && Numbered(s, n)
    requires |frame| == FrameLen(s, total - |out|) <= MAX_FRAME_SIZE && Starts(s, n, frame, rest)
    ensures HasRead(s, first, total, wire, out + frame, n + 1, rest[RecordSize(|frame|)..])
  {
    hide CarriesAll, Remaining, Record, ReadAs;
    forall p | |p| == total ensures ReadAs(s, first, p, wire, out + frame, n + 1, rest[RecordSize(|frame|)..]) {
      ReadOneMore(s, first, p, wire, out, n, rest, frame);
    }
  }

  lemma NothingMore(s: Session, first: nat, total: nat, wire: seq<byte>, out: seq<byte>, n: nat, rest: seq<byte>,
                    e: ReceiveError)
    requires HasRead(s, first, total, wire, out, n, rest) && |out| < total && Remaining(s, n, total - |out|)
    requires Numbered(s, n) && FrameLen(s, total - |out|) <= MAX_FRAME_SIZE
    requires 0 <= FrameLen(s, total - |out|) && Rejected(s, n, FrameLen(s, total - |out|), rest, e)
    ensures forall p :: |p| == total ==> !CarriesAll(s, first, p, wire)
  {
    hide Rejected, Record, Remaining;
    RemainingStep(s, n, total - |out|);
    forall p | |p| == total ensures !CarriesAll(s, first, p, wire) {
      assert ReadAs(s, first, p, wire, out, n, rest);
      var q := p[|out|..];
      RejectedIsNoRecord(s, n, FrameLen(s, |q|), rest, e, q[..FrameLen(s, |q|)]);
    }
  }

  ghost predicate Tail(whole: seq<byte>, rest: seq<byte>) {
    |rest| <= |whole| && whole[|whole| - |rest|..] == rest
  }

  lemma StillTail(whole: seq<byte>, rest: seq<byte>, taken: nat)
    requires Tail(whole, rest) && taken <= |rest|
    ensures Tail(whole, rest[taken..])
  {
    assert whole[|whole| - |rest|..][taken..] == whole[|whole| - |rest| + taken..];
  }

  /** What holds before frame n is read. */
  ghost predicate Reading(s: Session, next: nat, received: nat, wire: seq<byte>, n: nat, at: nat, out: seq<byte>,
                          rest: seq<byte>)
  {
    && Ready(s) && s.header.frameSize >= 1 && next <= n && received <= at <= s.header.originalSize
    && |out| == at - received
    && ExpectedBytes(n, s.header.frameSize, s.header.originalSize, s.header.frameCount) == Some(at)
    && Remaining(s, n, s.header.originalSize - at)
    && |wire| == |rest| + |out| + 32 * (n - next) && Tail(wire, rest)
    && HasRead(s, next, s.header.originalSize - received, wire, out, n, rest)
  }

  lemma ReadingStarts(s: Session, next: nat, received: nat, wire: seq<byte>)
    requires Ready(s) && s.header.frameSize >= 1 && s.header.originalSize >= 0
    requires ExpectedBytes(next, s.header.frameSize, s.header.originalSize, s.header.frameCount) == Some(received)
    ensures next <= s.header.frameCount && received <= s.header.originalSize
    ensures Reading(s, next, received, wire, next, received, [], wire)
  {
    hide Pack, FrameCount, HasRead;
    assert 0 <= next <= s.header.frameCount;
    hide ExpectedBytes;
    NumberFits(s, 0);
    FramesLeft(next, s.header.frameSize, s.header.originalSize, s.header.frameCount);
    HasReadNothing(s, next, s.header.originalSize - received, wire);
  }

  lemma ReadingFrame(s: Session, next: nat, received: nat, wire: seq<byte>, n: nat, at: nat, out: seq<byte>,
                     rest: seq<byte>)
    requires Reading(s, next, received, wire, n, at, out, rest) && n < s.header.frameCount
    ensures Numbered(s, n) && at < s.header.originalSize
    ensures 0 < Min(s.header.frameSize, s.header.originalSize - at) <= MAX_FRAME_SIZE
  {
    hide HasRead, Tail, Pack, FrameCount;
    RemainingStep(s, n, s.header.originalSize - at);
  }

  ghost predicate NoneCarried(s: Session, next: nat, total: int, wire: seq<byte>) {
    forall p :: |p| == total ==> !CarriesAll(s, next, p, wire)
  }

  lemma ReadingFails(s: Session, next: nat, received: nat, wire: seq<byte>, n: nat, at: nat, out: seq<byte>,
                     rest: seq<byte>, e: ReceiveError)
    requires Reading(s, next, received, wire, n, at, out, rest) && n < s.header.frameCount
    requires Numbered(s, n) && at < s.header.originalSize
             && 0 < Min(s.header.frameSize, s.header.originalSize - at) <= MAX_FRAME_SIZE
    requires Rejected(s, n, Min(s.header.frameSize, s.header.originalSize - at), rest, e)
    ensures NoneCarried(s, next, s.header.originalSize - received, wire)
  {
    hide HasRead, Tail, Pack, FrameCount, Rejected, CarriesAll, ExpectedBytes;
    NothingMore(s, next, s.header.originalSize - received, wire, out, n, rest, e);
  }

  lemma ReadingStep(s: Session, next: nat, received: nat, wire: seq<byte>, n: nat, at: nat, out: seq<byte>,
                    rest: seq<byte>, frame: seq<byte>)
    requires Reading(s, next, received, wire, n, at, out, rest) && n < s.header.frameCount
    requires Numbered(s, n) && at < s.header.originalSize
    requires |frame| == Min(s.header.frameSize, s.header.originalSize - at) <= MAX_FRAME_SIZE
             && Starts(s, n, frame, rest)
    ensures RecordSize(|frame|) <= |rest|
    ensures Reading(s, next, received, wire, n + 1, at + |frame|, out + frame, rest[RecordSize(|frame|)..])
  {
    hide HasRead, Tail, Pack, FrameCount, ExpectedBytes, Record;
    NumberFits(s, n);
    ExpectedStep(n, s.header.frameSize, s.header.originalSize, s.header.frameCount);
    RemainingStep(s, n, s.header.originalSize - at);
    StillTail(wire, rest, RecordSize(|frame|));
    HasReadStep(s, next, s.header.originalSize - received, wire, out, n, rest, frame);
  }

  lemma ReadingEnds(s: Session, next: nat, received: nat, wire: seq<byte>, at: nat, out: seq<byte>, rest: seq<byte>)
    requires next <= s.header.frameCount && Reading(s, next, received, wire, s.header.frameCount, at, out, rest)
    ensures at == s.header.originalSize && |out| == s.header.originalSize - received && CarriesAll(s, next, out, wire)
    ensures |wire| == StreamSize(s, next, |out|) + |rest| && Tail(wire, rest)
  {
    hide HasRead, Tail, Pack, FrameCount, ExpectedBytes;
    RemainingStep(s, s.header.frameCount, s.header.originalSize - at);
    HasReadEverything(s, next, wire, out, s.header.frameCount, rest);
  }

  lemma CarriesAllShows(s: Session, n: nat, p: seq<byte>, wire: seq<byte>)
    requires CarriesAll(s, n, p, wire)
    ensures |s.headerBytes| >= 90 && AreFrames(s, n, p, wire)
  {
    CarriesShows(s, n, p, wire);
  }

  /**
   The frame loop of the receiver, from the checkpoint in the status.  It succeeds exactly when the
   wire starts with frames of some plaintext of the missing length, and that is what it returns.
   */
  method ReceiveFrames(s: Session, next: nat, received: nat, wire: seq<byte>)
    returns (r: Result<(seq<byte>, seq<byte>), ReceiveError>)
    requires Ready(s) && s.header.frameSize >= 1 && s.header.originalSize >= 0
    requires ExpectedBytes(next, s.header.frameSize, s.header.originalSize, s.header.frameCount) == Some(received)
    ensures received <= s.header.originalSize
    ensures r.Ok? ==>
              && |r.value.0| == s.header.originalSize - received && CarriesAll(s, next, r.value.0, wire)
              && next <= s.header.frameCount && |wire| == StreamSize(s, next, |r.value.0|) + |r.value.1|
              && Tail(wire, r.value.1)
    ensures r.Ok? ==> |s.headerBytes| >= 90 && AreFrames(s, next, r.value.0, wire)
    ensures r.Err? ==> NoneCarried(s, next, s.header.originalSize - received, wire)
  {
    hide Reading, NoneCarried, Numbered, Ready, Starts, Rejected, CarriesAll, Tail, ExpectedBytes, FrameCount, IsFrame,
         AreFrames;
    var h := s.header;
    ReadingStarts(s, next, received, wire);
    var currentBytes: nat := received;
    var out: seq<byte> := [];
    var rest := wire;
    for n: nat := next to h.frameCount
      invariant Reading(s, next, received, wire, n, currentBytes, out, rest)
    {
      ReadingFrame(s, next, received, wire, n, currentBytes, out, rest);
      var expectedLen := Min(h.frameSize, h.originalSize - currentBytes);
      var frame := ReceiveFrame(s, n, expectedLen, rest);
      if frame.Err? {
        ReadingFails(s, next, received, wire, n, currentBytes, out, rest, frame.error);
        return Err(frame.error);
      }
      ReadingStep(s, next, received, wire, n, currentBytes, out, rest, frame.value);
      out := out + frame.value;
      rest := rest[RecordSize(|frame.value|)..];
      currentBytes := currentBytes + |frame.value|;
    }
    ReadingEnds(s, next, received, wire, currentBytes, out, rest);
    CarriesAllShows(s, next, out, wire);
    return Ok((out, rest));
  }

  /**
   An honest sender and the receiver agree: whatever follows the frames that were sent from a
   checkpoint, only the bytes of the source behind that checkpoint can have been received.
   */
  lemma HonestFramesArrive(s: Session, source: seq<byte>, next: nat, received: nat, sent: seq<byte>, tail: seq<byte>)
    requires Ready(s) && s.header.frameSize >= 1 && |source| == s.header.originalSize
    requires ExpectedBytes(next, s.header.frameSize, |source|, s.header.frameCount) == Some(received)
    requires received <= |source| && Exactly(s, next, source[received..], sent)
    ensures CarriesAll(s, next, source[received..], sent + tail)
    ensures forall p :: |p| == |source| - received && CarriesAll(s, next, p, sent + tail) ==> p == source[received..]
    ensures (sent + tail)[StreamSize(s, next, |source| - received)..] == tail
  {
    hide Record;
    CarriesMore(s, next, source[received..], sent, tail);
    forall p | |p| == |source| - received && CarriesAll(s, next, p, sent + tail) ensures p == source[received..] {
      CarriesUnique(s, next, p, source[received..], sent + tail);
    }
  }

  lemma {:induction false} CarriesMore(s: Session, n: nat, p: seq<byte>, wire: seq<byte>, tail: seq<byte>)
    requires Remaining(s, n, |p|) && Carries(s, n, p, wire)
    ensures Carries(s, n, p, wire + tail)
    decreases |p|
  {
    hide Record, Remaining;
    if p != [] {
      RemainingStep(s, n, |p|);
      var size := RecordSize(FrameLen(s, |p|));
      CarriesMore(s, n + 1, p[FrameLen(s, |p|)..], wire[size..], tail);
      assert (wire + tail)[..size] == wire[..size] && (wire + tail)[size..] == wire[size..] + tail;
    }
  }

  // The final record

  /** Sealed under the nonce that follows the frames' nonces, with the digest of the source. */
  function FinalBytes(s: Session): seq<byte>
    requires Ready(s) && s.header.frameCount >= 0
  {
    NumberFits(s, s.header.frameCount);
    FinalMeta() + s.aead.seal(s.key, FrameNonce(s.header.nonceBase, s.header.frameCount), s.header.sourceHash,
                              FinalAad(s.headerBytes, s.statusBytes))
  }

  datatype FinalError = FinalClosed | FinalMissing | FinalLength | FinalAuthentication | DigestMismatch

  /** What follows an accepted final record. */
  function ReadFinal(s: Session, wire: seq<byte>): Result<seq<byte>, FinalError>
    requires Ready(s) && s.header.frameCount >= 0
  {
    NumberFits(s, s.header.frameCount);
    if |wire| < 8 then Err(FinalClosed)
    else if wire[..4] != NETWORK_FINAL_MAGIC then Err(FinalMissing)
    else if FromBytes(wire[4..8]) != FINAL_CIPHERTEXT_SIZE then Err(FinalLength)
    else if |wire| < 8 + FINAL_CIPHERTEXT_SIZE then Err(FinalClosed)
    else match s.aead.open(s.key, FrameNonce(s.header.nonceBase, s.header.frameCount),
                           wire[8..8 + FINAL_CIPHERTEXT_SIZE],
                           FinalAad(s.headerBytes, s.statusBytes))
         case None => Err(FinalAuthentication)
         case Some(digest) =>
           if digest != s.header.sourceHash then Err(DigestMismatch) else Ok(wire[8 + FINAL_CIPHERTEXT_SIZE..])
  }

  /** A final record is accepted exactly when it is, byte for byte, the one that the sender makes. */
  lemma FinalAccepted(s: Session, wire: seq<byte>, tail: seq<byte>)
    requires Ready(s) && s.header.frameCount >= 0
    ensures ReadFinal(s, wire) == Ok(tail) <==> wire == FinalBytes(s) + tail
  {
    hide FromBytes, ToBytes, FrameNonce;
    Pow256Values();
    NumberFits(s, s.header.frameCount);
    var nonce, aad := FrameNonce(s.header.nonceBase, s.header.frameCount), FinalAad(s.headerBytes, s.statusBytes);
    var sealed := s.aead.seal(s.key, nonce, s.header.sourceHash, aad);
    assert |sealed| == FINAL_CIPHERTEXT_SIZE && s.aead.open(s.key, nonce, sealed, aad) == Some(s.header.sourceHash);
    FieldRoundTrip(FINAL_CIPHERTEXT_SIZE, 4);
    if wire == FinalBytes(s) + tail {
      assert wire[..4] == NETWORK_FINAL_MAGIC && wire[4..8] == Field(FINAL_CIPHERTEXT_SIZE, 4);
      assert wire[8..8 + FINAL_CIPHERTEXT_SIZE] == sealed && wire[8 + FINAL_CIPHERTEXT_SIZE..] == tail;
    }
    if ReadFinal(s, wire) == Ok(tail) {
      FieldCanonical(wire[4..8]);
      assert wire == wire[..4] + wire[4..8] + wire[8..8 + FINAL_CIPHERTEXT_SIZE] + wire[8 + FINAL_CIPHERTEXT_SIZE..];
    }
  }

  /** The sender's final record, byte by byte. */
  lemma FinalShows(s: Session)
    requires Ready(s)
    ensures s.header.frameCount >= 0 && IsFinal(s, FinalBytes(s))
  {
    hide Pack, FrameNonce, IsNonce, Number;
    ReadyHeader(s);
    NumberFits(s, s.header.frameCount);
    NonceExactly(s.header.nonceBase, s.header.frameCount, FrameNonce(s.header.nonceBase, s.header.frameCount));
    FinalMetaBytes();
    var bytes := FinalBytes(s);
    assert bytes[..8] == FinalMeta();
    assert FinalAad(s.headerBytes, s.statusBytes) == s.headerBytes + s.statusBytes + bytes[..8];
  }

  lemma FinalMetaBytes()
    ensures FinalMeta() == [78, 69, 78, 68, 0, 0, 0, 48]
  {
    Pow256Values();
    assert ToBytes(0, 0) == [] && ToBytes(0, 1) == [0] && ToBytes(0, 2) == [0, 0] && ToBytes(0, 3) == [0, 0, 0];
    assert ToBytes(48, 4) == [0, 0, 0, 48];
  }
}
