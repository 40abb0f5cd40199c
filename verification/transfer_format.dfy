/**
 Headers, checkpoints and associated data of resumable transfers (src/ubin/secure/resume_format.py
 and src/ubin/secure/krp_format.py, which differ in magic numbers, version and flags only).
 */
module TransferFormat {
  import opened Arithmetic
  import opened Bytes
  import opened Framing
  import Utf8

  datatype Variant = Resumable | KrpResumable

  /** '4' or '5', the last character of every magic number. */
  function Digit(v: Variant): byte {
    match v
    case Resumable => 52
    case KrpResumable => 53
  }

  /** "UBT", "UBS" and "UBA", each followed by the digit. */
  function TransferMagic(v: Variant): seq<byte> { [85, 66, 84, Digit(v)] }

  function StatusMagic(v: Variant): seq<byte> { [85, 66, 83, Digit(v)] }

  function AckMagic(v: Variant): seq<byte> { [85, 66, 65, Digit(v)] }

  const TRANSFER_MAJOR := 0

  function TransferMinor(v: Variant): nat {
    match v
    case Resumable => 4
    case KrpResumable => 5
  }

  function RequiredFlags(v: Variant): nat {
    match v
    case Resumable => 0
    case KrpResumable => 1
  }

  const FIXED_SIZE: nat := 90
  const STATUS_SIZE: nat := 53
  const STATUS_OK: nat := 1
  const ACK_OK: nat := 1
  const TICKET_SIZE: nat := 32
  const MAX_FILENAME_BYTES: nat := 1024

  /** "NEND" */
  const NETWORK_FINAL_MAGIC: seq<byte> := [78, 69, 78, 68]

  datatype TransferHeader = TransferHeader(
    filename: seq<Utf8.CodePoint>, frameSize: int, originalSize: int, frameCount: int, transferId: seq<byte>,
    nonceBase: seq<byte>, sourceHash: seq<byte>, flags: int)

  datatype TransferError =
    | BadFilename
    | NotEncodable
    | FilenameTooLong
    | BadFrameSize
    | NegativeSize
    | BadFrameCount
    | BadTransferId
    | BadNonceBase
    | BadSourceHash
    | FieldRange
    | BadLength
    | BadMagic
    | BadVersion
    | BadFlags
    | FilenameLength
    | NotUtf8

  /** A single path component: not empty, not "." or "..", and without '/', '\' and NUL. */
  predicate ValidName(name: seq<Utf8.CodePoint>) {
    && name != [] && name != [46] && name != [46, 46]
    && 47 !in name && 92 !in name && 0 !in name
  }

  function Pack(v: Variant, h: TransferHeader): (r: Result<seq<byte>, TransferError>)
    ensures r.Ok? ==> |r.value| == FIXED_SIZE + |Utf8.Encode(h.filename)|
  {
    var name := Utf8.Encode(h.filename);
    if !ValidName(h.filename) then Err(BadFilename)
    else if !Utf8.Encodable(h.filename) then Err(NotEncodable)
    else if |name| > MAX_FILENAME_BYTES then Err(FilenameTooLong)
    else if !(1 <= h.frameSize <= MAX_FRAME_SIZE) then Err(BadFrameSize)
    else if h.originalSize < 0 then Err(NegativeSize)
    else if h.frameCount != FrameCount(h.originalSize, h.frameSize) || h.frameCount > MAX_FRAME_COUNT
         then Err(BadFrameCount)
    else if |h.transferId| != 16 then Err(BadTransferId)
    else if |h.nonceBase| != 12 then Err(BadNonceBase)
    else if |h.sourceHash| != 32 then Err(BadSourceHash)
    else if !Fits(h.flags, 2) || !Fits(h.originalSize, 8) then Err(FieldRange)
    else
      Pow256Values();
      Ok(TransferMagic(v) + Field(TRANSFER_MAJOR, 1) + Field(TransferMinor(v), 1) + Field(h.flags, 2)
         + Field(h.frameSize, 4) + Field(h.originalSize, 8) + Field(h.frameCount, 8)
         + h.transferId + h.nonceBase + h.sourceHash + Field(|name|, 2) + name)
  }

  /** The header that the fixed fields and a decoded name denote, before any check. */
  function Fields(fixed: seq<byte>, name: seq<Utf8.CodePoint>): TransferHeader
    requires |fixed| == FIXED_SIZE
  {
    TransferHeader(name, FromBytes(fixed[8..12]), FromBytes(fixed[12..20]), FromBytes(fixed[20..28]),
                   fixed[28..44], fixed[44..56], fixed[56..88], FromBytes(fixed[6..8]))
  }

  function NameLength(fixed: seq<byte>): nat
    requires |fixed| >= FIXED_SIZE
  {
    FromBytes(fixed[88..90])
  }

  function Unpack(v: Variant, fixed: seq<byte>, nameBytes: seq<byte>): Result<TransferHeader, TransferError> {
    if |fixed| != FIXED_SIZE then Err(BadLength)
    else if fixed[..4] != TransferMagic(v) then Err(BadMagic)
    else if FromBytes(fixed[4..5]) != TRANSFER_MAJOR || FromBytes(fixed[5..6]) != TransferMinor(v) then Err(BadVersion)
    else if FromBytes(fixed[6..8]) != RequiredFlags(v) then Err(BadFlags)
    else if NameLength(fixed) != |nameBytes| then Err(FilenameLength)
    else if NameLength(fixed) > MAX_FILENAME_BYTES then Err(FilenameTooLong)
    else match Utf8.Decode(nameBytes)
         case None => Err(NotUtf8)
         case Some(name) =>
           var h := Fields(fixed, name);
           var _ :- Pack(v, h);
           Ok(h)
  }

  /** The parts of a packed header. */
  lemma PackedFields(v: Variant, h: TransferHeader)
    requires Pack(v, h).Ok?
    ensures var raw := Pack(v, h).value;
            var fixed := raw[..FIXED_SIZE];
            && raw[FIXED_SIZE..] == Utf8.Encode(h.filename) && NameLength(fixed) == |Utf8.Encode(h.filename)|
            && fixed[..4] == TransferMagic(v) && FromBytes(fixed[4..5]) == TRANSFER_MAJOR
            && FromBytes(fixed[5..6]) == TransferMinor(v)
            && Fields(fixed, h.filename) == h
  {
    hide ToBytes, FromBytes, Utf8.Encode, FrameCount, ValidName, Utf8.Encodable;
    Pow256Values();
    var raw := Pack(v, h).value;
    var name := Utf8.Encode(h.filename);
    var fixed := raw[..FIXED_SIZE];
    FieldRoundTrip(TRANSFER_MAJOR, 1);
    FieldRoundTrip(TransferMinor(v), 1);
    FieldRoundTrip(h.flags, 2);
    FieldRoundTrip(h.frameSize, 4);
    FieldRoundTrip(h.originalSize, 8);
    FieldRoundTrip(h.frameCount, 8);
    FieldRoundTrip(|name|, 2);
    assert fixed[4..5] == Field(TRANSFER_MAJOR, 1) && fixed[5..6] == Field(TransferMinor(v), 1)
           && fixed[6..8] == Field(h.flags, 2);
    assert fixed[8..12] == Field(h.frameSize, 4) && fixed[12..20] == Field(h.originalSize, 8)
           && fixed[20..28] == Field(h.frameCount, 8);
    assert fixed[28..44] == h.transferId && fixed[44..56] == h.nonceBase && fixed[56..88] == h.sourceHash;
    assert fixed[88..90] == Field(|name|, 2);
  }

  /** Unpacking a packed header gives it back exactly when it has the variant's flags, which packing does not check. */
  lemma UnpackUndoesPack(v: Variant, h: TransferHeader)
    requires Pack(v, h).Ok?
    ensures var r := Unpack(v, Pack(v, h).value[..FIXED_SIZE], Pack(v, h).value[FIXED_SIZE..]);
            (r == Ok(h) <==> h.flags == RequiredFlags(v)) && (r.Ok? <==> h.flags == RequiredFlags(v))
  {
    hide Utf8.Encode, Utf8.Decode, FrameCount, FromBytes, ToBytes, ValidName;
    PackedFields(v, h);
    Utf8.DecodeEncode(h.filename);
    assert Fields(Pack(v, h).value[..FIXED_SIZE], h.filename).flags == h.flags;
  }

  /** Every header that packs also packs with any other flags, and is then refused for them. */
  lemma WrongFlagsArePacked(v: Variant, h: TransferHeader, flags: int)
    requires Pack(v, h).Ok? && Fits(flags, 2) && flags != RequiredFlags(v)
    ensures var wrong := Pack(v, h.(flags := flags));
            wrong.Ok? && Unpack(v, wrong.value[..FIXED_SIZE], wrong.value[FIXED_SIZE..]) == Err(BadFlags)
  {
    hide Utf8.Encode, Utf8.Decode, FrameCount, FromBytes, ToBytes, ValidName;
    var wrong := h.(flags := flags);
    PackedFields(v, wrong);
    assert Fields(Pack(v, wrong).value[..FIXED_SIZE], h.filename).flags == flags;
  }

  /** An empty file called "a". */
  lemma SomeHeaderPacks(v: Variant) returns (h: TransferHeader)
    ensures Pack(v, h).Ok? && h.flags == RequiredFlags(v)
  {
    Pow256Values();
    h := TransferHeader([97], 1, 0, 0, seq(16, _ => 0), seq(12, _ => 0), seq(32, _ => 0), RequiredFlags(v));
    assert Utf8.Encode([97]) == [97] by {
      assert [97][1..] == [];
    }
  }

  /** Whatever is unpacked packs to the bytes it came from, so two headers never share their bytes. */
  lemma PackUndoesUnpack(v: Variant, fixed: seq<byte>, nameBytes: seq<byte>)
    requires Unpack(v, fixed, nameBytes).Ok?
    ensures var h := Unpack(v, fixed, nameBytes).value;
            Pack(v, h) == Ok(fixed + nameBytes) && h.flags == RequiredFlags(v)
  {
    hide ToBytes, FromBytes, Utf8.Encode, Utf8.Decode, FrameCount, ValidName;
    Pow256Values();
    Utf8.EncodeDecode(nameBytes);
    FieldCanonical(fixed[4..5]);
    FieldCanonical(fixed[5..6]);
    FieldCanonical(fixed[6..8]);
    FieldCanonical(fixed[8..12]);
    FieldCanonical(fixed[12..20]);
    FieldCanonical(fixed[20..28]);
    FieldCanonical(fixed[88..90]);
    assert fixed == fixed[..4] + fixed[4..5] + fixed[5..6] + fixed[6..8] + fixed[8..12] + fixed[12..20] + fixed[20..28]
                  + fixed[28..44] + fixed[44..56] + fixed[56..88] + fixed[88..90];
  }

  // Checkpoints

  /** The bytes that precede a frame, or None for a frame number out of range. */
  function ExpectedBytes(next: int, frameSize: nat, originalSize: nat, frameCount: nat): Option<nat> {
    if !(0 <= next <= frameCount) then None
    else if next == frameCount then Some(originalSize)
    else ProductMonotone(0, next, frameSize); Some(next * frameSize)
  }

  predicate Sized(frameSize: nat, originalSize: nat, frameCount: nat) {
    frameSize >= 1 && frameCount == FrameCount(originalSize, frameSize)
  }

  /** Every frame is non-empty and takes the position to that of the next frame. */
  lemma ExpectedStep(next: nat, frameSize: nat, originalSize: nat, frameCount: nat)
    requires Sized(frameSize, originalSize, frameCount) && next < frameCount
    ensures var at := ExpectedBytes(next, frameSize, originalSize, frameCount).value;
            && at < originalSize
            && ExpectedBytes(next + 1, frameSize, originalSize, frameCount)
               == Some(at + Min(frameSize, originalSize - at))
  {
    DivMod(originalSize + frameSize - 1, frameSize);
    ProductMonotone(next + 1, frameCount, frameSize);
    ProductGap(next, next + 1, frameSize);
    if next + 1 < frameCount {
      ProductMonotone(next + 2, frameCount, frameSize);
      ProductGap(next + 1, next + 2, frameSize);
    }
  }

  /** The frames that are left are the frames of the bytes that are left. */
  lemma {:induction false} FramesLeft(next: nat, frameSize: nat, originalSize: nat, frameCount: nat)
    requires Sized(frameSize, originalSize, frameCount) && next <= frameCount
    ensures var at := ExpectedBytes(next, frameSize, originalSize, frameCount).value;
            at <= originalSize && next + FrameCount(originalSize - at, frameSize) == frameCount
  {
    hide FrameCount;
    if next == 0 {
      NoFramesLeft(originalSize, frameSize);
    } else {
      FramesLeft(next - 1, frameSize, originalSize, frameCount);
      ExpectedStep(next - 1, frameSize, originalSize, frameCount);
      FrameCountStep(originalSize - ExpectedBytes(next - 1, frameSize, originalSize, frameCount).value, frameSize);
    }
  }

  /** A later checkpoint has strictly more bytes, so its byte count tells its frame number. */
  lemma {:induction false} ExpectedGrows(a: nat, b: nat, frameSize: nat, originalSize: nat, frameCount: nat)
    requires Sized(frameSize, originalSize, frameCount) && a < b <= frameCount
    ensures ExpectedBytes(a, frameSize, originalSize, frameCount).value
            < ExpectedBytes(b, frameSize, originalSize, frameCount).value
  {
    hide FrameCount;
    ExpectedStep(b - 1, frameSize, originalSize, frameCount);
    if a < b - 1 {
      ExpectedGrows(a, b - 1, frameSize, originalSize, frameCount);
    }
  }

  /** A checkpoint's byte count is that of its complete frames, and the whole size at the end. */
  lemma ExpectedExactly(next: int, frameSize: nat, originalSize: nat, frameCount: nat)
    requires Sized(frameSize, originalSize, frameCount)
    ensures ExpectedBytes(next, frameSize, originalSize, frameCount)
            == if 0 <= next <= frameCount
               then Some(if next * frameSize < originalSize then next * frameSize else originalSize) else None
  {
    CountExactly(originalSize, frameSize, frameCount);
    if 0 <= next < frameCount {
      ProductMonotone(next, frameCount - 1, frameSize);
    }
  }

  // Replies

  function StatusBytes(v: Variant, next: nat, received: nat, ticket: seq<byte>): (s: seq<byte>)
    requires Fits(next, 8) && Fits(received, 8) && |ticket| == TICKET_SIZE
    ensures |s| == STATUS_SIZE
  {
    Pow256Values();
    StatusMagic(v) + Field(STATUS_OK, 1) + Field(next, 8) + Field(received, 8) + ticket
  }

  lemma StatusFields(v: Variant, next: nat, received: nat, ticket: seq<byte>)
    requires Fits(next, 8) && Fits(received, 8) && |ticket| == TICKET_SIZE
    ensures var s := StatusBytes(v, next, received, ticket);
            && s[..4] == StatusMagic(v) && FromBytes(s[4..5]) == STATUS_OK
            && FromBytes(s[5..13]) == next && FromBytes(s[13..21]) == received && s[21..53] == ticket
  {
    hide ToBytes, FromBytes;
    Pow256Values();
    var s := StatusBytes(v, next, received, ticket);
    FieldRoundTrip(STATUS_OK, 1);
    FieldRoundTrip(next, 8);
    FieldRoundTrip(received, 8);
    assert s[4..5] == Field(STATUS_OK, 1) && s[5..13] == Field(next, 8) && s[13..21] == Field(received, 8);
  }

  /** The acknowledgement: status, size, digest and transfer id. */
  function AckBytes(v: Variant, size: nat, digest: seq<byte>, transferId: seq<byte>): (s: seq<byte>)
    requires Fits(size, 8) && |digest| == 32 && |transferId| == 16
    ensures |s| == 61
  {
    Pow256Values();
    AckMagic(v) + Field(ACK_OK, 1) + Field(size, 8) + digest + transferId
  }

  lemma AckFields(v: Variant, size: nat, digest: seq<byte>, transferId: seq<byte>)
    requires Fits(size, 8) && |digest| == 32 && |transferId| == 16
    ensures var s := AckBytes(v, size, digest, transferId);
            && s[..4] == AckMagic(v) && FromBytes(s[4..5]) == ACK_OK
            && FromBytes(s[5..13]) == size && s[13..45] == digest && s[45..61] == transferId
  {
    hide ToBytes, FromBytes;
    Pow256Values();
    var s := AckBytes(v, size, digest, transferId);
    FieldRoundTrip(ACK_OK, 1);
    FieldRoundTrip(size, 8);
    assert s[4..5] == Field(ACK_OK, 1) && s[5..13] == Field(size, 8);
  }

  // Associated data

  function FrameAad(header: seq<byte>, status: seq<byte>, frameNumber: nat, plaintextLen: nat): seq<byte>
    requires Fits(frameNumber, 8) && plaintextLen <= MAX_FRAME_SIZE
  {
    Pow256Values();
    header + status + FrameMeta(frameNumber, plaintextLen, plaintextLen + GCM_TAG_SIZE)
  }

  function FinalMeta(): (s: seq<byte>)
    ensures |s| == 8
  {
    Pow256Values();
    NETWORK_FINAL_MAGIC + Field(FINAL_CIPHERTEXT_SIZE, 4)
  }

  function FinalAad(header: seq<byte>, status: seq<byte>): seq<byte> {
    header + status + FinalMeta()
  }

  /** The header bytes end where their own name length says. */
  ghost predicate IsHeader(v: Variant, header: seq<byte>) {
    exists h :: Pack(v, h) == Ok(header)
  }

  lemma HeaderDelimited(v: Variant, header: seq<byte>, rest: seq<byte>)
    requires IsHeader(v, header)
    ensures |header + rest| >= FIXED_SIZE && |header| == FIXED_SIZE + NameLength(header + rest)
  {
    var h :| Pack(v, h) == Ok(header);
    PackedFields(v, h);
    assert (header + rest)[88..90] == header[..FIXED_SIZE][88..90];
  }

  lemma HeaderPrefix(v: Variant, header: seq<byte>, rest: seq<byte>, header': seq<byte>, rest': seq<byte>)
    requires IsHeader(v, header) && IsHeader(v, header') && header + rest == header' + rest'
    ensures header == header' && rest == rest'
  {
    HeaderDelimited(v, header, rest);
    HeaderDelimited(v, header', rest');
    assert header == (header + rest)[..|header|] && rest == (header + rest)[|header|..];
    assert header' == (header' + rest')[..|header'|] && rest' == (header' + rest')[|header'|..];
  }

  /** The associated data of a frame tells the header, the status, the frame number and the length. */
  lemma FrameAadBinds(v: Variant, header: seq<byte>, status: seq<byte>, n: nat, len: nat,
                      header': seq<byte>, status': seq<byte>, n': nat, len': nat)
    requires IsHeader(v, header) && IsHeader(v, header') && |status| == |status'| == STATUS_SIZE
    requires Fits(n, 8) && Fits(n', 8) && len <= MAX_FRAME_SIZE && len' <= MAX_FRAME_SIZE
    requires FrameAad(header, status, n, len) == FrameAad(header', status', n', len')
    ensures header == header' && status == status' && n == n' && len == len'
  {
    hide FrameMeta, IsHeader, FromBytes;
    Pow256Values();
    var meta, meta' := FrameMeta(n, len, len + GCM_TAG_SIZE), FrameMeta(n', len', len' + GCM_TAG_SIZE);
    assert FrameAad(header, status, n, len) == header + (status + meta);
    assert FrameAad(header', status', n', len') == header' + (status' + meta');
    HeaderPrefix(v, header, status + meta, header', status' + meta');
    assert status == (status + meta)[..STATUS_SIZE] && meta == (status + meta)[STATUS_SIZE..];
    assert status' == (status' + meta')[..STATUS_SIZE] && meta' == (status' + meta')[STATUS_SIZE..];
    FrameMetaFields(n, len, len + GCM_TAG_SIZE);
    FrameMetaFields(n', len', len' + GCM_TAG_SIZE);
  }

  /** A frame is never taken for a final record, nor a final record of one attempt for that of another. */
  lemma FinalAadBinds(v: Variant, header: seq<byte>, status: seq<byte>, header': seq<byte>, status': seq<byte>)
    requires IsHeader(v, header) && IsHeader(v, header') && |status| == |status'| == STATUS_SIZE
    ensures FinalAad(header, status) == FinalAad(header', status') ==> header == header' && status == status'
    ensures forall n: nat, len: nat :: Fits(n, 8) && len <= MAX_FRAME_SIZE ==>
              FinalAad(header, status) != FrameAad(header', status', n, len)
  {
    hide FrameMeta, IsHeader, FromBytes, FinalMeta;
    var final := FinalMeta();
    assert FinalAad(header, status) == header + (status + final);
    if FinalAad(header, status) == FinalAad(header', status') {
      assert FinalAad(header', status') == header' + (status' + final);
      HeaderPrefix(v, header, status + final, header', status' + final);
      assert status == (status + final)[..STATUS_SIZE] && status' == (status' + final)[..STATUS_SIZE];
    }
    forall n: nat, len: nat | Fits(n, 8) && len <= MAX_FRAME_SIZE
      ensures FinalAad(header, status) != FrameAad(header', status', n, len)
    {
      Pow256Values();
      var meta := FrameMeta(n, len, len + GCM_TAG_SIZE);
      assert FrameAad(header', status', n, len) == header' + (status' + meta);
      if header + (status + final) == header' + (status' + meta) {
        HeaderPrefix(v, header, status + final, header', status' + meta);
      }
    }
  }

  // Resume tickets

  /** The part of a header that all attempts of a transfer share: everything but the nonce base. */
  datatype Stable = Stable(
    filename: seq<Utf8.CodePoint>, frameSize: int, originalSize: int, frameCount: int, transferId: seq<byte>,
    sourceHash: seq<byte>)

  function StableOf(h: TransferHeader): Stable {
    Stable(h.filename, h.frameSize, h.originalSize, h.frameCount, h.transferId, h.sourceHash)
  }

  /** "UBIN-v0.4-resume-ticket" or "UBIN-v0.5-krp-resume-ticket", and a zero byte. */
  function TicketLabel(v: Variant): seq<byte> {
    match v
    case Resumable => [85, 66, 73, 78, 45, 118, 48, 46, 52, 45, 114, 101, 115, 117, 109, 101, 45, 116, 105, 99, 107,
                       101, 116, 0]
    case KrpResumable => [85, 66, 73, 78, 45, 118, 48, 46, 53, 45, 107, 114, 112, 45, 114, 101, 115, 117, 109, 101, 45,
                          116, 105, 99, 107, 101, 116, 0]
  }

  /** The flags are in the ticket of the variant that has any. */
  function TicketFlags(v: Variant, flags: int): (s: seq<byte>)
    requires Fits(flags, 2)
  {
    match v
    case Resumable => []
    case KrpResumable => Field(flags, 2)
  }

  /** What the server authenticates as a transfer's ticket. */
  function TicketPayload(v: Variant, h: TransferHeader): seq<byte>
    requires Pack(v, h).Ok?
  {
    Pow256Values();
    var name := Utf8.Encode(h.filename);
    TicketLabel(v) + h.transferId + h.sourceHash + Field(h.originalSize, 8) + Field(h.frameSize, 4)
    + Field(h.frameCount, 8)
    + TicketFlags(v, h.flags) + Field(|name|, 2) + name
  }

  /** Two transfers share a ticket only if they agree on everything but the nonce base (and unused flags). */
  lemma TicketBindsStable(v: Variant, h: TransferHeader, v': Variant, h': TransferHeader)
    requires Pack(v, h).Ok? && Pack(v', h').Ok? && TicketPayload(v, h) == TicketPayload(v', h')
    ensures v == v' && StableOf(h) == StableOf(h')
    ensures v.KrpResumable? ==> h.flags == h'.flags
  {
    TicketDigit(v, h);
    TicketDigit(v', h');
    TicketParts(v, h);
    TicketParts(v, h');
    hide Pack, TicketPayload, TicketLabel, Utf8.Encode, FromBytes;
    Utf8.EncodeInjective(h.filename, h'.filename);
  }

  lemma TicketDigit(v: Variant, h: TransferHeader)
    requires Pack(v, h).Ok?
    ensures |TicketPayload(v, h)| > 8 && TicketPayload(v, h)[8] == Digit(v)
    ensures Utf8.Encodable(h.filename)
  {
    hide ToBytes, FromBytes, Utf8.Encode, FrameCount, ValidName;
  }

  lemma TicketParts(v: Variant, h: TransferHeader)
    requires Pack(v, h).Ok?
    ensures var p, at := TicketPayload(v, h), |TicketLabel(v)|;
            var end := at + 70 + (if v.Resumable? then 0 else 2);
            && |p| >= end && p[at..at + 16] == h.transferId && p[at + 16..at + 48] == h.sourceHash
            && FromBytes(p[at + 48..at + 56]) == h.originalSize && FromBytes(p[at + 56..at + 60]) == h.frameSize
            && FromBytes(p[at + 60..at + 68]) == h.frameCount && p[end..] == Utf8.Encode(h.filename)
            && (v.KrpResumable? ==> FromBytes(p[at + 68..at + 70]) == h.flags)
  {
    hide ToBytes, FromBytes, Utf8.Encode, FrameCount, ValidName, Utf8.Encodable, TicketLabel;
    Pow256Values();
    var p, at, name := TicketPayload(v, h), |TicketLabel(v)|, Utf8.Encode(h.filename);
    FieldRoundTrip(h.originalSize, 8);
    FieldRoundTrip(h.frameSize, 4);
    FieldRoundTrip(h.frameCount, 8);
    FieldRoundTrip(h.flags, 2);
    assert p[at + 48..at + 56] == Field(h.originalSize, 8) && p[at + 56..at + 60] == Field(h.frameSize, 4);
    assert p[at + 60..at + 68] == Field(h.frameCount, 8);
    if v.KrpResumable? {
      assert p[at + 68..at + 70] == Field(h.flags, 2);
    }
  }

  // Headers, replies and ticket payloads, byte by byte

  /**
   "UBT" and the digit, version 0.4 or 0.5, flags, frame size, size, frame count, transfer id, nonce
   base, source hash, and the name behind its length.
   */
  ghost predicate IsTransferHeader(digit: nat, flags: nat, frameSize: nat, size: nat, transferId: seq<byte>,
                                   nonceBase: seq<byte>, hash: seq<byte>, name: seq<byte>, raw: seq<byte>)
  {
    && |raw| == 90 + |name|
    && raw[..4] == [85, 66, 84, if digit == 4 then 52 else 53] && raw[4] == 0 && raw[5] == digit
    && Number(raw[6..8]) == flags && Number(raw[8..12]) == frameSize && Number(raw[12..20]) == size
    && IsCount(size, frameSize, Number(raw[20..28]))
    && raw[28..44] == transferId && raw[44..56] == nonceBase && raw[56..88] == hash
    && Number(raw[88..90]) == |name| && raw[90..] == name
  }

  function DigitValue(v: Variant): nat {
    if v.Resumable? then 4 else 5
  }

  lemma PackedNumbers(v: Variant, h: TransferHeader)
    requires Pack(v, h).Ok?
    ensures h.frameSize >= 1 && h.originalSize >= 0 && h.frameCount >= 0 && h.flags >= 0
    ensures IsTransferHeader(DigitValue(v), h.flags, h.frameSize, h.originalSize, h.transferId, h.nonceBase,
                             h.sourceHash, Utf8.Encode(h.filename), Pack(v, h).value)
    ensures Number(Pack(v, h).value[20..28]) == h.frameCount
  {
    PackedRanges(v, h);
    PackedFields(v, h);
    hide Pack, ToBytes, FromBytes, Utf8.Encode, FrameCount, Number, IsCount;
    var raw := Pack(v, h).value;
    FixedParts(raw);
    FixedNumbers(raw[..FIXED_SIZE]);
    CountExactly(h.originalSize, h.frameSize, h.frameCount);
  }

  lemma PackedRanges(v: Variant, h: TransferHeader)
    requires Pack(v, h).Ok?
    ensures h.frameSize >= 1 && h.originalSize >= 0 && h.flags >= 0 && |Utf8.Encode(h.filename)| <= MAX_FILENAME_BYTES
    ensures h.frameCount == FrameCount(h.originalSize, h.frameSize)
  {
    hide ToBytes, FromBytes, Utf8.Encode, FrameCount, ValidName;
  }

  /** The fixed part is what the whole starts with. */
  lemma FixedParts(raw: seq<byte>)
    requires |raw| >= FIXED_SIZE
    ensures var fixed := raw[..FIXED_SIZE];
            && fixed[..4] == raw[..4] && fixed[4..5] == [raw[4]] && fixed[5..6] == [raw[5]] && fixed[6..8] == raw[6..8]
            && fixed[8..12] == raw[8..12] && fixed[12..20] == raw[12..20] && fixed[20..28] == raw[20..28]
            && fixed[28..44] == raw[28..44] && fixed[44..56] == raw[44..56] && fixed[56..88] == raw[56..88]
            && fixed[88..90] == raw[88..90]
  {
  }

  lemma FixedNumbers(fixed: seq<byte>)
    requires |fixed| == FIXED_SIZE
    ensures FromBytes(fixed[4..5]) == fixed[4] && FromBytes(fixed[5..6]) == fixed[5]
    ensures FromBytes(fixed[6..8]) == Number(fixed[6..8]) && FromBytes(fixed[8..12]) == Number(fixed[8..12])
    ensures FromBytes(fixed[12..20]) == Number(fixed[12..20]) && FromBytes(fixed[20..28]) == Number(fixed[20..28])
    ensures FromBytes(fixed[88..90]) == Number(fixed[88..90])
  {
    hide FromBytes, Number;
    FromBytesIsNumber(fixed[4..5]);
    FromBytesIsNumber(fixed[5..6]);
    NumberDigits(fixed[4..5]);
    NumberDigits(fixed[5..6]);
    FromBytesIsNumber(fixed[6..8]);
    FromBytesIsNumber(fixed[8..12]);
    FromBytesIsNumber(fixed[12..20]);
    FromBytesIsNumber(fixed[20..28]);
    FromBytesIsNumber(fixed[88..90]);
  }

  /** Bytes that show the same fields are the same. */
  lemma HeaderIsShown(digit: nat, flags: nat, frameSize: nat, size: nat, transferId: seq<byte>, nonceBase: seq<byte>,
                      hash: seq<byte>, name: seq<byte>, raw: seq<byte>, raw': seq<byte>)
    requires IsTransferHeader(digit, flags, frameSize, size, transferId, nonceBase, hash, name, raw)
    requires IsTransferHeader(digit, flags, frameSize, size, transferId, nonceBase, hash, name, raw')
    requires frameSize >= 1
    ensures raw == raw'
  {
    hide Number, IsCount;
    CountExactly(size, frameSize, Number(raw[20..28]));
    CountExactly(size, frameSize, Number(raw'[20..28]));
    NumberInjective(raw[6..8], raw'[6..8]);
    NumberInjective(raw[8..12], raw'[8..12]);
    NumberInjective(raw[12..20], raw'[12..20]);
    NumberInjective(raw[20..28], raw'[20..28]);
    NumberInjective(raw[88..90], raw'[88..90]);
    AllParts(raw);
    AllParts(raw');
  }

  lemma AllParts(raw: seq<byte>)
    requires |raw| >= FIXED_SIZE
    ensures raw == raw[..4] + [raw[4], raw[5]] + raw[6..8] + raw[8..12] + raw[12..20] + raw[20..28] + raw[28..44]
                   + raw[44..56] + raw[56..88] + raw[88..90] + raw[90..]
  {
  }

  /** A packed header, byte by byte. */
  lemma HeaderExactly(v: Variant, h: TransferHeader, raw: seq<byte>)
    requires Pack(v, h).Ok?
    ensures h.frameSize >= 1 && h.originalSize >= 0 && h.flags >= 0
    ensures IsTransferHeader(DigitValue(v), h.flags, h.frameSize, h.originalSize, h.transferId, h.nonceBase,
                             h.sourceHash, Utf8.Encode(h.filename), raw)
            <==> raw == Pack(v, h).value
  {
    hide Pack, IsTransferHeader, Utf8.Encode;
    PackedNumbers(v, h);
    if IsTransferHeader(DigitValue(v), h.flags, h.frameSize, h.originalSize, h.transferId, h.nonceBase, h.sourceHash,
                        Utf8.Encode(h.filename), raw) {
      HeaderIsShown(DigitValue(v), h.flags, h.frameSize, h.originalSize, h.transferId, h.nonceBase, h.sourceHash,
                    Utf8.Encode(h.filename), raw, Pack(v, h).value);
    }
  }

  /** "UBS" and the digit, status 1, next frame, bytes received, ticket. */
  ghost predicate IsStatus(digit: nat, next: nat, received: nat, ticket: seq<byte>, raw: seq<byte>) {
    && |raw| == 53 && raw[..5] == [85, 66, 83, if digit == 4 then 52 else 53, 1]
    && Number(raw[5..13]) == next && Number(raw[13..21]) == received && raw[21..53] == ticket
  }

  lemma StatusExactly(v: Variant, next: nat, received: nat, ticket: seq<byte>, raw: seq<byte>)
    requires Fits(next, 8) && Fits(received, 8) && |ticket| == TICKET_SIZE
    ensures IsStatus(DigitValue(v), next, received, ticket, raw) <==> raw == StatusBytes(v, next, received, ticket)
  {
    hide ToBytes, FromBytes, Number;
    var correct := StatusBytes(v, next, received, ticket);
    StatusFields(v, next, received, ticket);
    FromBytesIsNumber(correct[4..5]);
    NumberDigits(correct[4..5]);
    FromBytesIsNumber(correct[5..13]);
    FromBytesIsNumber(correct[13..21]);
    assert correct[..5] == correct[..4] + [correct[4]];
    if IsStatus(DigitValue(v), next, received, ticket, raw) {
      NumberInjective(raw[5..13], correct[5..13]);
      NumberInjective(raw[13..21], correct[13..21]);
      assert raw == raw[..5] + raw[5..13] + raw[13..21] + raw[21..53];
      assert correct == correct[..5] + correct[5..13] + correct[13..21] + correct[21..53];
    }
  }

  /** "UBA" and the digit, status 1, size, digest, transfer id. */
  ghost predicate IsAck(digit: nat, size: nat, digest: seq<byte>, transferId: seq<byte>, raw: seq<byte>) {
    && |raw| == 61 && raw[..5] == [85, 66, 65, if digit == 4 then 52 else 53, 1]
    && Number(raw[5..13]) == size && raw[13..45] == digest && raw[45..61] == transferId
  }

  lemma AckExactly(v: Variant, size: nat, digest: seq<byte>, transferId: seq<byte>, raw: seq<byte>)
    requires Fits(size, 8) && |digest| == 32 && |transferId| == 16
    ensures IsAck(DigitValue(v), size, digest, transferId, raw) <==> raw == AckBytes(v, size, digest, transferId)
  {
    hide ToBytes, FromBytes, Number;
    var correct := AckBytes(v, size, digest, transferId);
    AckFields(v, size, digest, transferId);
    FromBytesIsNumber(correct[4..5]);
    NumberDigits(correct[4..5]);
    FromBytesIsNumber(correct[5..13]);
    assert correct[..5] == correct[..4] + [correct[4]];
    if IsAck(DigitValue(v), size, digest, transferId, raw) {
      NumberInjective(raw[5..13], correct[5..13]);
      assert raw == raw[..5] + raw[5..13] + raw[13..45] + raw[45..61];
      assert correct == correct[..5] + correct[5..13] + correct[13..45] + correct[45..61];
    }
  }
}
