/** The container's header and associated data (src/ubin/secure/format.py). */
module Format {
  import opened Bytes
  import opened ContainerForm
  import opened Framing

  /** "UBS1" */
  const MAGIC: seq<byte> := [85, 66, 83, 49]
  const VERSION_MAJOR := 0
  const VERSION_MINOR := 2
  const ALGORITHM_AES_256_GCM := 1
  const FLAGS_NONE := 0
  const HEADER_SIZE: nat := 58

  /** "END1" */
  const FINAL_MAGIC: seq<byte> := [69, 78, 68, 49]

  datatype SecureHeader = SecureHeader(
    frameSize: int, originalSize: int, frameCount: int, sessionId: seq<byte>, nonceBase: seq<byte>,
    algorithm: int, flags: int, major: int, minor: int)

  datatype HeaderError =
    | BadFrameSize
    | NegativeSize
    | BadFrameCount
    | BadSessionId
    | BadNonceBase
    | FieldRange
    | BadLength
    | BadMagic
    | BadVersion
    | BadAlgorithm
    | BadHeaderLength
    | BadFlags
    | InconsistentCount

  function Pack(h: SecureHeader): (r: Result<seq<byte>, HeaderError>)
    ensures r.Ok? ==> |r.value| == HEADER_SIZE
  {
    if !(MIN_FRAME_SIZE <= h.frameSize <= MAX_FRAME_SIZE) then Err(BadFrameSize)
    else if h.originalSize < 0 then Err(NegativeSize)
    else if !(0 <= h.frameCount <= MAX_FRAME_COUNT) then Err(BadFrameCount)
    else if |h.sessionId| != 16 then Err(BadSessionId)
    else if |h.nonceBase| != 12 then Err(BadNonceBase)
    else if !(Fits(h.major, 1) && Fits(h.minor, 1) && Fits(h.algorithm, 1) && Fits(h.flags, 1)
              && Fits(h.originalSize, 8))
    then Err(FieldRange)
    else
      Pow256Values();
      Ok(MAGIC + Field(h.major, 1) + Field(h.minor, 1) + Field(h.algorithm, 1) + Field(h.flags, 1)
         + Field(HEADER_SIZE, 2)
         + Field(h.frameSize, 4) + Field(h.originalSize, 8) + Field(h.frameCount, 8) + h.sessionId + h.nonceBase)
  }

  /** The header that the fields of a raw header denote, before any check. */
  function Fields(raw: seq<byte>): SecureHeader
    requires |raw| == HEADER_SIZE
  {
    SecureHeader(FromBytes(raw[10..14]), FromBytes(raw[14..22]), FromBytes(raw[22..30]), raw[30..46], raw[46..58],
                 FromBytes(raw[6..7]), FromBytes(raw[7..8]), FromBytes(raw[4..5]), FromBytes(raw[5..6]))
  }

  function Unpack(raw: seq<byte>): Result<SecureHeader, HeaderError> {
    if |raw| != HEADER_SIZE then Err(BadLength)
    else
      var h := Fields(raw);
      if raw[..4] != MAGIC then Err(BadMagic)
      else if h.major != VERSION_MAJOR || h.minor != VERSION_MINOR then Err(BadVersion)
      else if h.algorithm != ALGORITHM_AES_256_GCM then Err(BadAlgorithm)
      else if FromBytes(raw[8..10]) != HEADER_SIZE then Err(BadHeaderLength)
      else if h.flags != FLAGS_NONE then Err(BadFlags)
      else if !(MIN_FRAME_SIZE <= h.frameSize <= MAX_FRAME_SIZE) then Err(BadFrameSize)
      else if h.frameCount > MAX_FRAME_COUNT then Err(BadFrameCount)
      else if h.frameCount != FrameCount(h.originalSize, h.frameSize) then Err(InconsistentCount)
      else Ok(h)
  }

  /** The headers that unpacking accepts among those that pack. */
  predicate Consistent(h: SecureHeader) {
    && h.major == VERSION_MAJOR && h.minor == VERSION_MINOR && h.algorithm == ALGORITHM_AES_256_GCM
    && h.flags == FLAGS_NONE
    && h.originalSize >= 0 && h.frameSize >= 1 && h.frameCount == FrameCount(h.originalSize, h.frameSize)
  }

  /** The parts of a packed header. */
  lemma PackedFields(h: SecureHeader)
    requires Pack(h).Ok?
    ensures var raw := Pack(h).value; Fields(raw) == h && raw[..4] == MAGIC && FromBytes(raw[8..10]) == HEADER_SIZE
  {
    hide ToBytes, FromBytes;
    Pow256Values();
    var raw := Pack(h).value;
    FieldRoundTrip(h.major, 1);
    FieldRoundTrip(h.minor, 1);
    FieldRoundTrip(h.algorithm, 1);
    FieldRoundTrip(h.flags, 1);
    FieldRoundTrip(HEADER_SIZE, 2);
    FieldRoundTrip(h.frameSize, 4);
    FieldRoundTrip(h.originalSize, 8);
    FieldRoundTrip(h.frameCount, 8);
    assert raw[..4] == MAGIC && raw[4..5] == Field(h.major, 1) && raw[5..6] == Field(h.minor, 1);
    assert raw[6..7] == Field(h.algorithm, 1) && raw[7..8] == Field(h.flags, 1) && raw[8..10] == Field(HEADER_SIZE, 2);
    assert raw[10..14] == Field(h.frameSize, 4) && raw[14..22] == Field(h.originalSize, 8)
           && raw[22..30] == Field(h.frameCount, 8);
    assert raw[30..46] == h.sessionId && raw[46..58] == h.nonceBase;
  }

  /** Packing and unpacking gives the header back exactly when it is consistent. */
  lemma UnpackUndoesPack(h: SecureHeader)
    requires Pack(h).Ok?
    ensures Unpack(Pack(h).value) == Ok(h) <==> Consistent(h)
    ensures Unpack(Pack(h).value).Ok? <==> Consistent(h)
  {
    PackedFields(h);
  }

  /** Whatever is unpacked packs to the bytes it came from. */
  lemma PackUndoesUnpack(raw: seq<byte>)
    requires Unpack(raw).Ok?
    ensures Pack(Unpack(raw).value) == Ok(raw) && Consistent(Unpack(raw).value)
  {
    hide ToBytes, FromBytes;
    Pow256Values();
    FieldCanonical(raw[4..5]);
    FieldCanonical(raw[5..6]);
    FieldCanonical(raw[6..7]);
    FieldCanonical(raw[7..8]);
    FieldCanonical(raw[8..10]);
    FieldCanonical(raw[10..14]);
    FieldCanonical(raw[14..22]);
    FieldCanonical(raw[22..30]);
    assert raw == raw[..4] + raw[4..5] + raw[5..6] + raw[6..7] + raw[7..8] + raw[8..10] + raw[10..14] + raw[14..22]
           + raw[22..30]
               + raw[30..46] + raw[46..58];
  }

  /** A packed header, byte by byte. */
  lemma HeaderExactly(h: SecureHeader, raw: seq<byte>)
    requires Pack(h).Ok? && Consistent(h)
    ensures IsHeader(raw, h.frameSize, h.originalSize, h.sessionId, h.nonceBase) <==> raw == Pack(h).value
  {
    hide FromBytes, ToBytes, Number, IsCount, FrameCount, Pack;
    var packed := Pack(h).value;
    PackedNumbers(h);
    CountExactly(h.originalSize, h.frameSize, h.frameCount);
    if IsHeader(raw, h.frameSize, h.originalSize, h.sessionId, h.nonceBase) {
      CountExactly(h.originalSize, h.frameSize, Number(raw[22..30]));
      NumberInjective(raw[10..14], packed[10..14]);
      NumberInjective(raw[14..22], packed[14..22]);
      NumberInjective(raw[22..30], packed[22..30]);
      HeaderParts(raw);
      HeaderParts(packed);
    }
  }

  lemma HeaderParts(raw: seq<byte>)
    requires |raw| == HEADER_SIZE
    ensures raw == raw[..10] + raw[10..14] + raw[14..22] + raw[22..30] + raw[30..46] + raw[46..58]
  {
  }

  lemma PackedNumbers(h: SecureHeader)
    requires Pack(h).Ok? && Consistent(h)
    ensures var raw := Pack(h).value;
            && |raw| == HEADER_SIZE && raw[..10] == [85, 66, 83, 49, 0, 2, 1, 0, 0, 58]
            && Number(raw[10..14]) == h.frameSize && Number(raw[14..22]) == h.originalSize
            && Number(raw[22..30]) == h.frameCount && raw[30..46] == h.sessionId && raw[46..58] == h.nonceBase
            && 1 <= h.frameSize <= 67_108_864 && 0 <= h.frameCount < 0xFFFF_FFFF_FFFF_FFFF
  {
    hide Pack, FrameCount, Number, FromBytes;
    var raw := Pack(h).value;
    PackedFields(h);
    PackedRanges(h);
    FromBytesIsNumber(raw[10..14]);
    FromBytesIsNumber(raw[14..22]);
    FromBytesIsNumber(raw[22..30]);
    FrontBytes(raw);
    assert raw[..10] == raw[..4] + [raw[4], raw[5], raw[6], raw[7], raw[8], raw[9]];
  }

  lemma PackedRanges(h: SecureHeader)
    requires Pack(h).Ok?
    ensures 1 <= h.frameSize <= 67_108_864 && 0 <= h.frameCount < 0xFFFF_FFFF_FFFF_FFFF
    ensures |Pack(h).value| == HEADER_SIZE
  {
  }

  /** The small fields of a header, as bytes. */
  lemma FrontBytes(raw: seq<byte>)
    requires |raw| == HEADER_SIZE
    ensures FromBytes(raw[4..5]) == raw[4] && FromBytes(raw[5..6]) == raw[5]
    ensures FromBytes(raw[6..7]) == raw[6] && FromBytes(raw[7..8]) == raw[7]
    ensures FromBytes(raw[8..10]) == 58 ==> raw[8] == 0 && raw[9] == 58
  {
    hide FromBytes, Number;
    FromBytesIsNumber(raw[4..5]);
    FromBytesIsNumber(raw[5..6]);
    FromBytesIsNumber(raw[6..7]);
    FromBytesIsNumber(raw[7..8]);
    FromBytesIsNumber(raw[8..10]);
    NumberDigits(raw[4..5]);
    NumberDigits(raw[5..6]);
    NumberDigits(raw[6..7]);
    NumberDigits(raw[7..8]);
    NumberDigits(raw[8..10]);
  }

  function FinalMeta(): (s: seq<byte>)
    ensures |s| == 8
  {
    Pow256Values();
    FINAL_MAGIC + Field(FINAL_CIPHERTEXT_SIZE, 4)
  }

  function FrameAad(header: seq<byte>, frameNumber: nat, plaintextLen: nat): seq<byte>
    requires Fits(frameNumber, 8) && plaintextLen <= MAX_FRAME_SIZE
  {
    Pow256Values();
    header + FrameMeta(frameNumber, plaintextLen, plaintextLen + GCM_TAG_SIZE)
  }

  function FinalAad(header: seq<byte>): seq<byte> {
    header + FinalMeta()
  }

  /** Equal associated data of two frames means equal header bytes, number and length. */
  lemma FrameAadBinds(header: seq<byte>, n: nat, len: nat, header': seq<byte>, n': nat, len': nat)
    requires |header| == |header'| == HEADER_SIZE
    requires Fits(n, 8) && Fits(n', 8) && len <= MAX_FRAME_SIZE && len' <= MAX_FRAME_SIZE
    requires FrameAad(header, n, len) == FrameAad(header', n', len')
    ensures header == header' && n == n' && len == len'
  {
    hide FrameMeta, FromBytes;
    Pow256Values();
    var meta, meta' := FrameMeta(n, len, len + GCM_TAG_SIZE), FrameMeta(n', len', len' + GCM_TAG_SIZE);
    assert header == FrameAad(header, n, len)[..HEADER_SIZE] && meta == FrameAad(header, n, len)[HEADER_SIZE..];
    assert header' == FrameAad(header', n', len')[..HEADER_SIZE] && meta' == FrameAad(header', n', len')[HEADER_SIZE..];
    FrameMetaFields(n, len, len + GCM_TAG_SIZE);
    FrameMetaFields(n', len', len' + GCM_TAG_SIZE);
  }

  /** The associated data of a final record tells the header, and is never that of a frame. */
  lemma FinalAadBinds(header: seq<byte>, header': seq<byte>)
    requires |header| == |header'| == HEADER_SIZE
    ensures FinalAad(header) == FinalAad(header') <==> header == header'
    ensures forall n: nat, len: nat :: Fits(n, 8) && len <= MAX_FRAME_SIZE ==>
              FinalAad(header) != FrameAad(header', n, len)
  {
    hide FrameMeta, FinalMeta;
    Pow256Values();
    assert header == FinalAad(header)[..HEADER_SIZE] && header' == FinalAad(header')[..HEADER_SIZE];
    forall n: nat, len: nat | Fits(n, 8) && len <= MAX_FRAME_SIZE
      ensures FinalAad(header) != FrameAad(header', n, len)
    {
      assert |FinalAad(header)| == HEADER_SIZE + 8 && |FrameAad(header', n, len)| == HEADER_SIZE + 16;
    }
  }
}
