/**
 The PNG carrier (src/ubin/secure/png_codec.py): chunks as in section 3.2 of RFC 2083, and rows of
 filter type 0 as in section 6.2.  The CRC and the two stream objects of zlib are parameters.
 */
module Png {
  import opened Arithmetic
  import opened Bytes
  import opened Framing

  /** 0x89 "PNG" CR LF SUB LF */
  const SIGNATURE: seq<byte> := [137, 80, 78, 71, 13, 10, 26, 10]
  const IHDR: seq<byte> := [73, 72, 68, 82]
  const IDAT: seq<byte> := [73, 68, 65, 84]
  const IEND: seq<byte> := [73, 69, 78, 68]
  const MAX_DIMENSION: nat := 0x7FFF_FFFF
  const MAX_CHUNK_BYTES: nat := 67_108_864
  const FLUSH_AT: nat := 1_048_576

  datatype PngError =
    | WidthRange
    | TooLarge
    | FieldRange
    | NotPng
    | Ended
    | TruncatedLength
    | LengthLimit
    | ChunkTooLarge
    | TruncatedType
    | TruncatedData
    | TruncatedCrc
    | CrcMismatch
    | BadHeader
    | ZeroDimension
    | UnsupportedFormat
    | Expands
    | ExtraStream
    | EndNotEmpty
    | UnsupportedChunk
    | LengthMismatch
    | TruncatedStream
    | NoImageData
    | TrailingBytes
    | Transformed
    | TruncatedRow
    | InvalidStream

  // Stream objects of zlib

  /** A compressor (compress, finish) and a decompressor with its attributes; None is zlib.error. */
  datatype Zlib<!C, !D> = Zlib(
    deflater: C,
    compress: (C, seq<byte>) -> (C, seq<byte>),
    finish: C -> seq<byte>,
    inflater: D,
    inflate: (D, seq<byte>, nat) -> Option<(D, seq<byte>)>,
    tail: D -> seq<byte>,
    unused: D -> seq<byte>,
    flush: D -> Option<(D, seq<byte>)>,
    eof: D -> bool)

  function Flatten(pieces: seq<seq<byte>>): seq<byte> {
    if pieces == [] then [] else pieces[0] + Flatten(pieces[1..])
  }

  /** The compressed stream of data that is handed over piece by piece. */
  function Deflated<C(!new), D(!new)>(z: Zlib<C, D>, c: C, inputs: seq<seq<byte>>): seq<byte> {
    if inputs == [] then z.finish(c)
    else
      var (next, block) := z.compress(c, inputs[0]);
      block + Deflated(z, next, inputs[1..])
  }

  /** Feeding the pieces, with room for one byte more than is missing, gives the data and the end of the stream. */
  ghost predicate Delivers<C(!new), D(!new)>(z: Zlib<C, D>, d: D, pieces: seq<seq<byte>>, data: seq<byte>,
                                             out: seq<byte>)
    decreases |pieces|
  {
    && |out| <= |data|
    && if pieces == [] then
         && z.tail(d) == [] && z.unused(d) == [] && z.flush(d).Some?
         && var (last, block) := z.flush(d).value;
            out + block == data && z.eof(last)
       else
         && z.inflate(d, pieces[0], |data| - |out| + 1).Some?
         && var (next, block) := z.inflate(d, pieces[0], |data| - |out| + 1).value;
            z.tail(next) == [] && z.unused(next) == [] && Delivers(z, next, pieces[1..], data, out + block)
  }

  /** Input is left over only when the output limit was reached. */
  ghost predicate StopsAtLimit<C(!new), D(!new)>(z: Zlib<C, D>) {
    forall d, input, limit :: z.inflate(d, input, limit).Some? && z.tail(z.inflate(d, input, limit).value.0) != [] ==>
                                |z.inflate(d, input, limit).value.1| >= limit
  }

  ghost predicate Pieces(pieces: seq<seq<byte>>, stream: seq<byte>) {
    Flatten(pieces) == stream && forall p :: p in pieces ==> p != []
  }

  /** zlib loses nothing, wherever the compressed stream is cut. */
  ghost predicate Lossless<C(!new), D(!new)>(z: Zlib<C, D>) {
    && StopsAtLimit(z)
    && (forall inputs :: Deflated(z, z.deflater, inputs) != [])
    && (forall inputs, pieces :: Pieces(pieces, Deflated(z, z.deflater, inputs)) ==>
          Delivers(z, z.inflater, pieces, Flatten(inputs), []))
  }

  /** Passes everything on and marks the end; nothing is inflated before the end. */
  function Storing(): Zlib<bool, seq<byte>> {
    Zlib(false, (c: bool, x: seq<byte>) => (c, x), (c: bool) => [0],
         [], (d: seq<byte>, x: seq<byte>, limit: nat) => Some((d + x, [])), (d: seq<byte>) => [], (d: seq<byte>) => [],
         (d: seq<byte>) => if d == [] then None else Some((d, d[..|d| - 1])), (d: seq<byte>) => true)
  }

  /** The assumption can be met. */
  lemma StoringIsLossless()
    ensures Lossless(Storing())
  {
    var z := Storing();
    forall inputs ensures Deflated(z, z.deflater, inputs) == Flatten(inputs) + [0] {
      Stored(z, z.deflater, inputs);
    }
    forall inputs: seq<seq<byte>>, pieces: seq<seq<byte>> | Pieces(pieces, Deflated(z, z.deflater, inputs))
      ensures Delivers(z, z.inflater, pieces, Flatten(inputs), [])
    {
      assert [] + Flatten(pieces) == Flatten(pieces);
      StoredDelivers(z, [], pieces, Flatten(inputs));
    }
  }

  ghost predicate Stores(z: Zlib<bool, seq<byte>>) {
    && (forall c, x :: z.compress(c, x) == (c, x)) && (forall c :: z.finish(c) == [0])
    && (forall d, x, limit :: z.inflate(d, x, limit) == Some((d + x, [])))
    && (forall d :: z.tail(d) == [] && z.unused(d) == [] && z.eof(d))
    && (forall d :: d != [] ==> z.flush(d) == Some((d, d[..|d| - 1])))
  }

  lemma {:induction false} Stored(z: Zlib<bool, seq<byte>>, c: bool, inputs: seq<seq<byte>>)
    requires Stores(z)
    ensures Deflated(z, c, inputs) == Flatten(inputs) + [0]
    decreases |inputs|
  {
    if inputs == [] {
      assert Flatten([]) + [0] == [0];
    } else {
      Stored(z, c, inputs[1..]);
    }
  }

  lemma StoresFacts(z: Zlib<bool, seq<byte>>, d: seq<byte>, x: seq<byte>)
    requires Stores(z)
    ensures forall limit :: z.inflate(d, x, limit) == Some((d + x, []))
    ensures z.tail(d) == [] && z.unused(d) == [] && z.eof(d)
    ensures d != [] ==> z.flush(d) == Some((d, d[..|d| - 1]))
  {
  }

  lemma {:induction false} StoredDelivers(z: Zlib<bool, seq<byte>>, d: seq<byte>, pieces: seq<seq<byte>>,
                                          data: seq<byte>)
    requires Stores(z) && d + Flatten(pieces) == data + [0]
    ensures Delivers(z, d, pieces, data, [])
    decreases |pieces|
  {
    hide Stores;
    if pieces == [] {
      StoresFacts(z, d, []);
      assert d + [] == d && d[..|d| - 1] == data && [] + data == data;
    } else {
      var x, more := pieces[0], Flatten(pieces[1..]);
      StoresFacts(z, d, x);
      StoresFacts(z, d + x, []);
      assert d + (x + more) == d + x + more;
      StoredDelivers(z, d + x, pieces[1..], data);
      var none: seq<byte> := [];
      assert none + none == none;
    }
  }

  // Chunks

  /** The check value of the chunk type and the data, in four bytes. */
  type Crc = seq<byte> -> nat

  ghost predicate IsCrc(crc: Crc) {
    forall s :: Fits(crc(s), 4)
  }

  function Chunk(crc: Crc, kind: seq<byte>, data: seq<byte>): seq<byte>
    requires IsCrc(crc) && Fits(|data|, 4)
  {
    Field(|data|, 4) + kind + data + Field(crc(kind + data), 4)
  }

  function ReadChunk(crc: Crc, file: seq<byte>): (r: Result<(seq<byte>, seq<byte>, seq<byte>), PngError>)
    ensures r.Ok? ==> |r.value.2| < |file| && |r.value.0| == 4
  {
    if file == [] then Err(Ended)
    else if |file| < 4 then Err(TruncatedLength)
    else
      var length := FromBytes(file[..4]);
      if length > 0x7FFF_FFFF then Err(LengthLimit)
      else if length > MAX_CHUNK_BYTES then Err(ChunkTooLarge)
      else if |file| < 8 then Err(TruncatedType)
      else if |file| < 8 + length then Err(TruncatedData)
      else if |file| < 12 + length then Err(TruncatedCrc)
      else if FromBytes(file[8 + length..12 + length]) != crc(file[4..8] + file[8..8 + length]) then Err(CrcMismatch)
      else Ok((file[4..8], file[8..8 + length], file[12 + length..]))
  }

  /** A written chunk is read back exactly when it is within the carrier's limit. */
  lemma ReadWrittenChunk(crc: Crc, kind: seq<byte>, data: seq<byte>, rest: seq<byte>)
    requires IsCrc(crc) && Fits(|data|, 4) && |kind| == 4
    ensures var r := ReadChunk(crc, Chunk(crc, kind, data) + rest);
            if |data| <= MAX_CHUNK_BYTES then r == Ok((kind, data, rest))
            else r == Err(if |data| > 0x7FFF_FFFF then LengthLimit else ChunkTooLarge)
  {
    hide FromBytes, ToBytes;
    var file, n := Chunk(crc, kind, data) + rest, |data|;
    FieldRoundTrip(n, 4);
    FieldRoundTrip(crc(kind + data), 4);
    assert file[..4] == Field(n, 4) && file[4..8] == kind && file[8..8 + n] == data && file[12 + n..] == rest;
    assert file[8 + n..12 + n] == Field(crc(kind + data), 4);
  }

  /** Whatever is read as a chunk is, byte for byte, how that chunk is written. */
  lemma ReadChunkIsWritten(crc: Crc, file: seq<byte>)
    requires IsCrc(crc) && ReadChunk(crc, file).Ok?
    ensures var (kind, data, rest) := ReadChunk(crc, file).value;
            Fits(|data|, 4) && |kind| == 4 && |data| <= MAX_CHUNK_BYTES && file == Chunk(crc, kind, data) + rest
  {
    hide FromBytes, ToBytes;
    Pow256Values();
    var n := FromBytes(file[..4]);
    FieldCanonical(file[..4]);
    FieldCanonical(file[8 + n..12 + n]);
    assert file == file[..4] + file[4..8] + file[8..8 + n] + file[8 + n..12 + n] + file[12 + n..];
  }

  // Dimensions

  datatype PngInfo = PngInfo(width: nat, height: nat, capacity: nat)

  function CeilDiv(a: nat, b: nat): nat
    requires b > 0
  {
    (a + b - 1) / b
  }

  function DimensionsForPayload(size: nat, width: int): Result<PngInfo, PngError> {
    if !(1 <= width <= MAX_DIMENSION) then Err(WidthRange)
    else
      var pixels := if CeilDiv(size, 4) > 1 then CeilDiv(size, 4) else 1;
      var height := CeilDiv(pixels, width);
      if height > MAX_DIMENSION then Err(TooLarge) else Ok(PngInfo(width, height, width * height * 4))
  }

  lemma CeilDivBounds(a: nat, b: nat)
    requires b > 0 && a > 0
    ensures CeilDiv(a, b) >= 1 && (CeilDiv(a, b) - 1) * b < a <= CeilDiv(a, b) * b
  {
    DivMod(a + b - 1, b);
    ProductGap(CeilDiv(a, b) - 1, CeilDiv(a, b), b);
  }

  /** The image holds the payload, and no row but the last has padding. */
  lemma RowsFit(size: nat, width: int)
    requires DimensionsForPayload(size, width).Ok?
    ensures var info := DimensionsForPayload(size, width).value;
            && info.width == width && info.height >= 1 && info.capacity == Offset(info.height, 4 * width)
            && (info.height > 1 ==> Offset(info.height - 1, 4 * width) < size) && size <= info.capacity
  {
    var info := DimensionsForPayload(size, width).value;
    var pixels := if CeilDiv(size, 4) > 1 then CeilDiv(size, 4) else 1;
    CeilDivBounds(pixels, width);
    if size > 0 {
      CeilDivBounds(size, 4);
    }
    OffsetIsProduct(info.height, 4 * width);
    OffsetIsProduct(info.height - 1, 4 * width);
    FourTimes(info.height, width);
    FourTimes(info.height - 1, width);
  }

  lemma FourTimes(h: nat, w: nat)
    ensures h * (4 * w) == 4 * (h * w) == w * h * 4
  {
  }

  // Rows

  /** Every row behind the byte of filter type 0. */
  function FilteredRows(pixels: seq<byte>, rowBytes: nat, height: nat): (rows: seq<seq<byte>>)
    requires |pixels| == Offset(height, rowBytes)
    ensures |rows| == height
    decreases height
  {
    if height == 0 then []
    else
      OffsetFront(height, rowBytes);
      [[0] + pixels[..rowBytes]] + FilteredRows(pixels[rowBytes..], rowBytes, height - 1)
  }

  lemma OffsetFront(i: nat, size: nat)
    requires i > 0
    ensures Offset(i, size) >= size && Offset(i, size) - size == Offset(i - 1, size)
  {
  }

  /** The pixels behind the filter bytes, if all of them are 0. */
  function Unfiltered(filtered: seq<byte>, rowBytes: nat, height: nat): Result<seq<byte>, PngError>
    decreases height
  {
    if height == 0 then Ok([])
    else if filtered == [] || filtered[0] != 0 then Err(Transformed)
    else if |filtered| < 1 + rowBytes then Err(TruncatedRow)
    else
      var rest :- Unfiltered(filtered[1 + rowBytes..], rowBytes, height - 1);
      Ok(filtered[1..1 + rowBytes] + rest)
  }

  lemma {:induction false} UnfilteredRows(pixels: seq<byte>, rowBytes: nat, height: nat)
    requires |pixels| == Offset(height, rowBytes)
    ensures |Flatten(FilteredRows(pixels, rowBytes, height))| == Offset(height, rowBytes + 1)
    ensures Unfiltered(Flatten(FilteredRows(pixels, rowBytes, height)), rowBytes, height) == Ok(pixels)
    decreases height
  {
    if height > 0 {
      OffsetFront(height, rowBytes);
      UnfilteredRows(pixels[rowBytes..], rowBytes, height - 1);
      var row, rest := [0] + pixels[..rowBytes], FilteredRows(pixels[rowBytes..], rowBytes, height - 1);
      assert FilteredRows(pixels, rowBytes, height) == [row] + rest;
      FlattenFront(row, rest);
      assert (row + Flatten(rest))[1 + rowBytes..] == Flatten(rest)
             && (row + Flatten(rest))[1..1 + rowBytes] == pixels[..rowBytes];
      assert pixels[..rowBytes] + pixels[rowBytes..] == pixels;
    }
  }

  lemma FlattenFront(first: seq<byte>, rest: seq<seq<byte>>)
    ensures Flatten([first] + rest) == first + Flatten(rest)
  {
    assert ([first] + rest)[1..] == rest;
  }

  lemma {:induction false} FlattenAppend(a: seq<seq<byte>>, x: seq<byte>)
    ensures Flatten(a + [x]) == Flatten(a) + x
  {
    if a == [] {
      assert [x][1..] == [] && x + [] == x;
    } else {
      assert (a + [x])[1..] == a[1..] + [x];
      FlattenAppend(a[1..], x);
    }
  }

  // The image file

  function HeaderData(width: nat, height: nat): (s: seq<byte>)
    requires Fits(width, 4) && Fits(height, 4)
    ensures |s| == 13
  {
    Field(width, 4) + Field(height, 4) + [8, 6, 0, 0, 0]
  }

  /** The image data and the end of the file. */
  function Body(crc: Crc, pieces: seq<seq<byte>>): seq<byte>
    requires IsCrc(crc) && forall p :: p in pieces ==> Fits(|p|, 4)
  {
    Pow256Values();
    if pieces == [] then Chunk(crc, IEND, []) else Chunk(crc, IDAT, pieces[0]) + Body(crc, pieces[1..])
  }

  function Image(crc: Crc, width: nat, height: nat, pieces: seq<seq<byte>>): seq<byte>
    requires IsCrc(crc) && Fits(width, 4) && Fits(height, 4) && forall p :: p in pieces ==> Fits(|p|, 4)
  {
    Pow256Values();
    SIGNATURE + Chunk(crc, IHDR, HeaderData(width, height)) + Body(crc, pieces)
  }

  // Decoding, as a function

  /** The decompressor's work on the data of one IDAT chunk. */
  function Feed<C(!new), D(!new)>(z: Zlib<C, D>, d: D, expected: nat, out: seq<byte>, pending: seq<byte>)
    : Result<(D, seq<byte>), PngError>
    requires StopsAtLimit(z) && |out| <= expected
    decreases |pending|
  {
    if pending == [] then Ok((d, out))
    else
      match z.inflate(d, pending, expected - |out| + 1)
      case None => Err(InvalidStream)
      case Some((next, block)) =>
        if |out| + |block| > expected then Err(Expands)
        else Feed(z, next, expected, out + block, z.tail(next))
  }

  datatype Progress<D> = Progress(inflater: D, out: seq<byte>, seen: bool, rest: seq<byte>)

  predicate IsCritical(kind: seq<byte>)
    requires |kind| == 4
  {
    kind[0] / 32 % 2 == 0
  }

  /** The chunks from the first after the header to the end chunk. */
  function ReadBody<C(!new), D(!new)>(z: Zlib<C, D>, crc: Crc, d: D, expected: nat, out: seq<byte>, seen: bool,
                                      file: seq<byte>)
    : Result<Progress<D>, PngError>
    requires StopsAtLimit(z) && |out| <= expected
    decreases |file|
  {
    var (kind, data, rest) :- ReadChunk(crc, file);
    if kind == IDAT then
      var (next, more) :- Feed(z, d, expected, out, data);
      if z.unused(next) != [] then Err(ExtraStream)
      else FeedKeepsLimit(z, d, expected, out, data); ReadBody(z, crc, next, expected, more, true, rest)
    else if kind == IEND then
      if data != [] then Err(EndNotEmpty) else Ok(Progress(d, out, seen, rest))
    else if IsCritical(kind) then Err(UnsupportedChunk)
    else ReadBody(z, crc, d, expected, out, seen, rest)
  }

  lemma {:induction false} FeedKeepsLimit<C(!new), D(!new)>(z: Zlib<C, D>, d: D, expected: nat, out: seq<byte>,
                                                            pending: seq<byte>)
    requires StopsAtLimit(z) && |out| <= expected && Feed(z, d, expected, out, pending).Ok?
    ensures |Feed(z, d, expected, out, pending).value.1| <= expected
    decreases |pending|
  {
    if pending != [] {
      var (next, block) := z.inflate(d, pending, expected - |out| + 1).value;
      FeedKeepsLimit(z, next, expected, out + block, z.tail(next));
    }
  }

  /** The checks at the end of the stream, and the filtered bytes. */
  function Finish<C(!new), D(!new)>(z: Zlib<C, D>, p: Progress<D>, expected: nat): Result<seq<byte>, PngError> {
    if z.unused(p.inflater) != [] || z.tail(p.inflater) != [] then Err(ExtraStream)
    else match z.flush(p.inflater)
         case None => Err(InvalidStream)
         case Some((last, block)) =>
           if |p.out| + |block| != expected then Err(LengthMismatch)
           else if !z.eof(last) then Err(TruncatedStream)
           else if !p.seen then Err(NoImageData)
           else if p.rest != [] then Err(TrailingBytes)
           else Ok(p.out + block)
  }

  datatype Decoded = Decoded(width: nat, height: nat, pixels: seq<byte>)

  predicate Supported(data: seq<byte>)
    requires |data| == 13
  {
    data[8..13] == [8, 6, 0, 0, 0]
  }

  /** The dimensions in a supported header, and what follows it. */
  function ReadHeader(crc: Crc, file: seq<byte>): Result<(nat, nat, seq<byte>), PngError> {
    if file[..Min(8, |file|)] != SIGNATURE then Err(NotPng)
    else
      var (kind, data, rest) :- ReadChunk(crc, file[8..]);
      if kind != IHDR || |data| != 13 then Err(BadHeader)
      else
        var width, height := FromBytes(data[..4]), FromBytes(data[4..8]);
        if width == 0 || height == 0 then Err(ZeroDimension)
        else if !Supported(data) then Err(UnsupportedFormat)
        else Ok((width, height, rest))
  }

  function DecodePixels<C(!new), D(!new)>(z: Zlib<C, D>, crc: Crc, width: nat, height: nat, rest: seq<byte>)
    : Result<seq<byte>, PngError>
    requires StopsAtLimit(z)
  {
    var expected := Offset(height, 4 * width + 1);
    var p :- ReadBody(z, crc, z.inflater, expected, [], false, rest);
    var filtered :- Finish(z, p, expected);
    Unfiltered(filtered, 4 * width, height)
  }

  /** What is decoded from the bytes of a file, or why they are refused. */
  function Decode<C(!new), D(!new)>(z: Zlib<C, D>, crc: Crc, file: seq<byte>): Result<Decoded, PngError>
    requires StopsAtLimit(z)
  {
    var (width, height, rest) :- ReadHeader(crc, file);
    var pixels :- DecodePixels(z, crc, width, height, rest);
    Ok(Decoded(width, height, pixels))
  }

  // Round trip

  ghost predicate Bounded(pieces: seq<seq<byte>>) {
    forall p :: p in pieces ==> |p| <= MAX_CHUNK_BYTES
  }

  lemma FeedWhole<C(!new), D(!new)>(z: Zlib<C, D>, d: D, data: seq<byte>, out: seq<byte>, pieces: seq<seq<byte>>)
    requires StopsAtLimit(z) && pieces != [] && pieces[0] != [] && Delivers(z, d, pieces, data, out)
    ensures Feed(z, d, |data|, out, pieces[0]).Ok?
    ensures var (next, more) := Feed(z, d, |data|, out, pieces[0]).value;
            z.unused(next) == [] && Delivers(z, next, pieces[1..], data, more) && |more| <= |data|
  {
    var (next, block) := z.inflate(d, pieces[0], |data| - |out| + 1).value;
    assert Delivers(z, next, pieces[1..], data, out + block);
    assert Feed(z, next, |data|, out + block, z.tail(next)) == Ok((next, out + block));
  }

  /** Reading the written chunks gives the data exactly when none of them is over the limit. */
  lemma {:induction false} ReadWrittenBody<C(!new), D(!new)>(z: Zlib<C, D>, crc: Crc, d: D, data: seq<byte>,
                                                             out: seq<byte>, seen: bool,
                                                             pieces: seq<seq<byte>>)
    requires StopsAtLimit(z) && IsCrc(crc) && Delivers(z, d, pieces, data, out)
    requires forall p :: p in pieces ==> p != [] && Fits(|p|, 4)
    ensures var r := ReadBody(z, crc, d, |data|, out, seen, Body(crc, pieces));
            && (r.Ok? <==> Bounded(pieces))
            && (r.Ok? ==> r.value.rest == [] && r.value.seen == (seen || pieces != [])
                          && |r.value.out| <= |data| && Delivers(z, r.value.inflater, [], data, r.value.out))
    decreases |pieces|
  {
    hide ReadChunk, Chunk, Feed;
    Pow256Values();
    if pieces == [] {
      ReadWrittenChunk(crc, IEND, [], []);
      assert Chunk(crc, IEND, []) + [] == Chunk(crc, IEND, []);
    } else {
      assert pieces[0] in pieces;
      ReadWrittenChunk(crc, IDAT, pieces[0], Body(crc, pieces[1..]));
      FeedWhole(z, d, data, out, pieces);
      var (next, more) := Feed(z, d, |data|, out, pieces[0]).value;
      ReadWrittenBody(z, crc, next, data, more, true, pieces[1..]);
      assert Bounded(pieces) <==> |pieces[0]| <= MAX_CHUNK_BYTES && Bounded(pieces[1..]) by {
        assert pieces == [pieces[0]] + pieces[1..];
      }
    }
  }

  lemma ReadWrittenHeader(crc: Crc, width: nat, height: nat, body: seq<byte>)
    requires IsCrc(crc) && 1 <= width && 1 <= height && Fits(width, 4) && Fits(height, 4)
    ensures Fits(13, 4)
    ensures ReadHeader(crc, SIGNATURE + Chunk(crc, IHDR, HeaderData(width, height)) + body) == Ok((width, height, body))
  {
    hide ReadChunk, Chunk, FromBytes, ToBytes;
    Pow256Values();
    var header := HeaderData(width, height);
    var file := SIGNATURE + Chunk(crc, IHDR, header) + body;
    assert file[8..] == Chunk(crc, IHDR, header) + body && file[..8] == SIGNATURE;
    ReadWrittenChunk(crc, IHDR, header, body);
    FieldRoundTrip(width, 4);
    FieldRoundTrip(height, 4);
    assert header[..4] == Field(width, 4) && header[4..8] == Field(height, 4) && header[8..13] == [8, 6, 0, 0, 0];
  }

  lemma DecodeWrittenPixels<C(!new), D(!new)>(z: Zlib<C, D>, crc: Crc, width: nat, height: nat, pixels: seq<byte>,
                                              pieces: seq<seq<byte>>)
    requires Lossless(z) && IsCrc(crc) && |pixels| == Offset(height, 4 * width)
    requires forall p :: p in pieces ==> Fits(|p|, 4)
    requires Pieces(pieces, Deflated(z, z.deflater, FilteredRows(pixels, 4 * width, height)))
    ensures var r := DecodePixels(z, crc, width, height, Body(crc, pieces));
            (r == Ok(pixels) <==> Bounded(pieces)) && (r.Ok? <==> Bounded(pieces))
  {
    hide Unfiltered, FilteredRows, Deflated, ReadBody, Body, Bounded, Delivers, Finish, Lossless, StopsAtLimit, Pieces,
         Flatten, Offset, Fits;
    var data := Flatten(FilteredRows(pixels, 4 * width, height));
    UnfilteredRows(pixels, 4 * width, height);
    LosslessDelivers(z, FilteredRows(pixels, 4 * width, height), pieces);
    ReadWrittenBody(z, crc, z.inflater, data, [], false, pieces);
    var r := ReadBody(z, crc, z.inflater, |data|, [], false, Body(crc, pieces));
    if r.Ok? {
      FinishDelivered(z, r.value, data);
    }
  }

  lemma LosslessDelivers<C(!new), D(!new)>(z: Zlib<C, D>, rows: seq<seq<byte>>, pieces: seq<seq<byte>>)
    requires Lossless(z) && Pieces(pieces, Deflated(z, z.deflater, rows))
    ensures Delivers(z, z.inflater, pieces, Flatten(rows), []) && pieces != []
    ensures StopsAtLimit(z) && forall p :: p in pieces ==> p != []
  {
    hide Delivers, Deflated, StopsAtLimit;
    assert Flatten([]) == [];
  }

  lemma FinishDelivered<C(!new), D(!new)>(z: Zlib<C, D>, p: Progress<D>, data: seq<byte>)
    requires Delivers(z, p.inflater, [], data, p.out) && p.seen && p.rest == []
    ensures Finish(z, p, |data|) == Ok(data)
  {
    var (last, block) := z.flush(p.inflater).value;
    assert p.out + block == data;
  }

  /**
   An image whose chunks hold a compressed stream of the filtered rows decodes to the pixels exactly
   when no chunk is over the limit, however the stream is cut into chunks.
   */
  lemma DecodeUndoesEncode<C(!new), D(!new)>(z: Zlib<C, D>, crc: Crc, width: nat, height: nat, pixels: seq<byte>,
                                             pieces: seq<seq<byte>>)
    requires Lossless(z) && IsCrc(crc) && 1 <= width <= MAX_DIMENSION && 1 <= height <= MAX_DIMENSION
    requires |pixels| == Offset(height, 4 * width) && forall p :: p in pieces ==> Fits(|p|, 4)
    requires Pieces(pieces, Deflated(z, z.deflater, FilteredRows(pixels, 4 * width, height)))
    ensures Fits(width, 4) && Fits(height, 4)
    ensures var r := Decode(z, crc, Image(crc, width, height, pieces));
            (r == Ok(Decoded(width, height, pixels)) <==> Bounded(pieces)) && (r.Ok? <==> Bounded(pieces))
  {
    hide DecodePixels, ReadHeader, Body, Chunk, Bounded, FilteredRows, Deflated, StopsAtLimit;
    Pow256Values();
    ReadWrittenHeader(crc, width, height, Body(crc, pieces));
    DecodeWrittenPixels(z, crc, width, height, pixels, pieces);
  }

  /** Every accepted file, written by whomever, gives width * height pixels of four bytes. */
  lemma DecodedSize<C(!new), D(!new)>(z: Zlib<C, D>, crc: Crc, file: seq<byte>)
    requires StopsAtLimit(z) && Decode(z, crc, file).Ok?
    ensures var r := Decode(z, crc, file).value;
            r.width >= 1 && r.height >= 1 && |r.pixels| == r.width * r.height * 4
  {
    hide ReadBody, Finish, Unfiltered, StopsAtLimit, ReadChunk;
    var (width, height, rest) := ReadHeader(crc, file).value;
    var p := ReadBody(z, crc, z.inflater, Offset(height, 4 * width + 1), [], false, rest).value;
    var filtered := Finish(z, p, Offset(height, 4 * width + 1)).value;
    UnfilteredSize(filtered, 4 * width, height);
    OffsetIsProduct(height, 4 * width);
    FourTimes(height, width);
  }

  lemma {:induction false} UnfilteredSize(filtered: seq<byte>, rowBytes: nat, height: nat)
    requires Unfiltered(filtered, rowBytes, height).Ok?
    ensures |Unfiltered(filtered, rowBytes, height).value| == Offset(height, rowBytes)
    decreases height
  {
    if height > 0 {
      UnfilteredSize(filtered[1 + rowBytes..], rowBytes, height - 1);
    }
  }

  // Encoding

  /** The pixels: the payload, and noise that fills the last row. */
  function Pixels(payload: seq<byte>, capacity: nat, noise: nat -> seq<byte>): seq<byte>
    requires |payload| <= capacity
  {
    payload + noise(capacity - |payload|)
  }

  ghost predicate IsNoise(noise: nat -> seq<byte>) {
    forall n :: |noise(n)| == n
  }

  /**
   The data of the IDAT chunks: after each row, the pending bytes are written if there is a mebibyte of
   them, and in the end whatever is left.
   */
  function Cut<C(!new), D(!new)>(z: Zlib<C, D>, c: C, pending: seq<byte>, rows: seq<seq<byte>>): seq<seq<byte>>
    decreases |rows|
  {
    if rows == [] then
      if pending + z.finish(c) == [] then [] else [pending + z.finish(c)]
    else
      var (next, block) := z.compress(c, rows[0]);
      if |pending + block| >= FLUSH_AT then [pending + block] + Cut(z, next, [], rows[1..])
      else Cut(z, next, pending + block, rows[1..])
  }

  /** The chunks hold the compressed stream, and none of them is empty. */
  lemma {:induction false} CutIsStream<C(!new), D(!new)>(z: Zlib<C, D>, c: C, pending: seq<byte>, rows: seq<seq<byte>>)
    ensures Pieces(Cut(z, c, pending, rows), pending + Deflated(z, c, rows))
    decreases |rows|
  {
    if rows == [] {
      FlattenFront(pending + z.finish(c), []);
    } else {
      var (next, block) := z.compress(c, rows[0]);
      assert pending + block + Deflated(z, next, rows[1..]) == pending + (block + Deflated(z, next, rows[1..]));
      if |pending + block| >= FLUSH_AT {
        CutIsStream(z, next, [], rows[1..]);
        FlattenFront(pending + block, Cut(z, next, [], rows[1..]));
        assert [] + Deflated(z, next, rows[1..]) == Deflated(z, next, rows[1..]);
      } else {
        CutIsStream(z, next, pending + block, rows[1..]);
      }
    }
  }

  /** The compressor never puts out more than `cap` bytes at once for inputs of up to n bytes. */
  ghost predicate Compact<C(!new), D(!new)>(z: Zlib<C, D>, n: nat, cap: nat) {
    (forall c, x :: |x| <= n ==> |z.compress(c, x).1| <= cap) && (forall c :: |z.finish(c)| <= cap)
  }

  /** A chunk is longer than a mebibyte by less than the compressor puts out at once. */
  lemma {:induction false} CutBounded<C(!new), D(!new)>(z: Zlib<C, D>, c: C, pending: seq<byte>, rows: seq<seq<byte>>,
                                                        n: nat, cap: nat)
    requires Compact(z, n, cap) && |pending| < 1_048_576 && forall r :: r in rows ==> |r| <= n
    ensures forall p :: p in Cut(z, c, pending, rows) ==> |p| < 1_048_576 + cap
    decreases |rows|
  {
    if rows != [] {
      assert rows[0] in rows;
      var (next, block) := z.compress(c, rows[0]);
      CutBounded(z, next, if |pending + block| >= FLUSH_AT then [] else pending + block, rows[1..], n, cap);
    }
  }

  lemma {:induction false} BodyAppend(crc: Crc, pieces: seq<seq<byte>>, p: seq<byte>)
    requires IsCrc(crc) && Fits(|p|, 4) && forall q :: q in pieces ==> Fits(|q|, 4)
    ensures Fits(0, 4) && IdatChunks(crc, pieces + [p]) == IdatChunks(crc, pieces) + Chunk(crc, IDAT, p)
  {
    hide Chunk;
    Pow256Values();
    if pieces == [] {
      assert [p][1..] == [] && pieces + [p] == [p];
    } else {
      assert (pieces + [p])[1..] == pieces[1..] + [p];
      BodyAppend(crc, pieces[1..], p);
    }
  }

  function IdatChunks(crc: Crc, pieces: seq<seq<byte>>): seq<byte>
    requires IsCrc(crc) && forall p :: p in pieces ==> Fits(|p|, 4)
  {
    if pieces == [] then [] else Chunk(crc, IDAT, pieces[0]) + IdatChunks(crc, pieces[1..])
  }

  lemma {:induction false} BodyIsChunks(crc: Crc, pieces: seq<seq<byte>>)
    requires IsCrc(crc) && forall p :: p in pieces ==> Fits(|p|, 4)
    ensures Fits(0, 4) && Body(crc, pieces) == IdatChunks(crc, pieces) + Chunk(crc, IEND, [])
  {
    hide Chunk;
    Pow256Values();
    if pieces != [] {
      BodyIsChunks(crc, pieces[1..]);
    }
  }

  /** The next bytes of the payload, filled up to a whole row. */
  function Line(payload: seq<byte>, at: nat, take: nat, rowBytes: nat, noise: nat -> seq<byte>): seq<byte>
    requires at + take <= |payload| && take <= rowBytes
  {
    payload[at..at + take] + (if take < rowBytes then noise(rowBytes - take) else [])
  }

  /** The first row of the pixels that are left, as the encoder makes it. */
  lemma NextRow(payload: seq<byte>, capacity: nat, noise: nat -> seq<byte>, rowBytes: nat, height: nat, row: nat)
    requires |payload| <= capacity == Offset(height, rowBytes) && row < height && IsNoise(noise)
    requires height > 1 ==> Offset(height - 1, rowBytes) < |payload|
    ensures Offset(row, rowBytes) + rowBytes <= capacity
            && Offset(row + 1, rowBytes) == Offset(row, rowBytes) + rowBytes
    ensures var at := Offset(row, rowBytes);
            var take := Min(rowBytes, |payload| - at);
            && 0 <= take && at <= |payload| && (take < rowBytes ==> row + 1 == height)
            && Line(payload, at, take, rowBytes, noise) == Pixels(payload, capacity, noise)[at..at + rowBytes]
  {
    OffsetParts(row, height, rowBytes);
    OffsetGap(row, height, rowBytes);
    var at := Offset(row, rowBytes);
    if row + 1 < height {
      OffsetGap(row, height - 1, rowBytes);
    } else if row > 0 {
      assert at == Offset(height - 1, rowBytes);
    }
  }

  lemma {:induction false} OffsetParts(a: nat, b: nat, size: nat)
    requires a <= b
    ensures Offset(b - a, size) + Offset(a, size) == Offset(b, size)
    decreases a
  {
    if a > 0 {
      OffsetParts(a - 1, b - 1, size);
    }
  }

  predicate AllFit(pieces: seq<seq<byte>>) {
    forall p :: p in pieces ==> Fits(|p|, 4)
  }

  /** The data of the image's IDAT chunks. */
  function ImageData<C(!new), D(!new)>(z: Zlib<C, D>, payload: seq<byte>, info: PngInfo, noise: nat -> seq<byte>)
    : seq<seq<byte>>
    requires IsNoise(noise) && DimensionsForPayload(|payload|, info.width) == Ok(info)
  {
    RowsFit(|payload|, info.width);
    Cut(z, z.deflater, [], FilteredRows(Pixels(payload, info.capacity, noise), 4 * info.width, info.height))
  }

  /** What the encoder writes, or why it fails. */
  function Encoded<C(!new), D(!new)>(z: Zlib<C, D>, crc: Crc, payload: seq<byte>, width: int, noise: nat -> seq<byte>)
    : Result<(PngInfo, seq<byte>), PngError>
    requires IsCrc(crc) && IsNoise(noise)
  {
    var info :- DimensionsForPayload(|payload|, width);
    RowsFit(|payload|, width);
    Pow256Values();
    var pieces := ImageData(z, payload, info, noise);
    if AllFit(pieces) then Ok((info, Image(crc, info.width, info.height, pieces))) else Err(FieldRange)
  }

  /** What one encoding is about: the bytes before the image data, the data of all chunks, and the rows. */
  datatype Job = Job(head: seq<byte>, chunks: seq<seq<byte>>, pixels: seq<byte>, rowBytes: nat, height: nat)

  /** What holds before row `row` is compressed: the written chunks and those still to come are the image's. */
  ghost predicate Encoding<C(!new), D(!new)>(z: Zlib<C, D>, crc: Crc, job: Job, row: nat, out: seq<byte>,
                                             pieces: seq<seq<byte>>,
                                             pending: seq<byte>, c: C) {
    && IsCrc(crc) && row <= job.height && |job.pixels| == Offset(job.height, job.rowBytes)
    && Offset(row, job.rowBytes) <= |job.pixels|
    && Offset(job.height - row, job.rowBytes) == |job.pixels| - Offset(row, job.rowBytes)
    && AllFit(pieces) && out == job.head + IdatChunks(crc, pieces)
    && job.chunks
       == pieces + Cut(z, c, pending,
                       FilteredRows(job.pixels[Offset(row, job.rowBytes)..], job.rowBytes, job.height - row))
  }

  lemma EncodingStarts<C(!new), D(!new)>(z: Zlib<C, D>, crc: Crc, job: Job)
    requires IsCrc(crc) && |job.pixels| == Offset(job.height, job.rowBytes)
    requires job.chunks == Cut(z, z.deflater, [], FilteredRows(job.pixels, job.rowBytes, job.height))
    ensures Encoding(z, crc, job, 0, job.head, [], [], z.deflater) && Offset(0, job.rowBytes) == 0
  {
    hide FilteredRows, Cut;
    assert job.pixels[0..] == job.pixels && [] + job.chunks == job.chunks && job.head + [] == job.head;
  }

  /** A row's compressed bytes are pending, or fill a chunk. */
  lemma EncodingRow<C(!new), D(!new)>(z: Zlib<C, D>, crc: Crc, job: Job, row: nat, out: seq<byte>,
                                      pieces: seq<seq<byte>>,
                                      pending: seq<byte>, c: C, line: seq<byte>)
    requires Encoding(z, crc, job, row, out, pieces, pending, c) && row < job.height
    requires Offset(row, job.rowBytes) + job.rowBytes <= |job.pixels|
    requires line == job.pixels[Offset(row, job.rowBytes)..Offset(row, job.rowBytes) + job.rowBytes]
    ensures var (next, block) := z.compress(c, [0] + line);
            if |pending + block| < FLUSH_AT then Encoding(z, crc, job, row + 1, out, pieces, pending + block, next)
            else if Fits(|pending + block|, 4) then
              Encoding(z, crc, job, row + 1, out + Chunk(crc, IDAT, pending + block), pieces + [pending + block], [],
                       next)
            else !AllFit(job.chunks)
  {
    hide FilteredRows, Cut, IdatChunks, Offset, Chunk, Fits;
    RowsSplit(job.pixels, job.rowBytes, job.height, row);
    var rest := FilteredRows(job.pixels[Offset(row + 1, job.rowBytes)..], job.rowBytes, job.height - row - 1);
    CutRow(z, c, pending, [0] + line, rest);
    var (next, block) := z.compress(c, [0] + line);
    if |pending + block| >= FLUSH_AT {
      assert pieces + ([pending + block] + Cut(z, next, [], rest))
             == pieces + [pending + block] + Cut(z, next, [], rest);
      if Fits(|pending + block|, 4) {
        BodyAppend(crc, pieces, pending + block);
      } else {
        assert (pending + block) in job.chunks;
      }
    }
  }

  lemma CutRow<C(!new), D(!new)>(z: Zlib<C, D>, c: C, pending: seq<byte>, row: seq<byte>, rest: seq<seq<byte>>)
    ensures var (next, block) := z.compress(c, row);
            Cut(z, c, pending, [row] + rest)
            == if |pending + block| >= FLUSH_AT then [pending + block] + Cut(z, next, [], rest)
               else Cut(z, next, pending + block, rest)
  {
    assert ([row] + rest)[1..] == rest;
  }

  /** After the last row: the rest of the stream, and the end chunk. */
  lemma EncodingEnds<C(!new), D(!new)>(z: Zlib<C, D>, crc: Crc, job: Job, out: seq<byte>, pieces: seq<seq<byte>>,
                                       pending: seq<byte>, c: C)
    requires Encoding(z, crc, job, job.height, out, pieces, pending, c)
    ensures var last := pending + z.finish(c);
            && Fits(0, 4) && AllFit(job.chunks) == Fits(|last|, 4)
            && (Fits(|last|, 4) ==>
                  (if last == [] then out else out + Chunk(crc, IDAT, last)) + Chunk(crc, IEND, [])
                  == job.head + Body(crc, job.chunks))
  {
    hide Chunk, Body, IdatChunks;
    Pow256Values();
    var last := pending + z.finish(c);
    assert job.chunks == if last == [] then pieces else pieces + [last];
    if Fits(|last|, 4) {
      if last != [] {
        BodyAppend(crc, pieces, last);
      }
      BodyIsChunks(crc, job.chunks);
      assert job.head + IdatChunks(crc, job.chunks) + Chunk(crc, IEND, [])
             == job.head + (IdatChunks(crc, job.chunks) + Chunk(crc, IEND, []));
    } else {
      assert last in job.chunks;
    }
  }

  /** The rows, with their noise, through the compressor and into chunks of at least a mebibyte. */
  method EncodeRows<C(!new), D(!new)>(payload: seq<byte>, info: PngInfo, z: Zlib<C, D>, crc: Crc,
                                      noise: nat -> seq<byte>, head: seq<byte>,
                                      ghost job: Job)
    returns (r: Result<(seq<byte>, seq<byte>, C), PngError>, ghost pieces: seq<seq<byte>>)
    requires IsCrc(crc) && IsNoise(noise) && DimensionsForPayload(|payload|, info.width) == Ok(info)
             && |payload| <= info.capacity
    requires job.head == head && job.pixels == Pixels(payload, info.capacity, noise)
    requires job.rowBytes == 4 * info.width && job.height == info.height
             && |job.pixels| == Offset(job.height, job.rowBytes)
    requires job.chunks == Cut(z, z.deflater, [], FilteredRows(job.pixels, job.rowBytes, job.height))
    ensures r.Err? ==> r.error == PngError.FieldRange && !AllFit(job.chunks)
    ensures r.Ok? ==> Encoding(z, crc, job, job.height, r.value.0, pieces, r.value.1, r.value.2)
  {
    hide FilteredRows, Cut, Chunk, Encoding, DimensionsForPayload, Pixels, Offset, Fits, Line, IsNoise, IsCrc, AllFit;
    RowsFit(|payload|, info.width);
    EncodingStarts(z, crc, job);
    pieces := [];
    var rowBytes := info.width * 4;
    var out, pending, compressor := head, [], z.deflater;
    var remaining := |payload|;
    for row: nat := 0 to info.height
      invariant row < info.height ==> remaining == |payload| - Offset(row, rowBytes)
      invariant Encoding(z, crc, job, row, out, pieces, pending, compressor)
    {
      NextRow(payload, info.capacity, noise, rowBytes, info.height, row);
      var take := Min(rowBytes, remaining);
      var line := Line(payload, |payload| - remaining, take, rowBytes, noise);
      remaining := remaining - take;
      EncodingRow(z, crc, job, row, out, pieces, pending, compressor, line);
      var (next, compressed) := z.compress(compressor, [0] + line);
      compressor, pending := next, pending + compressed;
      if |pending| >= FLUSH_AT {
        if !Fits(|pending|, 4) {
          return Err(PngError.FieldRange), pieces;
        }
        out, pieces, pending := out + Chunk(crc, IDAT, pending), pieces + [pending], [];
      }
    }
    return Ok((out, pending, compressor)), pieces;
  }

  /**
   The encoder writes the image of the payload's pixels, and fails only on bad dimensions or a chunk
   that has no length field.  Sizes up to 2^53 are computed exactly.
   */
  method EncodeFileToPng<C(!new), D(!new)>(payload: seq<byte>, width: int, z: Zlib<C, D>, crc: Crc,
                                           noise: nat -> seq<byte>)
    returns (r: Result<(PngInfo, seq<byte>), PngError>)
    requires IsCrc(crc) && IsNoise(noise) && |payload| <= 0x20_0000_0000_0000
    ensures r == Encoded(z, crc, payload, width, noise)
  {
    hide FilteredRows, Cut, Body, Chunk, Encoding;
    Pow256Values();
    var info :- DimensionsForPayload(|payload|, width);
    RowsFit(|payload|, width);
    ghost var pixels := Pixels(payload, info.capacity, noise);
    var head := SIGNATURE + Chunk(crc, IHDR, HeaderData(info.width, info.height));
    ghost var job := Job(head, ImageData(z, payload, info, noise), pixels, 4 * info.width, info.height);
    var rows;
    ghost var pieces;
    rows, pieces := EncodeRows(payload, info, z, crc, noise, head, job);
    if rows.Err? {
      return Err(rows.error);
    }
    var (out, pending, compressor) := rows.value;
    EncodingEnds(z, crc, job, out, pieces, pending, compressor);
    var last := pending + z.finish(compressor);
    if !Fits(|last|, 4) {
      return Err(PngError.FieldRange);
    }
    if last != [] {
      out := out + Chunk(crc, IDAT, last);
    }
    out := out + Chunk(crc, IEND, []);
    return Ok((info, out));
  }

  lemma RowsSplit(pixels: seq<byte>, rowBytes: nat, height: nat, row: nat)
    requires row < height && |pixels| == Offset(height, rowBytes)
    requires Offset(row, rowBytes) + rowBytes <= |pixels|
             && Offset(height - row, rowBytes) == |pixels| - Offset(row, rowBytes)
    ensures var at := Offset(row, rowBytes);
            && Offset(row + 1, rowBytes) == at + rowBytes
            && Offset(height - row - 1, rowBytes) == |pixels| - (at + rowBytes)
            && FilteredRows(pixels[at..], rowBytes, height - row)
               == [[0] + pixels[at..at + rowBytes]]
               + FilteredRows(pixels[Offset(row + 1, rowBytes)..], rowBytes, height - row - 1)
  {
    var at := Offset(row, rowBytes);
    assert pixels[at..][..rowBytes] == pixels[at..at + rowBytes] && pixels[at..][rowBytes..] == pixels[at + rowBytes..];
  }

  // The whole way

  /** The decoded image holds the payload and then noise. */
  ghost predicate Restores(r: Result<Decoded, PngError>, payload: seq<byte>, info: PngInfo) {
    r.Ok? && r.value.width == info.width && r.value.height == info.height
    && |r.value.pixels| == info.width * info.height * 4 && payload <= r.value.pixels
  }

  /** The payload is the front of what is decoded, whatever the noise, unless a chunk got too big. */
  lemma PayloadSurvives<C(!new), D(!new)>(z: Zlib<C, D>, crc: Crc, payload: seq<byte>, width: int,
                                          noise: nat -> seq<byte>)
    requires Lossless(z) && IsCrc(crc) && IsNoise(noise) && Encoded(z, crc, payload, width, noise).Ok?
    ensures var (info, file) := Encoded(z, crc, payload, width, noise).value;
            && DimensionsForPayload(|payload|, width) == Ok(info) && info.width == width
            && var r := Decode(z, crc, file);
               (r.Ok? <==> Bounded(ImageData(z, payload, info, noise))) && (r.Ok? ==> Restores(r, payload, info))
  {
    hide Decode, Image, FilteredRows, Deflated, Bounded, StopsAtLimit, Cut;
    var info := DimensionsForPayload(|payload|, width).value;
    RowsFit(|payload|, width);
    var pixels := Pixels(payload, info.capacity, noise);
    var rows := FilteredRows(pixels, 4 * info.width, info.height);
    CutIsStream(z, z.deflater, [], rows);
    assert [] + Deflated(z, z.deflater, rows) == Deflated(z, z.deflater, rows);
    DecodeUndoesEncode(z, crc, info.width, info.height, pixels, Cut(z, z.deflater, [], rows));
  }

  lemma {:induction false} RowLengths(pixels: seq<byte>, rowBytes: nat, height: nat)
    requires |pixels| == Offset(height, rowBytes)
    ensures forall r :: r in FilteredRows(pixels, rowBytes, height) ==> |r| == rowBytes + 1
    decreases height
  {
    if height > 0 {
      OffsetFront(height, rowBytes);
      RowLengths(pixels[rowBytes..], rowBytes, height - 1);
    }
  }

  lemma BoundedFits(pieces: seq<seq<byte>>)
    requires Bounded(pieces)
    ensures AllFit(pieces)
  {
    Pow256Values();
  }

  /** What the compressor does with one row decides: if that leaves room for a mebibyte, each payload survives. */
  lemma CompactStreamsSurvive<C(!new), D(!new)>(z: Zlib<C, D>, crc: Crc, payload: seq<byte>, width: int,
                                                noise: nat -> seq<byte>, cap: nat)
    requires Lossless(z) && IsCrc(crc) && IsNoise(noise) && DimensionsForPayload(|payload|, width).Ok?
    requires Compact(z, 4 * width + 1, cap) && cap <= 66_060_289
    ensures var r := Encoded(z, crc, payload, width, noise);
            r.Ok? && Restores(Decode(z, crc, r.value.1), payload, r.value.0)
  {
    hide Lossless, Decode, Image, FilteredRows, Cut, Compact, StopsAtLimit;
    var info := DimensionsForPayload(|payload|, width).value;
    RowsFit(|payload|, width);
    var pixels := Pixels(payload, info.capacity, noise);
    RowLengths(pixels, 4 * width, info.height);
    CutBounded(z, z.deflater, [], FilteredRows(pixels, 4 * width, info.height), 4 * width + 1, cap);
    BoundedFits(ImageData(z, payload, info, noise));
    PayloadSurvives(z, crc, payload, width, noise);
  }

  /** The storing compressor's chunks are whole rows if a row has a mebibyte. */
  lemma {:induction false} StoredCut(rows: seq<seq<byte>>, n: nat)
    requires n >= FLUSH_AT && forall r :: r in rows ==> |r| == n
    ensures Cut(Storing(), false, [], rows) == rows + [[0]]
  {
    var none: seq<byte> := [];
    if rows == [] {
      assert none + [0] == [0];
    } else {
      assert rows[0] in rows && none + rows[0] == rows[0];
      StoredCut(rows[1..], n);
      assert rows + [[0]] == [rows[0]] + (rows[1..] + [[0]]);
    }
  }

  /** Which limits the stored rows are within. */
  lemma StoredData(payload: seq<byte>, info: PngInfo, noise: nat -> seq<byte>)
    requires IsNoise(noise) && DimensionsForPayload(|payload|, info.width) == Ok(info) && 4 * info.width + 1 >= FLUSH_AT
    ensures AllFit(ImageData(Storing(), payload, info, noise)) <==> Fits(4 * info.width + 1, 4)
    ensures Bounded(ImageData(Storing(), payload, info, noise)) <==> 4 * info.width + 1 <= MAX_CHUNK_BYTES
  {
    hide FilteredRows, Cut, DimensionsForPayload;
    Pow256Values();
    RowsFit(|payload|, info.width);
    var n := 4 * info.width + 1;
    var rows := FilteredRows(Pixels(payload, info.capacity, noise), 4 * info.width, info.height);
    RowLengths(Pixels(payload, info.capacity, noise), 4 * info.width, info.height);
    StoredCut(rows, n);
    assert rows[0] in rows + [[0]] && |rows[0]| == n;
    assert forall p :: p in rows + [[0]] ==> |p| == n || |p| == 1;
  }

  /**
   With the storing compressor the decoder gives each payload back exactly when a row with its filter
   byte is within the chunk limit: 16,777,215 pixels are the widest image that can be read again.
   */
  lemma StoredRowsSurvive(crc: Crc, payload: seq<byte>, width: int, noise: nat -> seq<byte>)
    requires IsCrc(crc) && IsNoise(noise) && DimensionsForPayload(|payload|, width).Ok?
    ensures Lossless(Storing())
    ensures var r := Encoded(Storing(), crc, payload, width, noise);
            && (r.Ok? && Decode(Storing(), crc, r.value.1).Ok? <==> 4 * width + 1 <= MAX_CHUNK_BYTES)
            && (r.Ok? <==> Fits(4 * width + 1, 4))
            && (r.Ok? && Decode(Storing(), crc, r.value.1).Ok? ==>
                  Restores(Decode(Storing(), crc, r.value.1), payload, r.value.0))
  {
    hide Decode, Image, ImageData, Compact, Bounded, AllFit, Storing, Lossless;
    StoringIsLossless();
    var z, n := Storing(), 4 * width + 1;
    var info := DimensionsForPayload(|payload|, width).value;
    RowsFit(|payload|, width);
    Pow256Values();
    if n < FLUSH_AT {
      StoringIsCompact(n);
      CompactStreamsSurvive(z, crc, payload, width, noise, n);
    } else {
      StoredData(payload, info, noise);
      if Fits(n, 4) {
        PayloadSurvives(z, crc, payload, width, noise);
      }
    }
  }

  lemma StoringIsCompact(n: nat)
    requires n >= 1
    ensures Compact(Storing(), n, n) && Storing().deflater == false
  {
  }

  // Decoding

  /** One IDAT chunk through the decompressor. */
  method FeedChunk<C(!new), D(!new)>(z: Zlib<C, D>, d: D, expected: nat, produced: seq<byte>, data: seq<byte>)
    returns (r: Result<(D, seq<byte>), PngError>)
    requires StopsAtLimit(z) && |produced| <= expected
    ensures r == Feed(z, d, expected, produced, data)
  {
    var decompressor, out, pending := d, produced, data;
    while pending != []
      invariant |out| <= expected
      invariant Feed(z, d, expected, produced, data) == Feed(z, decompressor, expected, out, pending)
      decreases |pending|
    {
      match z.inflate(decompressor, pending, expected - |out| + 1) {
        case None => return Err(InvalidStream);
        case Some((next, block)) =>
          out := out + block;
          if |out| > expected {
            return Err(Expands);
          }
          decompressor, pending := next, z.tail(next);
      }
    }
    return Ok((decompressor, out));
  }

  /** The chunk loop: image data is decompressed, the end chunk ends it, other critical chunks are refused. */
  method DecodeChunks<C(!new), D(!new)>(z: Zlib<C, D>, crc: Crc, expected: nat, file: seq<byte>)
    returns (r: Result<Progress<D>, PngError>)
    requires StopsAtLimit(z)
    ensures r == ReadBody(z, crc, z.inflater, expected, [], false, file)
  {
    hide ReadChunk, Feed, StopsAtLimit;
    var decompressor, out, seenIdat, seenIend := z.inflater, [], false, false;
    var rest := file;
    while !seenIend
      invariant |out| <= expected
      invariant if seenIend
                then ReadBody(z, crc, z.inflater, expected, [], false, file)
                     == Ok(Progress(decompressor, out, seenIdat, rest))
                else ReadBody(z, crc, z.inflater, expected, [], false, file)
                     == ReadBody(z, crc, decompressor, expected, out, seenIdat, rest)
      decreases |rest|
    {
      var chunk :- ReadChunk(crc, rest);
      var (kind, data, after) := chunk;
      if kind == IDAT {
        var fed := FeedChunk(z, decompressor, expected, out, data);
        if fed.Err? {
          return Err(fed.error);
        }
        if z.unused(fed.value.0) != [] {
          return Err(ExtraStream);
        }
        FeedKeepsLimit(z, decompressor, expected, out, data);
        decompressor, out, seenIdat := fed.value.0, fed.value.1, true;
      } else if kind == IEND {
        if data != [] {
          return Err(EndNotEmpty);
        }
        seenIend := true;
      } else if IsCritical(kind) {
        return Err(UnsupportedChunk);
      }
      rest := after;
    }
    return Ok(Progress(decompressor, out, seenIdat, rest));
  }

  /** Copies the rows without their filter bytes. */
  method CopyRows(filtered: seq<byte>, rowBytes: nat, height: nat) returns (r: Result<seq<byte>, PngError>)
    ensures r == Unfiltered(filtered, rowBytes, height)
  {
    ghost var goal := Unfiltered(filtered, rowBytes, height);
    var out: seq<byte> := [];
    var rest := filtered;
    assert goal.Ok? ==> [] + goal.value == goal.value;
    for row: nat := 0 to height
      invariant var more := Unfiltered(rest, rowBytes, height - row);
                if goal.Ok? then more.Ok? && goal.value == out + more.value else more == goal
    {
      if rest == [] || rest[0] != 0 {
        return Err(Transformed);
      }
      if |rest| < 1 + rowBytes {
        return Err(TruncatedRow);
      }
      var line := rest[1..1 + rowBytes];
      ghost var more := Unfiltered(rest[1 + rowBytes..], rowBytes, height - row - 1);
      assert more.Ok? ==> out + (line + more.value) == out + line + more.value;
      out := out + line;
      rest := rest[1 + rowBytes..];
    }
    assert out + [] == out;
    return Ok(out);
  }

  /** The decoder gives exactly what the file stands for. */
  method DecodePngToFile<C(!new), D(!new)>(z: Zlib<C, D>, crc: Crc, file: seq<byte>)
    returns (r: Result<Decoded, PngError>)
    requires StopsAtLimit(z)
    ensures r == Decode(z, crc, file)
  {
    hide ReadHeader, ReadBody, Unfiltered, StopsAtLimit;
    var header :- ReadHeader(crc, file);
    var (width, height, rest) := header;
    var rowBytes := width * 4;
    OffsetIsProduct(height, rowBytes + 1);
    var expected := height * (rowBytes + 1);
    var chunks := DecodeChunks(z, crc, expected, rest);
    if chunks.Err? {
      return Err(chunks.error);
    }
    var filtered :- Finish(z, chunks.value, expected);
    var rows := CopyRows(filtered, rowBytes, height);
    if rows.Err? {
      return Err(rows.error);
    }
    return Ok(Decoded(width, height, rows.value));
  }
}
