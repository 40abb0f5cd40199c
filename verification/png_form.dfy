/** What the bytes of a carrier image are, and which payload they carry (src/ubin/secure/png_codec.py). */
module PngForm {
  import opened Arithmetic
  import opened Bytes
  import opened Framing
  import opened Png

  // Chunks and files

  /** Length, type, data and check value. */
  ghost predicate IsChunk(crc: Crc, kind: seq<byte>, data: seq<byte>, bytes: seq<byte>) {
    && |bytes| == 12 + |data| && Number(bytes[..4]) == |data| && bytes[4..8] == kind
    && bytes[8..8 + |data|] == data && Number(bytes[8 + |data|..]) == crc(kind + data)
  }

  lemma ChunkExactly(crc: Crc, kind: seq<byte>, data: seq<byte>, bytes: seq<byte>)
    requires IsCrc(crc) && Fits(|data|, 4) && |kind| == 4
    ensures IsChunk(crc, kind, data, bytes) <==> bytes == Chunk(crc, kind, data)
    ensures |Chunk(crc, kind, data)| == 12 + |data|
  {
    hide ToBytes, Number;
    var correct, n := Chunk(crc, kind, data), |data|;
    ToBytesIsNumber(n, 4);
    ToBytesIsNumber(crc(kind + data), 4);
    assert correct[..4] == Field(n, 4) && correct[4..8] == kind && correct[8..8 + n] == data;
    assert correct[8 + n..] == Field(crc(kind + data), 4);
    if IsChunk(crc, kind, data, bytes) {
      NumberInjective(bytes[..4], correct[..4]);
      NumberInjective(bytes[8 + n..], correct[8 + n..]);
      assert bytes == bytes[..4] + bytes[4..8] + bytes[8..8 + n] + bytes[8 + n..];
      assert correct == correct[..4] + correct[4..8] + correct[8..8 + n] + correct[8 + n..];
    }
  }

  /** One IDAT chunk for each piece, then an empty IEND chunk and nothing else. */
  ghost predicate AreChunks(crc: Crc, pieces: seq<seq<byte>>, bytes: seq<byte>)
    decreases |pieces|
  {
    if pieces == [] then IsChunk(crc, [73, 69, 78, 68], [], bytes)
    else
      && |bytes| >= 12 + |pieces[0]|
      && IsChunk(crc, [73, 68, 65, 84], pieces[0], bytes[..12 + |pieces[0]|])
      && AreChunks(crc, pieces[1..], bytes[12 + |pieces[0]|..])
  }

  lemma {:induction false} ChunksExactly(crc: Crc, pieces: seq<seq<byte>>, bytes: seq<byte>)
    requires IsCrc(crc) && forall p :: p in pieces ==> Fits(|p|, 4)
    ensures AreChunks(crc, pieces, bytes) <==> bytes == Body(crc, pieces)
    decreases |pieces|
  {
    hide IsChunk, Chunk, Fits;
    NothingFits();
    if pieces == [] {
      ChunkExactly(crc, IEND, [], bytes);
    } else {
      var first, rest := Chunk(crc, IDAT, pieces[0]), Body(crc, pieces[1..]);
      ChunkExactly(crc, IDAT, pieces[0], first);
      if |bytes| >= 12 + |pieces[0]| {
        var n := 12 + |pieces[0]|;
        ChunkExactly(crc, IDAT, pieces[0], bytes[..n]);
        ChunksExactly(crc, pieces[1..], bytes[n..]);
        assert bytes == bytes[..n] + bytes[n..] && (first + rest)[..n] == first && (first + rest)[n..] == rest;
      }
    }
  }

  lemma NothingFits()
    ensures Fits(0, 4) && Fits(13, 4)
  {
    Pow256Values();
  }

  /** Signature, header chunk for eight bits of RGBA without interlacing, and the pieces. */
  ghost predicate IsPng(crc: Crc, width: nat, height: nat, pieces: seq<seq<byte>>, file: seq<byte>) {
    && |file| >= 33 && file[..8] == [137, 80, 78, 71, 13, 10, 26, 10]
    && IsChunk(crc, [73, 72, 68, 82], file[16..29], file[8..33])
    && Number(file[16..20]) == width && Number(file[20..24]) == height && file[24..29] == [8, 6, 0, 0, 0]
    && AreChunks(crc, pieces, file[33..])
  }

  lemma HeaderExactly(width: nat, height: nat, data: seq<byte>)
    requires Fits(width, 4) && Fits(height, 4) && |data| == 13
    ensures data == HeaderData(width, height)
            <==> Number(data[..4]) == width && Number(data[4..8]) == height && data[8..13] == [8, 6, 0, 0, 0]
  {
    hide ToBytes, Number;
    var correct := HeaderData(width, height);
    ToBytesIsNumber(width, 4);
    ToBytesIsNumber(height, 4);
    assert correct[..4] == Field(width, 4) && correct[4..8] == Field(height, 4) && correct[8..13] == [8, 6, 0, 0, 0];
    if Number(data[..4]) == width && Number(data[4..8]) == height {
      NumberInjective(data[..4], correct[..4]);
      NumberInjective(data[4..8], correct[4..8]);
      assert data == data[..4] + data[4..8] + data[8..13];
    }
  }

  /** The parts of a file that the header describes. */
  lemma FileParts(file: seq<byte>)
    requires |file| >= 33
    ensures file == file[..8] + file[8..33] + file[33..]
    ensures file[16..29][..4] == file[16..20] && file[16..29][4..8] == file[20..24]
    ensures file[16..29][8..13] == file[24..29] && file[8..33][8..21] == file[16..29]
  {
  }

  lemma PngExactly(crc: Crc, width: nat, height: nat, pieces: seq<seq<byte>>, file: seq<byte>)
    requires IsCrc(crc) && Fits(width, 4) && Fits(height, 4) && forall p :: p in pieces ==> Fits(|p|, 4)
    ensures IsPng(crc, width, height, pieces, file) <==> file == Image(crc, width, height, pieces)
  {
    hide Number, ToBytes, Chunk, Body, Fits, IsCrc, AreChunks;
    NothingFits();
    var header := HeaderData(width, height);
    var first, body := Chunk(crc, IHDR, header), Body(crc, pieces);
    ChunkExactly(crc, IHDR, header, first);
    if file == Image(crc, width, height, pieces) {
      assert file == SIGNATURE + first + body;
      assert file[..8] == SIGNATURE && file[8..33] == first && file[33..] == body;
      FileParts(file);
      HeaderExactly(width, height, header);
      ChunksExactly(crc, pieces, body);
    }
    if IsPng(crc, width, height, pieces, file) {
      FileParts(file);
      HeaderExactly(width, height, file[16..29]);
      ChunkExactly(crc, IHDR, header, file[8..33]);
      ChunksExactly(crc, pieces, file[33..]);
    }
  }

  // Rows and the compressed stream

  /** Row i is a zero byte and the next part of the pixels. */
  ghost predicate IsRow(pixels: seq<byte>, rowBytes: nat, i: nat, row: seq<byte>) {
    && |row| == rowBytes + 1 && row[0] == 0
    && i * rowBytes + rowBytes <= |pixels| && row[1..] == pixels[i * rowBytes..i * rowBytes + rowBytes]
  }

  ghost predicate AreRows(pixels: seq<byte>, rowBytes: nat, rows: seq<seq<byte>>) {
    |pixels| == |rows| * rowBytes && forall i :: 0 <= i < |rows| ==> IsRow(pixels, rowBytes, i, rows[i])
  }

  lemma PartBehind(s: seq<byte>, skip: nat, at: nat, n: nat)
    requires skip + at + n <= |s|
    ensures s[skip..][at..at + n] == s[skip + at..skip + at + n]
  {
  }

  lemma {:induction false} FilteredRow(pixels: seq<byte>, rowBytes: nat, height: nat, i: nat)
    requires |pixels| == Offset(height, rowBytes) && i < height
    ensures Offset(i, rowBytes) + rowBytes <= |pixels|
    ensures FilteredRows(pixels, rowBytes, height)[i]
            == [0] + pixels[Offset(i, rowBytes)..Offset(i, rowBytes) + rowBytes]
    decreases height
  {
    OffsetFront(height, rowBytes);
    OffsetGap(i, height, rowBytes);
    if i == 0 {
      assert Offset(0, rowBytes) == 0;
    } else {
      hide Offset;
      FilteredRow(pixels[rowBytes..], rowBytes, height - 1, i - 1);
      OffsetFront(i, rowBytes);
      PartBehind(pixels, rowBytes, Offset(i - 1, rowBytes), rowBytes);
    }
  }

  lemma RowsExactly(pixels: seq<byte>, rowBytes: nat, height: nat, rows: seq<seq<byte>>)
    requires |pixels| == Offset(height, rowBytes) && |rows| == height
    ensures AreRows(pixels, rowBytes, rows) <==> rows == FilteredRows(pixels, rowBytes, height)
  {
    hide Offset, FilteredRows;
    OffsetIsProduct(height, rowBytes);
    var correct := FilteredRows(pixels, rowBytes, height);
    forall i | 0 <= i < height ensures IsRow(pixels, rowBytes, i, rows[i]) <==> rows[i] == correct[i] {
      FilteredRow(pixels, rowBytes, height, i);
      OffsetIsProduct(i, rowBytes);
      if IsRow(pixels, rowBytes, i, rows[i]) {
        assert rows[i] == [rows[i][0]] + rows[i][1..];
      }
    }
  }

  /**
   The compressor is given one row after the other; block i is its output for row i, the last what
   finishing gives.
   */
  ghost predicate IsCompression<C(!new), D(!new)>(z: Zlib<C, D>, c: C, rows: seq<seq<byte>>, states: seq<C>,
                                                  blocks: seq<seq<byte>>)
  {
    && |states| == |blocks| == |rows| + 1 && states[0] == c
    && (forall i :: 0 <= i < |rows| ==> (states[i + 1], blocks[i]) == z.compress(states[i], rows[i]))
    && blocks[|rows|] == z.finish(states[|rows|])
  }

  lemma {:induction false} CompressionExists<C(!new), D(!new)>(z: Zlib<C, D>, c: C, rows: seq<seq<byte>>)
    returns (states: seq<C>, blocks: seq<seq<byte>>)
    ensures IsCompression(z, c, rows, states, blocks)
    decreases |rows|
  {
    if rows == [] {
      states, blocks := [c], [z.finish(c)];
    } else {
      var (next, block) := z.compress(c, rows[0]);
      states, blocks := CompressionExists(z, next, rows[1..]);
      states, blocks := [c] + states, [block] + blocks;
    }
  }

  lemma {:induction false} CompressionIsStream<C(!new), D(!new)>(z: Zlib<C, D>, c: C, rows: seq<seq<byte>>,
                                                                 states: seq<C>, blocks: seq<seq<byte>>)
    requires IsCompression(z, c, rows, states, blocks)
    ensures Flatten(blocks) == Deflated(z, c, rows)
    decreases |rows|
  {
    if rows == [] {
      assert blocks == [z.finish(c)] && blocks[1..] == [];
      assert z.finish(c) + [] == z.finish(c);
    } else {
      CompressionIsStream(z, states[1], rows[1..], states[1..], blocks[1..]);
    }
  }

  /** No piece is empty, and all but the last have a mebibyte. */
  ghost predicate WellCut(pieces: seq<seq<byte>>) {
    forall i :: 0 <= i < |pieces| ==> pieces[i] != [] && (i < |pieces| - 1 ==> |pieces[i]| >= 1_048_576)
  }

  lemma {:induction false} CutIsWellCut<C(!new), D(!new)>(z: Zlib<C, D>, c: C, pending: seq<byte>, rows: seq<seq<byte>>)
    ensures WellCut(Cut(z, c, pending, rows))
    decreases |rows|
  {
    if rows != [] {
      var (next, block) := z.compress(c, rows[0]);
      if |pending + block| >= FLUSH_AT {
        CutIsWellCut(z, next, [], rows[1..]);
      } else {
        CutIsWellCut(z, next, pending + block, rows[1..]);
      }
    }
  }

  // Carriers

  /** The image of these pixels: rows behind zero bytes, compressed in order, cut into pieces, in a PNG file. */
  ghost predicate Carries<C(!new), D(!new)>(z: Zlib<C, D>, crc: Crc, width: nat, height: nat, pixels: seq<byte>,
                                            pieces: seq<seq<byte>>, file: seq<byte>)
  {
    exists rows, states, blocks ::
      && |rows| == height && AreRows(pixels, 4 * width, rows)
      && IsCompression(z, z.deflater, rows, states, blocks)
      && Flatten(pieces) == Flatten(blocks) && IsPng(crc, width, height, pieces, file)
  }

  /** The least number of rows that hold the payload, and at least one. */
  ghost predicate IsHeight(size: nat, width: nat, height: nat) {
    height >= 1 && size <= height * (4 * width) && (height > 1 ==> (height - 1) * (4 * width) < size)
  }

  lemma DimensionsExactly(size: nat, width: int)
    ensures var r := DimensionsForPayload(size, width);
            && (r == Err(WidthRange) <==> !(1 <= width <= 0x7FFF_FFFF))
            && (r == Err(TooLarge) <==> 1 <= width <= 0x7FFF_FFFF && size > 0x7FFF_FFFF * (4 * width))
            && (r.Err? ==> r.error.WidthRange? || r.error.TooLarge?)
            && (r.Ok? ==> r.value.width == width && r.value.height <= 0x7FFF_FFFF
                          && IsHeight(size, width, r.value.height) && r.value.capacity == width * r.value.height * 4)
  {
    if 1 <= width <= 0x7FFF_FFFF {
      var r := DimensionsForPayload(size, width);
      if r.Ok? {
        RowsFit(size, width);
        OffsetIsProduct(r.value.height, 4 * width);
        OffsetIsProduct(r.value.height - 1, 4 * width);
        ProductMonotone(r.value.height, 0x7FFF_FFFF, 4 * width);
      } else {
        TooLargeForRows(size, width);
      }
    }
  }

  lemma TooLargeForRows(size: nat, width: nat)
    requires 1 <= width <= 0x7FFF_FFFF && DimensionsForPayload(size, width).Err?
    ensures size > 0x7FFF_FFFF * (4 * width)
  {
    var pixels := if CeilDiv(size, 4) > 1 then CeilDiv(size, 4) else 1;
    CeilDivBounds(pixels, width);
    if size > 0 {
      CeilDivBounds(size, 4);
    }
    ProductMonotone(0x7FFF_FFFF, CeilDiv(pixels, width) - 1, width);
    ProductMonotone(1, 0x7FFF_FFFF, width);
  }

  /** What is encoded is the carrier of the payload and its padding, in the least number of rows. */
  lemma EncodedCarries<C(!new), D(!new)>(z: Zlib<C, D>, crc: Crc, payload: seq<byte>, width: int,
                                         noise: nat -> seq<byte>)
    requires IsCrc(crc) && IsNoise(noise) && Encoded(z, crc, payload, width, noise).Ok?
    ensures var (info, file) := Encoded(z, crc, payload, width, noise).value;
            && info.width == width && IsHeight(|payload|, width, info.height)
            && |payload| <= info.width * info.height * 4
            && exists pieces ::
                 && WellCut(pieces)
                 && Carries(z, crc, width, info.height,
                            payload + noise(info.width * info.height * 4 - |payload|), pieces, file)
  {
    hide Cut, IsPng, Image, IsCompression, AreRows, Flatten, FilteredRows, WellCut, Fits, Offset, IsCrc, Deflated;
    var (info, file) := Encoded(z, crc, payload, width, noise).value;
    DimensionsExactly(|payload|, width);
    RowsFit(|payload|, width);
    DimensionsFit(info);
    var pixels := Pixels(payload, info.capacity, noise);
    var rows := FilteredRows(pixels, 4 * info.width, info.height);
    var pieces := ImageData(z, payload, info, noise);
    RowsExactly(pixels, 4 * info.width, info.height, rows);
    CutIsWellCut(z, z.deflater, [], rows);
    CutIsStream(z, z.deflater, [], rows);
    assert [] + Deflated(z, z.deflater, rows) == Deflated(z, z.deflater, rows);
    var states, blocks := CompressionExists(z, z.deflater, rows);
    CompressionIsStream(z, z.deflater, rows, states, blocks);
    PngExactly(crc, info.width, info.height, pieces, file);
    assert Carries(z, crc, width, info.height, pixels, pieces, file);
  }

  lemma DimensionsFit(info: PngInfo)
    requires info.width <= 0x7FFF_FFFF && info.height <= 0x7FFF_FFFF
    ensures Fits(info.width, 4) && Fits(info.height, 4)
  {
    Pow256Values();
  }

  /** The pixels of any carrier within the chunk limit come back, however its stream is cut into pieces. */
  lemma CarrierDecodes<C(!new), D(!new)>(z: Zlib<C, D>, crc: Crc, width: nat, height: nat, pixels: seq<byte>,
                                         pieces: seq<seq<byte>>, file: seq<byte>)
    requires Lossless(z) && IsCrc(crc) && 1 <= width <= 0x7FFF_FFFF && 1 <= height <= 0x7FFF_FFFF
    requires Carries(z, crc, width, height, pixels, pieces, file)
    requires forall p :: p in pieces ==> 0 < |p| <= 67_108_864
    ensures Decode(z, crc, file) == Ok(Decoded(width, height, pixels))
  {
    hide Decode, IsPng, Image, IsCompression, Flatten, FilteredRows, Fits, Offset, IsCrc, Deflated, Lossless, IsRow;
    DimensionsFit(PngInfo(width, height, 0));
    PiecesFit(pieces);
    var rows, states, blocks :|
      && |rows| == height && AreRows(pixels, 4 * width, rows)
      && IsCompression(z, z.deflater, rows, states, blocks)
      && Flatten(pieces) == Flatten(blocks) && IsPng(crc, width, height, pieces, file);
    OffsetIsProduct(height, 4 * width);
    RowsExactly(pixels, 4 * width, height, rows);
    CompressionIsStream(z, z.deflater, rows, states, blocks);
    PngExactly(crc, width, height, pieces, file);
    DecodeUndoesEncode(z, crc, width, height, pixels, pieces);
  }

  lemma PiecesFit(pieces: seq<seq<byte>>)
    requires forall p :: p in pieces ==> 0 < |p| <= 67_108_864
    ensures forall p :: p in pieces ==> Fits(|p|, 4)
    ensures Bounded(pieces)
  {
    Pow256Values();
  }

  // What is refused

  /** A chunk of another type is skipped if its name starts with a small letter, and refused if with a capital. */
  lemma OtherChunks<C(!new), D(!new)>(z: Zlib<C, D>, crc: Crc, d: D, expected: nat, out: seq<byte>, seen: bool,
                                      kind: seq<byte>, data: seq<byte>, chunk: seq<byte>, rest: seq<byte>)
    requires StopsAtLimit(z) && IsCrc(crc) && |out| <= expected
    requires |kind| == 4 && kind != [73, 68, 65, 84] && kind != [73, 69, 78, 68]
    requires |data| <= 67_108_864 && IsChunk(crc, kind, data, chunk)
    ensures 97 <= kind[0] <= 122 ==>
              ReadBody(z, crc, d, expected, out, seen, chunk + rest) == ReadBody(z, crc, d, expected, out, seen, rest)
    ensures 65 <= kind[0] <= 90 ==>
              ReadBody(z, crc, d, expected, out, seen, chunk + rest) == Err(UnsupportedChunk)
  {
    hide IsChunk, Chunk, ReadChunk, Feed, StopsAtLimit;
    Pow256Values();
    ChunkExactly(crc, kind, data, chunk);
    ReadWrittenChunk(crc, kind, data, rest);
  }

  lemma ChunkBefore(crc: Crc, file: seq<byte>, more: seq<byte>)
    requires ReadChunk(crc, file).Ok?
    ensures var (kind, data, rest) := ReadChunk(crc, file).value;
            ReadChunk(crc, file + more) == Ok((kind, data, rest + more))
  {
    hide FromBytes;
    var n := FromBytes(file[..4]);
    var longer := file + more;
    assert longer[..4] == file[..4] && longer[4..8] == file[4..8] && longer[8..8 + n] == file[8..8 + n];
    assert longer[8 + n..12 + n] == file[8 + n..12 + n] && longer[12 + n..] == file[12 + n..] + more;
  }

  lemma {:induction false} BodyBefore<C(!new), D(!new)>(z: Zlib<C, D>, crc: Crc, d: D, expected: nat, out: seq<byte>,
                                                        seen: bool, file: seq<byte>, more: seq<byte>)
    requires StopsAtLimit(z) && |out| <= expected && ReadBody(z, crc, d, expected, out, seen, file).Ok?
    ensures var p := ReadBody(z, crc, d, expected, out, seen, file).value;
            ReadBody(z, crc, d, expected, out, seen, file + more) == Ok(p.(rest := p.rest + more))
    decreases |file|
  {
    hide ReadChunk, Feed, StopsAtLimit;
    ChunkBefore(crc, file, more);
    var (kind, data, rest) := ReadChunk(crc, file).value;
    if kind == IDAT {
      FeedKeepsLimit(z, d, expected, out, data);
      var (next, fed) := Feed(z, d, expected, out, data).value;
      BodyBefore(z, crc, next, expected, fed, true, rest, more);
    } else if kind != IEND {
      BodyBefore(z, crc, d, expected, out, seen, rest, more);
    }
  }

  /** Nothing may follow an accepted image. */
  lemma NothingMayFollow<C(!new), D(!new)>(z: Zlib<C, D>, crc: Crc, file: seq<byte>, more: seq<byte>)
    requires StopsAtLimit(z) && Decode(z, crc, file).Ok? && more != []
    ensures Decode(z, crc, file + more) == Err(TrailingBytes)
  {
    hide ReadChunk, ReadBody, Unfiltered, StopsAtLimit, Offset;
    var (width, height, rest) := ReadHeader(crc, file).value;
    HeaderBefore(crc, file, more);
    BodyBefore(z, crc, z.inflater, Offset(height, 4 * width + 1), [], false, rest, more);
  }

  lemma HeaderBefore(crc: Crc, file: seq<byte>, more: seq<byte>)
    requires ReadHeader(crc, file).Ok?
    ensures var (width, height, rest) := ReadHeader(crc, file).value;
            ReadHeader(crc, file + more) == Ok((width, height, rest + more))
  {
    hide ReadChunk, FromBytes;
    assert |file| >= 8 && (file + more)[..8] == file[..8] && (file + more)[8..] == file[8..] + more;
    ChunkBefore(crc, file[8..], more);
  }
}
