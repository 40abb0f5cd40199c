/** Permuting and restoring a file with positional reads and writes (src/ubin/secure/krp.py). */
module KrpFiles {
  import opened Arithmetic
  import opened Bytes
  import opened Krp
  import opened KrpBlocks

  /** A regular file; opening it for writing and positional access behave as on POSIX. */
  class File {
    var content: seq<byte>

    method OpenForWriting()
      modifies this
      ensures content == []
    {
      content := [];
    }

    method Truncate(size: nat)
      modifies this
      ensures content == if size <= |old(content)| then old(content)[..size]
                         else old(content) + Zeros(size - |old(content)|)
    {
      content := if size <= |content| then content[..size] else content + Zeros(size - |content|);
    }

    method PRead(amount: nat, offset: nat) returns (data: seq<byte>)
      ensures offset + amount <= |content| ==> data == content[offset..offset + amount]
      ensures offset >= |content| ==> data == []
      ensures offset < |content| < offset + amount ==> data == content[offset..]
    {
      data := if offset >= |content| then []
              else if offset + amount <= |content| then content[offset..offset + amount]
              else content[offset..];
    }

    /** Writes inside the file; the callers have already given it its full length. */
    method PWrite(data: seq<byte>, offset: nat)
      requires offset + |data| <= |content|
      modifies this
      ensures content == Overwrite(old(content), offset, data)
    {
      content := content[..offset] + data + content[offset + |data|..];
    }
  }

  /**
   What the loops read.  Opening the destination empties it, so a file permuted onto itself is
   read back as the zeros that the size was restored with.
   */
  ghost function InputOf(source: File, destination: File): seq<byte>
    reads source
  {
    if source == destination then Zeros(|source.content|) else source.content
  }

  /** Copying part of a string of zeros over another part changes nothing. */
  lemma ZerosStay(s: seq<byte>, from: nat, to: nat, amount: nat)
    requires s == Zeros(|s|) && from + amount <= |s| && to + amount <= |s|
    ensures Overwrite(s, to, s[from..from + amount]) == s
  {
  }

  /** The short tail, if there is one, is copied in place. */
  method CopyTail(source: File, destination: File, ghost input: seq<byte>, fullLen: nat, size: nat)
    requires source.content == input && |input| == |destination.content| == size && fullLen <= size
    modifies destination
    ensures destination.content == Overwrite(old(destination.content), fullLen, input[fullLen..])
  {
    if fullLen < size {
      var tail := source.PRead(size - fullLen, fullLen);
      assert tail == input[fullLen..];
      destination.PWrite(tail, fullLen);
    } else {
      assert Overwrite(destination.content, fullLen, input[fullLen..]) == destination.content;
    }
  }

  method PermuteFile(source: File, destination: File, c: Keying, blockSize: int) returns (r: Result<nat, KrpError>)
    modifies destination
    ensures r.Ok? <==> Refusal(c, blockSize, |old(source.content)|).None?
    ensures r.Err? ==> Refusal(c, blockSize, |old(source.content)|) == Some(r.error)
    ensures r.Ok? ==> r.value == |old(source.content)|
    ensures r.Ok? ==> Permuted(c, blockSize, old(InputOf(source, destination)), destination.content)
    ensures Validate(c, blockSize).Some? ==> destination.content == old(destination.content)
    ensures r.Err? && Validate(c, blockSize).None? ==>
              var input := old(InputOf(source, destination));
              var count: nat := |input| / blockSize;
              exists k: nat :: FirstRefused(c, blockSize, count, |input|, k)
                               && destination.content == Scattering(c, blockSize, count, input, k)
  {
    hide PermutedBlocks, Zeros, TargetOf, WalksTo, Overwrite, Targeted, Scattering, BlockMoved, FirstRefused;
    var size := |source.content|;
    var refused := Validate(c, blockSize);
    if refused.Some? {
      return Err(refused.value);
    }
    ghost var input := InputOf(source, destination);
    CountHolds(blockSize, size);
    var blockCount: nat := size / blockSize;
    OffsetIsProduct(blockCount, blockSize);
    var fullLen := blockCount * blockSize;

    destination.OpenForWriting();
    destination.Truncate(size);
    assert source.content == input;
    ScatteringStarts(c, blockSize, blockCount, input);
    for sourceIndex := 0 to blockCount
      invariant source.content == input && |destination.content| == size
      invariant Targeted(c, blockSize, blockCount, size, sourceIndex)
      invariant destination.content == Scattering(c, blockSize, blockCount, input, sourceIndex)
    {
      var target := PermutedIndex(sourceIndex, blockCount, c);
      if target.Err? {
        RefusalOf(c, blockCount, sourceIndex);
        IsFirstRefused(c, blockSize, blockCount, size, sourceIndex);
        return Err(target.error);
      }
      Positions(c, blockCount, blockSize, size, sourceIndex);
      var src := sourceIndex * blockSize;
      var dst := target.value * blockSize;
      var block := source.PRead(blockSize, src);
      ScatteringFurther(c, blockSize, blockCount, input, sourceIndex);
      if source == destination {
        ZerosStay(input, src, dst, blockSize);
      }
      destination.PWrite(block, dst);
    }
    ScatteringMoves(c, blockSize, blockCount, input, blockCount);
    AllMovedAllExist(c, blockSize, blockCount, input, destination.content);
    ScatterTail(c, blockSize, blockCount, input, destination.content);
    CopyTail(source, destination, input, fullLen, size);
    return Ok(size);
  }

  method RestoreFile(source: File, destination: File, c: Keying, blockSize: int) returns (r: Result<nat, KrpError>)
    modifies destination
    ensures r.Ok? <==> Refusal(c, blockSize, |old(source.content)|).None?
    ensures r.Err? ==> Refusal(c, blockSize, |old(source.content)|) == Some(r.error)
    ensures r.Ok? ==> r.value == |old(source.content)|
    ensures r.Ok? ==> Permuted(c, blockSize, destination.content, old(InputOf(source, destination)))
    ensures Validate(c, blockSize).Some? ==> destination.content == old(destination.content)
    ensures r.Err? && Validate(c, blockSize).None? ==>
              var input := old(InputOf(source, destination));
              var count: nat := |input| / blockSize;
              exists k: nat :: FirstRefused(c, blockSize, count, |input|, k)
                               && destination.content == Gathering(c, blockSize, count, input, k)
  {
    hide PermutedBlocks, Zeros, TargetOf, WalksTo, Overwrite, Targeted, Gathering, BlockMoved, FirstRefused;
    var size := |source.content|;
    var refused := Validate(c, blockSize);
    if refused.Some? {
      return Err(refused.value);
    }
    ghost var input := InputOf(source, destination);
    CountHolds(blockSize, size);
    var blockCount: nat := size / blockSize;
    OffsetIsProduct(blockCount, blockSize);
    var fullLen := blockCount * blockSize;

    destination.OpenForWriting();
    destination.Truncate(size);
    assert source.content == input;
    GatheringStarts(c, blockSize, blockCount, input);
    for originalIndex := 0 to blockCount
      invariant source.content == input && |destination.content| == size
      invariant Targeted(c, blockSize, blockCount, size, originalIndex)
      invariant destination.content == Gathering(c, blockSize, blockCount, input, originalIndex)
    {
      var permuted := PermutedIndex(originalIndex, blockCount, c);
      if permuted.Err? {
        RefusalOf(c, blockCount, originalIndex);
        IsFirstRefused(c, blockSize, blockCount, size, originalIndex);
        return Err(permuted.error);
      }
      Positions(c, blockCount, blockSize, size, originalIndex);
      var src := permuted.value * blockSize;
      var dst := originalIndex * blockSize;
      var block := source.PRead(blockSize, src);
      GatheringFurther(c, blockSize, blockCount, input, originalIndex);
      if source == destination {
        ZerosStay(input, src, dst, blockSize);
      }
      destination.PWrite(block, dst);
    }
    GatheringMoves(c, blockSize, blockCount, input, blockCount);
    AllMovedAllExist(c, blockSize, blockCount, destination.content, input);
    GatherTail(c, blockSize, blockCount, input, destination.content);
    CopyTail(source, destination, input, fullLen, size);
    return Ok(size);
  }

  /** Zeros permute to zeros only, and only from zeros. */
  lemma ZerosPermuteToZeros(c: Keying, size: nat, raw: seq<byte>, wire: seq<byte>)
    requires size > 0 && Permuted(c, size, raw, wire)
    ensures raw == Zeros(|raw|) <==> wire == Zeros(|wire|)
  {
    var count: nat := |raw| / size;
    var zeros := Zeros(|raw|);
    forall i: nat | i < count ensures BlockMoved(c, size, count, zeros, zeros, i) {
      assert BlockMoved(c, size, count, raw, wire, i);
    }
    assert Permuted(c, size, zeros, zeros);
    if raw == zeros {
      PermuteInvertsRestore(c, size, zeros, zeros, wire);
    }
    if wire == zeros {
      RestoreInvertsPermute(c, size, zeros, zeros, raw);
    }
  }

  /**
   Restoring a permuted copy gives back the bytes of the source, also into the source itself.  A copy
   permuted onto its own source, or restored onto itself, is lost: only zeros of the same size are left.
   */
  method RoundTripFile(source: File, carrier: File, destination: File, c: Keying, blockSize: int)
    returns (r: Result<nat, KrpError>)
    modifies carrier, destination
    ensures r.Ok? <==> Refusal(c, blockSize, |old(source.content)|).None?
    ensures r.Ok? ==>
              destination.content == if source == carrier || carrier == destination then Zeros(|old(source.content)|)
                                             else old(source.content)
  {
    ghost var original := source.content;
    ghost var input := InputOf(source, carrier);
    r := PermuteFile(source, carrier, c, blockSize);
    if r.Ok? {
      ghost var wire := carrier.content;
      SameRefusal(c, blockSize, input, wire);
      ZerosPermuteToZeros(c, blockSize, input, wire);
      ghost var copy := InputOf(carrier, destination);
      r := RestoreFile(carrier, destination, c, blockSize);
      ZerosPermuteToZeros(c, blockSize, destination.content, copy);
      if source != carrier && carrier != destination {
        RestoreInvertsPermute(c, blockSize, original, wire, destination.content);
      }
    }
  }
}
