/** The per-block driver against the blocks that the acquirer cut and hashed. */
module CarverDriver {
  import opened Bytes
  import opened Arithmetic
  import opened Chunking
  import opened Carver
  import opened CarverTiling

  /** What carving one chosen block means: the block as it was acquired, or as much of it as was read. */
  function CarveChunk(image: seq<byte>, blockSize: nat, index: nat, count: nat, blake3: Hash): seq<CarvedFrame>
    requires blockSize > 0
    requires index < |Chunks(image, blockSize)| ==> count <= |Chunks(image, blockSize)[index]|
  {
    var chunks := Chunks(image, blockSize);
    if index < |chunks| then Carve(chunks[index][..count], index * blockSize, blake3) else []
  }

  /** A read at block `index` delivers a nonempty prefix of that block, or nothing beyond the last block. */
  lemma ReadIsOfChunk(image: seq<byte>, blockSize: nat, index: nat, n: nat)
    requires blockSize > 0 && PossibleRead(image, blockSize, OffsetOf(index, blockSize), n)
    ensures var chunks := Chunks(image, blockSize);
            && (index < |chunks| ==>
                  && 0 < n <= |chunks[index]|
                  && index * blockSize + n <= |image|
                  && image[index * blockSize..index * blockSize + n] == chunks[index][..n])
            && (index >= |chunks| ==> n == 0)
  {
    hide Chunks;
    var chunks := Chunks(image, blockSize);
    ChunkCount(image, blockSize);
    if index < |chunks| {
      ChunkAt(image, blockSize, index);
      var start := index * blockSize;
      assert chunks[index][..n] == image[start..start + n];
    } else {
      DivisionLaw(|image|, blockSize);
      BeyondLast(|image|, blockSize, index);
    }
  }

  lemma BeyondLast(length: nat, size: nat, index: nat)
    requires size > 0 && index >= BlockCount(length, size)
    ensures index * size >= length
  {
    DivisionLaw(length, size);
    MultiplyMonotone(BlockCount(length, size), index, size);
    assert (length / size + 1) * size == length / size * size + size;
  }

  lemma CarveOneIsChunk(image: seq<byte>, blockSize: nat, index: nat, n: nat, blake3: Hash)
    requires blockSize > 0 && PossibleRead(image, blockSize, OffsetOf(index, blockSize), n)
    ensures index < |Chunks(image, blockSize)| ==> n <= |Chunks(image, blockSize)[index]|
    ensures CarveOne(image, OffsetOf(index, blockSize), n, blake3) == CarveChunk(image, blockSize, index, n, blake3)
  {
    hide Chunks, Carve;
    ReadIsOfChunk(image, blockSize, index, n);
  }

  /** How many bytes each read delivers of the block it was meant for. */
  ghost predicate CountsFit(image: seq<byte>, blockSize: nat, indices: seq<nat>, counts: seq<nat>)
    requires blockSize > 0
  {
    |counts| == |indices|
    && forall k :: 0 <= k < |indices| && indices[k] < |Chunks(image, blockSize)| ==>
                     0 < counts[k] <= |Chunks(image, blockSize)[indices[k]]|
  }

  ghost function CarveChunks(image: seq<byte>, blockSize: nat, indices: seq<nat>, counts: seq<nat>, blake3: Hash)
    : seq<CarvedFrame>
    requires blockSize > 0 && CountsFit(image, blockSize, indices, counts)
  {
    if indices == [] then []
    else
      var k := |indices| - 1;
      CarveChunks(image, blockSize, indices[..k], counts[..k], blake3)
      + CarveChunk(image, blockSize, indices[k], counts[k], blake3)
  }

  /**
   * The driver carves the blocks that were acquired: the result is, in the order of the indices, the
   * frames of each chosen block at its own offset, or of the part of the block that the read delivered.
   */
  lemma {:induction false} DriverCarvesChunks(
    image: seq<byte>, blockSize: nat, indices: seq<nat>, counts: seq<nat>, blake3: Hash)
    requires blockSize > 0 && PossibleReads(image, blockSize, indices, counts)
    ensures CountsFit(image, blockSize, indices, counts)
    ensures CarveBlocks(image, blockSize, indices, counts, blake3) ==
            CarveChunks(image, blockSize, indices, counts, blake3)
  {
    hide Chunks, CarveOne, CarveChunk;
    forall k | 0 <= k < |indices|
      ensures indices[k] < |Chunks(image, blockSize)| ==>
                0 < counts[k] <= |Chunks(image, blockSize)[indices[k]]|
    {
      ReadIsOfChunk(image, blockSize, indices[k], counts[k]);
    }
    if indices != [] {
      var k := |indices| - 1;
      DriverCarvesChunks(image, blockSize, indices[..k], counts[..k], blake3);
      CarveOneIsChunk(image, blockSize, indices[k], counts[k], blake3);
    }
  }

  /** A full read delivers the block whole. */
  predicate FullRead(image: seq<byte>, blockSize: nat, index: nat, count: nat)
    requires blockSize > 0
  {
    index < |Chunks(image, blockSize)| ==> count == |Chunks(image, blockSize)[index]|
  }

  /** With full reads, one chosen block gives exactly the frames of the acquired block. */
  lemma FullReadCarvesChunk(image: seq<byte>, blockSize: nat, index: nat, count: nat, blake3: Hash)
    requires blockSize > 0 && index < |Chunks(image, blockSize)| && FullRead(image, blockSize, index, count)
    ensures CarveChunk(image, blockSize, index, count, blake3) ==
            Carve(Chunks(image, blockSize)[index], index * blockSize, blake3)
  {
    hide Chunks, Carve;
    var chunk := Chunks(image, blockSize)[index];
    assert chunk[..count] == chunk;
  }

  /** The frames of the chosen blocks, each block as it was acquired. */
  ghost function CarveWholeChunks(image: seq<byte>, blockSize: nat, indices: seq<nat>, blake3: Hash): seq<CarvedFrame>
    requires blockSize > 0
  {
    if indices == [] then []
    else
      var k := |indices| - 1;
      var chunks := Chunks(image, blockSize);
      CarveWholeChunks(image, blockSize, indices[..k], blake3)
      + if indices[k] < |chunks| then Carve(chunks[indices[k]], indices[k] * blockSize, blake3) else []
  }

  /** With full reads the driver carves every chosen block whole. */
  lemma {:induction false} DriverOnFullReads(
    image: seq<byte>, blockSize: nat, indices: seq<nat>, counts: seq<nat>, blake3: Hash)
    requires blockSize > 0 && PossibleReads(image, blockSize, indices, counts)
    requires forall k :: 0 <= k < |indices| ==> FullRead(image, blockSize, indices[k], counts[k])
    ensures CarveBlocks(image, blockSize, indices, counts, blake3) ==
            CarveWholeChunks(image, blockSize, indices, blake3)
  {
    hide Chunks, CarveOne, Carve;
    if indices != [] {
      var k := |indices| - 1;
      DriverOnFullReads(image, blockSize, indices[..k], counts[..k], blake3);
      CarveOneIsChunk(image, blockSize, indices[k], counts[k], blake3);
      if indices[k] < |Chunks(image, blockSize)| {
        FullReadCarvesChunk(image, blockSize, indices[k], counts[k], blake3);
      }
    }
  }

  /** No frame crosses a block, with the block's place written out. */
  lemma FramesLieInChosenBlocks(
    image: seq<byte>, blockSize: nat, indices: seq<nat>, counts: seq<nat>, blake3: Hash, i: nat)
    returns (k: nat)
    requires blockSize > 0 && PossibleReads(image, blockSize, indices, counts)
    requires i < |CarveBlocks(image, blockSize, indices, counts, blake3)|
    ensures k < |indices| && indices[k] < |Chunks(image, blockSize)|
    ensures var f := CarveBlocks(image, blockSize, indices, counts, blake3)[i];
            && indices[k] * blockSize <= f.byteOffset
            && f.byteOffset + f.length <= indices[k] * blockSize + |Chunks(image, blockSize)[indices[k]]|
  {
    hide Chunks, Carve, CarveChunk;
    DriverCarvesChunks(image, blockSize, indices, counts, blake3);
    k := ChunkOfFrame(image, blockSize, indices, counts, blake3, i);
  }

  lemma {:induction false} ChunkOfFrame(
    image: seq<byte>, blockSize: nat, indices: seq<nat>, counts: seq<nat>, blake3: Hash, i: nat)
    returns (k: nat)
    requires blockSize > 0 && CountsFit(image, blockSize, indices, counts)
    requires i < |CarveChunks(image, blockSize, indices, counts, blake3)|
    ensures k < |indices| && indices[k] < |Chunks(image, blockSize)|
    ensures var f := CarveChunks(image, blockSize, indices, counts, blake3)[i];
            && indices[k] * blockSize <= f.byteOffset
            && f.byteOffset + f.length <= indices[k] * blockSize + |Chunks(image, blockSize)[indices[k]]|
  {
    hide Chunks, Carve;
    k := |indices| - 1;
    var before := CarveChunks(image, blockSize, indices[..k], counts[..k], blake3);
    if i < |before| {
      k := ChunkOfFrame(image, blockSize, indices[..k], counts[..k], blake3, i);
    } else {
      assert CarveChunk(image, blockSize, indices[k], counts[k], blake3) != [];
      CarveOrdered(Chunks(image, blockSize)[indices[k]][..counts[k]], indices[k] * blockSize, blake3);
    }
  }
}
