/** Streaming acquisition: batches of blocks, one running digest of the image, one digest per block. */
module Acquisition {
  import opened Wrappers
  import opened Bytes
  import opened Arithmetic
  import opened Source
  import opened Chunking
  import Hex

  /** A digest algorithm, as a function of all the bytes it was fed. */
  type Digest = seq<byte> -> seq<byte>

  datatype Algorithms = Algorithms(blake3: Digest, md5: Digest, sha256: Digest)

  const DEFAULT_BATCH_BLOCKS := 64

  datatype StreamOptions = StreamOptions(blockSize: nat, batchSize: nat)

  datatype AcquisitionError = InvalidBlockSize | ReadError(offset: nat)

  datatype AcquisitionResult = AcquisitionResult(
    totalBytes: nat,
    blockSize: nat,
    blockCount: nat,
    wholeImageSha256: string,
    wholeImageMd5: string,
    blockHashes: seq<string>,
    blockHashesMd5: seq<string>)

  function HexDigest(h: Digest, data: seq<byte>): string {
    Hex.Encode(h(data))
  }

  function HashAll(h: Digest, chunks: seq<seq<byte>>): seq<string> {
    seq(|chunks|, i requires 0 <= i < |chunks| => HexDigest(h, chunks[i]))
  }

  /** The simple reader: cut the whole image, hash every block, hash the image. */
  function Acquire(image: seq<byte>, blockSize: nat, algorithms: Algorithms): AcquisitionResult
    requires blockSize > 0
  {
    var chunks := Chunks(image, blockSize);
    AcquisitionResult(
      |image|, blockSize, |chunks|,
      HexDigest(algorithms.sha256, image), HexDigest(algorithms.md5, image),
      HashAll(algorithms.blake3, chunks), HashAll(algorithms.md5, chunks))
  }

  lemma HashAllAppend(h: Digest, a: seq<seq<byte>>, b: seq<seq<byte>>)
    ensures HashAll(h, a + b) == HashAll(h, a) + HashAll(h, b)
  {
  }

  /** The digest state of one hasher, fed chunk after chunk. */
  method UpdateHasher(state: seq<byte>, chunks: seq<seq<byte>>) returns (fed: seq<byte>)
    ensures fed == state + Flatten(chunks)
  {
    fed := state;
    for i := 0 to |chunks|
      invariant fed == state + Flatten(chunks[..i])
    {
      assert chunks[..i + 1][..i] == chunks[..i];
      fed := fed + chunks[i];
    }
    assert chunks[..|chunks|] == chunks;
  }

  /** What the loop has done when it has consumed the prefix `done` of the image. */
  ghost predicate Progress(
    done: seq<byte>, blockSize: nat, algorithms: Algorithms,
    sha256State: seq<byte>, md5State: seq<byte>, hashes: seq<string>, hashesMd5: seq<string>)
  {
    && blockSize > 0
    && sha256State == done && md5State == done
    && hashes == HashAll(algorithms.blake3, Chunks(done, blockSize))
    && hashesMd5 == HashAll(algorithms.md5, Chunks(done, blockSize))
  }

  /** One pass of the loop body over the bytes of a batch. */
  method HashBatch(
    ghost done: seq<byte>, ghost k: nat, validData: seq<byte>, blockSize: nat, algorithms: Algorithms,
    sha256State: seq<byte>, md5State: seq<byte>, hashes: seq<string>, hashesMd5: seq<string>)
    returns (sha256Next: seq<byte>, md5Next: seq<byte>, hashesNext: seq<string>, hashesMd5Next: seq<string>)
    requires Progress(done, blockSize, algorithms, sha256State, md5State, hashes, hashesMd5)
    requires |done| == k * blockSize
    ensures Progress(done + validData, blockSize, algorithms, sha256Next, md5Next, hashesNext, hashesMd5Next)
  {
    hide Chunks;
    var chunks := Chunks(validData, blockSize);
    ChunksCover(validData, blockSize);
    ChunksAppend(done, validData, blockSize, k);
    sha256Next := UpdateHasher(sha256State, chunks);
    md5Next := UpdateHasher(md5State, chunks);
    var batchHashes :=
      seq(|chunks|, i requires 0 <= i < |chunks| =>
        (HexDigest(algorithms.blake3, chunks[i]), HexDigest(algorithms.md5, chunks[i])));
    hashesNext, hashesMd5Next := hashes, hashesMd5;
    for i := 0 to |batchHashes|
      invariant hashesNext == hashes + HashAll(algorithms.blake3, chunks)[..i]
      invariant hashesMd5Next == hashesMd5 + HashAll(algorithms.md5, chunks)[..i]
    {
      hashesNext := hashesNext + [batchHashes[i].0];
      hashesMd5Next := hashesMd5Next + [batchHashes[i].1];
    }
    assert hashesNext == hashes + HashAll(algorithms.blake3, chunks);
    assert hashesMd5Next == hashesMd5 + HashAll(algorithms.md5, chunks);
    hide HashAll;
    HashAllAppend(algorithms.blake3, Chunks(done, blockSize), chunks);
    HashAllAppend(algorithms.md5, Chunks(done, blockSize), chunks);
  }

  /**
   * For every block size, every batch size and every pattern of short reads, the result is that of
   * the simple reader; an error carries the number of bytes that had been read.
   */
  method StreamAndHash(source: ReadOnlySource, options: StreamOptions, algorithms: Algorithms)
    returns (r: Result<AcquisitionResult, AcquisitionError>)
    requires source.pos == 0 && !source.failed
    modifies source
    ensures options.blockSize == 0 <==> r == Failure(InvalidBlockSize)
    ensures r.Success? ==> r.value == Acquire(source.content, options.blockSize, algorithms)
    ensures r.Success? ==> source.pos == |source.content|
    ensures source.failed <==> r.Failure? && r.error.ReadError?
    ensures source.failed ==> r.error.offset == source.pos <= |source.content|
  {
    if options.blockSize == 0 {
      return Failure(InvalidBlockSize);
    }
    var blockSize := options.blockSize;
    var batchSize := if options.batchSize == 0 then DEFAULT_BATCH_BLOCKS else options.batchSize;
    var batchCapacity := batchSize * blockSize;
    MultiplyMonotone(1, batchSize, blockSize);
    var rawBuffer := new byte[batchCapacity](_ => 0);
    var sha256State, md5State: seq<byte> := [], [];
    var hashes, hashesMd5: seq<string> := [], [];
    var totalBytes, currentOffset := 0, 0;
    ghost var k := 0;
    var atEnd := false;
    while !atEnd
      invariant totalBytes == currentOffset == source.pos <= |source.content| && !source.failed
      invariant Progress(source.content[..source.pos], blockSize, algorithms, sha256State, md5State, hashes, hashesMd5)
      invariant if atEnd then source.pos == |source.content| else source.pos == k * blockSize
      decreases !atEnd, |source.content| - source.pos
    {
      ghost var before := source.pos;
      var bytesInBatch, failed := Fill(source, rawBuffer);
      if failed {
        return Failure(ReadError(currentOffset + bytesInBatch));
      }
      if bytesInBatch == 0 {
        atEnd := true;
        break;
      }
      var validData := rawBuffer[..bytesInBatch];
      assert source.content[..source.pos] == source.content[..before] + validData;
      sha256State, md5State, hashes, hashesMd5 := HashBatch(
        source.content[..before], k, validData, blockSize, algorithms, sha256State, md5State, hashes, hashesMd5);
      totalBytes := totalBytes + bytesInBatch;
      currentOffset := currentOffset + bytesInBatch;
      if bytesInBatch < batchCapacity {
        atEnd := true;
        break;
      }
      assert (k + batchSize) * blockSize == k * blockSize + batchSize * blockSize;
      k := k + batchSize;
    }
    assert source.content[..source.pos] == source.content;
    return Success(AcquisitionResult(
      totalBytes, blockSize, |hashes|,
      Hex.Encode(algorithms.sha256(sha256State)), Hex.Encode(algorithms.md5(md5State)),
      hashes, hashesMd5));
  }

  /** What the manifest says of an image: its length, its block count, and the digest of each block. */
  lemma AcquiredBlocks(image: seq<byte>, blockSize: nat, algorithms: Algorithms, i: nat)
    requires blockSize > 0
    ensures var r := Acquire(image, blockSize, algorithms);
            && r.totalBytes == |image|
            && r.blockCount == |r.blockHashes| == |r.blockHashesMd5| == BlockCount(|image|, blockSize)
            && (i < r.blockCount ==>
                  && i * blockSize < |image|
                  && r.blockHashes[i] ==
                     HexDigest(algorithms.blake3, image[i * blockSize..Min(i * blockSize + blockSize, |image|)])
                  && r.blockHashesMd5[i] ==
                     HexDigest(algorithms.md5, image[i * blockSize..Min(i * blockSize + blockSize, |image|)]))
  {
    ChunkCount(image, blockSize);
    if i < |Chunks(image, blockSize)| {
      ChunkAt(image, blockSize, i);
    }
  }
}
