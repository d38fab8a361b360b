/** Re-reading the evidence: block digests against the manifest, stored records against the evidence. */
module Verification {
  import opened Wrappers
  import opened Bytes
  import opened Source
  import opened Chunking
  import opened Acquisition
  import opened Records
  import Hex

  type Manifest = AcquisitionResult

  datatype BlockDiscrepancy = BlockDiscrepancy(
    blockIndex: nat, byteOffset: nat, expectedHash: string, actualHash: string)

  datatype DbIssue = HashDiffers(recorded: string, actual: string) | BeyondEvidence

  datatype DbDiscrepancy = DbDiscrepancy(blockIndex: nat, byteOffset: nat, issue: DbIssue)

  /** The case database: absent, present but not readable, or a list of records. */
  datatype Database = NoDatabase | Unreadable | Stored(records: seq<ExtractedRecord>)

  datatype IntegrityReport = IntegrityReport(
    sha256Match: bool,
    actualSha256: string,
    md5Match: bool,
    actualMd5: string,
    totalBlocks: nat,
    matchedBlocks: nat,
    blockDiscrepancies: seq<BlockDiscrepancy>,
    dbChecked: bool,
    dbDiscrepancies: seq<DbDiscrepancy>,
    isPristine: bool)

  // ----- Specification -----

  /** The blocks that are read back: those of the plain cut, but no more than the manifest counts. */
  function BlocksRead(image: seq<byte>, blockSize: nat, blockCount: nat): seq<seq<byte>> {
    if blockSize == 0 then []
    else
      var chunks := Chunks(image, blockSize);
      chunks[..Min(|chunks|, blockCount)]
  }

  function DiscrepanciesBelow(actual: seq<string>, expected: seq<string>, blockSize: nat, n: nat)
    : seq<BlockDiscrepancy>
    requires n <= |actual|
  {
    if n == 0 then []
    else
      DiscrepanciesBelow(actual, expected, blockSize, n - 1)
      + if n - 1 < |expected| && actual[n - 1] != expected[n - 1]
        then [BlockDiscrepancy(n - 1, (n - 1) * blockSize, expected[n - 1], actual[n - 1])] else []
  }

  function DbIssueOf(r: ExtractedRecord, actual: seq<string>): seq<DbDiscrepancy> {
    if r.blockIndex >= |actual| then [DbDiscrepancy(r.blockIndex, r.byteOffset, BeyondEvidence)]
    else if r.blake3Hash != actual[r.blockIndex]
    then [DbDiscrepancy(r.blockIndex, r.byteOffset, HashDiffers(r.blake3Hash, actual[r.blockIndex]))]
    else []
  }

  function DbDiscrepanciesBelow(records: seq<ExtractedRecord>, actual: seq<string>, n: nat): seq<DbDiscrepancy>
    requires n <= |records|
  {
    if n == 0 then [] else DbDiscrepanciesBelow(records, actual, n - 1) + DbIssueOf(records[n - 1], actual)
  }

  function DbDiscrepancies(db: Database, actual: seq<string>): seq<DbDiscrepancy> {
    if db.Stored? then DbDiscrepanciesBelow(db.records, actual, |db.records|) else []
  }

  function SaturatingSub(a: nat, b: nat): nat {
    if a < b then 0 else a - b
  }

  function ReportOn(
    bytesRead: seq<byte>, actual: seq<string>, m: Manifest, db: Database, algorithms: Algorithms)
    : IntegrityReport
  {
    var sha256 := HexDigest(algorithms.sha256, bytesRead);
    var md5 := HexDigest(algorithms.md5, bytesRead);
    var blocks := DiscrepanciesBelow(actual, m.blockHashes, m.blockSize, |actual|);
    var rows := DbDiscrepancies(db, actual);
    var sha256Match := Hex.EqualIgnoringCase(sha256, m.wholeImageSha256);
    var md5Match := Hex.EqualIgnoringCase(md5, m.wholeImageMd5);
    IntegrityReport(
      sha256Match, sha256, md5Match, md5,
      m.blockCount, SaturatingSub(m.blockCount, |blocks|), blocks,
      !db.NoDatabase?, rows,
      sha256Match && md5Match && blocks == [] && rows == [])
  }

  function Verify(image: seq<byte>, m: Manifest, db: Database, algorithms: Algorithms): IntegrityReport {
    var blocks := BlocksRead(image, m.blockSize, m.blockCount);
    ReportOn(Flatten(blocks), HashAll(algorithms.blake3, blocks), m, db, algorithms)
  }

  // ----- The code -----

  /** The prefix that ends at `pos` has been cut into exactly `k` blocks. */
  ghost predicate CutInto(image: seq<byte>, pos: nat, size: nat, k: nat) {
    && size > 0 && pos <= |image|
    && |Chunks(image[..pos], size)| == k
    && (pos == k * size || pos == |image|)
  }

  lemma NextBlock(image: seq<byte>, pos: nat, size: nat, k: nat, n: nat)
    requires CutInto(image, pos, size, k) && pos == k * size && pos < |image|
    requires n == Min(size, |image| - pos)
    ensures CutInto(image, pos + n, size, k + 1)
    ensures Chunks(image[..pos + n], size) == Chunks(image[..pos], size) + [image[pos..pos + n]]
  {
    var block := image[pos..pos + n];
    assert image[..pos + n] == image[..pos] + block;
    ChunksAppend(image[..pos], block, size, k);
    assert (k + 1) * size == k * size + size;
  }

  lemma CutIsPrefix(image: seq<byte>, pos: nat, size: nat, k: nat)
    requires CutInto(image, pos, size, k)
    ensures k <= |Chunks(image, size)|
    ensures Chunks(image[..pos], size) == Chunks(image, size)[..k]
    ensures pos == |image| ==> k == |Chunks(image, size)|
  {
    if pos == |image| {
      assert image[..pos] == image;
    } else {
      assert image == image[..pos] + image[pos..];
      ChunksAppend(image[..pos], image[pos..], size, k);
    }
  }

  lemma DiscrepanciesExtend(actual: seq<string>, hash: string, expected: seq<string>, blockSize: nat)
    ensures DiscrepanciesBelow(actual + [hash], expected, blockSize, |actual| + 1) ==
            DiscrepanciesBelow(actual, expected, blockSize, |actual|)
            + if |actual| < |expected| && hash != expected[|actual|]
              then [BlockDiscrepancy(|actual|, |actual| * blockSize, expected[|actual|], hash)] else []
  {
    DiscrepanciesPrefix(actual, [hash], expected, blockSize, |actual|);
  }

  lemma {:induction false} DiscrepanciesPrefix(
    actual: seq<string>, more: seq<string>, expected: seq<string>, blockSize: nat, n: nat)
    requires n <= |actual|
    ensures DiscrepanciesBelow(actual + more, expected, blockSize, n) ==
            DiscrepanciesBelow(actual, expected, blockSize, n)
  {
    if n > 0 {
      DiscrepanciesPrefix(actual, more, expected, blockSize, n - 1);
    }
  }

  /** What the block loop has done when `k` blocks, ending at `pos`, are behind it. */
  ghost predicate Checked(
    image: seq<byte>, m: Manifest, blake3: Digest, pos: nat, k: nat,
    consumed: seq<byte>, actual: seq<string>, discrepancies: seq<BlockDiscrepancy>)
  {
    && pos <= |image| && consumed == image[..pos]
    && |actual| == k <= m.blockCount
    && discrepancies == DiscrepanciesBelow(actual, m.blockHashes, m.blockSize, k)
    && (if m.blockSize == 0 then k == 0 && pos == 0
        else CutInto(image, pos, m.blockSize, k) && actual == HashAll(blake3, Chunks(consumed, m.blockSize)))
  }

  lemma CheckedStart(image: seq<byte>, m: Manifest, blake3: Digest)
    ensures Checked(image, m, blake3, 0, 0, [], [], [])
  {
  }

  lemma CheckedNext(
    image: seq<byte>, m: Manifest, blake3: Digest, pos: nat, k: nat,
    consumed: seq<byte>, actual: seq<string>, discrepancies: seq<BlockDiscrepancy>, n: nat)
    requires Checked(image, m, blake3, pos, k, consumed, actual, discrepancies)
    requires k < m.blockCount && 0 < n == Min(m.blockSize, |image| - pos)
    ensures var slice := image[pos..pos + n];
            var hash := HexDigest(blake3, slice);
            && pos == k * m.blockSize
            && Checked(image, m, blake3, pos + n, k + 1, consumed + slice, actual + [hash],
                       discrepancies
                       + if k < |m.blockHashes| && hash != m.blockHashes[k]
                         then [BlockDiscrepancy(k, pos, m.blockHashes[k], hash)] else [])
  {
    var slice := image[pos..pos + n];
    NextBlock(image, pos, m.blockSize, k, n);
    HashAllAppend(blake3, Chunks(consumed, m.blockSize), [slice]);
    DiscrepanciesExtend(actual, HexDigest(blake3, slice), m.blockHashes, m.blockSize);
    assert image[..pos + n] == consumed + slice;
  }

  lemma CheckedDone(
    image: seq<byte>, m: Manifest, blake3: Digest, pos: nat, k: nat,
    consumed: seq<byte>, actual: seq<string>, discrepancies: seq<BlockDiscrepancy>)
    requires Checked(image, m, blake3, pos, k, consumed, actual, discrepancies)
    requires k == m.blockCount || Min(m.blockSize, |image| - pos) == 0
    ensures var blocks := BlocksRead(image, m.blockSize, m.blockCount);
            consumed == Flatten(blocks) && actual == HashAll(blake3, blocks)
  {
    if m.blockSize > 0 {
      CutIsPrefix(image, pos, m.blockSize, k);
      ChunksCover(consumed, m.blockSize);
    }
  }

  /** The block loop: reads, hashes and compares block after block. */
  method CheckBlocks(source: ReadOnlySource, m: Manifest, algorithms: Algorithms)
    returns (failed: bool, consumed: seq<byte>, actualHashes: seq<string>, discrepancies: seq<BlockDiscrepancy>)
    requires source.pos == 0 && !source.failed
    modifies source
    ensures failed == source.failed
    ensures !failed ==>
              var blocks := BlocksRead(source.content, m.blockSize, m.blockCount);
              && consumed == Flatten(blocks)
              && actualHashes == HashAll(algorithms.blake3, blocks)
              && discrepancies == DiscrepanciesBelow(actualHashes, m.blockHashes, m.blockSize, |actualHashes|)
  {
    hide Chunks, Flatten, HashAll, DiscrepanciesBelow, HexDigest;
    var buffer := new byte[m.blockSize](_ => 0);
    failed, consumed, actualHashes, discrepancies := false, [], [], [];
    CheckedStart(source.content, m, algorithms.blake3);
    var blockIndex, currentOffset := 0, 0;
    while blockIndex < m.blockCount
      invariant currentOffset == source.pos && !source.failed
      invariant Checked(source.content, m, algorithms.blake3, source.pos, blockIndex,
                        consumed, actualHashes, discrepancies)
    {
      ghost var before := source.pos;
      var readBytes, readFailed := Fill(source, buffer);
      if readFailed {
        failed := true;
        return;
      }
      if readBytes == 0 {
        break;
      }
      var slice := buffer[..readBytes];
      CheckedNext(source.content, m, algorithms.blake3, before, blockIndex,
                  consumed, actualHashes, discrepancies, readBytes);
      consumed := consumed + slice;
      var actualHash := HexDigest(algorithms.blake3, slice);
      actualHashes := actualHashes + [actualHash];
      if blockIndex < |m.blockHashes| {
        var expectedHash := m.blockHashes[blockIndex];
        if actualHash != expectedHash {
          discrepancies := discrepancies + [BlockDiscrepancy(blockIndex, currentOffset, expectedHash, actualHash)];
        }
      }
      currentOffset := currentOffset + readBytes;
      blockIndex := blockIndex + 1;
    }
    CheckedDone(source.content, m, algorithms.blake3, source.pos, blockIndex,
                consumed, actualHashes, discrepancies);
  }

  method CheckRecords(db: Database, actualHashes: seq<string>) returns (discrepancies: seq<DbDiscrepancy>)
    ensures discrepancies == DbDiscrepancies(db, actualHashes)
  {
    discrepancies := [];
    if !db.Stored? {
      return;
    }
    for i := 0 to |db.records|
      invariant discrepancies == DbDiscrepanciesBelow(db.records, actualHashes, i)
    {
      var r := db.records[i];
      if r.blockIndex < |actualHashes| {
        var diskHash := actualHashes[r.blockIndex];
        if r.blake3Hash != diskHash {
          discrepancies := discrepancies
          + [DbDiscrepancy(r.blockIndex, r.byteOffset, HashDiffers(r.blake3Hash, diskHash))];
        }
      } else {
        discrepancies := discrepancies + [DbDiscrepancy(r.blockIndex, r.byteOffset, BeyondEvidence)];
      }
    }
  }

  /** For every pattern of short reads, the report is that of the plain cut of the image. */
  method VerifyCaseIntegrity(source: ReadOnlySource, m: Manifest, db: Database, algorithms: Algorithms)
    returns (r: Result<IntegrityReport, ReadResult>)
    requires source.pos == 0 && !source.failed
    modifies source
    ensures source.failed ==> r == Failure(ReadFailed)
    ensures !source.failed ==> r == Success(Verify(source.content, m, db, algorithms))
  {
    var failed, consumed, actualHashes, blockDiscrepancies := CheckBlocks(source, m, algorithms);
    if failed {
      return Failure(ReadFailed);
    }
    var actualSha256 := Hex.Encode(algorithms.sha256(consumed));
    var actualMd5 := Hex.Encode(algorithms.md5(consumed));
    var sha256Match := Hex.EqualIgnoringCase(actualSha256, m.wholeImageSha256);
    var md5Match := Hex.EqualIgnoringCase(actualMd5, m.wholeImageMd5);
    var matchedBlocks := SaturatingSub(m.blockCount, |blockDiscrepancies|);
    var dbDiscrepancies := CheckRecords(db, actualHashes);
    var isPristine := sha256Match && md5Match && blockDiscrepancies == [] && dbDiscrepancies == [];
    return Success(IntegrityReport(
      sha256Match, actualSha256, md5Match, actualMd5,
      m.blockCount, matchedBlocks, blockDiscrepancies,
      !db.NoDatabase?, dbDiscrepancies, isPristine));
  }
}
