/** What the entries of an integrity report say, field by field. */
module ReportContents {
  import opened Bytes
  import opened Source
  import opened Chunking
  import opened Acquisition
  import opened Records
  import opened Verification
  import opened TamperLocalisation
  import Hex

  // ----- Block discrepancies -----

  lemma {:induction false} EntriesSayDigests(actual: seq<string>, expected: seq<string>, blockSize: nat, n: nat, k: nat)
    requires n <= |actual| && k < |DiscrepanciesBelow(actual, expected, blockSize, n)|
    ensures var d := DiscrepanciesBelow(actual, expected, blockSize, n)[k];
            && d.blockIndex < n && d.blockIndex < |expected|
            && d.byteOffset == d.blockIndex * blockSize
            && d.expectedHash == expected[d.blockIndex] && d.actualHash == actual[d.blockIndex]
  {
    if k < |DiscrepanciesBelow(actual, expected, blockSize, n - 1)| {
      EntriesSayDigests(actual, expected, blockSize, n - 1, k);
    }
  }

  /**
   * Each listed block is named with the digest that was acquired as the expected one and the digest
   * of what is there now as the actual one.
   */
  lemma DiscrepancyContents(
    original: seq<byte>, now: seq<byte>, size: nat, db: Database, algorithms: Algorithms, k: nat)
    requires size > 0
    requires k < |Verify(now, Acquire(original, size, algorithms), db, algorithms).blockDiscrepancies|
    ensures var d := Verify(now, Acquire(original, size, algorithms), db, algorithms).blockDiscrepancies[k];
            var before, after := Chunks(original, size), Chunks(now, size);
            && d.blockIndex < |before| && d.blockIndex < |after|
            && d.byteOffset == d.blockIndex * size
            && d.expectedHash == HexDigest(algorithms.blake3, before[d.blockIndex])
            && d.actualHash == HexDigest(algorithms.blake3, after[d.blockIndex])
  {
    hide Chunks, Verify;
    ReportOnBlocks(original, now, size, db, algorithms);
    var before, after := Chunks(original, size), Chunks(now, size);
    var n := Min(|after|, |before|);
    EntriesSayDigests(HashAll(algorithms.blake3, after[..n]), HashAll(algorithms.blake3, before), size, n, k);
  }

  // ----- Record discrepancies -----

  /** A stored record is at fault: its block does not exist, or has another digest. */
  predicate AtFault(r: ExtractedRecord, actual: seq<string>) {
    r.blockIndex >= |actual| || r.blake3Hash != actual[r.blockIndex]
  }

  /** The entry names the record's block and place, and what was recorded against what is there. */
  predicate Names(d: DbDiscrepancy, r: ExtractedRecord, actual: seq<string>) {
    && d.blockIndex == r.blockIndex && d.byteOffset == r.byteOffset
    && (r.blockIndex >= |actual| ==> d.issue == BeyondEvidence)
    && (r.blockIndex < |actual| ==>
          d.issue.HashDiffers? && d.issue.recorded == r.blake3Hash && d.issue.actual == actual[r.blockIndex])
  }

  /** The positions of the records at fault, in order. */
  function FaultsBelow(records: seq<ExtractedRecord>, actual: seq<string>, n: nat): seq<nat>
    requires n <= |records|
  {
    if n == 0 then []
    else FaultsBelow(records, actual, n - 1) + if AtFault(records[n - 1], actual) then [n - 1] else []
  }

  lemma {:induction false} FaultsExact(records: seq<ExtractedRecord>, actual: seq<string>, n: nat)
    requires n <= |records|
    ensures var ks := FaultsBelow(records, actual, n);
            && (forall k: nat :: k in ks <==> k < n && AtFault(records[k], actual))
            && (forall i, j :: 0 <= i < j < |ks| ==> ks[i] < ks[j])
  {
    hide AtFault;
    if n > 0 {
      FaultsExact(records, actual, n - 1);
      var before := FaultsBelow(records, actual, n - 1);
      forall i | 0 <= i < |before|
        ensures before[i] < n - 1
      {
        assert before[i] in before;
      }
    }
  }

  lemma IssueNames(r: ExtractedRecord, actual: seq<string>)
    ensures |DbIssueOf(r, actual)| == if AtFault(r, actual) then 1 else 0
    ensures AtFault(r, actual) ==> Names(DbIssueOf(r, actual)[0], r, actual)
  {
  }

  lemma {:induction false} DbEntriesBelow(records: seq<ExtractedRecord>, actual: seq<string>, n: nat)
    requires n <= |records|
    ensures var ks, ds := FaultsBelow(records, actual, n), DbDiscrepanciesBelow(records, actual, n);
            && |ds| == |ks|
            && forall i :: 0 <= i < |ks| ==> ks[i] < |records| && Names(ds[i], records[ks[i]], actual)
  {
    hide Names, AtFault;
    if n > 0 {
      DbEntriesBelow(records, actual, n - 1);
      IssueNames(records[n - 1], actual);
    }
  }

  /** The cross-check has exactly one entry per record at fault, in the order of the records. */
  lemma DbEntriesExactly(records: seq<ExtractedRecord>, actual: seq<string>) returns (ks: seq<nat>)
    ensures forall k: nat :: k in ks <==> k < |records| && AtFault(records[k], actual)
    ensures forall i, j :: 0 <= i < j < |ks| ==> ks[i] < ks[j]
    ensures var ds := DbDiscrepancies(Stored(records), actual);
            && |ds| == |ks|
            && forall i :: 0 <= i < |ks| ==> ks[i] < |records| && Names(ds[i], records[ks[i]], actual)
  {
    ks := FaultsBelow(records, actual, |records|);
    FaultsExact(records, actual, |records|);
    DbEntriesBelow(records, actual, |records|);
  }

  // ----- The verdict -----

  /**
   * The digests that are reported are those of the bytes read back, and the verdict is pristine if
   * and only if both agree with the acquired ones and neither list has an entry.
   */
  lemma VerdictExactly(original: seq<byte>, now: seq<byte>, size: nat, db: Database, algorithms: Algorithms)
    requires size > 0
    ensures var report := Verify(now, Acquire(original, size, algorithms), db, algorithms);
            var read := now[..Min(|now|, BlockCount(|original|, size) * size)];
            && report.actualSha256 == Hex.Encode(algorithms.sha256(read))
            && report.actualMd5 == Hex.Encode(algorithms.md5(read))
            && (report.sha256Match <==> algorithms.sha256(read) == algorithms.sha256(original))
            && (report.md5Match <==> algorithms.md5(read) == algorithms.md5(original))
            && (report.dbChecked <==> db != NoDatabase)
            && (report.isPristine <==>
                && algorithms.sha256(read) == algorithms.sha256(original)
                && algorithms.md5(read) == algorithms.md5(original)
                && report.blockDiscrepancies == [] && report.dbDiscrepancies == [])
  {
    hide Chunks, Hex.EqualIgnoringCase;
    var count := BlockCount(|original|, size);
    var read := now[..Min(|now|, count * size)];
    ChunkCount(original, size);
    BlocksReadCover(now, size, count);
    Hex.DigestsCompare(algorithms.sha256(read), algorithms.sha256(original));
    Hex.DigestsCompare(algorithms.md5(read), algorithms.md5(original));
  }
}
