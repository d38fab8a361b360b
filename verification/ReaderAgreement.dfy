/** The acquirer, the parser and the verifier cut an image in the same way. */
module ReaderAgreement {
  import opened Wrappers
  import opened Bytes
  import opened Arithmetic
  import opened Chunking
  import opened Acquisition
  import opened Grammar
  import opened Records
  import opened Interpreter
  import opened Descrambler
  import opened Verification
  import opened CaseParser
  import opened TamperLocalisation

  // ----- When parsing succeeds -----

  predicate MagicIsValid(grammar: GrammarFile) {
    grammar.videoBlock.magic.ExpectedBytes().Success?
  }

  lemma ParseBlockSucceeds(
    grammar: GrammarFile, plugin: Option<Plugin>, blake3: Digest, index: nat, offset: nat, block: seq<byte>)
    ensures ParseBlock(grammar, plugin, blake3, index, offset, block).Success? <==>
            MagicIsValid(grammar) && |block| >= grammar.videoBlock.headerSize
    ensures var r := ParseBlock(grammar, plugin, blake3, index, offset, block);
            r.Success? ==>
              && r.value.blockIndex == index && r.value.byteOffset == offset
              && r.value.blake3Hash == HexDigest(blake3, block)
  {
    hide InterpretBlock, HexDigest;
    RecordKeepsProvenance(grammar, index, offset, block, HexDigest(blake3, block));
  }

  /** One record per block, carrying the block's index, offset and digest. */
  ghost predicate RecordsOf(records: seq<ExtractedRecord>, blocks: seq<seq<byte>>, blockSize: nat, blake3: Digest) {
    && |records| == |blocks|
    && forall i :: 0 <= i < |records| ==>
                     && records[i].blockIndex == i
                     && records[i].byteOffset == i * blockSize
                     && records[i].blake3Hash == HexDigest(blake3, blocks[i])
  }

  ghost predicate AllParse(grammar: GrammarFile, blocks: seq<seq<byte>>) {
    forall i :: 0 <= i < |blocks| ==> MagicIsValid(grammar) && |blocks[i]| >= grammar.videoBlock.headerSize
  }

  lemma {:induction false} ParseBlocksExact(
    grammar: GrammarFile, plugin: Option<Plugin>, blake3: Digest, blockSize: nat, blocks: seq<seq<byte>>)
    ensures var r := ParseBlocks(grammar, plugin, blake3, blockSize, blocks);
            && (r.Success? <==> AllParse(grammar, blocks))
            && (r.Success? ==> RecordsOf(r.value, blocks, blockSize, blake3))
  {
    hide ParseBlock, HexDigest, MagicIsValid;
    if blocks != [] {
      var k := |blocks| - 1;
      ParseBlocksExact(grammar, plugin, blake3, blockSize, blocks[..k]);
      ParseBlockSucceeds(grammar, plugin, blake3, k, k * blockSize, blocks[k]);
    }
  }

  /** Length of the last block of an image. */
  function LastBlockLength(length: nat, size: nat): nat
    requires size > 0 && length > 0
  {
    if length % size == 0 then size else length % size
  }

  lemma BlocksLongEnough(image: seq<byte>, size: nat, least: nat)
    requires size > 0 && image != []
    ensures (forall i :: 0 <= i < |Chunks(image, size)| ==> |Chunks(image, size)[i]| >= least)
            <==> LastBlockLength(|image|, size) >= least
  {
    hide Chunks;
    var chunks := Chunks(image, size);
    ChunkCount(image, size);
    DivisionLaw(|image|, size);
    LastChunk(image, size);
    forall i | 0 <= i < |chunks| - 1
      ensures |chunks[i]| == size
    {
      FullBlocks(image, size, i);
    }
  }

  lemma {:induction false} LastChunk(image: seq<byte>, size: nat)
    requires size > 0 && image != []
    ensures |Chunks(image, size)| > 0
    ensures |Chunks(image, size)[|Chunks(image, size)| - 1]| == LastBlockLength(|image|, size)
  {
    if |image| > size {
      LastChunk(image[size..], size);
      DivisionLaw(|image|, size);
      assert (|image| / size - 1) * size == |image| / size * size - size;
      DivisionUnique(|image| - size, size, |image| / size - 1, |image| % size);
    } else if |image| == size {
      DivisionUnique(|image|, size, 1, 0);
    } else {
      DivisionUnique(|image|, size, 0, |image|);
    }
  }

  /** Parsing what was acquired succeeds exactly when the last block can hold a header. */
  lemma ParseSucceedsExactly(
    image: seq<byte>, size: nat, grammar: GrammarFile, plugin: Option<Plugin>, algorithms: Algorithms)
    requires size > 0
    ensures var r := Parse(image, Acquire(image, size, algorithms), grammar, plugin, algorithms.blake3);
            && (r.Success? <==>
                image == [] ||
                (MagicIsValid(grammar) && LastBlockLength(|image|, size) >= grammar.videoBlock.headerSize))
            && (r.Success? ==> RecordsOf(r.value, Chunks(image, size), size, algorithms.blake3))
  {
    hide Chunks, MagicIsValid, ParseBlocks, HexDigest;
    var chunks := Chunks(image, size);
    ParseBlocksExact(grammar, plugin, algorithms.blake3, size, chunks);
    assert BlocksRead(image, size, |chunks|) == chunks;
    if image == [] {
      ChunksOfNothing(size);
    } else {
      BlocksLongEnough(image, size, grammar.videoBlock.headerSize);
      LastChunk(image, size);
      assert AllParse(grammar, chunks) ==> MagicIsValid(grammar) && |chunks[0]| >= grammar.videoBlock.headerSize;
    }
  }

  lemma ChunksOfNothing(size: nat)
    requires size > 0
    ensures Chunks([], size) == []
  {
  }

  // ----- Agreement -----

  function Repeat(records: seq<ExtractedRecord>, times: nat): seq<ExtractedRecord> {
    if times == 0 then [] else Repeat(records, times - 1) + records
  }

  lemma {:induction false} RepeatMembers(records: seq<ExtractedRecord>, times: nat, i: nat)
    requires i < |Repeat(records, times)|
    ensures Repeat(records, times)[i] in records
  {
    if i < |Repeat(records, times - 1)| {
      RepeatMembers(records, times - 1, i);
    }
  }

  lemma {:induction false} NoDbDiscrepancies(records: seq<ExtractedRecord>, actual: seq<string>, n: nat)
    requires n <= |records|
    requires forall i :: 0 <= i < n ==> records[i].blockIndex < |actual| && records[i].blake3Hash == actual[records[i].blockIndex]
    ensures DbDiscrepanciesBelow(records, actual, n) == []
  {
    if n > 0 {
      NoDbDiscrepancies(records, actual, n - 1);
    }
  }

  /**
   * Acquire an image, parse it any number of times into the same record list, and verify it
   * unchanged: no block and no stored record is at fault, and the verdict is pristine.
   */
  lemma ReadersAgree(
    image: seq<byte>, size: nat, grammar: GrammarFile, plugin: Option<Plugin>, algorithms: Algorithms,
    records: seq<ExtractedRecord>, times: nat)
    requires size > 0
    requires Parse(image, Acquire(image, size, algorithms), grammar, plugin, algorithms.blake3) == Success(records)
    ensures var report := Verify(image, Acquire(image, size, algorithms), Stored(Repeat(records, times)), algorithms);
            && report.blockDiscrepancies == [] && report.dbDiscrepancies == []
            && report.matchedBlocks == report.totalBlocks && report.isPristine
  {
    hide Parse, Chunks, HexDigest;
    ParseSucceedsExactly(image, size, grammar, plugin, algorithms);
    var db := Stored(Repeat(records, times));
    FaithfulReadBack(image, image, size, db, algorithms);
    var actual := HashAll(algorithms.blake3, Chunks(image, size));
    forall i | 0 <= i < |db.records|
      ensures db.records[i].blockIndex < |actual| && db.records[i].blake3Hash == actual[db.records[i].blockIndex]
    {
      RepeatMembers(records, times, i);
      var j :| 0 <= j < |records| && records[j] == db.records[i];
    }
    NoDbDiscrepancies(db.records, actual, |db.records|);
  }

  // ----- After tampering, the database check and the block check agree -----

  ghost predicate Flags(ds: seq<DbDiscrepancy>, i: nat) {
    exists k :: 0 <= k < |ds| && ds[k].blockIndex == i
  }

  lemma {:induction false} DbFlagsExact(records: seq<ExtractedRecord>, actual: seq<string>, n: nat, i: nat)
    requires n <= |records| && forall j :: 0 <= j < |records| ==> records[j].blockIndex == j
    ensures Flags(DbDiscrepanciesBelow(records, actual, n), i) <==>
            i < n && (i >= |actual| || records[i].blake3Hash != actual[i])
  {
    if n > 0 {
      DbFlagsExact(records, actual, n - 1, i);
      var before := DbDiscrepanciesBelow(records, actual, n - 1);
      var last := DbIssueOf(records[n - 1], actual);
      FlagsAppend(before, last, i);
    }
  }

  lemma FlagsAppend(a: seq<DbDiscrepancy>, b: seq<DbDiscrepancy>, i: nat)
    ensures Flags(a + b, i) <==> Flags(a, i) || Flags(b, i)
    ensures |b| == 1 ==> (Flags(b, i) <==> b[0].blockIndex == i)
  {
    if Flags(a, i) {
      var k :| 0 <= k < |a| && a[k].blockIndex == i;
      assert (a + b)[k].blockIndex == i;
    }
    if Flags(b, i) {
      var k :| 0 <= k < |b| && b[k].blockIndex == i;
      assert (a + b)[|a| + k].blockIndex == i;
    }
    if |b| == 1 && b[0].blockIndex == i {
      assert Flags(b, i);
    }
  }

  /** The stored records flag exactly the blocks that the manifest flags: the altered ones. */
  lemma TamperedRecordsFlagged(
    original: seq<byte>, now: seq<byte>, size: nat, grammar: GrammarFile, plugin: Option<Plugin>,
    algorithms: Algorithms, records: seq<ExtractedRecord>, i: nat)
    requires size > 0 && |now| == |original|
    requires NoBlockCollision(original, now, size, algorithms.blake3)
    requires Parse(original, Acquire(original, size, algorithms), grammar, plugin, algorithms.blake3) == Success(records)
    ensures var report := Verify(now, Acquire(original, size, algorithms), Stored(records), algorithms);
            && (Flags(report.dbDiscrepancies, i) <==> Lists(report.blockDiscrepancies, i))
            && (Flags(report.dbDiscrepancies, i) <==> i < report.totalBlocks && Altered(original, now, size, i))
  {
    hide Parse, Chunks, HexDigest, Altered, NoBlockCollision;
    ParseSucceedsExactly(original, size, grammar, plugin, algorithms);
    TamperingLocalised(original, now, size, Stored(records), algorithms);
    ChunkCount(original, size);
    ChunkCount(now, size);
    assert BlocksRead(now, size, |Chunks(original, size)|) == Chunks(now, size);
    var actual := HashAll(algorithms.blake3, Chunks(now, size));
    DbFlagsExact(records, actual, |records|, i);
    if i < |records| {
      SameLengthMismatch(original, now, size, algorithms, i);
    }
  }
}
