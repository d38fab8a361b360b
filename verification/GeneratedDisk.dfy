/**
 * A generated disk through the whole pipeline: acquired, cut, interpreted, descrambled,
 * demultiplexed and carved, against its ground truth, for every size and base timestamp.
 */
module GeneratedDisk {
  import opened Wrappers
  import opened Bytes
  import opened Chunking
  import opened Acquisition
  import opened Records
  import opened Interpreter
  import opened Descrambler
  import opened CaseParser
  import opened Generator
  import opened SyntheticFormat
  import Sorting
  import Demux
  import Carver
  import Correlation
  import GapAgreement

  /** Timestamps stay within 64 bits and sequence counters within 32, as the generator's arithmetic needs. */
  predicate NoOverflow(blocks: nat, baseTimestamp: nat) {
    baseTimestamp + 2 * blocks < 0x1_0000_0000_0000_0000 && blocks <= 0x2_0000_0000
  }

  // ----- Cutting -----

  function BlocksOf(n: nat, blocks: nat, baseTimestamp: nat): (cut: seq<seq<byte>>)
    requires blocks >= 2
    ensures |cut| == n
    ensures forall i :: 0 <= i < n ==> cut[i] == DiskBlock(i, blocks, baseTimestamp)
  {
    seq(n, i requires 0 <= i < n => DiskBlock(i, blocks, baseTimestamp))
  }

  lemma {:induction false} DiskIsCut(n: nat, blocks: nat, baseTimestamp: nat)
    requires blocks >= 2
    ensures Chunks(DiskBelow(n, blocks, baseTimestamp), BLOCK_SIZE) == BlocksOf(n, blocks, baseTimestamp)
  {
    hide DiskBlock;
    if n > 0 {
      DiskIsCut(n - 1, blocks, baseTimestamp);
      var block := DiskBlock(n - 1, blocks, baseTimestamp);
      ChunksAppend(DiskBelow(n - 1, blocks, baseTimestamp), block, BLOCK_SIZE, n - 1);
      assert Chunks(block, BLOCK_SIZE) == [block];
    }
  }

  // ----- Interpreting and descrambling -----

  /** What the parser should say of block `b`, in terms of what the generator wrote there. */
  function ExpectedRecord(b: nat, blocks: nat, baseTimestamp: nat, blake3: Digest): ExtractedRecord
    requires blocks >= 2
  {
    var hash := HexDigest(blake3, DiskBlock(b, blocks, baseTimestamp));
    var offset := b * BLOCK_SIZE;
    if b == 0 then PlainRecord(b, offset, hash, Superblock, offset, BLOCK_SIZE)
    else if b == 1 then PlainRecord(b, offset, hash, PartitionTable, offset, BLOCK_SIZE)
    else
      var v := FieldsOf(b, baseTimestamp);
      if v.isCorrupted then
        PlainRecord(b, offset, hash, UnallocatedOrCorrupted, offset + HEADER_SIZE, PAYLOAD_SIZE)
      else
        WrittenRecord(b, offset, hash, v).(
          descrambled := v.isScrambled,
          descrambledHash := if v.isScrambled then Some(HexDigest(blake3, OriginalPayload(v))) else None)
  }

  lemma FrontBlockParses(b: nat, blocks: nat, baseTimestamp: nat, blake3: Digest)
    requires b < 2 <= blocks
    ensures ParseBlock(SYNTHETIC_V1, Some(XorPlugin), blake3, b, b * BLOCK_SIZE,
                       DiskBlock(b, blocks, baseTimestamp)) ==
            Success(ExpectedRecord(b, blocks, baseTimestamp, blake3))
  {
    hide InterpretBlock, SuperblockBytes, PartitionBytes, HexDigest, XorPlugin;
    FrontBlocksStart(blocks, baseTimestamp);
    var block := DiskBlock(b, blocks, baseTimestamp);
    InterpretsFrontBlock(b, b * BLOCK_SIZE, HexDigest(blake3, block), block);
  }

  lemma CorruptedBlockParses(b: nat, blocks: nat, baseTimestamp: nat, blake3: Digest)
    requires 2 <= b && 2 <= blocks && FieldsOf(b, baseTimestamp).isCorrupted
    ensures ParseBlock(SYNTHETIC_V1, Some(XorPlugin), blake3, b, b * BLOCK_SIZE,
                       DiskBlock(b, blocks, baseTimestamp)) ==
            Success(ExpectedRecord(b, blocks, baseTimestamp, blake3))
  {
    hide InterpretBlock, HexDigest, XorPlugin, OriginalPayload, XorKeyed;
    var block := DiskBlock(b, blocks, baseTimestamp);
    InterpretsZeroedHeader(b, b * BLOCK_SIZE, HexDigest(blake3, block), block);
  }

  /** The payload on disk, run through the plugin, is the original payload. */
  lemma PayloadDescrambles(v: VideoFields)
    requires v.isScrambled
    ensures XorPlugin(VideoBlock(v)[HEADER_SIZE..BLOCK_SIZE]) == Some(OriginalPayload(v))
  {
    hide OriginalPayload, Header, XorKeyed;
    var payload := XorKeyed(OriginalPayload(v));
    assert VideoBlock(v)[HEADER_SIZE..BLOCK_SIZE] == payload;
    XorInvolution(OriginalPayload(v));
  }

  lemma WrittenBlockParses(b: nat, blocks: nat, baseTimestamp: nat, blake3: Digest)
    requires 2 <= b < blocks && NoOverflow(blocks, baseTimestamp) && !FieldsOf(b, baseTimestamp).isCorrupted
    ensures ParseBlock(SYNTHETIC_V1, Some(XorPlugin), blake3, b, b * BLOCK_SIZE,
                       DiskBlock(b, blocks, baseTimestamp)) ==
            Success(ExpectedRecord(b, blocks, baseTimestamp, blake3))
  {
    hide InterpretBlock, HexDigest, XorPlugin, OriginalPayload, VideoBlock, NormalizedUnix, FlagsFor;
    var v := FieldsOf(b, baseTimestamp);
    var block := VideoBlock(v);
    InterpretsVideoBlock(b, b * BLOCK_SIZE, HexDigest(blake3, block), v);
    if v.isScrambled {
      PayloadDescrambles(v);
    }
  }

  /** Interpreting and descrambling any block of a generated disk gives the expected record. */
  lemma BlockParses(b: nat, blocks: nat, baseTimestamp: nat, blake3: Digest)
    requires b < blocks && 2 <= blocks && NoOverflow(blocks, baseTimestamp)
    ensures ParseBlock(SYNTHETIC_V1, Some(XorPlugin), blake3, b, b * BLOCK_SIZE,
                       DiskBlock(b, blocks, baseTimestamp)) ==
            Success(ExpectedRecord(b, blocks, baseTimestamp, blake3))
  {
    hide ParseBlock, DiskBlock, ExpectedRecord, FieldsOf;
    if b < 2 {
      FrontBlockParses(b, blocks, baseTimestamp, blake3);
    } else if FieldsOf(b, baseTimestamp).isCorrupted {
      CorruptedBlockParses(b, blocks, baseTimestamp, blake3);
    } else {
      WrittenBlockParses(b, blocks, baseTimestamp, blake3);
    }
  }

  function ExpectedRecords(n: nat, blocks: nat, baseTimestamp: nat, blake3: Digest): (records: seq<ExtractedRecord>)
    requires blocks >= 2
    ensures |records| == n
    ensures forall b :: 0 <= b < n ==> records[b] == ExpectedRecord(b, blocks, baseTimestamp, blake3)
  {
    seq(n, b requires 0 <= b < n => ExpectedRecord(b, blocks, baseTimestamp, blake3))
  }

  lemma {:induction false} BlocksParse(n: nat, blocks: nat, baseTimestamp: nat, blake3: Digest)
    requires n <= blocks && 2 <= blocks && NoOverflow(blocks, baseTimestamp)
    ensures ParseBlocks(SYNTHETIC_V1, Some(XorPlugin), blake3, BLOCK_SIZE, BlocksOf(n, blocks, baseTimestamp)) ==
            Success(ExpectedRecords(n, blocks, baseTimestamp, blake3))
  {
    hide ParseBlock, DiskBlock, ExpectedRecord, XorPlugin;
    if n > 0 {
      BlocksParse(n - 1, blocks, baseTimestamp, blake3);
      assert BlocksOf(n, blocks, baseTimestamp)[..n - 1] == BlocksOf(n - 1, blocks, baseTimestamp);
      BlockParses(n - 1, blocks, baseTimestamp, blake3);
      assert ExpectedRecords(n, blocks, baseTimestamp, blake3) ==
             ExpectedRecords(n - 1, blocks, baseTimestamp, blake3)
             + [ExpectedRecord(n - 1, blocks, baseTimestamp, blake3)];
    } else {
      assert ExpectedRecords(0, blocks, baseTimestamp, blake3) == [];
    }
  }

  /** Parsing an acquired generated disk gives exactly one expected record per block. */
  lemma DiskParses(blocks: nat, baseTimestamp: nat, algorithms: Algorithms)
    requires 32 <= blocks && NoOverflow(blocks, baseTimestamp)
    ensures var disk := DiskBelow(blocks, blocks, baseTimestamp);
            Parse(disk, Acquire(disk, BLOCK_SIZE, algorithms), SYNTHETIC_V1, Some(XorPlugin), algorithms.blake3) ==
            Success(ExpectedRecords(blocks, blocks, baseTimestamp, algorithms.blake3))
  {
    hide DiskBlock, ExpectedRecord, XorPlugin, ParseBlocks, NoOverflow;
    DiskIsCut(blocks, blocks, baseTimestamp);
    BlocksParse(blocks, blocks, baseTimestamp, algorithms.blake3);
    var cut := BlocksOf(blocks, blocks, baseTimestamp);
    assert cut[..blocks] == cut;
  }

  // ----- Ground truth -----

  /**
   * A record and the ground truth of its block agree on place, digest, kind, corruption, scrambling
   * and the original payload; a video record also agrees on every field of the header.
   */
  ghost predicate AgreesWithTruth(r: ExtractedRecord, t: BlockTruth) {
    && r.blockIndex == t.blockIndex && r.byteOffset == t.offset && r.blake3Hash == t.diskBlockBlake3
    && (t.blockIndex == 0 <==> r.blockType == Superblock)
    && (t.blockIndex == 1 <==> r.blockType == PartitionTable)
    && (t.isCorrupted <==> r.blockType == UnallocatedOrCorrupted)
    && (t.isCorrupted <==> r.isCorrupted)
    && (t.isScrambled <==> r.isScrambled)
    && (t.isScrambled <==> r.descrambled)
    && (r.descrambled ==> r.descrambledHash == Some(t.originalPayloadBlake3))
    && (r.blockType == VideoFrame ==>
          && r.channelId == t.channelId && r.timestamp == t.timestamp
          && r.sequenceNum == t.sequenceNum && r.payloadLen == t.payloadLen
          && r.payloadOffset == t.offset + HEADER_SIZE)
  }

  lemma RecordsAgreeWithTruth(b: nat, blocks: nat, baseTimestamp: nat, blake3: Digest)
    requires b < blocks && 32 <= blocks
    ensures AgreesWithTruth(ExpectedRecords(blocks, blocks, baseTimestamp, blake3)[b],
                            TruthBelow(blocks, blocks, baseTimestamp, x => HexDigest(blake3, x))[b])
  {
    hide HexDigest, DiskBlock, OriginalPayload, NormalizedUnix, FlagsFor;
    TruthAt(b, blocks, blocks, baseTimestamp, x => HexDigest(blake3, x));
  }

  /**
   * For which blocks a header field of the record is that of the ground truth: not where the header
   * was zeroed, and in the front blocks only as far as the truth gives zero as well.
   */
  lemma FieldsAgreeExactly(b: nat, blocks: nat, baseTimestamp: nat, blake3: Digest)
    requires b < blocks && 32 <= blocks
    ensures var r := ExpectedRecords(blocks, blocks, baseTimestamp, blake3)[b];
            var t := TruthBelow(blocks, blocks, baseTimestamp, x => HexDigest(blake3, x))[b];
            && (r.channelId == t.channelId <==> !(22 <= b <= 23))
            && (r.sequenceNum == t.sequenceNum <==> !(22 <= b <= 23))
            && (r.timestamp == t.timestamp <==> if b < 2 then baseTimestamp == 0 else !(22 <= b <= 23))
            && (r.payloadLen == t.payloadLen <==> b >= 2)
  {
    hide HexDigest, DiskBlock, OriginalPayload, NormalizedUnix, FlagsFor;
    TruthAt(b, blocks, blocks, baseTimestamp, x => HexDigest(blake3, x));
  }

  lemma {:induction false} TruthAt(b: nat, n: nat, blocks: nat, baseTimestamp: nat, blake3: Generator.Hash)
    requires b < n && blocks >= 2
    ensures TruthBelow(n, blocks, baseTimestamp, blake3)[b] == TruthOf(b, blocks, baseTimestamp, blake3)
  {
    hide TruthOf;
    if b < n - 1 {
      TruthAt(b, n - 1, blocks, baseTimestamp, blake3);
    }
  }

  // ----- Demultiplexing -----

  /** Block `b` carries a record of channel `channel`. */
  predicate Carries(b: int, blocks: nat, channel: nat) {
    2 <= b < blocks && b != 22 && b != 23 && channel == if b % 2 == 0 then 1 else 2
  }

  lemma RecordOfBlock(b: nat, blocks: nat, baseTimestamp: nat, blake3: Digest, channel: nat)
    requires b < blocks && 2 <= blocks && 0 < channel
    ensures var r := ExpectedRecord(b, blocks, baseTimestamp, blake3);
            && (r.channelId == channel <==> Carries(b, blocks, channel))
            && (Carries(b, blocks, channel) ==> r.sequenceNum == b / 2)
            && r.blockIndex == b
            && (r.channelId > 0 ==> r.channelId == 1 || r.channelId == 2)
            && (r.channelId == 0 ==> r.sequenceNum == 0)
  {
    hide HexDigest, DiskBlock, OriginalPayload, NormalizedUnix, FlagsFor;
  }

  /** The block of the disk that carries sequence number `m` of a channel. */
  function BlockOf(channel: nat, m: nat): int {
    2 * m + channel - 1
  }

  ghost predicate HasNumber(records: seq<ExtractedRecord>, m: nat) {
    exists r :: r in records && r.sequenceNum == m
  }

  /** A channel's records carry a sequence number exactly when its block was not zeroed. */
  lemma NumberInBucket(blocks: nat, baseTimestamp: nat, blake3: Digest, channel: nat, m: nat)
    requires 32 <= blocks && (channel == 1 || channel == 2)
    ensures var bucket := Demux.ChannelRecords(ExpectedRecords(blocks, blocks, baseTimestamp, blake3), channel);
            HasNumber(bucket, m) <==> Carries(BlockOf(channel, m), blocks, channel)
  {
    hide ExpectedRecord;
    var records := ExpectedRecords(blocks, blocks, baseTimestamp, blake3);
    var bucket := Demux.ChannelRecords(records, channel);
    Demux.ChannelMembers(records, channel);
    if HasNumber(bucket, m) {
      var r :| r in bucket && r.sequenceNum == m;
      var b: nat :| b < |records| && records[b] == r;
      RecordOfBlock(b, blocks, baseTimestamp, blake3, channel);
      assert b == BlockOf(channel, m);
    }
    if Carries(BlockOf(channel, m), blocks, channel) {
      var b: nat := BlockOf(channel, m);
      RecordOfBlock(b, blocks, baseTimestamp, blake3, channel);
      assert records[b] in bucket && records[b].sequenceNum == m;
    }
  }

  lemma {:induction false} EachOnce(records: seq<ExtractedRecord>, r: ExtractedRecord)
    requires forall i :: 0 <= i < |records| ==> records[i].blockIndex == i
    ensures multiset(records)[r] <= 1
  {
    if records != [] {
      var k := |records| - 1;
      EachOnce(records[..k], r);
      assert records == records[..k] + [records[k]];
      if r == records[k] {
        assert r !in records[..k];
      }
    }
  }

  lemma TwiceInMultiset(s: seq<ExtractedRecord>, i: nat)
    requires i + 1 < |s| && s[i] == s[i + 1]
    ensures multiset(s)[s[i]] >= 2
  {
    assert s == s[..i] + [s[i], s[i + 1]] + s[i + 2..];
  }

  /** A channel's records are told apart by their sequence numbers. */
  lemma SequenceDetermines(blocks: nat, baseTimestamp: nat, blake3: Digest, channel: nat, r: ExtractedRecord, q: ExtractedRecord)
    requires 32 <= blocks && (channel == 1 || channel == 2)
    requires r in ExpectedRecords(blocks, blocks, baseTimestamp, blake3) && r.channelId == channel
    requires q in ExpectedRecords(blocks, blocks, baseTimestamp, blake3) && q.channelId == channel
    requires r.sequenceNum == q.sequenceNum
    ensures r == q
  {
    hide ExpectedRecord;
    var records := ExpectedRecords(blocks, blocks, baseTimestamp, blake3);
    var b: nat :| b < |records| && records[b] == r;
    var c: nat :| c < |records| && records[c] == q;
    RecordOfBlock(b, blocks, baseTimestamp, blake3, channel);
    RecordOfBlock(c, blocks, baseTimestamp, blake3, channel);
    assert b / 2 == c / 2 && b % 2 == c % 2;
  }

  lemma BothChannelsOccur(blocks: nat, baseTimestamp: nat, blake3: Digest)
    requires 32 <= blocks
    ensures Demux.Channels(ExpectedRecords(blocks, blocks, baseTimestamp, blake3)) == {1, 2}
  {
    hide ExpectedRecord;
    var records := ExpectedRecords(blocks, blocks, baseTimestamp, blake3);
    RecordOfBlock(2, blocks, baseTimestamp, blake3, 1);
    RecordOfBlock(3, blocks, baseTimestamp, blake3, 2);
    assert records[2] in records && records[3] in records;
    forall r | r in records && r.channelId > 0
      ensures r.channelId in {1, 2}
    {
      var b: nat :| b < |records| && records[b] == r;
      RecordOfBlock(b, blocks, baseTimestamp, blake3, 1);
    }
  }

  lemma SequencesFit(blocks: nat, baseTimestamp: nat, blake3: Digest)
    requires 32 <= blocks && NoOverflow(blocks, baseTimestamp)
    ensures forall i :: 0 <= i < blocks ==>
              ExpectedRecords(blocks, blocks, baseTimestamp, blake3)[i].sequenceNum < Demux.SEQUENCE_LIMIT
  {
    hide ExpectedRecord;
    forall i | 0 <= i < blocks
      ensures ExpectedRecords(blocks, blocks, baseTimestamp, blake3)[i].sequenceNum < Demux.SEQUENCE_LIMIT
    {
      RecordOfBlock(i, blocks, baseTimestamp, blake3, 1);
      RecordOfBlock(i, blocks, baseTimestamp, blake3, 2);
    }
  }

  lemma NoRepeat(blocks: nat, baseTimestamp: nat, blake3: Digest, channel: nat)
    requires 32 <= blocks && (channel == 1 || channel == 2)
    requires channel in Demux.Demultiplex(ExpectedRecords(blocks, blocks, baseTimestamp, blake3))
    ensures var stream := Demux.Demultiplex(ExpectedRecords(blocks, blocks, baseTimestamp, blake3))[channel];
            !Demux.RepeatsLimit(stream.records)
  {
    hide ExpectedRecord;
    var records := ExpectedRecords(blocks, blocks, baseTimestamp, blake3);
    var stream := Demux.Demultiplex(records)[channel];
    if Demux.RepeatsLimit(stream.records) {
      var i: nat :| i + 1 < |stream.records| && Demux.WrapsAt(stream.records, i);
      var r, q := stream.records[i], stream.records[i + 1];
      StreamMember(records, channel, r);
      StreamMember(records, channel, q);
      SequenceDetermines(blocks, baseTimestamp, blake3, channel, r, q);
      TwiceInMultiset(stream.records, i);
      Demux.StreamsPartition(records, channel, r);
      forall j | 0 <= j < |records|
        ensures records[j].blockIndex == j
      {
        RecordOfBlock(j, blocks, baseTimestamp, blake3, channel);
      }
      EachOnce(records, r);
    }
  }

  lemma StreamMember(records: seq<ExtractedRecord>, channel: nat, r: ExtractedRecord)
    requires channel in Demux.Demultiplex(records)
    ensures r in Demux.Demultiplex(records)[channel].records <==> r in records && r.channelId == channel
  {
    Sorting.SortMembers(Demux.ChannelRecords(records, channel), Demux.SEQUENCE_ORDER, r);
    Demux.ChannelMembers(records, channel);
  }

  /** Which sequence numbers a stream of the disk holds. */
  lemma NumbersPresent(blocks: nat, baseTimestamp: nat, blake3: Digest, channel: nat, m: nat)
    requires 32 <= blocks && (channel == 1 || channel == 2)
    requires channel in Demux.Demultiplex(ExpectedRecords(blocks, blocks, baseTimestamp, blake3))
    ensures var sorted := Demux.Demultiplex(ExpectedRecords(blocks, blocks, baseTimestamp, blake3))[channel].records;
            Demux.Present(sorted, |sorted|, m) <==> Carries(BlockOf(channel, m), blocks, channel)
  {
    hide ExpectedRecord, Carries, BlockOf;
    var bucket := Demux.ChannelRecords(ExpectedRecords(blocks, blocks, baseTimestamp, blake3), channel);
    NumberInBucket(blocks, baseTimestamp, blake3, channel, m);
    SortKeepsNumbers(bucket, m);
  }

  lemma SortKeepsNumbers(bucket: seq<ExtractedRecord>, m: nat)
    ensures var sorted := Sorting.Sort(bucket, Demux.SEQUENCE_ORDER);
            Demux.Present(sorted, |sorted|, m) <==> HasNumber(bucket, m)
  {
    var sorted := Sorting.Sort(bucket, Demux.SEQUENCE_ORDER);
    if Demux.Present(sorted, |sorted|, m) {
      var i :| 0 <= i < |sorted| && sorted[i].sequenceNum == m;
      Sorting.SortMembers(bucket, Demux.SEQUENCE_ORDER, sorted[i]);
    }
    if HasNumber(bucket, m) {
      var r :| r in bucket && r.sequenceNum == m;
      Sorting.SortMembers(bucket, Demux.SEQUENCE_ORDER, r);
      var i :| 0 <= i < |sorted| && sorted[i] == r;
    }
  }

  lemma OnlyEleven(gaps: seq<nat>)
    requires Demux.StrictlyIncreasing(gaps) && forall m: nat :: m in gaps <==> m == 11
    ensures gaps == [11]
  {
    assert 11 in gaps;
    assert |gaps| > 1 ==> gaps[0] < gaps[1];
    forall j | 0 <= j < |gaps|
      ensures gaps[j] == 11
    {
      assert gaps[j] in gaps;
    }
  }

  lemma {:induction false} SomeRecord(sorted: seq<ExtractedRecord>, i: nat)
    requires i < |sorted|
    ensures Demux.Present(sorted, |sorted|, sorted[i].sequenceNum)
  {
  }

  /** A stream that misses nothing but 11 between a first number 1 and a last number beyond 11. */
  lemma MissesEleven(stream: Demux.DemuxedStream, blocks: nat, channel: nat)
    requires 32 <= blocks && (channel == 1 || channel == 2)
    requires stream.records != [] && Demux.InSequenceOrder(stream.records)
    requires Demux.ListsAbsent(stream.sequenceGaps, stream.records, |stream.records|)
    requires forall m: nat :: Demux.Present(stream.records, |stream.records|, m) <==>
                              Carries(BlockOf(channel, m), blocks, channel)
    ensures stream.sequenceGaps == [11]
  {
    hide Demux.StrictlyIncreasing;
    var sorted := stream.records;
    var k := |sorted| - 1;
    var first, last := sorted[0].sequenceNum, sorted[k].sequenceNum;
    SomeRecord(sorted, 0);
    SomeRecord(sorted, k);
    assert Demux.Present(sorted, |sorted|, 1) && Demux.Present(sorted, |sorted|, 12);
    var i :| 0 <= i < |sorted| && sorted[i].sequenceNum == 1;
    var j :| 0 <= j < |sorted| && sorted[j].sequenceNum == 12;
    assert first == 1 && 12 <= last;
    forall m: nat
      ensures m in stream.sequenceGaps <==> m == 11
    {
      assert Demux.Present(sorted, |sorted|, m) <==> Carries(BlockOf(channel, m), blocks, channel);
      assert Carries(BlockOf(channel, last), blocks, channel);
    }
    OnlyEleven(stream.sequenceGaps);
  }

  /** On both channels exactly one sequence number is missing: 11, the one of the zeroed headers. */
  lemma GapIsEleven(blocks: nat, baseTimestamp: nat, blake3: Digest, channel: nat)
    requires 32 <= blocks && NoOverflow(blocks, baseTimestamp) && (channel == 1 || channel == 2)
    ensures var streams := Demux.Demultiplex(ExpectedRecords(blocks, blocks, baseTimestamp, blake3));
            streams.Keys == {1, 2} && streams[channel].sequenceGaps == [11]
  {
    hide ExpectedRecord, ExpectedRecords, Demux.RepeatsLimit, Demux.Present, Demux.ListsAbsent, Carries, BlockOf,
         Demux.StreamOf;
    var records := ExpectedRecords(blocks, blocks, baseTimestamp, blake3);
    BothChannelsOccur(blocks, baseTimestamp, blake3);
    SequencesFit(blocks, baseTimestamp, blake3);
    var streams := Demux.Demultiplex(records);
    assert streams.Keys == {1, 2};
    Demux.StreamGapsRight(records, channel);
    NoRepeat(blocks, baseTimestamp, blake3, channel);
    var stream := streams[channel];
    forall m: nat
      ensures Demux.Present(stream.records, |stream.records|, m) <==> Carries(BlockOf(channel, m), blocks, channel)
    {
      NumbersPresent(blocks, baseTimestamp, blake3, channel, m);
    }
    MissesEleven(stream, blocks, channel);
  }

  /** The last block of a disk that carries a channel. */
  function LastBlockOf(channel: nat, blocks: nat): (last: nat)
    requires 32 <= blocks && (channel == 1 || channel == 2)
    ensures last < blocks
  {
    if (blocks - 1) % 2 == channel - 1 then blocks - 1 else blocks - 2
  }

  lemma ChannelSpan(blocks: nat, baseTimestamp: nat, blake3: Digest, channel: nat, r: ExtractedRecord)
    requires 32 <= blocks && (channel == 1 || channel == 2)
    requires r in ExpectedRecords(blocks, blocks, baseTimestamp, blake3) && r.channelId == channel
    ensures baseTimestamp + 2 * (channel + 1) <= r.timestamp <= baseTimestamp + 2 * LastBlockOf(channel, blocks)
  {
    hide HexDigest, DiskBlock, OriginalPayload, NormalizedUnix, FlagsFor;
  }

  lemma ChannelEnds(blocks: nat, baseTimestamp: nat, blake3: Digest, channel: nat)
    requires 32 <= blocks && (channel == 1 || channel == 2)
    ensures var records := ExpectedRecords(blocks, blocks, baseTimestamp, blake3);
            var first, last := records[channel + 1], records[LastBlockOf(channel, blocks)];
            && first.channelId == last.channelId == channel
            && first.timestamp == baseTimestamp + 2 * (channel + 1)
            && last.timestamp == baseTimestamp + 2 * LastBlockOf(channel, blocks)
  {
    hide HexDigest, DiskBlock, OriginalPayload, NormalizedUnix, FlagsFor;
  }

  /** The streams of a disk begin with the channel's first block, 2 or 3, and end with its last. */
  lemma DiskStreamBounds(blocks: nat, baseTimestamp: nat, blake3: Digest, channel: nat)
    requires 32 <= blocks && (channel == 1 || channel == 2)
    ensures var streams := Demux.Demultiplex(ExpectedRecords(blocks, blocks, baseTimestamp, blake3));
            && channel in streams
            && streams[channel].minTimestamp == baseTimestamp + 2 * (channel + 1)
            && streams[channel].maxTimestamp == baseTimestamp + 2 * LastBlockOf(channel, blocks)
  {
    hide ExpectedRecord, LastBlockOf, Demux.Demultiplex;
    var records := ExpectedRecords(blocks, blocks, baseTimestamp, blake3);
    Demux.StreamBounds(records, channel);
    ChannelEnds(blocks, baseTimestamp, blake3, channel);
    assert records[channel + 1] in records && records[LastBlockOf(channel, blocks)] in records;
    var stream := Demux.Demultiplex(records)[channel];
    var r :| r in records && r.channelId == channel && r.timestamp == stream.minTimestamp;
    var q :| q in records && q.channelId == channel && q.timestamp == stream.maxTimestamp;
    ChannelSpan(blocks, baseTimestamp, blake3, channel, r);
    ChannelSpan(blocks, baseTimestamp, blake3, channel, q);
  }

  /** The records of a generated disk meet the condition under which the two gap detectors agree. */
  lemma DiskIsUsable(blocks: nat, baseTimestamp: nat, blake3: Digest)
    requires 32 <= blocks && baseTimestamp + 2 * blocks < Correlation.TWO_63
    ensures GapAgreement.TimedAreUsable(ExpectedRecords(blocks, blocks, baseTimestamp, blake3))
  {
    hide HexDigest, DiskBlock, OriginalPayload, NormalizedUnix, FlagsFor;
  }

  // ----- Carving the zeroed blocks -----

  /** 32 zero bytes, a 4-byte start code and a nonzero header byte, then anything. */
  lemma FirstFrameAfterZeroedHeader(data: seq<byte>, base: nat, blake3: Carver.Hash)
    requires |data| >= 37 && data[..32] == Zeros(32)
    requires data[32..36] == [0, 0, 0, 1] && data[36] != 0
    ensures var frames := Carver.Carve(data, base, blake3);
            && frames != [] && frames[0].byteOffset == base + 32
            && frames[0].nal == Carver.ClassifyNalHeader(data[36])
  {
    FirstCodeAfterZeroedHeader(data);
    var codes := Carver.StartCodes(data);
    Carver.StartCodesPlaced(data);
    FirstFrame(data, base, codes, |codes|, blake3);
  }

  lemma FirstCodeAfterZeroedHeader(data: seq<byte>)
    requires |data| >= 37 && data[..32] == Zeros(32)
    requires data[32..36] == [0, 0, 0, 1] && data[36] != 0
    ensures var codes := Carver.StartCodes(data);
            codes != [] && codes[0] == Carver.StartCode(32, 4) && 36 < Carver.EndOf(codes, 0, |data|)
  {
    assert forall i :: 0 <= i < 32 ==> data[i] == data[..32][i] == 0;
    assert data[32] == 0 && data[33] == 0 && data[34] == 0 && data[35] == 1 by {
      assert forall i :: 0 <= i < 4 ==> data[32 + i] == data[32..36][i];
    }
    Carver.CodesBelowSkip(data, 0, 33);
    assert Carver.Detectable(data, 33) && Carver.CodeAt(data, 33) == Carver.StartCode(32, 4);
    assert Carver.CodesBelow(data, 34) == [Carver.StartCode(32, 4)];
    LaterCodesLater(data, |data|);
  }

  lemma {:induction false} LaterCodesLater(data: seq<byte>, n: nat)
    requires 34 <= n && |data| >= 37 && data[34] == 0 && data[35] == 1 && data[36] != 0
    requires Carver.CodesBelow(data, 34) == [Carver.StartCode(32, 4)]
    ensures Carver.CodesBelow(data, n) != [] && Carver.CodesBelow(data, n)[0] == Carver.StartCode(32, 4)
    ensures forall k :: 0 < k < |Carver.CodesBelow(data, n)| ==> Carver.CodesBelow(data, n)[k].pos > 36
    decreases n
  {
    if n > 34 {
      LaterCodesLater(data, n - 1);
    }
  }

  lemma {:induction false} FirstFrame(
    data: seq<byte>, base: nat, codes: seq<Carver.StartCode>, n: nat, blake3: Carver.Hash)
    requires Carver.WellPlaced(codes, |data|) && 0 < n <= |codes|
    requires codes[0].Body() < Carver.EndOf(codes, 0, |data|)
    ensures var frames := Carver.FramesBelow(data, base, codes, n, blake3);
            && Carver.EndOf(codes, 0, |data|) <= |data|
            && frames != []
            && frames[0] == Carver.FrameOf(data, base, codes[0], Carver.EndOf(codes, 0, |data|), blake3)
  {
    hide Carver.FrameOf;
    Carver.FramesBelowNext(data, base, codes, n - 1, blake3);
    if n > 1 {
      FirstFrame(data, base, codes, n - 1, blake3);
    } else {
      assert Carver.FramesBelow(data, base, codes, 0, blake3) == [];
    }
  }

  /** In both zeroed blocks the first carved frame is the keyframe that starts right after the header. */
  lemma ZeroedBlockCarves(b: nat, blocks: nat, baseTimestamp: nat, blake3: Carver.Hash)
    requires 22 <= b <= 23 && 32 <= blocks
    ensures var frames := Carver.Carve(DiskBlock(b, blocks, baseTimestamp), b * BLOCK_SIZE, blake3);
            && frames != [] && frames[0].byteOffset == b * BLOCK_SIZE + HEADER_SIZE
            && frames[0].nal == Carver.H264SpsKeyframe
  {
    hide Carver.Carve, RandomBytes;
    var v := FieldsOf(b, baseTimestamp);
    var block := DiskBlock(b, blocks, baseTimestamp);
    assert block == Zeros(32) + OriginalPayload(v);
    var payload := OriginalPayload(v);
    assert payload[..5] == [0, 0, 0, 1, 0x67];
    assert block[32..36] == payload[..5][..4];
    assert block[36] == payload[..5][4];
    SpsHeader();
    FirstFrameAfterZeroedHeader(block, b * BLOCK_SIZE, blake3);
  }

  lemma SpsHeader()
    ensures Carver.ClassifyNalHeader(0x67) == Carver.H264SpsKeyframe
  {
  }
}
