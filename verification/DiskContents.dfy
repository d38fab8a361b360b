/** What stands on a generated disk and in its ground truth, value by value. */
module DiskContents {
  import opened Wrappers
  import opened Bytes
  import opened Acquisition
  import opened Grammar
  import opened Records
  import opened Interpreter
  import opened Descrambler
  import opened Generator
  import opened SyntheticFormat
  import opened GeneratedDisk
  import Correlation
  import DiskCarving
  import HeaderCrc
  import Arithmetic
  import Chunking
  import Hex
  import LocalTime
  import Timestamps

  // ----- The scramble key -----

  /** The byte that scrambles position `i` of a payload. */
  function KeyByte(i: nat): byte {
    if i % 4 == 0 then 0xD4 else if i % 4 == 1 then 0xA8 else if i % 4 == 2 then 0x7E else 0x31
  }

  /** Scrambling is by the four key bytes D4 A8 7E 31 in turn, the first of them on the first byte. */
  lemma ScrambledByte(data: seq<byte>, i: nat)
    requires i < |data|
    ensures XorKeyed(data)[i] == data[i] ^ KeyByte(i)
  {
  }

  /** The key as the ground truth writes it, in upper-case hex, stands for the key. */
  lemma KeyText()
    ensures Hex.Decode("D4A87E31") == Some(KEY)
  {
    hide Hex.DigitValue, Hex.PairValue;
    KeyDigits();
    DecodePair("31", 3, 1, "", [], [0x31]);
    DecodePair("7E31", 7, 14, "31", [0x31], [0x7E, 0x31]);
    DecodePair("A87E31", 10, 8, "7E31", [0x7E, 0x31], [0xA8, 0x7E, 0x31]);
    DecodePair("D4A87E31", 13, 4, "A87E31", [0xA8, 0x7E, 0x31], [0xD4, 0xA8, 0x7E, 0x31]);
  }

  lemma KeyDigits()
    ensures Hex.DigitValue('D') == Some(13) && Hex.DigitValue('4') == Some(4) && Hex.DigitValue('A') == Some(10)
    ensures Hex.DigitValue('8') == Some(8) && Hex.DigitValue('7') == Some(7) && Hex.DigitValue('E') == Some(14)
    ensures Hex.DigitValue('3') == Some(3) && Hex.DigitValue('1') == Some(1)
    ensures Hex.PairValue(13, 4) == 0xD4 && Hex.PairValue(10, 8) == 0xA8
    ensures Hex.PairValue(7, 14) == 0x7E && Hex.PairValue(3, 1) == 0x31
  {
  }

  // ----- The pseudo-random payload -----

  function Pow2(k: nat): (p: nat)
    ensures p > 0
  {
    if k == 0 then 1 else 2 * Pow2(k - 1)
  }

  lemma XorDouble(x: nat, y: nat, bit: nat)
    requires bit < 2
    ensures XorNat(2 * x, 2 * y + bit) == 2 * XorNat(x, y) + bit
  {
    hide XorNat;
    XorUnfold(2 * x, 2 * y + bit);
    assert 2 * x / 2 == x && (2 * y + bit) / 2 == y;
    assert 2 * x % 2 == 0 && (2 * y + bit) % 2 == bit;
  }

  lemma XorUnfold(a: nat, b: nat)
    ensures XorNat(a, b) == 2 * XorNat(a / 2, b / 2) + (a % 2 + b % 2) % 2
  {
  }

  lemma XorNext(a: nat, high: nat, low: nat, p: nat, x: nat)
    requires XorNat(a * p, high * p + low / 2) == x * p + low / 2
    ensures XorNat(a * (2 * p), high * (2 * p) + low) == x * (2 * p) + low
  {
    hide XorNat;
    XorDouble(a * p, high * p + low / 2, low % 2);
    DoubleProduct(a, p);
    DoubleProduct(high, p);
    DoubleProduct(x, p);
  }

  /** A number with nothing in its low `k` bits does not touch the low `k` bits of the other. */
  lemma {:induction false} XorSplits(a: nat, high: nat, low: nat, k: nat)
    requires low < Pow2(k)
    ensures XorNat(a * Pow2(k), high * Pow2(k) + low) == XorNat(a, high) * Pow2(k) + low
  {
    hide XorNat;
    if k > 0 {
      XorSplits(a, high, low / 2, k - 1);
      XorNext(a, high, low, Pow2(k - 1), XorNat(a, high));
    } else {
      assert Pow2(0) == 1 && low == 0;
      assert a * 1 == a && high * 1 + 0 == high;
    }
  }

  lemma DoubleProduct(n: nat, p: nat)
    ensures n * (2 * p) == 2 * (n * p)
  {
  }

  lemma XorSmall(b: nat)
    ensures XorNat(1, b) == if b % 2 == 0 then b + 1 else b - 1
    ensures XorNat(2, b) == if b / 2 % 2 == 0 then b + 2 else b - 2
  {
    XorUnfold(1, b);
    XorUnfold(2, b);
    XorUnfold(1, b / 2);
    XorWithZero(b / 2);
    XorWithZero(b / 2 / 2);
  }

  lemma {:induction false} XorWithZero(b: nat)
    ensures XorNat(0, b) == b
  {
    if b > 0 {
      XorWithZero(b / 2);
      XorUnfold(0, b);
    }
  }

  lemma Pow2Of32()
    ensures Pow2(32) == 0x1_0000_0000
  {
    assert Pow2(8) == 0x100;
    assert Pow2(16) == 0x1_0000;
    assert Pow2(24) == 0x100_0000;
  }

  /** The channel flips one bit of the seed: bit 32 for channel 1, bit 33 for channel 2. */
  lemma SeedOfChannel(sequence: nat)
    ensures var s := LcgStep(sequence);
            && Seed(1, sequence) == (if s / 0x1_0000_0000 % 2 == 0 then s + 0x1_0000_0000 else s - 0x1_0000_0000)
            && Seed(2, sequence) == (if s / 0x2_0000_0000 % 2 == 0 then s + 0x2_0000_0000 else s - 0x2_0000_0000)
  {
    hide LcgStep, XorNat, Pow2;
    var s := LcgStep(sequence);
    Pow2Of32();
    var high, low := s / 0x1_0000_0000, s % 0x1_0000_0000;
    XorSplits(1, high, low, 32);
    XorSplits(2, high, low, 32);
    XorSmall(high);
    assert s == high * 0x1_0000_0000 + low;
    assert high / 2 == s / 0x2_0000_0000;
  }

  lemma LcgIs(state: nat, quotient: nat, next: nat)
    requires next < 0x1_0000_0000_0000_0000
    requires state * 6364136223846793005 + 1442695040888963407 == quotient * 0x1_0000_0000_0000_0000 + next
    ensures LcgStep(state) == next
  {
    Arithmetic.DivisionUnique(
      state * 6364136223846793005 + 1442695040888963407, 0x1_0000_0000_0000_0000, quotient, next);
  }

  lemma FirstStates()
    ensures LcgStep(1) == 7806831264735756412
    ensures LcgStep(7806831269030723708) == 14915365477781478171
    ensures LcgStep(14915365477781478171) == 12072619540175366670
  {
    LcgIs(1, 0, 7806831264735756412);
    LcgIs(7806831269030723708, 2693360816096967511, 14915365477781478171);
    LcgIs(14915365477781478171, 5145808786079959462, 12072619540175366670);
  }

  /** The first random bytes of the first payload of channel 1. */
  lemma FirstRandomBytes()
    ensures Payload(1, 1, true)[..7] == [0, 0, 0, 1, 0x67, 0xF0, 0xC1]
  {
    hide LcgStep, XorNat, RandomBytes;
    FirstStates();
    SeedOfChannel(1);
    var seed := Seed(1, 1);
    assert seed == 7806831269030723708;
    StateUnfolds(seed);
    ByteOfValue(0xF0, 0xF0);
    RandomStart(seed, PAYLOAD_SIZE - 5);
    RandomAt(seed, LcgStep(seed), 0xF0);
    RandomAt(seed, LcgStep(LcgStep(seed)), 0xC1);
  }

  lemma StateUnfolds(seed: nat)
    ensures LcgState(seed, 1) == LcgStep(seed) && LcgState(seed, 2) == LcgStep(LcgStep(seed))
  {
    hide LcgStep;
    assert LcgState(seed, 0) == seed;
  }

  lemma RandomAt(seed: nat, state: nat, b: byte)
    requires state / 0x2_0000_0000 % 256 == b as nat
    ensures ByteOf(state / 0x2_0000_0000) == b
  {
    ByteInjective(ByteOf(state / 0x2_0000_0000), b);
  }

  lemma {:induction false} RandomStart(seed: nat, n: nat)
    requires n >= 2
    ensures RandomBytes(seed, n)[..2] ==
            [ByteOf(LcgState(seed, 1) / 0x2_0000_0000), ByteOf(LcgState(seed, 2) / 0x2_0000_0000)]
  {
    hide LcgState, ByteOf;
    if n > 2 {
      RandomStart(seed, n - 1);
      assert RandomBytes(seed, n)[..2] == RandomBytes(seed, n - 1)[..2];
    } else {
      assert RandomBytes(seed, 0) == [];
      assert RandomBytes(seed, 1) == [ByteOf(LcgState(seed, 1) / 0x2_0000_0000)];
    }
  }

  // ----- The front blocks -----

  const VERSION_FIELD := LittleField("u32", 8, None)
  const BLOCK_SIZE_FIELD := LittleField("u32", 12, None)
  const TOTAL_BLOCKS_FIELD := LittleField("u32", 16, None)
  const TABLE_OFFSET_FIELD := LittleField("u64", 20, None)
  const TABLE_COUNT_FIELD := LittleField("u32", 28, None)
  const CREATED_FIELD := LittleField("u64", 32, None)

  /** The superblock, read by the fields that the grammar gives it. */
  lemma SuperblockReadsBack(blocks: nat, baseTimestamp: nat)
    requires blocks < 0x1_0000_0000 && baseTimestamp < 0x1_0000_0000_0000_0000
    ensures var block := SuperblockBytes(blocks, baseTimestamp);
            && block[..8] == [0x43, 0x34, 0x44, 0x56, 0x52, 0, 1, 0]
            && ReadFieldValue(block, VERSION_FIELD) == 1
            && ReadFieldValue(block, BLOCK_SIZE_FIELD) == 4096
            && ReadFieldValue(block, TOTAL_BLOCKS_FIELD) == blocks
            && ReadFieldValue(block, TABLE_OFFSET_FIELD) == 4096
            && ReadFieldValue(block, TABLE_COUNT_FIELD) == 2
            && ReadFieldValue(block, CREATED_FIELD) == baseTimestamp
  {
    hide ToLittleEndian, ReadFieldValue, Zeros, Pow256, FieldWidth;
    Widths();
    var block := SuperblockBytes(blocks, baseTimestamp);
    ReadsPiece(block, block[..8], 1, 4, VERSION_FIELD);
    ReadsPiece(block, block[..12], 4096, 4, BLOCK_SIZE_FIELD);
    ReadsPiece(block, block[..16], blocks, 4, TOTAL_BLOCKS_FIELD);
    ReadsPiece(block, block[..20], 4096, 8, TABLE_OFFSET_FIELD);
    ReadsPiece(block, block[..28], 2, 4, TABLE_COUNT_FIELD);
    ReadsPiece(block, block[..32], baseTimestamp, 8, CREATED_FIELD);
  }

  /** Entry `k` of the partition table is at 16 and 32 bytes further each; these are its fields. */
  function EntryField(k: nat, offset: nat): FieldDef {
    LittleField("u32", 16 + 32 * k + offset, None)
  }

  /** Both channels, named, begin at block 2, hold half of the video blocks, and are active. */
  lemma PartitionReadsBack(blocks: nat, k: nat)
    requires 2 <= blocks < 0x1_0000_0000 && k < 2
    ensures var block := PartitionBytes(blocks);
            && block[..4] == [0x43, 0x34, 0x50, 0x54]
            && ReadFieldValue(block, LittleField("u32", 4, None)) == 2
            && ReadFieldValue(block, EntryField(k, 0)) == k + 1
            && block[16 + 32 * k + 4..16 + 32 * k + 12] ==
               [0x43, 0x48, 0x5F, 0x30, 0x31 + k as byte, 0x5F, 0x41 + k as byte, 0]
            && ReadFieldValue(block, EntryField(k, 12)) == 2
            && ReadFieldValue(block, EntryField(k, 16)) == (blocks - 2) / 2
            && ReadFieldValue(block, EntryField(k, 20)) == 1
  {
    hide ToLittleEndian, ReadFieldValue, Zeros, Pow256, FieldWidth;
    Widths();
    var block := PartitionBytes(blocks);
    var start := 16 + 32 * k;
    ReadsPiece(block, block[..4], 2, 4, LittleField("u32", 4, None));
    ReadsPiece(block, block[..start], k + 1, 4, EntryField(k, 0));
    ReadsPiece(block, block[..start + 12], 2, 4, EntryField(k, 12));
    ReadsPiece(block, block[..start + 16], (blocks - 2) / 2, 4, EntryField(k, 16));
    ReadsPiece(block, block[..start + 20], 1, 4, EntryField(k, 20));
  }

  // ----- Records and ground truth -----

  lemma KeyframeBit(v: VideoFields)
    ensures FlagsFor(v) & 0x0001 != 0 <==> v.isKeyframe
  {
  }

  /**
   * The records of the video blocks whose header was written: channels in turn, two seconds apart,
   * every tenth sequence number a keyframe, blocks 10 to 13 scrambled and descrambled.
   */
  lemma VideoRecordTable(b: nat, blocks: nat, baseTimestamp: nat, blake3: Digest)
    requires 2 <= b < blocks && 32 <= blocks && b != 22 && b != 23
    ensures var r := ExpectedRecords(blocks, blocks, baseTimestamp, blake3)[b];
            && r.blockIndex == b && r.byteOffset == b * 4096 && r.blockType == VideoFrame
            && r.channelId == (if b % 2 == 0 then 1 else 2)
            && r.timestamp == baseTimestamp + 2 * b && r.sequenceNum == b / 2
            && r.payloadOffset == b * 4096 + 32 && r.payloadLen == 4064
            && (r.isScrambled <==> b in {10, 11, 12, 13}) && (r.descrambled <==> r.isScrambled)
            && !r.isCorrupted
            && (Correlation.ToCorrelationInput(r).isKeyframe <==> b / 2 % 10 == 1)
            && r.blake3Hash == HexDigest(blake3, DiskBlock(b, blocks, baseTimestamp))
  {
    hide HexDigest, DiskBlock, OriginalPayload, NormalizedUnix, FlagsFor;
    KeyframeBit(FieldsOf(b, baseTimestamp));
  }

  /** The text of a record of the disk is that of its timestamp in UTC. */
  lemma VideoRecordText(b: nat, blocks: nat, baseTimestamp: nat, blake3: Digest)
    requires 2 <= b < blocks && 32 <= blocks && b != 22 && b != 23
    requires baseTimestamp + 2 * b < 0x8000_0000_0000_0000 && Timestamps.Representable(baseTimestamp + 2 * b)
    ensures ExpectedRecords(blocks, blocks, baseTimestamp, blake3)[b].normalizedTimestamp ==
            Timestamps.FormatUtc(baseTimestamp + 2 * b)
  {
    hide HexDigest, DiskBlock, OriginalPayload, FlagsFor, Timestamps.NormalizeTimestamp, Timestamps.FormatUtc,
         Timestamps.Representable, Timestamps.ParseTimezoneOffset;
    var s := LocalTime.UnixLocalReading(baseTimestamp + 2 * b, Some("unix_seconds"), Some("UTC"));
    ZoneUtc();
  }

  lemma ZoneUtc()
    ensures Timestamps.ParseTimezoneOffset(Some("UTC")) == 0
  {
    assert Timestamps.ZoneText(Some("UTC")) == "UTC";
  }

  /** Block `b` of the disk, as it stands there. */
  function BlockOnDisk(b: nat, blocks: nat, baseTimestamp: nat): (block: seq<byte>)
    requires b < blocks && 32 <= blocks
    ensures |block| == 4096
  {
    DiskPlace(b, blocks);
    DiskBelow(blocks, blocks, baseTimestamp)[b * 4096..b * 4096 + 4096]
  }

  lemma DiskPlace(b: nat, blocks: nat)
    requires b < blocks
    ensures b * 4096 + 4096 <= blocks * 4096
  {
  }

  lemma BlockStands(b: nat, blocks: nat, baseTimestamp: nat)
    requires b < blocks && 32 <= blocks
    ensures BlockOnDisk(b, blocks, baseTimestamp) == DiskBlock(b, blocks, baseTimestamp)
  {
    hide DiskBlock, DiskBelow, Chunking.Chunks;
    DiskPlace(b, blocks);
    DiskCarving.DiskChunk(b, blocks, baseTimestamp);
    Chunking.ChunkAt(DiskBelow(blocks, blocks, baseTimestamp), 4096, b);
  }

  /**
   * The ground truth of a video block, against the bytes that stand on the disk: digests of the
   * block and of the payload before scrambling, and which blocks are scrambled or zeroed and how.
   */
  lemma TruthDescribesDisk(b: nat, blocks: nat, baseTimestamp: nat, blake3: Hash)
    requires 2 <= b < blocks && 32 <= blocks
    ensures var t := TruthBelow(blocks, blocks, baseTimestamp, blake3)[b];
            var block := BlockOnDisk(b, blocks, baseTimestamp);
            && t.blockIndex == b && t.offset == b * 4096 && t.payloadLen == 4064
            && t.channelId == (if b % 2 == 0 then 1 else 2)
            && t.timestamp == baseTimestamp + 2 * b && t.sequenceNum == b / 2
            && (t.isScrambled <==> b in {10, 11, 12, 13}) && (t.isCorrupted <==> b in {22, 23})
            && t.xorKey == (if t.isScrambled then Some("D4A87E31") else None)
            && t.corruptionType == (if t.isCorrupted then Some("zeroed_header_unallocated_test") else None)
            && t.diskBlockBlake3 == blake3(block)
            && t.originalPayloadBlake3 == blake3(if t.isScrambled then XorKeyed(block[32..]) else block[32..])
            && (t.isCorrupted <==> block[..32] == Zeros(32))
  {
    hide TruthBelow, DiskBelow, BlockOnDisk, Header, OriginalPayload, XorKeyed, Zeros;
    TruthIs(b, blocks, baseTimestamp, blake3);
    BlockStands(b, blocks, baseTimestamp);
    var v := FieldsOf(b, baseTimestamp);
    var block := DiskBlock(b, blocks, baseTimestamp);
    assert block[32..] == if v.isScrambled then XorKeyed(OriginalPayload(v)) else OriginalPayload(v);
    XorInvolution(OriginalPayload(v));
    assert block[..32] == if v.isCorrupted then Zeros(32) else Header(v);
    HeaderIsNotZero(v);
  }

  lemma HeaderIsNotZero(v: VideoFields)
    ensures Header(v) != Zeros(32)
  {
    hide ToLittleEndian, WordToLittleEndian;
    assert Header(v)[0] == 0x43;
    assert Zeros(32)[0] == 0;
  }

  /** The ground truth of the two front blocks. */
  lemma TruthOfFront(b: nat, blocks: nat, baseTimestamp: nat, blake3: Hash)
    requires b < 2 && 32 <= blocks
    ensures TruthBelow(blocks, blocks, baseTimestamp, blake3)[b] ==
            BlockTruth(b, b * 4096, 0, baseTimestamp, 0, 0, false, None, false, None, "",
                       blake3(BlockOnDisk(b, blocks, baseTimestamp)))
  {
    hide TruthBelow, DiskBlock, BlockOnDisk;
    TruthIs(b, blocks, baseTimestamp, blake3);
    BlockStands(b, blocks, baseTimestamp);
  }

  lemma TruthIs(b: nat, blocks: nat, baseTimestamp: nat, blake3: Hash)
    requires b < blocks && 32 <= blocks
    ensures TruthBelow(blocks, blocks, baseTimestamp, blake3)[b] == TruthOf(b, blocks, baseTimestamp, blake3)
  {
    TruthAt(b, blocks, blocks, baseTimestamp, blake3);
  }

  // ----- The checksum field -----

  /** The checksum of the first 26 bytes stands in bytes 26 and 27 of a written header, and zeros follow. */
  lemma ChecksumStands(v: VideoFields)
    requires !v.isCorrupted
    ensures var block := VideoBlock(v);
            && block[26] == LowByte(HeaderCrc.Crc(block[..26])) && block[27] == HighByte(HeaderCrc.Crc(block[..26]))
            && block[28..32] == [0, 0, 0, 0]
  {
    hide HeaderCrc.Crc, HeaderFront, OriginalPayload, LowByte, HighByte;
    var block := VideoBlock(v);
    assert block[..26] == HeaderFront(v);
    assert Zeros(4) == [0, 0, 0, 0];
    assert block[28..32] == Zeros(4);
  }
}
