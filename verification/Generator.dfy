/**
 * The synthetic disk generator (C4FS v1): superblock, partition table, and interleaved video blocks
 * of two channels, with a scrambled region and two blocks whose headers are zeroed.
 */
module Generator {
  import opened Wrappers
  import opened Bytes
  import opened Descrambler
  import HeaderCrc

  const BLOCK_SIZE := 4096
  const HEADER_SIZE := 32
  const PAYLOAD_SIZE := 4064

  const SUPERBLOCK_MAGIC: seq<byte> := [0x43, 0x34, 0x44, 0x56, 0x52, 0x00, 0x01, 0x00]
  const PARTITION_MAGIC: seq<byte> := [0x43, 0x34, 0x50, 0x54]
  const VIDEO_BLOCK_MAGIC: seq<byte> := [0x43, 0x34, 0x56, 0x46]

  const FLAG_KEYFRAME: bv16 := 0x0001
  const FLAG_SCRAMBLED: bv16 := 0x0002
  const FLAG_CORRUPTED: bv16 := 0x0004

  // ----- Payload -----

  const TWO_64 := 0x1_0000_0000_0000_0000

  function XorNat(a: nat, b: nat): nat {
    if a == 0 && b == 0 then 0 else 2 * XorNat(a / 2, b / 2) + (a % 2 + b % 2) % 2
  }

  function LcgStep(state: nat): nat {
    (state * 6364136223846793005 + 1442695040888963407) % TWO_64
  }

  function LcgState(seed: nat, n: nat): nat {
    if n == 0 then seed else LcgStep(LcgState(seed, n - 1))
  }

  function Seed(channelId: nat, sequence: nat): nat {
    XorNat(channelId * 0x1_0000_0000, LcgStep(sequence))
  }

  function NalByte(isKeyframe: bool): byte {
    if isKeyframe then 0x67 else 0x41
  }

  /** A start code, a NAL header byte, and pseudo-random bytes. */
  function Payload(channelId: nat, sequence: nat, isKeyframe: bool): (payload: seq<byte>)
    ensures |payload| == PAYLOAD_SIZE
    ensures payload[..5] == [0, 0, 0, 1, NalByte(isKeyframe)]
  {
    [0, 0, 0, 1, NalByte(isKeyframe)] + RandomBytes(Seed(channelId, sequence), PAYLOAD_SIZE - 5)
  }

  function RandomBytes(seed: nat, n: nat): (bytes: seq<byte>)
    ensures |bytes| == n
  {
    if n == 0 then [] else RandomBytes(seed, n - 1) + [ByteOf(LcgState(seed, n) / 0x2_0000_0000)]
  }

  method GenerateDeterministicPayload(channelId: nat, sequence: nat, isKeyframe: bool)
    returns (payload: array<byte>)
    ensures fresh(payload) && payload[..] == Payload(channelId, sequence, isKeyframe)
  {
    hide LcgStep, ByteOf, XorNat, NalByte;
    payload := new byte[PAYLOAD_SIZE](_ => 0);
    payload[0] := 0x00;
    payload[1] := 0x00;
    payload[2] := 0x00;
    payload[3] := 0x01;
    payload[4] := NalByte(isKeyframe);
    var state := Seed(channelId, sequence);
    assert payload[5..5] == RandomBytes(Seed(channelId, sequence), 0);
    for i := 5 to PAYLOAD_SIZE
      invariant payload.Length == PAYLOAD_SIZE
      invariant payload[..5] == [0, 0, 0, 1, NalByte(isKeyframe)]
      invariant state == LcgState(Seed(channelId, sequence), i - 5)
      invariant payload[5..i] == RandomBytes(Seed(channelId, sequence), i - 5)
    {
      state := LcgStep(state);
      payload[i] := ByteOf(state / 0x2_0000_0000);
      assert payload[5..i + 1] == payload[5..i] + [payload[i]];
    }
    assert payload[..] == payload[..5] + payload[5..PAYLOAD_SIZE];
  }

  // ----- Blocks -----

  /** What one video block is written from. */
  datatype VideoFields = VideoFields(
    channelId: nat, timestamp: nat, sequence: nat, isKeyframe: bool, isScrambled: bool, isCorrupted: bool)

  /** The fields of block `b`: even blocks carry channel 1, odd blocks channel 2, two seconds apart. */
  function FieldsOf(b: nat, baseTimestamp: nat): VideoFields {
    VideoFields(
      if b % 2 == 0 then 1 else 2,
      baseTimestamp + b * 2,
      b / 2,
      b / 2 % 10 == 1,
      10 <= b <= 13,
      22 <= b <= 23)
  }

  function SetFlag(flags: bv16, on: bool, mask: bv16): bv16 {
    if on then flags | mask else flags
  }

  function FlagsFor(v: VideoFields): bv16 {
    SetFlag(SetFlag(SetFlag(0, v.isKeyframe, FLAG_KEYFRAME), v.isScrambled, FLAG_SCRAMBLED),
            v.isCorrupted, FLAG_CORRUPTED)
  }

  /** The header bytes that the checksum covers. */
  function HeaderFront(v: VideoFields): (front: seq<byte>)
    ensures |front| == 26
  {
    VIDEO_BLOCK_MAGIC + ToLittleEndian(v.channelId, 4) + ToLittleEndian(v.timestamp, 8)
    + ToLittleEndian(v.sequence, 4) + ToLittleEndian(PAYLOAD_SIZE, 4) + WordToLittleEndian(FlagsFor(v))
  }

  function Header(v: VideoFields): (header: seq<byte>)
    ensures |header| == HEADER_SIZE
  {
    HeaderFront(v) + WordToLittleEndian(HeaderCrc.Crc(HeaderFront(v))) + Zeros(4)
  }

  function OriginalPayload(v: VideoFields): (payload: seq<byte>)
    ensures |payload| == PAYLOAD_SIZE
  {
    Payload(v.channelId, v.sequence, v.isKeyframe)
  }

  function VideoBlock(v: VideoFields): (block: seq<byte>)
    ensures |block| == BLOCK_SIZE
  {
    (if v.isCorrupted then Zeros(HEADER_SIZE) else Header(v))
    + (if v.isScrambled then XorKeyed(OriginalPayload(v)) else OriginalPayload(v))
  }

  function SuperblockBytes(blocks: nat, baseTimestamp: nat): (block: seq<byte>)
    ensures |block| == BLOCK_SIZE
  {
    SUPERBLOCK_MAGIC + ToLittleEndian(1, 4) + ToLittleEndian(BLOCK_SIZE, 4) + ToLittleEndian(blocks, 4)
    + ToLittleEndian(BLOCK_SIZE, 8) + ToLittleEndian(2, 4) + ToLittleEndian(baseTimestamp, 8)
    + ToLittleEndian(0, 4) + Zeros(4052)
  }

  function PartitionEntry(channelId: nat, name: seq<byte>, streamBlocks: nat): seq<byte> {
    ToLittleEndian(channelId, 4) + name + ToLittleEndian(2, 4) + ToLittleEndian(streamBlocks, 4) + ToLittleEndian(1, 4)
  }

  const NAME_A: seq<byte> := [0x43, 0x48, 0x5F, 0x30, 0x31, 0x5F, 0x41, 0x00]
  const NAME_B: seq<byte> := [0x43, 0x48, 0x5F, 0x30, 0x32, 0x5F, 0x42, 0x00]

  function PartitionBytes(blocks: nat): (block: seq<byte>)
    requires blocks >= 2
    ensures |block| == BLOCK_SIZE
  {
    PARTITION_MAGIC + ToLittleEndian(2, 4) + Zeros(8)
    + PartitionEntry(1, NAME_A, (blocks - 2) / 2) + Zeros(8)
    + PartitionEntry(2, NAME_B, (blocks - 2) / 2) + Zeros(4024)
  }

  function DiskBlock(b: nat, blocks: nat, baseTimestamp: nat): (block: seq<byte>)
    requires blocks >= 2
    ensures |block| == BLOCK_SIZE
  {
    if b == 0 then SuperblockBytes(blocks, baseTimestamp)
    else if b == 1 then PartitionBytes(blocks)
    else VideoBlock(FieldsOf(b, baseTimestamp))
  }

  /** The first `n` blocks of the disk. */
  function DiskBelow(n: nat, blocks: nat, baseTimestamp: nat): (disk: seq<byte>)
    requires blocks >= 2
    ensures |disk| == n * BLOCK_SIZE
  {
    if n == 0 then [] else DiskBelow(n - 1, blocks, baseTimestamp) + DiskBlock(n - 1, blocks, baseTimestamp)
  }

  // ----- Ground truth -----

  type Hash = seq<byte> -> string

  datatype BlockTruth = BlockTruth(
    blockIndex: nat,
    offset: nat,
    channelId: nat,
    timestamp: nat,
    sequenceNum: nat,
    payloadLen: nat,
    isScrambled: bool,
    xorKey: Option<string>,
    isCorrupted: bool,
    corruptionType: Option<string>,
    originalPayloadBlake3: string,
    diskBlockBlake3: string)

  function TruthOf(b: nat, blocks: nat, baseTimestamp: nat, blake3: Hash): BlockTruth
    requires blocks >= 2
  {
    var block := DiskBlock(b, blocks, baseTimestamp);
    if b < 2 then
      BlockTruth(b, b * BLOCK_SIZE, 0, baseTimestamp, 0, 0, false, None, false, None, "", blake3(block))
    else
      var v := FieldsOf(b, baseTimestamp);
      BlockTruth(
        b, b * BLOCK_SIZE, v.channelId, v.timestamp, v.sequence, PAYLOAD_SIZE,
        v.isScrambled, if v.isScrambled then Some("D4A87E31") else None,
        v.isCorrupted, if v.isCorrupted then Some("zeroed_header_unallocated_test") else None,
        blake3(OriginalPayload(v)), blake3(block))
  }

  function TruthBelow(n: nat, blocks: nat, baseTimestamp: nat, blake3: Hash): (truth: seq<BlockTruth>)
    requires blocks >= 2
    ensures |truth| == n
  {
    if n == 0 then []
    else TruthBelow(n - 1, blocks, baseTimestamp, blake3) + [TruthOf(n - 1, blocks, baseTimestamp, blake3)]
  }

  // ----- The code -----

  /** `copy_from_slice` into a buffer: the bytes from `from` on are replaced, the others stay. */
  method Put(a: array<byte>, from: nat, bytes: seq<byte>)
    requires from + |bytes| <= a.Length
    modifies a
    ensures a[..] == old(a[..from]) + bytes + old(a[from + |bytes|..])
  {
    for i := 0 to |bytes|
      invariant a[..from] == old(a[..from])
      invariant a[from..from + i] == bytes[..i]
      invariant a[from + i..] == old(a[from + i..])
    {
      a[from + i] := bytes[i];
      assert a[from..from + i + 1] == a[from..from + i] + [bytes[i]];
      assert a[from + i + 1..] == a[from + i..][1..] == old(a[from + i..])[1..];
    }
    assert a[..] == a[..from] + a[from..from + |bytes|] + a[from + |bytes|..];
  }

  /** Writing the next field of a buffer whose remainder is still zero. */
  method Append(a: array<byte>, ghost done: seq<byte>, from: nat, bytes: seq<byte>)
    requires from == |done| && from + |bytes| <= a.Length
    requires a[..] == done + Zeros(a.Length - from)
    modifies a
    ensures a[..] == done + bytes + Zeros(a.Length - from - |bytes|)
  {
    Put(a, from, bytes);
    assert old(a[..from]) == old(a[..])[..from] == done;
    assert old(a[from + |bytes|..]) == old(a[..])[from + |bytes|..] == Zeros(a.Length - from - |bytes|);
  }

  method BuildSuperblock(blocks: nat, baseTimestamp: nat) returns (block: seq<byte>)
    ensures block == SuperblockBytes(blocks, baseTimestamp)
  {
    hide ToLittleEndian;
    var a := new byte[BLOCK_SIZE](_ => 0);
    assert a[..] == [] + Zeros(BLOCK_SIZE);
    Append(a, [], 0, SUPERBLOCK_MAGIC);
    ghost var d1 := [] + SUPERBLOCK_MAGIC;
    Append(a, d1, 8, ToLittleEndian(1, 4));
    ghost var d2 := d1 + ToLittleEndian(1, 4);
    Append(a, d2, 12, ToLittleEndian(BLOCK_SIZE, 4));
    ghost var d3 := d2 + ToLittleEndian(BLOCK_SIZE, 4);
    Append(a, d3, 16, ToLittleEndian(blocks, 4));
    ghost var d4 := d3 + ToLittleEndian(blocks, 4);
    Append(a, d4, 20, ToLittleEndian(BLOCK_SIZE, 8));
    ghost var d5 := d4 + ToLittleEndian(BLOCK_SIZE, 8);
    Append(a, d5, 28, ToLittleEndian(2, 4));
    ghost var d6 := d5 + ToLittleEndian(2, 4);
    Append(a, d6, 32, ToLittleEndian(baseTimestamp, 8));
    ghost var d7 := d6 + ToLittleEndian(baseTimestamp, 8);
    Append(a, d7, 40, ToLittleEndian(0, 4));
    assert d1 == SUPERBLOCK_MAGIC;
    block := a[..];
  }

  method BuildPartitionTable(blocks: nat) returns (block: seq<byte>)
    requires blocks >= 2
    ensures block == PartitionBytes(blocks)
  {
    hide ToLittleEndian;
    var a := new byte[BLOCK_SIZE](_ => 0);
    assert a[..] == [] + Zeros(BLOCK_SIZE);
    Append(a, [], 0, PARTITION_MAGIC);
    ghost var d1 := [] + PARTITION_MAGIC;
    Append(a, d1, 4, ToLittleEndian(2, 4));
    ghost var d2 := d1 + ToLittleEndian(2, 4) + Zeros(8);
    var streamBlocks := (blocks - 2) / 2;
    assert a[..] == d2 + Zeros(BLOCK_SIZE - 16) by {
      assert Zeros(BLOCK_SIZE - 8) == Zeros(8) + Zeros(BLOCK_SIZE - 16);
    }
    AppendEntry(a, d2, 16, 1, NAME_A, streamBlocks);
    ghost var d3 := d2 + PartitionEntry(1, NAME_A, streamBlocks) + Zeros(8);
    assert a[..] == d3 + Zeros(BLOCK_SIZE - 48) by {
      assert Zeros(BLOCK_SIZE - 40) == Zeros(8) + Zeros(BLOCK_SIZE - 48);
    }
    AppendEntry(a, d3, 48, 2, NAME_B, streamBlocks);
    assert d1 == PARTITION_MAGIC;
    block := a[..];
  }

  method AppendEntry(
    a: array<byte>, ghost done: seq<byte>, from: nat, channelId: nat, name: seq<byte>, streamBlocks: nat)
    requires from == |done| && from + 24 <= a.Length && |name| == 8
    requires a[..] == done + Zeros(a.Length - from)
    modifies a
    ensures a[..] == done + PartitionEntry(channelId, name, streamBlocks) + Zeros(a.Length - from - 24)
  {
    hide ToLittleEndian;
    Append(a, done, from, ToLittleEndian(channelId, 4));
    ghost var d1 := done + ToLittleEndian(channelId, 4);
    Append(a, d1, from + 4, name);
    ghost var d2 := d1 + name;
    Append(a, d2, from + 12, ToLittleEndian(2, 4));
    ghost var d3 := d2 + ToLittleEndian(2, 4);
    Append(a, d3, from + 16, ToLittleEndian(streamBlocks, 4));
    ghost var d4 := d3 + ToLittleEndian(streamBlocks, 4);
    Append(a, d4, from + 20, ToLittleEndian(1, 4));
    assert d4 + ToLittleEndian(1, 4) == done + PartitionEntry(channelId, name, streamBlocks);
  }

  method BuildHeader(v: VideoFields, flags: bv16) returns (header: array<byte>)
    requires flags == FlagsFor(v)
    ensures fresh(header) && header[..] == Header(v)
  {
    hide ToLittleEndian, FlagsFor, WordToLittleEndian;
    header := new byte[HEADER_SIZE](_ => 0);
    assert header[..] == [] + Zeros(HEADER_SIZE);
    Append(header, [], 0, VIDEO_BLOCK_MAGIC);
    ghost var d1 := [] + VIDEO_BLOCK_MAGIC;
    Append(header, d1, 4, ToLittleEndian(v.channelId, 4));
    ghost var d2 := d1 + ToLittleEndian(v.channelId, 4);
    Append(header, d2, 8, ToLittleEndian(v.timestamp, 8));
    ghost var d3 := d2 + ToLittleEndian(v.timestamp, 8);
    Append(header, d3, 16, ToLittleEndian(v.sequence, 4));
    ghost var d4 := d3 + ToLittleEndian(v.sequence, 4);
    Append(header, d4, 20, ToLittleEndian(PAYLOAD_SIZE, 4));
    ghost var d5 := d4 + ToLittleEndian(PAYLOAD_SIZE, 4);
    Append(header, d5, 24, WordToLittleEndian(flags));
    ghost var front := d5 + WordToLittleEndian(flags);
    assert d1 == VIDEO_BLOCK_MAGIC;
    assert front == HeaderFront(v);
    var covered := header[0..26];
    assert covered == header[..][..26] == front;
    var crc := HeaderCrc.ComputeHeaderCrc(covered);
    Append(header, front, 26, WordToLittleEndian(crc));
  }

  /** The scrambling loop of the generator: the key byte is chosen by the index in the payload. */
  method Scramble(payload: array<byte>)
    modifies payload
    ensures payload[..] == XorKeyed(old(payload[..]))
  {
    if payload.Length > 0 {
      var code := Descramble(payload);
    }
  }

  method BuildVideoBlock(v: VideoFields) returns (block: seq<byte>, originalPayload: seq<byte>)
    ensures block == VideoBlock(v) && originalPayload == OriginalPayload(v)
  {
    hide Payload, Header, XorKeyed;
    var flags: bv16 := 0;
    if v.isKeyframe {
      flags := flags | FLAG_KEYFRAME;
    }
    if v.isScrambled {
      flags := flags | FLAG_SCRAMBLED;
    }
    if v.isCorrupted {
      flags := flags | FLAG_CORRUPTED;
    }
    var payload := GenerateDeterministicPayload(v.channelId, v.sequence, v.isKeyframe);
    originalPayload := payload[..];
    if v.isScrambled {
      Scramble(payload);
    }
    var header := BuildHeader(v, flags);
    if v.isCorrupted {
      header := new byte[HEADER_SIZE](_ => 0);
      assert header[..] == Zeros(HEADER_SIZE);
    }
    block := header[..] + payload[..];
  }

  /** The body of the block loop, once the channel and its next sequence number are known. */
  method GenerateBlock(b: nat, channelId: nat, sequence: nat, blocks: nat, baseTimestamp: nat, blake3: Hash)
    returns (block: seq<byte>, truth: BlockTruth)
    requires 2 <= b < blocks
    requires channelId == FieldsOf(b, baseTimestamp).channelId && sequence == FieldsOf(b, baseTimestamp).sequence
    ensures block == DiskBlock(b, blocks, baseTimestamp)
    ensures truth == TruthOf(b, blocks, baseTimestamp, blake3)
  {
    hide VideoBlock, SuperblockBytes, PartitionBytes, OriginalPayload;
    var timestamp := baseTimestamp + b * 2;
    var isKeyframe := sequence % 10 == 1;
    var isScrambled := 10 <= b <= 13;
    var isCorrupted := 22 <= b <= 23;
    var originalPayload;
    block, originalPayload :=
      BuildVideoBlock(VideoFields(channelId, timestamp, sequence, isKeyframe, isScrambled, isCorrupted));
    truth := BlockTruth(
      b, b * BLOCK_SIZE, channelId, timestamp, sequence, PAYLOAD_SIZE,
      isScrambled, if isScrambled then Some("D4A87E31") else None,
      isCorrupted, if isCorrupted then Some("zeroed_header_unallocated_test") else None,
      blake3(originalPayload), blake3(block));
  }

  /** Blocks 0 and 1. */
  method GenerateFront(blocks: nat, baseTimestamp: nat, blake3: Hash)
    returns (diskData: seq<byte>, truth: seq<BlockTruth>)
    requires blocks >= 32
    ensures diskData == DiskBelow(2, blocks, baseTimestamp)
    ensures truth == TruthBelow(2, blocks, baseTimestamp, blake3)
  {
    hide SuperblockBytes, PartitionBytes;
    var block0 := BuildSuperblock(blocks, baseTimestamp);
    var truth0 := BlockTruth(0, 0, 0, baseTimestamp, 0, 0, false, None, false, None, "", blake3(block0));
    assert truth0 == TruthOf(0, blocks, baseTimestamp, blake3);
    var block1 := BuildPartitionTable(blocks);
    var truth1 := BlockTruth(1, BLOCK_SIZE, 0, baseTimestamp, 0, 0, false, None, false, None, "", blake3(block1));
    assert truth1 == TruthOf(1, blocks, baseTimestamp, blake3);
    diskData, truth := block0 + block1, [truth0, truth1];
    assert DiskBelow(1, blocks, baseTimestamp) == [] + block0 == block0;
    assert TruthBelow(1, blocks, baseTimestamp, blake3) == [truth0];
  }

  datatype GeneratorError = TooFewBlocks

  // How many video blocks below `b` carry channel 1, and how many channel 2.

  function EvenBlocks(b: nat): nat
    requires b >= 2
  {
    (b - 1) / 2
  }

  function OddBlocks(b: nat): nat
    requires b >= 2
  {
    (b - 2) / 2
  }

  lemma NoVideoBlocks()
    ensures EvenBlocks(2) == 0 && OddBlocks(2) == 0
  {
  }

  lemma CountBlock(b: nat, baseTimestamp: nat)
    requires b >= 2
    ensures EvenBlocks(b + 1) == EvenBlocks(b) + if b % 2 == 0 then 1 else 0
    ensures OddBlocks(b + 1) == OddBlocks(b) + if b % 2 == 0 then 0 else 1
    ensures FieldsOf(b, baseTimestamp).sequence == if b % 2 == 0 then EvenBlocks(b + 1) else OddBlocks(b + 1)
    ensures FieldsOf(b, baseTimestamp).channelId == if b % 2 == 0 then 1 else 2
  {
  }

  /** The disk image and the ground truth of the first `b` blocks. */
  ghost predicate Written(
    diskData: seq<byte>, truth: seq<BlockTruth>, b: nat, blocks: nat, baseTimestamp: nat, blake3: Hash)
    requires blocks >= 2
  {
    diskData == DiskBelow(b, blocks, baseTimestamp) && truth == TruthBelow(b, blocks, baseTimestamp, blake3)
  }

  lemma WrittenIs(
    diskData: seq<byte>, truth: seq<BlockTruth>, b: nat, blocks: nat, baseTimestamp: nat, blake3: Hash)
    requires blocks >= 2
    ensures Written(diskData, truth, b, blocks, baseTimestamp, blake3) <==>
            diskData == DiskBelow(b, blocks, baseTimestamp) && truth == TruthBelow(b, blocks, baseTimestamp, blake3)
  {
  }

  lemma WrittenNext(
    diskData: seq<byte>, truth: seq<BlockTruth>, b: nat, blocks: nat, baseTimestamp: nat, blake3: Hash)
    requires blocks >= 2 && Written(diskData, truth, b, blocks, baseTimestamp, blake3)
    ensures Written(diskData + DiskBlock(b, blocks, baseTimestamp), truth + [TruthOf(b, blocks, baseTimestamp, blake3)],
                    b + 1, blocks, baseTimestamp, blake3)
  {
    hide DiskBlock, TruthOf;
  }

  /**
   * The block loop: the disk image and its ground truth. The counters of the two channels give every
   * block the sequence number `b / 2`.
   */
  method Generate(blocks: nat, baseTimestamp: nat, blake3: Hash)
    returns (r: Result<(seq<byte>, seq<BlockTruth>), GeneratorError>)
    ensures blocks < 32 <==> r.Failure?
    ensures r.Success? ==>
              && r.value.0 == DiskBelow(blocks, blocks, baseTimestamp)
              && r.value.1 == TruthBelow(blocks, blocks, baseTimestamp, blake3)
  {
    if blocks < 32 {
      return Failure(TooFewBlocks);
    }
    hide Written, DiskBlock, TruthOf, DiskBelow, TruthBelow, FieldsOf, EvenBlocks, OddBlocks;
    NoVideoBlocks();
    var diskData, truth := GenerateFront(blocks, baseTimestamp, blake3);
    WrittenIs(diskData, truth, 2, blocks, baseTimestamp, blake3);
    var seqCh1, seqCh2 := 0, 0;
    for b := 2 to blocks
      invariant Written(diskData, truth, b, blocks, baseTimestamp, blake3)
      invariant seqCh1 == EvenBlocks(b) && seqCh2 == OddBlocks(b)
    {
      CountBlock(b, baseTimestamp);
      var channelId, sequence;
      if b % 2 == 0 {
        seqCh1 := seqCh1 + 1;
        channelId, sequence := 1, seqCh1;
      } else {
        seqCh2 := seqCh2 + 1;
        channelId, sequence := 2, seqCh2;
      }
      var block, truthBlock := GenerateBlock(b, channelId, sequence, blocks, baseTimestamp, blake3);
      WrittenNext(diskData, truth, b, blocks, baseTimestamp, blake3);
      diskData := diskData + block;
      truth := truth + [truthBlock];
    }
    WrittenIs(diskData, truth, blocks, blocks, baseTimestamp, blake3);
    return Success((diskData, truth));
  }
}
