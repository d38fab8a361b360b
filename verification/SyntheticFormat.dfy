/** The grammar of the synthetic format, and the proof that interpreting a generated block inverts writing it. */
module SyntheticFormat {
  import opened Wrappers
  import opened Bytes
  import opened Grammar
  import opened Records
  import opened Timestamps
  import opened Interpreter
  import opened Descrambler
  import opened Generator
  import Hex

  // ----- The grammar -----

  function LittleField(fieldType: string, offset: nat, role: Option<string>): FieldDef {
    FieldDef(fieldType, offset, Some("little"), role, None, None, None)
  }

  const CHANNEL_FIELD := LittleField("u32", 4, Some("channel_id"))
  const TIMESTAMP_FIELD :=
    LittleField("u64", 8, Some("timestamp")).(encoding := Some("unix_seconds"), timezone := Some("UTC"))
  const SEQUENCE_FIELD := LittleField("u32", 16, Some("sequence_num"))
  const LENGTH_FIELD := LittleField("u32", 20, Some("payload_length"))
  const MASKS: map<string, bv32> := map["keyframe" := 0x0001, "scrambled" := 0x0002, "corrupted" := 0x0004]
  const FLAGS_FIELD := LittleField("u16", 24, Some("flags")).(flagMasks := Some(MASKS))
  const CRC_FIELD := LittleField("u16", 26, None)

  const VIDEO_FIELDS := [CHANNEL_FIELD, TIMESTAMP_FIELD, SEQUENCE_FIELD, LENGTH_FIELD, FLAGS_FIELD, CRC_FIELD]

  const VIDEO_BLOCK := VideoBlockDef(
    32, MagicDef(0, Some("C4VF"), Some("43345646")), VIDEO_FIELDS, 32, 4064)

  const SYNTHETIC_V1 := GrammarFile(
    Some(MagicDef(0, Some("C4DVR\U{0}\U{1}\U{0}"), Some("4334445652000100"))),
    Some(MagicDef(0, Some("C4PT"), Some("43345054"))),
    VIDEO_BLOCK)

  // ----- Magic bytes -----

  /** Two hex digits of a magic string give its first byte. */
  lemma DecodePair(text: string, h: byte, l: byte, tail: string, rest: seq<byte>, bytes: seq<byte>)
    requires |text| >= 2 && Hex.DigitValue(text[0]) == Some(h) && Hex.DigitValue(text[1]) == Some(l)
    requires text[2..] == tail && Hex.Decode(tail) == Some(rest)
    requires bytes == [Hex.PairValue(h, l)] + rest
    ensures Hex.Decode(text) == Some(bytes)
  {
    hide Hex.DigitValue, Hex.PairValue;
  }

  lemma Digits()
    ensures Hex.DigitValue('0') == Some(0) && Hex.DigitValue('1') == Some(1) && Hex.DigitValue('2') == Some(2)
    ensures Hex.DigitValue('3') == Some(3) && Hex.DigitValue('4') == Some(4) && Hex.DigitValue('5') == Some(5)
    ensures Hex.DigitValue('6') == Some(6)
  {
  }

  lemma Pairs()
    ensures Hex.PairValue(0, 0) == 0 && Hex.PairValue(0, 1) == 1 && Hex.PairValue(3, 4) == 0x34
    ensures Hex.PairValue(4, 3) == 0x43 && Hex.PairValue(4, 4) == 0x44 && Hex.PairValue(4, 6) == 0x46
    ensures Hex.PairValue(5, 0) == 0x50 && Hex.PairValue(5, 2) == 0x52 && Hex.PairValue(5, 4) == 0x54
    ensures Hex.PairValue(5, 6) == 0x56
  {
  }

  lemma VideoMagic()
    ensures VIDEO_BLOCK.magic.ExpectedBytes() == Success(VIDEO_BLOCK_MAGIC)
  {
    hide Hex.DigitValue, Hex.PairValue;
    Digits();
    Pairs();
    DecodePair("46", 4, 6, "", [], [0x46]);
    DecodePair("5646", 5, 6, "46", [0x46], [0x56, 0x46]);
    DecodePair("345646", 3, 4, "5646", [0x56, 0x46], [0x34, 0x56, 0x46]);
    DecodePair("43345646", 4, 3, "345646", [0x34, 0x56, 0x46], [0x43, 0x34, 0x56, 0x46]);
  }

  lemma PartitionMagic()
    ensures MagicDef(0, Some("C4PT"), Some("43345054")).ExpectedBytes() == Success(PARTITION_MAGIC)
  {
    hide Hex.DigitValue, Hex.PairValue;
    Digits();
    Pairs();
    DecodePair("54", 5, 4, "", [], [0x54]);
    DecodePair("5054", 5, 0, "54", [0x54], [0x50, 0x54]);
    DecodePair("345054", 3, 4, "5054", [0x50, 0x54], [0x34, 0x50, 0x54]);
    DecodePair("43345054", 4, 3, "345054", [0x34, 0x50, 0x54], [0x43, 0x34, 0x50, 0x54]);
  }

  lemma SuperblockMagicEnd()
    ensures Hex.Decode("52000100") == Some([0x52, 0x00, 0x01, 0x00])
  {
    hide Hex.DigitValue, Hex.PairValue;
    Digits();
    Pairs();
    DecodePair("00", 0, 0, "", [], [0x00]);
    DecodePair("0100", 0, 1, "00", [0x00], [0x01, 0x00]);
    DecodePair("000100", 0, 0, "0100", [0x01, 0x00], [0x00, 0x01, 0x00]);
    DecodePair("52000100", 5, 2, "000100", [0x00, 0x01, 0x00], [0x52, 0x00, 0x01, 0x00]);
  }

  lemma SuperblockMagicMiddle()
    ensures Hex.Decode("445652000100") == Some([0x44, 0x56, 0x52, 0x00, 0x01, 0x00])
  {
    hide Hex.DigitValue, Hex.PairValue, Hex.Decode;
    Digits();
    Pairs();
    SuperblockMagicEnd();
    DecodePair("5652000100", 5, 6, "52000100", [0x52, 0x00, 0x01, 0x00], [0x56, 0x52, 0x00, 0x01, 0x00]);
    DecodePair(
      "445652000100", 4, 4, "5652000100", [0x56, 0x52, 0x00, 0x01, 0x00], [0x44, 0x56, 0x52, 0x00, 0x01, 0x00]);
  }

  lemma SuperblockMagic()
    ensures SYNTHETIC_V1.superblockMagic.value.ExpectedBytes() == Success(SUPERBLOCK_MAGIC)
  {
    hide Hex.DigitValue, Hex.PairValue, Hex.Decode;
    Digits();
    Pairs();
    SuperblockMagicMiddle();
    var middle: seq<byte> := [0x44, 0x56, 0x52, 0x00, 0x01, 0x00];
    DecodePair("34445652000100", 3, 4, "445652000100", middle, [0x34] + middle);
    DecodePair("4334445652000100", 4, 3, "34445652000100", [0x34] + middle, SUPERBLOCK_MAGIC);
  }

  // ----- Fields -----

  /** An integer field reads the integer that was written at its offset. */
  lemma ReadsWritten(block: seq<byte>, before: seq<byte>, n: nat, width: nat, after: seq<byte>, field: FieldDef)
    requires block == before + ToLittleEndian(n, width) + after
    requires field.offset == |before| && FieldWidth(field.fieldType) == width && field.endian == Some("little")
    ensures ReadFieldValue(block, field) == n % Pow256(width)
  {
    hide FieldWidth;
    LittleEndianRoundTrip(n, width);
    assert block[|before|..|before| + width] == ToLittleEndian(n, width);
  }

  lemma ReadsWrittenWord(block: seq<byte>, before: seq<byte>, w: bv16, after: seq<byte>, field: FieldDef)
    requires block == before + WordToLittleEndian(w) + after
    requires field.offset == |before| && FieldWidth(field.fieldType) == 2 && field.endian == Some("little")
    ensures WordOf(ReadFieldValue(block, field)) == w
  {
    hide FieldWidth, WordOf, WordToLittleEndian;
    WordRoundTrip(w);
    assert block[|before|..|before| + 2] == WordToLittleEndian(w);
  }

  lemma Widths()
    ensures FieldWidth("u16") == 2 && FieldWidth("u32") == 4 && FieldWidth("u64") == 8
    ensures Pow256(4) == 0x1_0000_0000 && Pow256(8) == 0x1_0000_0000_0000_0000
  {
    assert Pow256(2) == 0x1_0000;
    assert Pow256(6) == 0x1_0000_0000_0000;
  }

  /** What the reader needs of the integers: they fit their fields. */
  predicate Fits(v: VideoFields) {
    && v.channelId < 0x1_0000_0000
    && v.timestamp < 0x1_0000_0000_0000_0000
    && v.sequence < 0x1_0000_0000
  }

  lemma SmallModulo(n: nat, m: nat)
    requires n < m
    ensures n % m == n
  {
  }

  lemma PrefixSplit(block: seq<byte>, front: seq<byte>, piece: seq<byte>)
    requires front + piece <= block
    ensures block == front + piece + block[|front + piece|..]
  {
  }

  lemma PrefixTransitive(a: seq<byte>, b: seq<byte>, block: seq<byte>)
    requires a + b <= block
    ensures a <= block
  {
    assert a == (a + b)[..|a|] == block[..|a|];
  }

  // The header before each field.
  function BeforeTimestamp(v: VideoFields): seq<byte> {
    VIDEO_BLOCK_MAGIC + ToLittleEndian(v.channelId, 4)
  }

  function BeforeSequence(v: VideoFields): seq<byte> {
    BeforeTimestamp(v) + ToLittleEndian(v.timestamp, 8)
  }

  function BeforeLength(v: VideoFields): seq<byte> {
    BeforeSequence(v) + ToLittleEndian(v.sequence, 4)
  }

  function BeforeFlags(v: VideoFields): seq<byte> {
    BeforeLength(v) + ToLittleEndian(PAYLOAD_SIZE, 4)
  }

  lemma HeaderPrefixes(v: VideoFields)
    requires !v.isCorrupted
    ensures BeforeFlags(v) + WordToLittleEndian(FlagsFor(v)) <= VideoBlock(v)
    ensures BeforeFlags(v) <= VideoBlock(v) && BeforeLength(v) <= VideoBlock(v)
    ensures BeforeSequence(v) <= VideoBlock(v) && BeforeTimestamp(v) <= VideoBlock(v)
    ensures VIDEO_BLOCK_MAGIC <= VideoBlock(v)
  {
    hide ToLittleEndian, WordToLittleEndian, FlagsFor, OriginalPayload, XorKeyed;
    var block := VideoBlock(v);
    assert HeaderFront(v) == BeforeFlags(v) + WordToLittleEndian(FlagsFor(v));
    assert HeaderFront(v) <= Header(v) <= block;
    PrefixTransitive(BeforeFlags(v), WordToLittleEndian(FlagsFor(v)), block);
    PrefixTransitive(BeforeLength(v), ToLittleEndian(PAYLOAD_SIZE, 4), block);
    PrefixTransitive(BeforeSequence(v), ToLittleEndian(v.sequence, 4), block);
    PrefixTransitive(BeforeTimestamp(v), ToLittleEndian(v.timestamp, 8), block);
    PrefixTransitive(VIDEO_BLOCK_MAGIC, ToLittleEndian(v.channelId, 4), block);
  }

  lemma PrefixLengths(v: VideoFields)
    ensures |BeforeTimestamp(v)| == 8 && |BeforeSequence(v)| == 16
    ensures |BeforeLength(v)| == 20 && |BeforeFlags(v)| == 24
  {
  }

  /** The header fields with a role, read back from a written block. */
  lemma HeaderReadsBack(v: VideoFields)
    requires Fits(v) && !v.isCorrupted
    ensures ReadFieldValue(VideoBlock(v), CHANNEL_FIELD) == v.channelId
    ensures ReadFieldValue(VideoBlock(v), TIMESTAMP_FIELD) == v.timestamp
    ensures ReadFieldValue(VideoBlock(v), SEQUENCE_FIELD) == v.sequence
    ensures ReadFieldValue(VideoBlock(v), LENGTH_FIELD) == PAYLOAD_SIZE
    ensures WordOf(ReadFieldValue(VideoBlock(v), FLAGS_FIELD)) == FlagsFor(v)
  {
    hide ToLittleEndian, WordToLittleEndian, ReadFieldValue, WordOf, FlagsFor, VideoBlock, Pow256, FieldWidth;
    var block := VideoBlock(v);
    Widths();
    HeaderPrefixes(v);
    PrefixLengths(v);
    ReadsPiece(block, VIDEO_BLOCK_MAGIC, v.channelId, 4, CHANNEL_FIELD);
    ReadsPiece(block, BeforeTimestamp(v), v.timestamp, 8, TIMESTAMP_FIELD);
    ReadsPiece(block, BeforeSequence(v), v.sequence, 4, SEQUENCE_FIELD);
    ReadsPiece(block, BeforeLength(v), PAYLOAD_SIZE, 4, LENGTH_FIELD);
    PrefixSplit(block, BeforeFlags(v), WordToLittleEndian(FlagsFor(v)));
    ReadsWrittenWord(block, BeforeFlags(v), FlagsFor(v), block[26..], FLAGS_FIELD);
  }

  lemma ReadsPiece(block: seq<byte>, before: seq<byte>, n: nat, width: nat, field: FieldDef)
    requires before + ToLittleEndian(n, width) <= block && n < Pow256(width)
    requires field.offset == |before| && FieldWidth(field.fieldType) == width && field.endian == Some("little")
    ensures ReadFieldValue(block, field) == n
  {
    hide ToLittleEndian, ReadFieldValue, FieldWidth, Pow256;
    PrefixSplit(block, before, ToLittleEndian(n, width));
    ReadsWritten(block, before, n, width, block[|before + ToLittleEndian(n, width)|..], field);
    SmallModulo(n, Pow256(width));
  }

  // ----- Flags -----

  lemma MaskDistributes(f: bv16, m: bv16, k: bv32)
    ensures ((f | m) as bv32) & k == ((f as bv32) & k) | ((m as bv32) & k)
  {
  }

  lemma OrIsZero(a: bv32, b: bv32)
    ensures a | b == 0 <==> a == 0 && b == 0
  {
  }

  lemma OrMask(f: bv16, m: bv16, k: bv32)
    ensures HasMask(f | m, k) <==> HasMask(f, k) || HasMask(m, k)
  {
    MaskDistributes(f, m, k);
    OrIsZero((f as bv32) & k, (m as bv32) & k);
  }

  lemma SetFlagMask(f: bv16, on: bool, m: bv16, k: bv32)
    ensures HasMask(SetFlag(f, on, m), k) <==> HasMask(f, k) || (on && HasMask(m, k))
  {
    hide HasMask;
    if on {
      OrMask(f, m, k);
    }
  }

  lemma SingleFlags()
    ensures !HasMask(0, 2) && !HasMask(0, 4)
    ensures !HasMask(FLAG_KEYFRAME, 2) && !HasMask(FLAG_KEYFRAME, 4)
    ensures HasMask(FLAG_SCRAMBLED, 2) && !HasMask(FLAG_SCRAMBLED, 4)
    ensures !HasMask(FLAG_CORRUPTED, 2) && HasMask(FLAG_CORRUPTED, 4)
  {
  }

  /** The scrambled and corrupted bits say what the generator meant. */
  lemma FlagsReadBack(v: VideoFields)
    ensures HasMask(FlagsFor(v), 2) <==> v.isScrambled
    ensures HasMask(FlagsFor(v), 4) <==> v.isCorrupted
  {
    hide SetFlag, HasMask;
    SingleFlags();
    var a := SetFlag(0, v.isKeyframe, FLAG_KEYFRAME);
    var b := SetFlag(a, v.isScrambled, FLAG_SCRAMBLED);
    SetFlagMask(0, v.isKeyframe, FLAG_KEYFRAME, 2);
    SetFlagMask(0, v.isKeyframe, FLAG_KEYFRAME, 4);
    SetFlagMask(a, v.isScrambled, FLAG_SCRAMBLED, 2);
    SetFlagMask(a, v.isScrambled, FLAG_SCRAMBLED, 4);
    SetFlagMask(b, v.isCorrupted, FLAG_CORRUPTED, 2);
    SetFlagMask(b, v.isCorrupted, FLAG_CORRUPTED, 4);
  }

  // ----- The whole block -----

  function NormalizedUnix(timestamp: nat): string {
    NormalizeTimestamp(timestamp, Some("unix_seconds"), Some("UTC"))
  }

  function ReadValues(v: VideoFields): HeaderValues {
    HeaderValues(
      v.channelId, v.timestamp, NormalizedUnix(v.timestamp), v.sequence, PAYLOAD_SIZE,
      FlagsFor(v), v.isScrambled, v.isCorrupted)
  }

  lemma ApplyNext(h: HeaderValues, data: seq<byte>, fields: seq<FieldDef>, k: nat)
    requires k < |fields|
    ensures ApplyFields(h, data, fields[..0]) == h
    ensures ApplyFields(h, data, fields[..k + 1]) ==
            ApplyField(ApplyFields(h, data, fields[..k]), fields[k], ReadFieldValue(data, fields[k]), |data|)
  {
    hide ApplyField, ReadFieldValue;
    assert fields[..k + 1][..k] == fields[..k];
  }

  lemma ApplyChannel(h: HeaderValues, value: nat, len: nat)
    ensures ApplyField(h, CHANNEL_FIELD, value, len) == h.(channelId := value % 0x1_0000_0000)
  {
    hide NormalizeTimestamp;
  }

  lemma ApplyTimestamp(h: HeaderValues, value: nat, len: nat)
    ensures ApplyField(h, TIMESTAMP_FIELD, value, len) ==
            h.(timestamp := value, normalizedTimestamp := NormalizedUnix(value))
  {
    hide NormalizeTimestamp;
  }

  lemma ApplySequence(h: HeaderValues, value: nat, len: nat)
    ensures ApplyField(h, SEQUENCE_FIELD, value, len) == h.(sequenceNum := value % 0x1_0000_0000)
  {
    hide NormalizeTimestamp;
  }

  lemma ApplyLength(h: HeaderValues, value: nat, len: nat)
    requires 0 < value <= len
    ensures ApplyField(h, LENGTH_FIELD, value, len) == h.(payloadLen := value)
  {
    hide NormalizeTimestamp;
  }

  lemma ApplyFlagsField(h: HeaderValues, value: nat, len: nat)
    ensures ApplyField(h, FLAGS_FIELD, value, len) ==
            h.(flags := WordOf(value), isScrambled := HasMask(WordOf(value), 2), isCorrupted := HasMask(WordOf(value), 4))
  {
    hide NormalizeTimestamp, HasMask, WordOf;
  }

  lemma ApplyCrc(h: HeaderValues, value: nat, len: nat)
    ensures ApplyField(h, CRC_FIELD, value, len) == h
  {
    hide NormalizeTimestamp;
  }

  lemma FirstFieldsReadBack(v: VideoFields, h: HeaderValues)
    requires Fits(v) && !v.isCorrupted
    ensures ApplyFields(h, VideoBlock(v), VIDEO_FIELDS[..3]) ==
            h.(channelId := v.channelId, timestamp := v.timestamp,
               normalizedTimestamp := NormalizedUnix(v.timestamp), sequenceNum := v.sequence)
  {
    hide ApplyField, ApplyFields, ReadFieldValue, NormalizeTimestamp, VideoBlock, FlagsFor, WordOf;
    var block := VideoBlock(v);
    HeaderReadsBack(v);
    ApplyNext(h, block, VIDEO_FIELDS, 0);
    ApplyNext(h, block, VIDEO_FIELDS, 1);
    ApplyNext(h, block, VIDEO_FIELDS, 2);
    ApplyChannel(h, v.channelId, |block|);
    ApplyTimestamp(ApplyFields(h, block, VIDEO_FIELDS[..1]), v.timestamp, |block|);
    ApplySequence(ApplyFields(h, block, VIDEO_FIELDS[..2]), v.sequence, |block|);
    SmallModulo(v.channelId, 0x1_0000_0000);
    SmallModulo(v.sequence, 0x1_0000_0000);
  }

  lemma FieldsReadBack(v: VideoFields)
    requires Fits(v) && !v.isCorrupted
    ensures ApplyFields(InitialValues(VIDEO_BLOCK), VideoBlock(v), VIDEO_FIELDS) == ReadValues(v)
  {
    hide ApplyField, ApplyFields, ReadFieldValue, NormalizeTimestamp, VideoBlock, FlagsFor, HasMask, WordOf;
    var h, block := InitialValues(VIDEO_BLOCK), VideoBlock(v);
    HeaderReadsBack(v);
    FlagsReadBack(v);
    FirstFieldsReadBack(v, h);
    ApplyNext(h, block, VIDEO_FIELDS, 3);
    ApplyNext(h, block, VIDEO_FIELDS, 4);
    ApplyNext(h, block, VIDEO_FIELDS, 5);
    assert VIDEO_FIELDS[..6] == VIDEO_FIELDS;
    ApplyLength(ApplyFields(h, block, VIDEO_FIELDS[..3]), PAYLOAD_SIZE, |block|);
    ApplyFlagsField(ApplyFields(h, block, VIDEO_FIELDS[..4]), ReadFieldValue(block, FLAGS_FIELD), |block|);
    ApplyCrc(ApplyFields(h, block, VIDEO_FIELDS[..5]), ReadFieldValue(block, CRC_FIELD), |block|);
  }

  /** The record of a video block whose header was written. */
  function WrittenRecord(index: nat, offset: nat, blake3Hash: string, v: VideoFields): ExtractedRecord {
    ExtractedRecord(
      index, offset, v.channelId, v.timestamp, NormalizedUnix(v.timestamp), v.sequence,
      offset + HEADER_SIZE, PAYLOAD_SIZE, FlagsFor(v), v.isScrambled, v.isCorrupted,
      VideoFrame, blake3Hash, false, None)
  }

  /** Interpreting a written video block returns the fields it was written from. */
  lemma InterpretsVideoBlock(index: nat, offset: nat, blake3Hash: string, v: VideoFields)
    requires Fits(v) && !v.isCorrupted
    ensures InterpretBlock(SYNTHETIC_V1, index, offset, VideoBlock(v), blake3Hash) ==
            Success(WrittenRecord(index, offset, blake3Hash, v))
  {
    hide ApplyFields, VideoBlock, NormalizeTimestamp, FlagsFor, MatchesMagic;
    VideoMagic();
    HeaderPrefixes(v);
    FieldsReadBack(v);
    assert HasBytesAt(VideoBlock(v), 0, VIDEO_BLOCK_MAGIC);
  }

  lemma MagicAgrees(block: seq<byte>, magic: seq<byte>, k: nat)
    requires k < |magic| && k < |block|
    ensures HasBytesAt(block, 0, magic) ==> block[k] == magic[k]
    ensures magic <= block ==> HasBytesAt(block, 0, magic) && block[k] == magic[k]
  {
    if HasBytesAt(block, 0, magic) {
      assert block[0..0 + |magic|][k] == block[k];
    }
  }

  /** A block that starts with a zero byte matches no magic of the format. */
  lemma InterpretsZeroedHeader(index: nat, offset: nat, blake3Hash: string, block: seq<byte>)
    requires |block| >= HEADER_SIZE && block[0] == 0
    ensures InterpretBlock(SYNTHETIC_V1, index, offset, block, blake3Hash) ==
            Success(PlainRecord(index, offset, blake3Hash, UnallocatedOrCorrupted, offset + HEADER_SIZE, PAYLOAD_SIZE))
  {
    hide ApplyFields, HasBytesAt;
    VideoMagic();
    SuperblockMagic();
    PartitionMagic();
    MagicAgrees(block, VIDEO_BLOCK_MAGIC, 0);
    MagicAgrees(block, SUPERBLOCK_MAGIC, 0);
    MagicAgrees(block, PARTITION_MAGIC, 0);
  }

  /** A block that starts with the superblock's magic, or with the partition table's, is that. */
  lemma InterpretsFrontBlock(index: nat, offset: nat, blake3Hash: string, block: seq<byte>)
    requires |block| >= HEADER_SIZE
    ensures SUPERBLOCK_MAGIC <= block ==>
              InterpretBlock(SYNTHETIC_V1, index, offset, block, blake3Hash) ==
              Success(PlainRecord(index, offset, blake3Hash, Superblock, offset, |block|))
    ensures PARTITION_MAGIC <= block ==>
              InterpretBlock(SYNTHETIC_V1, index, offset, block, blake3Hash) ==
              Success(PlainRecord(index, offset, blake3Hash, PartitionTable, offset, |block|))
  {
    hide ApplyFields, HasBytesAt;
    VideoMagic();
    SuperblockMagic();
    PartitionMagic();
    MagicAgrees(block, VIDEO_BLOCK_MAGIC, 2);
    MagicAgrees(block, SUPERBLOCK_MAGIC, 2);
    MagicAgrees(block, PARTITION_MAGIC, 2);
  }

  lemma FrontBlocksStart(blocks: nat, baseTimestamp: nat)
    requires blocks >= 2
    ensures SUPERBLOCK_MAGIC <= SuperblockBytes(blocks, baseTimestamp)
    ensures PARTITION_MAGIC <= PartitionBytes(blocks)
  {
    hide ToLittleEndian, PartitionEntry;
  }
}
