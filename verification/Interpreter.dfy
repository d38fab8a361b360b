/** Interpreting one block by the grammar: magic bytes, header fields by role, and the record. */
module Interpreter {
  import opened Wrappers
  import opened Bytes
  import opened Grammar
  import opened Records
  import opened Timestamps

  datatype ParserError = BlockTooSmall(actual: nat, expected: nat) | InvalidMagic | SourceReadFailed

  // ----- Fields -----

  function FieldWidth(fieldType: string): nat {
    if fieldType == "u8" then 1
    else if fieldType == "u16" then 2
    else if fieldType == "u32" then 4
    else if fieldType == "u64" then 8
    else 0
  }

  /** A field that does not fit the block, or has another type, reads as zero. */
  function ReadFieldValue(data: seq<byte>, field: FieldDef): nat {
    var width := FieldWidth(field.fieldType);
    if field.offset + width > |data| then 0
    else
      var slice := data[field.offset..field.offset + width];
      if field.endian == Some("big") then FromBigEndian(slice) else FromLittleEndian(slice)
  }

  /** The local variables of the field loop. */
  datatype HeaderValues = HeaderValues(
    channelId: nat,
    timestamp: nat,
    normalizedTimestamp: string,
    sequenceNum: nat,
    payloadLen: nat,
    flags: bv16,
    isScrambled: bool,
    isCorrupted: bool)

  function InitialValues(def: VideoBlockDef): HeaderValues {
    HeaderValues(0, 0, EPOCH_TEXT, 0, def.defaultLength, 0, false, false)
  }

  predicate HasMask(flags: bv16, mask: bv32) {
    (flags as bv32) & mask != 0
  }

  predicate MaskSet(masks: map<string, bv32>, name: string, flags: bv16, otherwise: bool) {
    if name in masks then HasMask(flags, masks[name]) else otherwise
  }

  function ApplyFlags(h: HeaderValues, field: FieldDef, flags: bv16): HeaderValues {
    match field.flagMasks
    case Some(masks) =>
      h.(flags := flags,
         isScrambled := MaskSet(masks, "scrambled", flags, h.isScrambled),
         isCorrupted := MaskSet(masks, "corrupted", flags, h.isCorrupted))
    case None =>
      h.(flags := flags, isScrambled := flags & 0x0002 != 0, isCorrupted := flags & 0x0004 != 0)
  }

  /** What one field of the header does to the values read so far. */
  function ApplyField(h: HeaderValues, field: FieldDef, value: nat, blockLen: nat): HeaderValues {
    if field.role == Some("channel_id") then h.(channelId := value % 0x1_0000_0000)
    else if field.role == Some("timestamp") then
      h.(timestamp := value,
         normalizedTimestamp := NormalizeTimestamp(value, field.encoding, field.timezone))
    else if field.role == Some("sequence_num") then h.(sequenceNum := value % 0x1_0000_0000)
    else if field.role == Some("payload_length") then
      if 0 < value <= blockLen then h.(payloadLen := value) else h
    else if field.role == Some("flags") then ApplyFlags(h, field, WordOf(value))
    else h
  }

  function ApplyFields(h: HeaderValues, data: seq<byte>, fields: seq<FieldDef>): HeaderValues {
    if fields == [] then h
    else
      var k := |fields| - 1;
      ApplyField(ApplyFields(h, data, fields[..k]), fields[k], ReadFieldValue(data, fields[k]), |data|)
  }

  function VideoRecord(
    blockIndex: nat, byteOffset: nat, blake3Hash: string, def: VideoBlockDef, h: HeaderValues): ExtractedRecord
  {
    ExtractedRecord(
      blockIndex, byteOffset, h.channelId, h.timestamp, h.normalizedTimestamp, h.sequenceNum,
      byteOffset + def.payloadOffset, h.payloadLen, h.flags, h.isScrambled, h.isCorrupted,
      VideoFrame, blake3Hash, false, None)
  }

  /** The loop over the fields that the grammar defines, in their order. */
  method ParseVideoBlock(
    blockIndex: nat, byteOffset: nat, block: seq<byte>, blake3Hash: string, def: VideoBlockDef)
    returns (r: ExtractedRecord)
    ensures r == VideoRecord(blockIndex, byteOffset, blake3Hash, def,
                             ApplyFields(InitialValues(def), block, def.fields))
  {
    hide ReadFieldValue, NormalizeTimestamp, HasMask, WordOf;
    var h := InitialValues(def);
    for i := 0 to |def.fields|
      invariant h == ApplyFields(InitialValues(def), block, def.fields[..i])
    {
      assert def.fields[..i + 1][..i] == def.fields[..i];
      var value := ReadFieldValue(block, def.fields[i]);
      h := ApplyField(h, def.fields[i], value, |block|);
    }
    assert def.fields[..|def.fields|] == def.fields;
    r := VideoRecord(blockIndex, byteOffset, blake3Hash, def, h);
  }

  // ----- Blocks -----

  predicate HasBytesAt(block: seq<byte>, offset: nat, expected: seq<byte>) {
    offset + |expected| <= |block| && block[offset..offset + |expected|] == expected
  }

  /** An optional magic that is missing or does not decode matches nothing. */
  predicate MatchesMagic(block: seq<byte>, magic: Option<MagicDef>) {
    && magic.Some?
    && magic.value.ExpectedBytes().Success?
    && HasBytesAt(block, magic.value.offset, magic.value.ExpectedBytes().value)
  }

  function PlainRecord(
    blockIndex: nat, byteOffset: nat, blake3Hash: string, blockType: BlockType,
    payloadOffset: nat, payloadLen: nat): ExtractedRecord
  {
    ExtractedRecord(
      blockIndex, byteOffset, 0, 0, EPOCH_TEXT, 0, payloadOffset, payloadLen, 0, false,
      blockType == UnallocatedOrCorrupted, blockType, blake3Hash, false, None)
  }

  function InterpretBlock(
    grammar: GrammarFile, blockIndex: nat, byteOffset: nat, block: seq<byte>, blake3Hash: string)
    : Result<ExtractedRecord, ParserError>
  {
    var def := grammar.videoBlock;
    if |block| < def.headerSize then Failure(BlockTooSmall(|block|, def.headerSize))
    else
      match def.magic.ExpectedBytes()
      case Failure(_) => Failure(InvalidMagic)
      case Success(magic) =>
        if HasBytesAt(block, def.magic.offset, magic) then
          Success(VideoRecord(blockIndex, byteOffset, blake3Hash, def,
                              ApplyFields(InitialValues(def), block, def.fields)))
        else if MatchesMagic(block, grammar.superblockMagic) then
          Success(PlainRecord(blockIndex, byteOffset, blake3Hash, Superblock, byteOffset, |block|))
        else if MatchesMagic(block, grammar.partitionTableMagic) then
          Success(PlainRecord(blockIndex, byteOffset, blake3Hash, PartitionTable, byteOffset, |block|))
        else
          Success(PlainRecord(blockIndex, byteOffset, blake3Hash, UnallocatedOrCorrupted,
                              byteOffset + def.payloadOffset, def.defaultLength))
  }

  /** Whatever the block, the record carries the index, offset and digest it was read with. */
  lemma RecordKeepsProvenance(
    grammar: GrammarFile, blockIndex: nat, byteOffset: nat, block: seq<byte>, blake3Hash: string)
    ensures InterpretBlock(grammar, blockIndex, byteOffset, block, blake3Hash).Success? <==>
            |block| >= grammar.videoBlock.headerSize && grammar.videoBlock.magic.ExpectedBytes().Success?
    ensures var r := InterpretBlock(grammar, blockIndex, byteOffset, block, blake3Hash);
            r.Success? ==>
              && r.value.blockIndex == blockIndex && r.value.byteOffset == byteOffset
              && r.value.blake3Hash == blake3Hash
              && !r.value.descrambled && r.value.descrambledHash == None
  {
    hide ApplyFields, MatchesMagic, HasBytesAt;
  }
}
