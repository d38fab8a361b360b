/** Where a record's payload may lie, and why the parser checks before it descrambles. */
module PayloadGuard {
  import opened Wrappers
  import opened Bytes
  import opened Acquisition
  import opened Grammar
  import opened Records
  import opened Interpreter
  import opened Descrambler
  import opened CaseParser
  import Generator
  import SyntheticFormat

  /** The payload that a record declares ends inside its block. */
  predicate PayloadInside(r: ExtractedRecord, block: seq<byte>) {
    r.payloadOffset >= r.byteOffset && r.payloadOffset - r.byteOffset + r.payloadLen <= |block|
  }

  predicate LengthPlausible(length: nat, def: VideoBlockDef, block: seq<byte>) {
    length == def.defaultLength || 0 < length <= |block|
  }

  lemma {:induction false} DeclaredLength(h: HeaderValues, def: VideoBlockDef, block: seq<byte>, fields: seq<FieldDef>)
    requires LengthPlausible(h.payloadLen, def, block)
    ensures LengthPlausible(ApplyFields(h, block, fields).payloadLen, def, block)
  {
    hide ReadFieldValue;
    if fields != [] {
      var k := |fields| - 1;
      DeclaredLength(h, def, block, fields[..k]);
      FieldKeepsLength(ApplyFields(h, block, fields[..k]), def, block, fields[k], ReadFieldValue(block, fields[k]));
    }
  }

  lemma FieldKeepsLength(h: HeaderValues, def: VideoBlockDef, block: seq<byte>, field: FieldDef, value: nat)
    requires LengthPlausible(h.payloadLen, def, block)
    ensures LengthPlausible(ApplyField(h, field, value, |block|).payloadLen, def, block)
  {
    hide HasMask, WordOf;
  }

  /**
   * What the interpreter promises of a video payload: it starts at the grammar's offset, and it is
   * no longer than the block unless it has the grammar's default length.
   */
  lemma PayloadBounds(
    grammar: GrammarFile, index: nat, offset: nat, block: seq<byte>, blake3Hash: string)
    requires InterpretBlock(grammar, index, offset, block, blake3Hash).Success?
    ensures var r := InterpretBlock(grammar, index, offset, block, blake3Hash).value;
            r.blockType == VideoFrame ==>
              && r.payloadOffset == offset + grammar.videoBlock.payloadOffset
              && LengthPlausible(r.payloadLen, grammar.videoBlock, block)
  {
    hide ApplyFields, HasBytesAt, MatchesMagic;
    DeclaredLength(InitialValues(grammar.videoBlock), grammar.videoBlock, block, grammar.videoBlock.fields);
  }

  // ----- When the payload stays inside the block -----

  /** The length a header declares: the last length field with a value from 1 to the block's length. */
  function LastLength(block: seq<byte>, fields: seq<FieldDef>, otherwise: nat): nat {
    if fields == [] then otherwise
    else
      var last := fields[|fields| - 1];
      var value := ReadFieldValue(block, last);
      if last.role == Some("payload_length") && 0 < value <= |block| then value
      else LastLength(block, fields[..|fields| - 1], otherwise)
  }

  lemma {:induction false} LengthOfFields(h: HeaderValues, block: seq<byte>, fields: seq<FieldDef>)
    ensures ApplyFields(h, block, fields).payloadLen == LastLength(block, fields, h.payloadLen)
  {
    hide ReadFieldValue;
    if fields != [] {
      var k := |fields| - 1;
      LengthOfFields(h, block, fields[..k]);
      FieldLength(ApplyFields(h, block, fields[..k]), fields[k], ReadFieldValue(block, fields[k]), |block|);
    }
  }

  lemma FieldLength(h: HeaderValues, field: FieldDef, value: nat, blockLen: nat)
    ensures ApplyField(h, field, value, blockLen).payloadLen ==
            if field.role == Some("payload_length") && 0 < value <= blockLen then value else h.payloadLen
  {
    hide HasMask, WordOf;
  }

  predicate HasVideoMagic(grammar: GrammarFile, block: seq<byte>) {
    MatchesMagic(block, Some(grammar.videoBlock.magic))
  }

  /** The block is reported as a superblock or as a partition table. */
  predicate IsFront(grammar: GrammarFile, block: seq<byte>) {
    !HasVideoMagic(grammar, block)
    && (MatchesMagic(block, grammar.superblockMagic) || MatchesMagic(block, grammar.partitionTableMagic))
  }

  /** Where the payload of a block that is not a front block ends, counted from the block's start. */
  function PayloadEnd(grammar: GrammarFile, block: seq<byte>): nat {
    var def := grammar.videoBlock;
    def.payloadOffset
    + if HasVideoMagic(grammar, block) then LastLength(block, def.fields, def.defaultLength) else def.defaultLength
  }

  /**
   * The payload of a record lies inside its block if and only if the block is a front block, or the
   * grammar's payload offset and the declared or default length do not exceed the block.
   */
  lemma PayloadInsideExactly(grammar: GrammarFile, index: nat, offset: nat, block: seq<byte>, blake3Hash: string)
    requires InterpretBlock(grammar, index, offset, block, blake3Hash).Success?
    ensures PayloadInside(InterpretBlock(grammar, index, offset, block, blake3Hash).value, block) <==>
            IsFront(grammar, block) || PayloadEnd(grammar, block) <= |block|
  {
    hide ApplyFields, HasBytesAt, LastLength;
    LengthOfFields(InitialValues(grammar.videoBlock), block, grammar.videoBlock.fields);
  }

  // ----- In the synthetic format -----

  /** The payload length a header of the synthetic format stands for. */
  function SyntheticLength(block: seq<byte>): nat {
    var declared := ReadFieldValue(block, SyntheticFormat.LENGTH_FIELD);
    if 0 < declared <= |block| then declared else Generator.PAYLOAD_SIZE
  }

  lemma SyntheticLastLength(block: seq<byte>)
    ensures LastLength(block, SyntheticFormat.VIDEO_FIELDS, Generator.PAYLOAD_SIZE) == SyntheticLength(block)
  {
    hide ReadFieldValue, LastLength;
    var fields := SyntheticFormat.VIDEO_FIELDS;
    assert fields[..6] == fields;
    SkipField(block, fields[..6], Generator.PAYLOAD_SIZE);
    assert fields[..6][..5] == fields[..5];
    SkipField(block, fields[..5], Generator.PAYLOAD_SIZE);
    assert fields[..5][..4] == fields[..4];
    SkipField(block, fields[..4], Generator.PAYLOAD_SIZE);
    assert fields[..4][..3] == fields[..3];
    SkipField(block, fields[..3], Generator.PAYLOAD_SIZE);
    assert fields[..3][..2] == fields[..2];
    SkipField(block, fields[..2], Generator.PAYLOAD_SIZE);
    assert fields[..2][..1] == fields[..1];
    SkipField(block, fields[..1], Generator.PAYLOAD_SIZE);
    assert fields[..1][..0] == [];
    NoFields(block, Generator.PAYLOAD_SIZE);
  }

  lemma NoFields(block: seq<byte>, otherwise: nat)
    ensures LastLength(block, [], otherwise) == otherwise
  {
  }

  lemma SkipField(block: seq<byte>, fields: seq<FieldDef>, otherwise: nat)
    requires fields != []
    ensures var last := fields[|fields| - 1];
            var value := ReadFieldValue(block, last);
            LastLength(block, fields, otherwise) ==
            if last.role == Some("payload_length") && 0 < value <= |block| then value
            else LastLength(block, fields[..|fields| - 1], otherwise)
  {
    hide ReadFieldValue;
  }

  /** A video block of the synthetic format keeps its payload inside exactly if the length leaves room for the header. */
  lemma SyntheticPayloadInside(index: nat, offset: nat, block: seq<byte>, blake3Hash: string)
    requires Generator.VIDEO_BLOCK_MAGIC <= block && |block| >= Generator.HEADER_SIZE
    ensures var r := InterpretBlock(SyntheticFormat.SYNTHETIC_V1, index, offset, block, blake3Hash);
            && r.Success?
            && (PayloadInside(r.value, block) <==> Generator.HEADER_SIZE + SyntheticLength(block) <= |block|)
  {
    hide InterpretBlock, LastLength, SyntheticLength;
    SyntheticFormat.VideoMagic();
    SyntheticFormat.MagicAgrees(block, Generator.VIDEO_BLOCK_MAGIC, 0);
    RecordKeepsProvenance(SyntheticFormat.SYNTHETIC_V1, index, offset, block, blake3Hash);
    SyntheticLastLength(block);
    PayloadInsideExactly(SyntheticFormat.SYNTHETIC_V1, index, offset, block, blake3Hash);
  }

  /** A block of the usual size whose header declares the whole block as its payload. */
  const OVERLONG_BLOCK: seq<byte> :=
    Generator.VIDEO_BLOCK_MAGIC + Zeros(16) + ToLittleEndian(Generator.BLOCK_SIZE, 4) + Zeros(4072)

  /** The declared length is checked against the block, but its end is not: the payload may leave the block. */
  lemma PayloadMayLeaveBlock()
    ensures |OVERLONG_BLOCK| == Generator.BLOCK_SIZE
    ensures var r := InterpretBlock(SyntheticFormat.SYNTHETIC_V1, 2, 2 * Generator.BLOCK_SIZE, OVERLONG_BLOCK, "");
            r.Success? && !PayloadInside(r.value, OVERLONG_BLOCK)
  {
    hide InterpretBlock, ReadFieldValue, Zeros, ToLittleEndian, PayloadInside, Pow256;
    var before := Generator.VIDEO_BLOCK_MAGIC + Zeros(16);
    SyntheticFormat.Widths();
    SyntheticFormat.ReadsPiece(OVERLONG_BLOCK, before, Generator.BLOCK_SIZE, 4, SyntheticFormat.LENGTH_FIELD);
    SyntheticPayloadInside(2, 2 * Generator.BLOCK_SIZE, OVERLONG_BLOCK, "");
  }

  // ----- The guard of the parser -----

  /**
   * The parser descrambles exactly the scrambled, nonempty payloads that end inside their block, and
   * then records the digest of the plain bytes; every other record keeps no descrambled digest.
   */
  lemma DescrambledExactly(grammar: GrammarFile, blake3: Digest, index: nat, offset: nat, block: seq<byte>)
    requires ParseBlock(grammar, Some(XorPlugin), blake3, index, offset, block).Success?
    ensures var r := ParseBlock(grammar, Some(XorPlugin), blake3, index, offset, block).value;
            && r.byteOffset == offset <= r.payloadOffset
            && (r.descrambled <==> r.isScrambled && r.payloadLen > 0 && PayloadInside(r, block))
            && (r.descrambled ==>
                  var payload := block[r.payloadOffset - offset..r.payloadOffset - offset + r.payloadLen];
                  r.descrambledHash == Some(HexDigest(blake3, XorKeyed(payload))))
            && (!r.descrambled ==> r.descrambledHash == None)
  {
    hide InterpretBlock, HexDigest;
    RecordKeepsProvenance(grammar, index, offset, block, HexDigest(blake3, block));
    PayloadNotBefore(grammar, index, offset, block, HexDigest(blake3, block));
  }

  lemma PayloadNotBefore(grammar: GrammarFile, index: nat, offset: nat, block: seq<byte>, blake3Hash: string)
    requires InterpretBlock(grammar, index, offset, block, blake3Hash).Success?
    ensures offset <= InterpretBlock(grammar, index, offset, block, blake3Hash).value.payloadOffset
  {
    hide ApplyFields, HasBytesAt, MatchesMagic;
  }
}
