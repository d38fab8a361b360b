/** What the interpreter makes of any block, by its magics, its fields and its flag bits. */
module InterpreterContents {
  import opened Wrappers
  import opened Bytes
  import opened Grammar
  import opened Records
  import opened Interpreter

  // ----- The kind of a block -----

  /** The bytes of the magic stand at its offset. */
  ghost predicate Stands(block: seq<byte>, magic: MagicDef) {
    exists before, bytes, after ::
      magic.ExpectedBytes() == Success(bytes) && |before| == magic.offset && block == before + bytes + after
  }

  lemma StandsExactly(block: seq<byte>, magic: MagicDef)
    ensures Stands(block, magic) <==>
            magic.ExpectedBytes().Success? && HasBytesAt(block, magic.offset, magic.ExpectedBytes().value)
  {
    if magic.ExpectedBytes().Success? && HasBytesAt(block, magic.offset, magic.ExpectedBytes().value) {
      var bytes := magic.ExpectedBytes().value;
      var before, after := block[..magic.offset], block[magic.offset + |bytes|..];
      assert block == before + bytes + after;
      assert Stands(block, magic);
    }
    if Stands(block, magic) {
      var before, bytes, after :|
        magic.ExpectedBytes() == Success(bytes) && |before| == magic.offset && block == before + bytes + after;
      assert block[magic.offset..magic.offset + |bytes|] == bytes;
    }
  }

  ghost predicate OptionStands(block: seq<byte>, magic: Option<MagicDef>) {
    magic.Some? && Stands(block, magic.value)
  }

  /**
   * A block shorter than the header, or a magic that does not decode, is an error that says so; of
   * any other block the video magic decides first, then the superblock's, then the partition table's.
   */
  lemma KindExactly(grammar: GrammarFile, index: nat, offset: nat, block: seq<byte>, blake3Hash: string)
    ensures var def, result := grammar.videoBlock, InterpretBlock(grammar, index, offset, block, blake3Hash);
            if |block| < def.headerSize then result == Failure(BlockTooSmall(|block|, def.headerSize))
            else if def.magic.ExpectedBytes().Failure? then result == Failure(InvalidMagic)
            else
              && result.Success?
              && (result.value.blockType == VideoFrame <==> Stands(block, def.magic))
              && (result.value.blockType == Superblock <==>
                  !Stands(block, def.magic) && OptionStands(block, grammar.superblockMagic))
              && (result.value.blockType == PartitionTable <==>
                  && !Stands(block, def.magic) && !OptionStands(block, grammar.superblockMagic)
                  && OptionStands(block, grammar.partitionTableMagic))
  {
    hide ApplyFields, Stands, HasBytesAt;
    StandsExactly(block, grammar.videoBlock.magic);
    if grammar.superblockMagic.Some? {
      StandsExactly(block, grammar.superblockMagic.value);
    }
    if grammar.partitionTableMagic.Some? {
      StandsExactly(block, grammar.partitionTableMagic.value);
    }
  }

  /** A block that is no video block: no camera, no time, no flags, and a payload of fixed place and length. */
  lemma OtherBlocks(grammar: GrammarFile, index: nat, offset: nat, block: seq<byte>, blake3Hash: string)
    requires InterpretBlock(grammar, index, offset, block, blake3Hash).Success?
    ensures var r := InterpretBlock(grammar, index, offset, block, blake3Hash).value;
            r.blockType != VideoFrame ==>
              && r.channelId == 0 && r.timestamp == 0 && r.sequenceNum == 0 && r.flags == 0
              && r.normalizedTimestamp == "1970-01-01T00:00:00Z"
              && !r.isScrambled && (r.isCorrupted <==> r.blockType == UnallocatedOrCorrupted)
              && (r.blockType == UnallocatedOrCorrupted ==>
                    && r.payloadOffset == offset + grammar.videoBlock.payloadOffset
                    && r.payloadLen == grammar.videoBlock.defaultLength)
              && (r.blockType != UnallocatedOrCorrupted ==> r.payloadOffset == offset && r.payloadLen == |block|)
  {
    hide ApplyFields, HasBytesAt, MatchesMagic;
  }

  // ----- Fields -----

  function ToBigEndian(n: nat, width: nat): (bytes: seq<byte>)
    ensures |bytes| == width
  {
    if width == 0 then [] else ToBigEndian(n / 256, width - 1) + [ByteOf(n)]
  }

  lemma {:induction false} ReverseAppend(s: seq<byte>, b: byte)
    ensures Reverse(s + [b]) == [b] + Reverse(s)
  {
    if s != [] {
      ReverseAppend(s[1..], b);
      assert (s + [b])[1..] == s[1..] + [b];
    }
  }

  lemma {:induction false} BigIsReversed(n: nat, width: nat)
    ensures Reverse(ToBigEndian(n, width)) == ToLittleEndian(n, width)
  {
    if width > 0 {
      BigIsReversed(n / 256, width - 1);
      ReverseAppend(ToBigEndian(n / 256, width - 1), ByteOf(n));
    }
  }

  /** A big-endian field reads the integer that was written at its offset, most significant byte first. */
  lemma ReadsBigEndian(block: seq<byte>, before: seq<byte>, n: nat, width: nat, after: seq<byte>, field: FieldDef)
    requires block == before + ToBigEndian(n, width) + after
    requires field.offset == |before| && FieldWidth(field.fieldType) == width && field.endian == Some("big")
    ensures ReadFieldValue(block, field) == n % Pow256(width)
  {
    assert block[field.offset..field.offset + width] == ToBigEndian(n, width);
    BigIsReversed(n, width);
    LittleEndianRoundTrip(n, width);
  }

  /** Any field of no or another stated order is little-endian. */
  lemma ReadsLittleEndian(block: seq<byte>, before: seq<byte>, n: nat, width: nat, after: seq<byte>, field: FieldDef)
    requires block == before + ToLittleEndian(n, width) + after
    requires field.offset == |before| && FieldWidth(field.fieldType) == width && field.endian != Some("big")
    ensures ReadFieldValue(block, field) == n % Pow256(width)
  {
    assert block[field.offset..field.offset + width] == ToLittleEndian(n, width);
    LittleEndianRoundTrip(n, width);
  }

  lemma FieldTypes()
    ensures FieldWidth("u8") == 1 && FieldWidth("u16") == 2 && FieldWidth("u32") == 4 && FieldWidth("u64") == 8
  {
  }

  /** A field that ends outside the block, or is of no integer type, reads as zero. */
  lemma ReadsZero(block: seq<byte>, field: FieldDef)
    ensures field.offset + FieldWidth(field.fieldType) > |block| ==> ReadFieldValue(block, field) == 0
    ensures field.fieldType !in {"u8", "u16", "u32", "u64"} ==> ReadFieldValue(block, field) == 0
  {
  }

  // ----- Roles -----

  predicate BitSet(w: bv16, k: nat)
    requires k < 16
  {
    (w >> k) & 1 == 1
  }

  lemma LowBits(w: bv16)
    ensures w & 0x0002 != 0 <==> BitSet(w, 1)
    ensures w & 0x0004 != 0 <==> BitSet(w, 2)
  {
  }

  /** Without masks, bit 1 of the flags means scrambled and bit 2 corrupted. */
  lemma FlagsWithoutMasks(h: HeaderValues, field: FieldDef, value: nat, blockLen: nat)
    requires field.role == Some("flags") && field.flagMasks == None
    ensures var g := ApplyField(h, field, value, blockLen);
            && g.flags == WordOf(value)
            && (g.isScrambled <==> BitSet(WordOf(value), 1))
            && (g.isCorrupted <==> BitSet(WordOf(value), 2))
  {
    hide WordOf;
    LowBits(WordOf(value));
  }

  /** A mask of one bit asks for that bit. */
  lemma MaskOfBit(f: bv16, k: bv32)
    requires k < 16
    ensures HasMask(f, 1 << k) <==> ((f as bv32) >> k) & 1 == 1
  {
  }

  function Common(f: bv16, mask: bv32): bv32 {
    (f as bv32) & mask
  }

  function Join(a: bv32, b: bv32): bv32 {
    a | b
  }

  lemma CommonOfJoin(f: bv16, a: bv32, b: bv32)
    ensures Common(f, Join(a, b)) == Join(Common(f, a), Common(f, b))
  {
  }

  lemma JoinNonzero(a: bv32, b: bv32)
    ensures Join(a, b) != 0 <==> a != 0 || b != 0
  {
  }

  lemma MaskIsCommon(f: bv16, mask: bv32)
    ensures HasMask(f, mask) <==> Common(f, mask) != 0
  {
  }

  /** A mask of several bits asks for any of them. */
  lemma MaskOfBits(f: bv16, a: bv32, b: bv32)
    ensures HasMask(f, Join(a, b)) <==> HasMask(f, a) || HasMask(f, b)
  {
    hide Common, Join, HasMask;
    CommonOfJoin(f, a, b);
    JoinNonzero(Common(f, a), Common(f, b));
    MaskIsCommon(f, a);
    MaskIsCommon(f, b);
    MaskIsCommon(f, Join(a, b));
  }

  /** With masks, each named mask decides its own mark; a mask that is not named leaves its mark alone. */
  lemma FlagsWithMasks(h: HeaderValues, field: FieldDef, masks: map<string, bv32>, value: nat, blockLen: nat)
    requires field.role == Some("flags") && field.flagMasks == Some(masks)
    ensures var g := ApplyField(h, field, value, blockLen);
            && g.flags == WordOf(value)
            && (g.isScrambled <==>
                if "scrambled" in masks then HasMask(WordOf(value), masks["scrambled"]) else h.isScrambled)
            && (g.isCorrupted <==>
                if "corrupted" in masks then HasMask(WordOf(value), masks["corrupted"]) else h.isCorrupted)
  {
    hide WordOf, HasMask;
  }

  /** Channels and sequence numbers keep their low 32 bits, and other roles keep everything. */
  lemma OtherRoles(h: HeaderValues, field: FieldDef, value: nat, blockLen: nat)
    ensures var g := ApplyField(h, field, value, blockLen);
            && (field.role == Some("channel_id") ==> g == h.(channelId := g.channelId))
            && (field.role == Some("channel_id") ==>
                  g.channelId < 0x1_0000_0000 && (value - g.channelId) % 0x1_0000_0000 == 0)
            && (field.role == Some("sequence_num") ==> g == h.(sequenceNum := g.sequenceNum))
            && (field.role == Some("sequence_num") ==>
                  g.sequenceNum < 0x1_0000_0000 && (value - g.sequenceNum) % 0x1_0000_0000 == 0)
            && (field.role == None ==> g == h)
  {
    hide WordOf, HasMask;
  }
}
