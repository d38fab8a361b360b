/** Carving the blocks of a generated disk. */
module DiskCarving {
  import opened Bytes
  import opened Chunking
  import opened Generator
  import opened Carver
  import opened CarverTiling
  import opened CarverWindow
  import opened CarverBlocks
  import opened CarverDriver
  import opened CarverClasses
  import GeneratedDisk

  // ----- The payload's own start code -----

  /** What every unscrambled payload begins with, behind a header of 32 bytes. */
  predicate StartsPayload(data: seq<byte>, header: byte) {
    |data| >= 37 && data[32..36] == [0, 0, 0, 1] && data[36] == header
  }

  ghost predicate HasFrame(frames: seq<CarvedFrame>, offset: nat, nal: NalClassification) {
    exists m :: 0 <= m < |frames| && frames[m].byteOffset == offset && frames[m].nal == nal
  }

  lemma PayloadFrame(data: seq<byte>, base: nat, header: byte, blake3: Hash)
    requires StartsPayload(data, header) && header != 0
    ensures HasFrame(Carve(data, base, blake3), base + 32, ClassifyNalHeader(header))
  {
    hide Carve, CodesBelow, ClassifyNalHeader;
    var codes := StartCodes(data);
    assert data[32] == data[32..36][0] && data[33] == data[32..36][1];
    assert data[34] == data[32..36][2] && data[35] == data[32..36][3];
    var k := CodesBelowComplete(data, |data|, 33);
    assert codes[k] == StartCode(32, 4);
    BodyIsEmpty(data, k);
    NonEmptyExactly(codes, |codes|, |data|, k);
    CarveByIndex(data, base, blake3);
    var ks := NonEmptyBelow(codes, |codes|, |data|);
    var m :| 0 <= m < |ks| && ks[m] == k;
    assert Carve(data, base, blake3)[m] == FrameOf(data, base, codes[k], EndOf(codes, k, |data|), blake3);
  }

  lemma WrittenClasses()
    ensures ClassifyNalHeader(0x67) == H264SpsKeyframe && ClassifyNalHeader(0x41) == H264NonIdrSlice
  {
    ClassOfType(0x67, 3, 7);
    ClassOfType(0x41, 2, 1);
  }

  lemma BlockStartsPayload(b: nat, blocks: nat, baseTimestamp: nat)
    requires 2 <= b < blocks && !(10 <= b <= 13)
    ensures StartsPayload(DiskBlock(b, blocks, baseTimestamp), if b / 2 % 10 == 1 then 0x67 else 0x41)
  {
    hide RandomBytes, Header, Zeros;
    var v := FieldsOf(b, baseTimestamp);
    var block, payload := DiskBlock(b, blocks, baseTimestamp), OriginalPayload(v);
    assert block[32..36] == payload[..5][..4];
    assert block[36] == payload[..5][4];
  }

  /** Every unscrambled video block carves to a frame right behind its header: a keyframe in every tenth, else not. */
  lemma VideoBlockCarves(b: nat, blocks: nat, baseTimestamp: nat, blake3: Hash)
    requires 2 <= b < blocks && !(10 <= b <= 13)
    ensures HasFrame(Carve(DiskBlock(b, blocks, baseTimestamp), b * 4096, blake3), b * 4096 + 32,
                     if b / 2 % 10 == 1 then H264SpsKeyframe else H264NonIdrSlice)
  {
    hide DiskBlock, Carve, StartsPayload, ClassifyNalHeader;
    BlockStartsPayload(b, blocks, baseTimestamp);
    WrittenClasses();
    PayloadFrame(DiskBlock(b, blocks, baseTimestamp), b * 4096, if b / 2 % 10 == 1 then 0x67 else 0x41, blake3);
  }

  // ----- The driver on the zeroed blocks -----

  /** A zeroed block, or as much of it as was read, begins with 32 zeros and the payload's start. */
  lemma ZeroedPrefix(b: nat, blocks: nat, baseTimestamp: nat, n: nat, blake3: Hash)
    requires 22 <= b <= 23 && 32 <= blocks && 37 <= n <= 4096
    ensures var frames := Carve(DiskBlock(b, blocks, baseTimestamp)[..n], b * 4096, blake3);
            && frames != [] && frames[0].byteOffset == b * 4096 + 32 && frames[0].nal == H264SpsKeyframe
  {
    hide Carve, RandomBytes, ClassifyNalHeader;
    var v := FieldsOf(b, baseTimestamp);
    var block, payload := DiskBlock(b, blocks, baseTimestamp), OriginalPayload(v);
    var data := block[..n];
    assert block == Zeros(32) + payload;
    assert data[..32] == Zeros(32);
    assert data[32..36] == payload[..5][..4];
    assert data[36] == payload[..5][4];
    WrittenClasses();
    GeneratedDisk.FirstFrameAfterZeroedHeader(data, b * 4096, blake3);
  }

  lemma DiskChunk(b: nat, blocks: nat, baseTimestamp: nat)
    requires b < blocks && 2 <= blocks
    ensures var chunks := Chunks(DiskBelow(blocks, blocks, baseTimestamp), 4096);
            b < |chunks| && chunks[b] == DiskBlock(b, blocks, baseTimestamp)
  {
    hide Chunks, DiskBlock;
    GeneratedDisk.DiskIsCut(blocks, blocks, baseTimestamp);
  }

  lemma TwoChunks(image: seq<byte>, counts: seq<nat>, blake3: Hash)
    requires CountsFit(image, 4096, [22, 23], counts)
    ensures CarveChunks(image, 4096, [22, 23], counts, blake3) ==
            CarveChunk(image, 4096, 22, counts[0], blake3) + CarveChunk(image, 4096, 23, counts[1], blake3)
  {
    hide Chunks, CarveChunk;
    var two: seq<nat> := [22, 23];
    assert two[..1] == [22] && counts[..1] == [counts[0]] && two[..1][..0] == [];
    assert CarveChunks(image, 4096, two[..1][..0], counts[..1][..0], blake3) == [];
    assert CarveChunks(image, 4096, two[..1], counts[..1], blake3) == CarveChunk(image, 4096, 22, counts[0], blake3);
  }

  /**
   * The driver on the two blocks with zeroed headers: whatever its reads deliver, from 37 bytes on,
   * the first frame of each is the keyframe right behind the block's header.
   */
  lemma DriverOnZeroedBlocks(blocks: nat, baseTimestamp: nat, counts: seq<nat>, blake3: Hash) returns (j: nat)
    requires 32 <= blocks
    requires PossibleReads(DiskBelow(blocks, blocks, baseTimestamp), 4096, [22, 23], counts)
    requires counts[0] >= 37 && counts[1] >= 37
    ensures var frames := CarveBlocks(DiskBelow(blocks, blocks, baseTimestamp), 4096, [22, 23], counts, blake3);
            && 0 < j < |frames|
            && frames[0].byteOffset == 22 * 4096 + 32 && frames[0].nal == H264SpsKeyframe
            && frames[j].byteOffset == 23 * 4096 + 32 && frames[j].nal == H264SpsKeyframe
            && forall i :: 0 <= i < j ==> frames[i].byteOffset + frames[i].length <= 23 * 4096
  {
    hide Chunks, DiskBlock, DiskBelow, Carve, CarveBlocks;
    var image := DiskBelow(blocks, blocks, baseTimestamp);
    DriverCarvesChunks(image, 4096, [22, 23], counts, blake3);
    DiskChunk(22, blocks, baseTimestamp);
    DiskChunk(23, blocks, baseTimestamp);
    TwoChunks(image, counts, blake3);
    ZeroedPrefix(22, blocks, baseTimestamp, counts[0], blake3);
    ZeroedPrefix(23, blocks, baseTimestamp, counts[1], blake3);
    j := |CarveChunk(image, 4096, 22, counts[0], blake3)|;
    CarveOrdered(DiskBlock(22, blocks, baseTimestamp)[..counts[0]], 22 * 4096, blake3);
  }
}
