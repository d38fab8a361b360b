/** The record that interpreting one block produces. */
module Records {
  import opened Wrappers

  datatype BlockType = VideoFrame | Superblock | PartitionTable | UnallocatedOrCorrupted

  datatype ExtractedRecord = ExtractedRecord(
    blockIndex: nat,
    byteOffset: nat,
    channelId: nat,
    timestamp: nat,
    normalizedTimestamp: string,
    sequenceNum: nat,
    payloadOffset: nat,
    payloadLen: nat,
    flags: bv16,
    isScrambled: bool,
    isCorrupted: bool,
    blockType: BlockType,
    blake3Hash: string,
    descrambled: bool,
    descrambledHash: Option<string>)
}
