/** Parsing a case: block after block, digest first, then interpretation, then guarded descrambling. */
module CaseParser {
  import opened Wrappers
  import opened Bytes
  import opened Source
  import opened Chunking
  import opened Acquisition
  import opened Grammar
  import opened Records
  import opened Interpreter
  import opened Descrambler
  import opened Verification

  // ----- Specification -----

  /**
   * The descrambling step. The payload bounds come from the block's own header, so they are checked
   * against the block before the payload is touched.
   */
  function DescrambleRecord(
    record: ExtractedRecord, block: seq<byte>, plugin: Option<Plugin>, blake3: Digest): ExtractedRecord
  {
    if !record.isScrambled || plugin.None? then record
    else
      var start := SaturatingSub(record.payloadOffset, record.byteOffset);
      var end := start + record.payloadLen;
      if end > |block| then record
      else
        match plugin.value(block[start..end])
        case Some(plain) => record.(descrambled := true, descrambledHash := Some(HexDigest(blake3, plain)))
        case None => record
  }

  function ParseBlock(
    grammar: GrammarFile, plugin: Option<Plugin>, blake3: Digest, index: nat, offset: nat, block: seq<byte>)
    : Result<ExtractedRecord, ParserError>
  {
    match InterpretBlock(grammar, index, offset, block, HexDigest(blake3, block))
    case Failure(e) => Failure(e)
    case Success(record) => Success(DescrambleRecord(record, block, plugin, blake3))
  }

  /** Blocks that follow each other, every one but the last of the same size. */
  function ParseBlocks(
    grammar: GrammarFile, plugin: Option<Plugin>, blake3: Digest, blockSize: nat, blocks: seq<seq<byte>>)
    : Result<seq<ExtractedRecord>, ParserError>
  {
    if blocks == [] then Success([])
    else
      var k := |blocks| - 1;
      match ParseBlocks(grammar, plugin, blake3, blockSize, blocks[..k])
      case Failure(e) => Failure(e)
      case Success(records) =>
        match ParseBlock(grammar, plugin, blake3, k, k * blockSize, blocks[k])
        case Failure(e) => Failure(e)
        case Success(record) => Success(records + [record])
  }

  function Parse(
    image: seq<byte>, m: Manifest, grammar: GrammarFile, plugin: Option<Plugin>, blake3: Digest)
    : Result<seq<ExtractedRecord>, ParserError>
  {
    ParseBlocks(grammar, plugin, blake3, m.blockSize, BlocksRead(image, m.blockSize, m.blockCount))
  }

  // ----- The code -----

  /** The body of the loop, once the block has been read. */
  method ParseOne(
    grammar: GrammarFile, plugin: Option<Plugin>, blake3: Digest, blockIndex: nat, currentOffset: nat, block: seq<byte>)
    returns (r: Result<ExtractedRecord, ParserError>)
    ensures r == ParseBlock(grammar, plugin, blake3, blockIndex, currentOffset, block)
  {
    hide InterpretBlock, HexDigest;
    var computedHash := HexDigest(blake3, block);
    var interpreted := InterpretBlock(grammar, blockIndex, currentOffset, block, computedHash);
    if interpreted.Failure? {
      return interpreted;
    }
    var record := interpreted.value;
    if record.isScrambled {
      if plugin.Some? {
        var start := SaturatingSub(record.payloadOffset, record.byteOffset);
        var end := start + record.payloadLen;
        if end <= |block| {
          var plain := plugin.value(block[start..end]);
          if plain.Some? {
            record := record.(descrambled := true, descrambledHash := Some(HexDigest(blake3, plain.value)));
          }
        }
      }
    }
    return Success(record);
  }

  /** The blocks of the prefix that ends at `pos`, and the records they gave. */
  ghost predicate Parsed(
    image: seq<byte>, m: Manifest, grammar: GrammarFile, plugin: Option<Plugin>, blake3: Digest,
    pos: nat, k: nat, records: seq<ExtractedRecord>)
  {
    && pos <= |image| && k <= m.blockCount
    && (if m.blockSize == 0 then k == 0 && pos == 0 && records == []
        else
          && CutInto(image, pos, m.blockSize, k)
          && ParseBlocks(grammar, plugin, blake3, m.blockSize, Chunks(image[..pos], m.blockSize)) == Success(records))
  }

  lemma ParsedNext(
    image: seq<byte>, m: Manifest, grammar: GrammarFile, plugin: Option<Plugin>, blake3: Digest,
    pos: nat, k: nat, records: seq<ExtractedRecord>, n: nat, record: ExtractedRecord)
    requires Parsed(image, m, grammar, plugin, blake3, pos, k, records)
    requires k < m.blockCount && 0 < n == Min(m.blockSize, |image| - pos)
    requires ParseBlock(grammar, plugin, blake3, k, pos, image[pos..pos + n]) == Success(record)
    ensures Parsed(image, m, grammar, plugin, blake3, pos + n, k + 1, records + [record])
  {
    hide ParseBlock, Chunks;
    NextBlock(image, pos, m.blockSize, k, n);
    var upTo := Chunks(image[..pos + n], m.blockSize);
    assert upTo[..k] == Chunks(image[..pos], m.blockSize);
  }

  lemma ParseStops(
    image: seq<byte>, m: Manifest, grammar: GrammarFile, plugin: Option<Plugin>, blake3: Digest,
    pos: nat, k: nat, records: seq<ExtractedRecord>, n: nat, error: ParserError)
    requires Parsed(image, m, grammar, plugin, blake3, pos, k, records)
    requires k < m.blockCount && 0 < n == Min(m.blockSize, |image| - pos)
    requires ParseBlock(grammar, plugin, blake3, k, pos, image[pos..pos + n]) == Failure(error)
    ensures Parse(image, m, grammar, plugin, blake3) == Failure(error)
  {
    hide ParseBlock, Chunks;
    NextBlock(image, pos, m.blockSize, k, n);
    CutIsPrefix(image, pos + n, m.blockSize, k + 1);
    var upTo := Chunks(image[..pos + n], m.blockSize);
    assert upTo[..k] == Chunks(image[..pos], m.blockSize);
    assert ParseBlocks(grammar, plugin, blake3, m.blockSize, upTo) == Failure(error);
    var blocks := BlocksRead(image, m.blockSize, m.blockCount);
    assert blocks[..k + 1] == upTo;
    FailureStays(grammar, plugin, blake3, m.blockSize, blocks, k + 1);
  }

  lemma {:induction false} FailureStays(
    grammar: GrammarFile, plugin: Option<Plugin>, blake3: Digest, blockSize: nat, blocks: seq<seq<byte>>, n: nat)
    requires n <= |blocks|
    requires ParseBlocks(grammar, plugin, blake3, blockSize, blocks[..n]).Failure?
    ensures ParseBlocks(grammar, plugin, blake3, blockSize, blocks) ==
            ParseBlocks(grammar, plugin, blake3, blockSize, blocks[..n])
    decreases |blocks|
  {
    hide ParseBlock;
    var k := |blocks| - 1;
    if n == |blocks| {
      assert blocks[..n] == blocks;
    } else {
      assert blocks[..k][..n] == blocks[..n];
      FailureStays(grammar, plugin, blake3, blockSize, blocks[..k], n);
    }
  }

  lemma ParsedDone(
    image: seq<byte>, m: Manifest, grammar: GrammarFile, plugin: Option<Plugin>, blake3: Digest,
    pos: nat, k: nat, records: seq<ExtractedRecord>)
    requires Parsed(image, m, grammar, plugin, blake3, pos, k, records)
    requires k == m.blockCount || Min(m.blockSize, |image| - pos) == 0
    ensures Parse(image, m, grammar, plugin, blake3) == Success(records)
  {
    if m.blockSize > 0 {
      CutIsPrefix(image, pos, m.blockSize, k);
    }
  }

  /** For every pattern of short reads: the records of the plain cut, or the first error. */
  method ParseCase(
    source: ReadOnlySource, m: Manifest, grammar: GrammarFile, plugin: Option<Plugin>, blake3: Digest)
    returns (r: Result<seq<ExtractedRecord>, ParserError>)
    requires source.pos == 0 && !source.failed
    modifies source
    ensures r == if source.failed then Failure(SourceReadFailed) else Parse(source.content, m, grammar, plugin, blake3)
  {
    hide Parsed, ParseBlock, Parse;
    var buffer := new byte[m.blockSize](_ => 0);
    var records: seq<ExtractedRecord> := [];
    var blockIndex, currentOffset := 0, 0;
    ParsedStart(source.content, m, grammar, plugin, blake3);
    while blockIndex < m.blockCount
      invariant currentOffset == source.pos <= |source.content| && !source.failed && blockIndex <= m.blockCount
      invariant Parsed(source.content, m, grammar, plugin, blake3, source.pos, blockIndex, records)
    {
      ghost var before := source.pos;
      var readBytes, failed := Fill(source, buffer);
      if failed {
        return Failure(SourceReadFailed);
      }
      if readBytes == 0 {
        break;
      }
      var block := buffer[..readBytes];
      var record := ParseOne(grammar, plugin, blake3, blockIndex, currentOffset, block);
      if record.Failure? {
        ParseStops(source.content, m, grammar, plugin, blake3, before, blockIndex, records, readBytes, record.error);
        return Failure(record.error);
      }
      ParsedNext(source.content, m, grammar, plugin, blake3, before, blockIndex, records, readBytes, record.value);
      records := records + [record.value];
      currentOffset := currentOffset + readBytes;
      blockIndex := blockIndex + 1;
    }
    ParsedDone(source.content, m, grammar, plugin, blake3, source.pos, blockIndex, records);
    return Success(records);
  }

  lemma ParsedStart(
    image: seq<byte>, m: Manifest, grammar: GrammarFile, plugin: Option<Plugin>, blake3: Digest)
    ensures Parsed(image, m, grammar, plugin, blake3, 0, 0, [])
  {
  }
}
