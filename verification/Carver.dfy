/**
 * The Annex B frame carver: a skipping scan for start codes, the split of the buffer into frames,
 * and the driver that carves chosen blocks of an image.
 */
module Carver {
  import opened Wrappers
  import opened Bytes
  import opened Source

  datatype NalClassification =
    | H264SpsKeyframe | H264Pps | H264IdrKeyframe | H264NonIdrSlice | H264Sei | H264Aud
    | H265Vps | H265Sps | H265Pps | H265IdrKeyframe | H265NonIdrSlice
    | UnknownNal(header: byte)
  {
    function Description(): string {
      match this
      case H264SpsKeyframe => "H.264 SPS / Keyframe Preamble"
      case H264Pps => "H.264 PPS"
      case H264IdrKeyframe => "H.264 IDR Keyframe (I-Frame)"
      case H264NonIdrSlice => "H.264 Non-IDR Slice (P/B-Frame)"
      case H264Sei => "H.264 SEI"
      case H264Aud => "H.264 AUD"
      case H265Vps => "H.265 VPS"
      case H265Sps => "H.265 SPS"
      case H265Pps => "H.265 PPS"
      case H265IdrKeyframe => "H.265 IDR Keyframe"
      case H265NonIdrSlice => "H.265 Non-IDR Slice"
      case UnknownNal(_) => "Generic / Unknown NAL Unit"
    }

    predicate IsKeyframe() {
      H264SpsKeyframe? || H264IdrKeyframe? || H265Vps? || H265Sps? || H265IdrKeyframe?
    }

    function DefaultConfidence(): real {
      match this
      case H264SpsKeyframe | H264IdrKeyframe => 0.95
      case H264Pps | H264Sei | H264Aud => 0.90
      case H264NonIdrSlice => 0.85
      case H265Vps | H265Sps | H265IdrKeyframe => 0.95
      case H265Pps => 0.90
      case H265NonIdrSlice => 0.85
      case UnknownNal(_) => 0.50
    }
  }

  function ClassifyNalHeader(header: byte): NalClassification {
    var nalType := header & 0x1F;
    if header & 0x80 != 0 then UnknownNal(header)
    else if nalType == 1 then H264NonIdrSlice
    else if nalType == 5 then H264IdrKeyframe
    else if nalType == 6 then H264Sei
    else if nalType == 7 then H264SpsKeyframe
    else if nalType == 8 then H264Pps
    else if nalType == 9 then H264Aud
    else UnknownNal(header)
  }

  /**
   * No header is ever classified as H.265, and a frame counts as a keyframe exactly when its header
   * has a clear top bit and the H.264 unit type 5 or 7.
   */
  lemma KeyframesExactly(header: byte)
    ensures var nal := ClassifyNalHeader(header);
            && !nal.H265Vps? && !nal.H265Sps? && !nal.H265Pps? && !nal.H265IdrKeyframe? && !nal.H265NonIdrSlice?
            && (nal.IsKeyframe() <==> header & 0x9F == 5 || header & 0x9F == 7)
  {
    TypeBits(header);
  }

  lemma TypeBits(header: byte)
    ensures header & 0x80 != 0 ==> header & 0x9F != 5 && header & 0x9F != 7
    ensures header & 0x80 == 0 ==> header & 0x9F == header & 0x1F
  {
  }

  type Hash = seq<byte> -> string

  /** A carved frame; its type string, keyframe flag and confidence are those of its classification. */
  datatype CarvedFrame = CarvedFrame(
    byteOffset: nat,
    length: nat,
    nal: NalClassification,
    blake3Hash: string)
  {
    function NalType(): string { nal.Description() }
    predicate IsKeyframe() { nal.IsKeyframe() }
    function Confidence(): real { nal.DefaultConfidence() }
  }

  /** A recorded start code: where it begins and whether it is the 3- or the 4-byte form. */
  datatype StartCode = StartCode(pos: nat, prefixLen: nat)
  {
    function Body(): nat { pos + prefixLen }
  }

  // ----- What the scan is meant to find, without scanning -----

  /** `00 00 01` stands at `p`. */
  predicate Triple(data: seq<byte>, p: nat) {
    p + 3 <= |data| && data[p] == 0 && data[p + 1] == 0 && data[p + 2] == 1
  }

  predicate ZeroBefore(data: seq<byte>, p: nat) {
    0 < p <= |data| && data[p - 1] == 0
  }

  /** The occurrences the carver can see: those with a byte after them, or with a zero before them. */
  predicate Detectable(data: seq<byte>, p: nat) {
    Triple(data, p) && (p + 4 <= |data| || ZeroBefore(data, p))
  }

  function CodeAt(data: seq<byte>, p: nat): StartCode {
    if ZeroBefore(data, p) then StartCode(p - 1, 4) else StartCode(p, 3)
  }

  /** The start codes whose `00 00 01` stands before `n`, in order. */
  function CodesBelow(data: seq<byte>, n: nat): seq<StartCode> {
    if n == 0 then []
    else CodesBelow(data, n - 1) + if Detectable(data, n - 1) then [CodeAt(data, n - 1)] else []
  }

  function StartCodes(data: seq<byte>): seq<StartCode> {
    CodesBelow(data, |data|)
  }

  lemma CodesBelowSkip(data: seq<byte>, lo: nat, hi: nat)
    requires lo <= hi
    requires forall p :: lo <= p < hi ==> !Detectable(data, p)
    ensures CodesBelow(data, hi) == CodesBelow(data, lo)
    decreases hi
  {
    if lo < hi {
      CodesBelowSkip(data, lo, hi - 1);
    }
  }

  // ----- Frames -----

  /** Start codes lie inside a buffer of `len` bytes and do not overlap. */
  ghost predicate WellPlaced(codes: seq<StartCode>, len: nat) {
    && (forall k :: 0 <= k < |codes| ==> codes[k].prefixLen in {3, 4} && codes[k].Body() <= len)
    && (forall j, k :: 0 <= j < k < |codes| ==> codes[j].Body() <= codes[k].pos)
  }

  /** Where the frame of the `k`-th start code ends: at the next start code, or with the buffer. */
  function EndOf(codes: seq<StartCode>, k: nat, len: nat): nat
    requires k < |codes|
  {
    if k + 1 < |codes| then codes[k + 1].pos else len
  }

  /** The indices, below `n`, of the start codes that are followed by at least one byte of body. */
  function NonEmptyBelow(codes: seq<StartCode>, n: nat, len: nat): (ks: seq<nat>)
    requires n <= |codes|
    ensures |ks| <= n
    ensures forall i :: 0 <= i < |ks| ==> ks[i] < n && codes[ks[i]].Body() < EndOf(codes, ks[i], len)
    ensures forall i, j :: 0 <= i < j < |ks| ==> ks[i] < ks[j]
  {
    if n == 0 then []
    else NonEmptyBelow(codes, n - 1, len)
         + if codes[n - 1].Body() < EndOf(codes, n - 1, len) then [n - 1] else []
  }

  function DescribeFrame(offset: nat, headerByte: byte, slice: seq<byte>, blake3: Hash): CarvedFrame {
    CarvedFrame(offset, |slice|, ClassifyNalHeader(headerByte), blake3(slice))
  }

  function FrameOf(data: seq<byte>, base: nat, code: StartCode, end: nat, blake3: Hash): CarvedFrame
    requires code.Body() < end <= |data|
  {
    DescribeFrame(base + code.pos, data[code.Body()], data[code.pos..end], blake3)
  }

  lemma EndInside(codes: seq<StartCode>, k: nat, len: nat)
    requires k < |codes| && WellPlaced(codes, len)
    ensures codes[k].Body() <= EndOf(codes, k, len) <= len
  {
  }

  /** The frames of the start codes below `n`: one for each code that has a body. */
  function FramesBelow(data: seq<byte>, base: nat, codes: seq<StartCode>, n: nat, blake3: Hash)
    : seq<CarvedFrame>
    requires WellPlaced(codes, |data|) && n <= |codes|
  {
    if n == 0 then []
    else
      var end := EndOf(codes, n - 1, |data|);
      EndInside(codes, n - 1, |data|);
      FramesBelow(data, base, codes, n - 1, blake3)
      + if codes[n - 1].Body() < end then [FrameOf(data, base, codes[n - 1], end, blake3)] else []
  }

  lemma FramesBelowNext(data: seq<byte>, base: nat, codes: seq<StartCode>, k: nat, blake3: Hash)
    requires WellPlaced(codes, |data|) && k < |codes|
    ensures codes[k].Body() <= EndOf(codes, k, |data|) <= |data|
    ensures FramesBelow(data, base, codes, k + 1, blake3) ==
            FramesBelow(data, base, codes, k, blake3)
            + if codes[k].Body() < EndOf(codes, k, |data|)
              then [FrameOf(data, base, codes[k], EndOf(codes, k, |data|), blake3)] else []
  {
    EndInside(codes, k, |data|);
  }

  /** The frames, one by one, as the start codes with a body in their order. */
  lemma {:induction false} FramesByIndex(
    data: seq<byte>, base: nat, codes: seq<StartCode>, n: nat, blake3: Hash)
    requires WellPlaced(codes, |data|) && n <= |codes|
    ensures var ks := NonEmptyBelow(codes, n, |data|);
            var frames := FramesBelow(data, base, codes, n, blake3);
            && |frames| == |ks|
            && forall i :: 0 <= i < |ks| ==>
                             && EndOf(codes, ks[i], |data|) <= |data|
                             && frames[i] == FrameOf(data, base, codes[ks[i]], EndOf(codes, ks[i], |data|), blake3)
  {
    if n > 0 {
      FramesByIndex(data, base, codes, n - 1, blake3);
      EndInside(codes, n - 1, |data|);
    }
  }

  /** The start codes the scan records are well placed, and sorted by their `00 00 01`. */
  lemma {:induction false} CodesBelowPlaced(data: seq<byte>, n: nat)
    ensures WellPlaced(CodesBelow(data, n), |data|)
    ensures forall k :: 0 <= k < |CodesBelow(data, n)| ==>
                          var c := CodesBelow(data, n)[k];
                          c.Body() >= 3 && c.Body() - 3 < n && Detectable(data, c.Body() - 3)
                          && c == CodeAt(data, c.Body() - 3)
  {
    if n > 0 {
      CodesBelowPlaced(data, n - 1);
      var before := CodesBelow(data, n - 1);
      if Detectable(data, n - 1) {
        forall k | 0 <= k < |before|
          ensures before[k].Body() <= CodeAt(data, n - 1).pos
        {
          var p := before[k].Body() - 3;
          assert data[p + 2] == 1 && data[n - 1] == 0 && data[n] == 0;
          assert p + 2 != n - 1 && p + 2 != n;
        }
      }
    }
  }

  lemma StartCodesPlaced(data: seq<byte>)
    ensures WellPlaced(StartCodes(data), |data|)
  {
    CodesBelowPlaced(data, |data|);
  }

  /** The specification of a carve. */
  function Carve(data: seq<byte>, base: nat, blake3: Hash): seq<CarvedFrame> {
    if |data| < 5 then []
    else
      var codes := StartCodes(data);
      StartCodesPlaced(data);
      FramesBelow(data, base, codes, |codes|, blake3)
  }

  // ----- The code -----

  /** The scan that jumps over each start code it finds misses none and invents none. */
  method ScanStartCodes(data: seq<byte>) returns (startIndices: seq<StartCode>)
    ensures startIndices == StartCodes(data)
  {
    startIndices := [];
    var i := 0;
    while i + 4 <= |data|
      invariant i <= |data|
      invariant startIndices == CodesBelow(data, i)
      invariant ZeroBefore(data, i) ==> !Detectable(data, i)
      decreases |data| - i
    {
      if data[i] == 0 && data[i + 1] == 0 {
        if data[i + 2] == 0 && data[i + 3] == 1 {
          assert Detectable(data, i + 1) && CodeAt(data, i + 1) == StartCode(i, 4);
          CodesBelowSkip(data, i + 2, i + 4);
          startIndices := startIndices + [StartCode(i, 4)];
          i := i + 4;
          continue;
        } else if data[i + 2] == 1 {
          assert Detectable(data, i) && CodeAt(data, i) == StartCode(i, 3);
          CodesBelowSkip(data, i + 1, i + 3);
          startIndices := startIndices + [StartCode(i, 3)];
          i := i + 3;
          continue;
        }
      }
      i := i + 1;
    }
    CodesBelowSkip(data, i, |data|);
  }

  method SplitFrames(data: seq<byte>, base: nat, startIndices: seq<StartCode>, blake3: Hash)
    returns (frames: seq<CarvedFrame>)
    requires WellPlaced(startIndices, |data|)
    ensures frames == FramesBelow(data, base, startIndices, |startIndices|, blake3)
  {
    frames := [];
    for idx := 0 to |startIndices|
      invariant frames == FramesBelow(data, base, startIndices, idx, blake3)
    {
      FramesBelowNext(data, base, startIndices, idx, blake3);
      var code := startIndices[idx];
      var endPos := if idx + 1 < |startIndices| then startIndices[idx + 1].pos else |data|;
      if endPos <= code.pos + code.prefixLen {
        continue;
      }
      var headerByte := data[code.pos + code.prefixLen];
      var frameSlice := data[code.pos..endPos];
      frames := frames + [DescribeFrame(base + code.pos, headerByte, frameSlice, blake3)];
    }
  }

  method CarveBuffer(data: seq<byte>, base: nat, blake3: Hash) returns (frames: seq<CarvedFrame>)
    ensures frames == Carve(data, base, blake3)
  {
    frames := [];
    if |data| < 5 {
      return;
    }
    var startIndices := ScanStartCodes(data);
    StartCodesPlaced(data);
    if |startIndices| == 0 {
      return;
    }
    frames := SplitFrames(data, base, startIndices, blake3);
  }

  // ----- Carving chosen blocks of an image -----

  function OffsetOf(index: nat, blockSize: nat): nat {
    index * blockSize
  }

  /** How many bytes the single `read` call at one block's offset may deliver. */
  predicate PossibleRead(image: seq<byte>, blockSize: nat, offset: nat, n: nat) {
    && n <= blockSize
    && (n == 0 <==> blockSize == 0 || offset >= |image|)
    && (n > 0 ==> offset + n <= |image|)
  }

  ghost predicate PossibleReads(image: seq<byte>, blockSize: nat, indices: seq<nat>, counts: seq<nat>) {
    |counts| == |indices|
    && forall k :: 0 <= k < |counts| ==> PossibleRead(image, blockSize, OffsetOf(indices[k], blockSize), counts[k])
  }

  /** One block carved alone, from the `n` bytes its read delivered. */
  function CarveOne(image: seq<byte>, offset: nat, n: nat, blake3: Hash): seq<CarvedFrame>
    requires n == 0 || offset + n <= |image|
  {
    if n == 0 then [] else Carve(image[offset..offset + n], offset, blake3)
  }

  ghost function CarveBlocks(
    image: seq<byte>, blockSize: nat, indices: seq<nat>, counts: seq<nat>, blake3: Hash)
    : seq<CarvedFrame>
    requires PossibleReads(image, blockSize, indices, counts)
  {
    if indices == [] then []
    else
      var k := |indices| - 1;
      CarveBlocks(image, blockSize, indices[..k], counts[..k], blake3)
      + CarveOne(image, OffsetOf(indices[k], blockSize), counts[k], blake3)
  }

  lemma CarveBlocksNext(
    image: seq<byte>, blockSize: nat, indices: seq<nat>, counts: seq<nat>, k: nat, n: nat, blake3: Hash)
    requires k < |indices| && PossibleReads(image, blockSize, indices[..k], counts)
    requires PossibleRead(image, blockSize, OffsetOf(indices[k], blockSize), n)
    ensures PossibleReads(image, blockSize, indices[..k + 1], counts + [n])
    ensures CarveBlocks(image, blockSize, indices[..k + 1], counts + [n], blake3) ==
            CarveBlocks(image, blockSize, indices[..k], counts, blake3)
            + CarveOne(image, OffsetOf(indices[k], blockSize), n, blake3)
  {
    assert indices[..k + 1][..k] == indices[..k];
    assert (counts + [n])[..k] == counts;
  }

  /** The body of the driver's loop: one seek, one read, one carve. */
  method CarveBlockAt(file: ReadOnlySource, buffer: array<byte>, offset: nat, blake3: Hash)
    returns (r: Result<seq<CarvedFrame>, ReadResult>, ghost n: nat)
    requires !file.failed
    modifies file, buffer
    ensures if file.failed then r == Failure(ReadFailed) else r.Success?
    ensures r.Success? ==>
              && PossibleRead(file.content, buffer.Length, offset, n)
              && r.value == CarveOne(file.content, offset, n, blake3)
  {
    file.SeekFromStart(offset);
    var read := file.Read(buffer, 0);
    if read.ReadFailed? {
      return Failure(ReadFailed), 0;
    }
    n := read.n;
    if read.n == 0 {
      return Success([]), n;
    }
    assert buffer[..read.n] == buffer[0..0 + read.n];
    var carved := CarveBuffer(buffer[..read.n], offset, blake3);
    return Success(carved), n;
  }

  /** Either the source failed, or every block was carved alone from what its one read delivered. */
  method CarveCorruptedBlocks(file: ReadOnlySource, blockSize: nat, blockIndices: seq<nat>, blake3: Hash)
    returns (r: Result<seq<CarvedFrame>, ReadResult>, ghost counts: seq<nat>)
    requires !file.failed
    modifies file
    ensures if file.failed then r == Failure(ReadFailed) else r.Success?
    ensures r.Success? ==>
              && PossibleReads(file.content, blockSize, blockIndices, counts)
              && r.value == CarveBlocks(file.content, blockSize, blockIndices, counts, blake3)
  {
    var buffer := new byte[blockSize](_ => 0);
    var allCarved := [];
    counts := [];
    for i := 0 to |blockIndices|
      invariant !file.failed && PossibleReads(file.content, blockSize, blockIndices[..i], counts)
      invariant allCarved == CarveBlocks(file.content, blockSize, blockIndices[..i], counts, blake3)
    {
      var carved, n := CarveBlockAt(file, buffer, OffsetOf(blockIndices[i], blockSize), blake3);
      if carved.Failure? {
        return carved, counts;
      }
      CarveBlocksNext(file.content, blockSize, blockIndices, counts, i, n, blake3);
      counts := counts + [n];
      allCarved := allCarved + carved.value;
    }
    assert blockIndices[..|blockIndices|] == blockIndices;
    return Success(allCarved), counts;
  }
}
