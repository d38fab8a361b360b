/** What a carved frame says about its unit: class, description, confidence, place and digest. */
module CarverClasses {
  import opened Bytes
  import opened Carver
  import opened CarverRoundTrip
  import opened CarverWindow

  // ----- The header byte of a unit -----

  /** A NAL unit header: top bit clear, two reference bits, five bits of unit type. */
  predicate IsHeader(header: byte, refIdc: byte, unitType: byte) {
    refIdc < 4 && unitType < 32 && header == refIdc * 32 + unitType
  }

  lemma HeaderBits(header: byte, refIdc: byte, unitType: byte)
    requires IsHeader(header, refIdc, unitType)
    ensures header & 0x80 == 0 && header & 0x1F == unitType
  {
  }

  /** Each class belongs to one unit type of section 7.4.1 of ITU-T H.264, whatever the reference bits. */
  ghost predicate HasClassOf(nal: NalClassification, header: byte, unitType: byte) {
    && (nal == H264NonIdrSlice <==> unitType == 1)
    && (nal == H264IdrKeyframe <==> unitType == 5)
    && (nal == H264Sei <==> unitType == 6)
    && (nal == H264SpsKeyframe <==> unitType == 7)
    && (nal == H264Pps <==> unitType == 8)
    && (nal == H264Aud <==> unitType == 9)
    && (nal == UnknownNal(header) <==> unitType !in {1, 5, 6, 7, 8, 9})
  }

  lemma ClassOfType(header: byte, refIdc: byte, unitType: byte)
    requires IsHeader(header, refIdc, unitType)
    ensures HasClassOf(ClassifyNalHeader(header), header, unitType)
  {
    HeaderBits(header, refIdc, unitType);
  }

  lemma ForbiddenBit(header: byte)
    ensures header & 0x80 != 0 ==> ClassifyNalHeader(header) == UnknownNal(header)
  {
  }

  /** The text and the confidence a frame is reported with, by the unit type of its header. */
  ghost predicate ReportedAs(f: CarvedFrame, unitType: byte, text: string, confidence: real) {
    f.NalType() == text && f.Confidence() == confidence && (f.IsKeyframe() <==> unitType in {5, 7})
  }

  ghost predicate DescribesType(f: CarvedFrame, unitType: byte) {
    && (unitType == 1 ==> ReportedAs(f, unitType, "H.264 Non-IDR Slice (P/B-Frame)", 0.85))
    && (unitType == 5 ==> ReportedAs(f, unitType, "H.264 IDR Keyframe (I-Frame)", 0.95))
    && (unitType == 6 ==> ReportedAs(f, unitType, "H.264 SEI", 0.90))
    && (unitType == 7 ==> ReportedAs(f, unitType, "H.264 SPS / Keyframe Preamble", 0.95))
    && (unitType == 8 ==> ReportedAs(f, unitType, "H.264 PPS", 0.90))
    && (unitType == 9 ==> ReportedAs(f, unitType, "H.264 AUD", 0.90))
    && (unitType !in {1, 5, 6, 7, 8, 9} ==> ReportedAs(f, unitType, "Generic / Unknown NAL Unit", 0.50))
  }

  lemma FrameDescribesType(f: CarvedFrame, header: byte, unitType: byte)
    requires HasClassOf(f.nal, header, unitType)
    ensures DescribesType(f, unitType)
  {
  }

  /** Any carved frame: it begins with a start code, and its class and digest are those of its own bytes. */
  lemma FrameOfItsBytes(data: seq<byte>, base: nat, blake3: Hash, i: nat)
    requires i < |Carve(data, base, blake3)|
    ensures var f := Carve(data, base, blake3)[i];
            && base <= f.byteOffset && f.byteOffset + f.length <= base + |data|
            && var bytes := data[f.byteOffset - base..f.byteOffset + f.length - base];
            && f.blake3Hash == blake3(bytes)
            && (|| (|bytes| > 4 && bytes[..4] == [0, 0, 0, 1] && f.nal == ClassifyNalHeader(bytes[4]))
                || (|bytes| > 3 && bytes[..3] == [0, 0, 1] && f.nal == ClassifyNalHeader(bytes[3])))
  {
    hide StartCodes, Carve, ClassifyNalHeader, WellPlaced, EndOf;
    assert |data| >= 5 by {
      ShortBuffer(data, base, blake3);
    }
    CarveByIndex(data, base, blake3);
    var codes := StartCodes(data);
    var k := NonEmptyBelow(codes, |codes|, |data|)[i];
    CodeIsPrefix(data, k);
    DescribedBytes(data, base, codes[k], EndOf(codes, k, |data|), blake3);
  }

  lemma DescribedBytes(data: seq<byte>, base: nat, code: StartCode, end: nat, blake3: Hash)
    requires code.Body() < end <= |data| && code.prefixLen in {3, 4}
    requires data[code.pos..code.Body()] == if code.prefixLen == 4 then [0, 0, 0, 1] else [0, 0, 1]
    ensures var f, bytes := FrameOf(data, base, code, end, blake3), data[code.pos..end];
            && f.byteOffset == base + code.pos && f.length == end - code.pos
            && f.blake3Hash == blake3(bytes)
            && (|| (|bytes| > 4 && bytes[..4] == [0, 0, 0, 1] && f.nal == ClassifyNalHeader(bytes[4]))
                || (|bytes| > 3 && bytes[..3] == [0, 0, 1] && f.nal == ClassifyNalHeader(bytes[3])))
  {
    hide ClassifyNalHeader;
    var bytes := data[code.pos..end];
    assert bytes[code.prefixLen] == data[code.Body()];
    assert bytes[..code.prefixLen] == data[code.pos..code.Body()];
  }

  lemma ShortBuffer(data: seq<byte>, base: nat, blake3: Hash)
    ensures |data| < 5 ==> Carve(data, base, blake3) == []
  {
  }

  lemma CodeIsPrefix(data: seq<byte>, k: nat)
    requires k < |StartCodes(data)|
    ensures var code := StartCodes(data)[k];
            && code.Body() <= |data| && code.prefixLen in {3, 4}
            && data[code.pos..code.Body()] == if code.prefixLen == 4 then [0, 0, 0, 1] else [0, 0, 1]
  {
    CodesBelowPlaced(data, |data|);
  }

  // ----- The units of a stream -----

  /**
   * The frame carved for the `k`-th unit of a stream: where the unit was written, as long as its
   * prefix and body, with the digest of exactly those bytes, and with the class, the description and
   * the confidence of its unit type.
   */
  lemma UnitCarvesAsWritten(
    noise: seq<byte>, units: seq<NalUnit>, k: nat, refIdc: byte, unitType: byte, base: nat, blake3: Hash)
    requires Clean(noise) && WellFormed(units) && k < |units|
    requires IsHeader(units[k].body[0], refIdc, unitType)
    requires |Stream(noise, units, |units|)| >= 5
    ensures var frames := Carve(Stream(noise, units, |units|), base, blake3);
            var written := (if units[k].longPrefix then [0, 0, 0, 1] else [0, 0, 1]) + units[k].body;
            && |frames| == |units|
            && frames[k].byteOffset == base + |Stream(noise, units, k)|
            && frames[k].length == |written|
            && frames[k].blake3Hash == blake3(written)
            && HasClassOf(frames[k].nal, units[k].body[0], unitType)
            && DescribesType(frames[k], unitType)
  {
    hide Carve, Stream, Clean, HasClassOf, DescribesType, ClassifyNalHeader;
    CarveInvertsStream(noise, units, base, blake3);
    WrittenFrameAt(noise, units, |units|, k, base, blake3);
    ClassOfType(units[k].body[0], refIdc, unitType);
    var frame := WrittenFrames(noise, units, |units|, base, blake3)[k];
    FrameDescribesType(frame, units[k].body[0], unitType);
  }
}
