/** The frames carved from a block alone against the frames carved from the whole image. */
module CarverBlocks {
  import opened Bytes
  import opened Carver
  import opened CarverTiling
  import opened CarverWindow

  /** A start code that the scan records begins at `p`, a place that no zero precedes. */
  predicate BeginsStartCode(data: seq<byte>, p: nat) {
    || (Triple(data, p) && p + 4 <= |data|)
    || (p < |data| && data[p] == 0 && Triple(data, p + 1))
  }

  lemma CodeBeginsAt(data: seq<byte>, p: nat)
    requires 0 < p <= |data| && data[p - 1] != 0
    ensures (exists k :: 0 <= k < |StartCodes(data)| && StartCodes(data)[k].pos == p) <==> BeginsStartCode(data, p)
  {
    hide CodesBelow;
    var codes := StartCodes(data);
    CodesBelowPlaced(data, |data|);
    if Triple(data, p) && p + 4 <= |data| {
      var k := CodesBelowComplete(data, |data|, p);
      assert codes[k].pos == p;
    } else if p < |data| && data[p] == 0 && Triple(data, p + 1) {
      var k := CodesBelowComplete(data, |data|, p + 1);
      assert codes[k].pos == p;
    }
  }

  /** A start code has no body exactly if the next start code begins right after it. */
  lemma BodyIsEmpty(image: seq<byte>, j: nat)
    requires j < |StartCodes(image)| && StartCodes(image)[j].Body() < |image|
    ensures StartCodes(image)[j].Body() <= EndOf(StartCodes(image), j, |image|) <= |image|
    ensures StartCodes(image)[j].Body() == EndOf(StartCodes(image), j, |image|) <==>
            BeginsStartCode(image, StartCodes(image)[j].Body())
  {
    hide CodesBelow, BeginsStartCode;
    var codes := StartCodes(image);
    StartCodesPlaced(image);
    ScanKeepsOrder(image, j, j);
    EndInside(codes, j, |image|);
    CodeBeginsAt(image, codes[j].Body());
    if k :| 0 <= k < |codes| && codes[k].pos == codes[j].Body() {
      NextIs(codes, j, k, |image|);
    }
  }

  lemma NextIs(codes: seq<StartCode>, j: nat, k: nat, len: nat)
    requires WellPlaced(codes, len) && j < |codes| && k < |codes| && codes[k].pos == codes[j].Body()
    ensures k == j + 1
  {
    assert forall i :: 0 <= i < |codes| ==> codes[i].pos < codes[i].Body();
    assert j + 1 < |codes| ==> codes[j].Body() <= codes[j + 1].pos;
  }

  lemma {:induction false} NonEmptyExactly(codes: seq<StartCode>, n: nat, len: nat, j: nat)
    requires n <= |codes|
    ensures j in NonEmptyBelow(codes, n, len) <==> j < n && codes[j].Body() < EndOf(codes, j, len)
  {
    if n > 0 {
      NonEmptyExactly(codes, n - 1, len, j);
    }
  }

  ghost predicate FrameStartsAt(frames: seq<CarvedFrame>, offset: nat) {
    exists m :: 0 <= m < |frames| && frames[m].byteOffset == offset
  }

  /**
   * Carving the whole image gives a frame at a start code if and only if no further start code
   * begins where its body would; the frame then ends at the next start code.
   */
  lemma WholeFrameExactly(image: seq<byte>, j: nat, blake3: Hash)
    requires |image| >= 5 && j < |StartCodes(image)| && StartCodes(image)[j].Body() < |image|
    ensures var codes, frames := StartCodes(image), Carve(image, 0, blake3);
            && (FrameStartsAt(frames, codes[j].pos) <==> !BeginsStartCode(image, codes[j].Body()))
            && forall m :: 0 <= m < |frames| && frames[m].byteOffset == codes[j].pos ==>
                             && codes[j].Body() < EndOf(codes, j, |image|) <= |image|
                             && frames[m] == FrameOf(image, 0, codes[j], EndOf(codes, j, |image|), blake3)
  {
    hide CodesBelow, Carve, BeginsStartCode, DescribeFrame;
    var codes, frames := StartCodes(image), Carve(image, 0, blake3);
    var ks := NonEmptyBelow(codes, |codes|, |image|);
    CarveByIndex(image, 0, blake3);
    BodyIsEmpty(image, j);
    NonEmptyExactly(codes, |codes|, |image|, j);
    forall m | 0 <= m < |frames|
      ensures frames[m].byteOffset == codes[ks[m]].pos
      ensures frames[m].byteOffset == codes[j].pos ==> ks[m] == j
    {
      var end := EndOf(codes, ks[m], |image|);
      DescribedFrame(0 + codes[ks[m]].pos, image[codes[ks[m]].Body()], image[codes[ks[m]].pos..end], blake3);
      SamePlace(codes, ks[m], j, |image|);
    }
    if j in ks {
      var m :| 0 <= m < |ks| && ks[m] == j;
      assert frames[m].byteOffset == codes[j].pos;
    }
  }

  lemma SamePlace(codes: seq<StartCode>, j: nat, k: nat, len: nat)
    requires WellPlaced(codes, len) && j < |codes| && k < |codes|
    ensures codes[j].pos == codes[k].pos ==> j == k
  {
    assert codes[j].prefixLen in {3, 4} && codes[k].prefixLen in {3, 4};
  }

  /**
   * A frame carved from `[a, b)` alone against start code `j` of the image: whether the image has a
   * frame there, and how the two frames compare.
   */
  ghost predicate FrameFits(image: seq<byte>, a: nat, b: nat, f: CarvedFrame, j: nat, blake3: Hash)
    requires b <= |image|
  {
    var codes, frames := StartCodes(image), Carve(image, 0, blake3);
    && FrameAgrees(image, a, b, f, j, blake3)
    && (FrameStartsAt(frames, codes[j].pos) <==> !BeginsStartCode(image, codes[j].Body()))
    && forall m :: 0 <= m < |frames| && frames[m].byteOffset == codes[j].pos ==>
                     SameFrame(frames[m], f, a, b)
  }

  /** Same class, same place up to a zero byte before the block, same end up to the block's end. */
  ghost predicate SameFrame(whole: CarvedFrame, f: CarvedFrame, a: nat, b: nat) {
    var wholeEnd, end := whole.byteOffset + whole.length, f.byteOffset + f.length;
    && f.nal == whole.nal
    && (f.byteOffset == whole.byteOffset || (f.byteOffset == a && whole.byteOffset + 1 == a))
    && (end < b ==> end == wholeEnd)
    && (end == b ==> b <= wholeEnd + 3)
  }

  /** Every frame of a block, against the frames of the whole image. */
  lemma BlockFramesInImage(image: seq<byte>, a: nat, b: nat, blake3: Hash) returns (js: seq<nat>)
    requires a <= b <= |image|
    ensures |js| == |Carve(image[a..b], a, blake3)| && StrictlyIncreasing(js)
    ensures forall i :: 0 <= i < |js| ==> FrameFits(image, a, b, Carve(image[a..b], a, blake3)[i], js[i], blake3)
  {
    js := BlockFramesAgree(image, a, b, blake3);
    if b - a < 5 {
      assert js == [];
    } else {
      forall i | 0 <= i < |js|
        ensures FrameFits(image, a, b, Carve(image[a..b], a, blake3)[i], js[i], blake3)
      {
        AgreeingFrameFits(image, a, b, Carve(image[a..b], a, blake3)[i], js[i], blake3);
      }
    }
  }

  lemma AgreeingFrameFits(image: seq<byte>, a: nat, b: nat, f: CarvedFrame, j: nat, blake3: Hash)
    requires b <= |image| && |image| >= 5 && FrameAgrees(image, a, b, f, j, blake3)
    ensures FrameFits(image, a, b, f, j, blake3)
  {
    hide StartCodes, Carve, BeginsStartCode, FrameStartsAt, ClassifyNalHeader;
    WholeFrameExactly(image, j, blake3);
  }

  /** A block frame whose start code yields no frame in the whole image: its body begins with another start code. */
  lemma FrameOfBlockOnly(blake3: Hash)
    ensures var image: seq<byte> := [0, 0, 1, 0x65, 7, 0, 0, 1, 0, 0, 1, 0x41, 7];
            FrameStartsAt(Carve(image[..9], 0, blake3), 5) && !FrameStartsAt(Carve(image, 0, blake3), 5)
  {
    var image: seq<byte> := [0, 0, 1, 0x65, 7, 0, 0, 1, 0, 0, 1, 0x41, 7];
    var block := image[..9];
    var i := CodesBelowComplete(image, |image|, 5);
    var j := CodesBelowComplete(block, |block|, 5);
    assert BeginsStartCode(image, 8) && !BeginsStartCode(block, 8);
    WholeFrameExactly(image, i, blake3);
    WholeFrameExactly(block, j, blake3);
  }
}
