/** What the carver's scan finds, and how its frames tile the buffer and the image. */
module CarverTiling {
  import opened Bytes
  import opened Arithmetic
  import opened Carver

  // ----- Completeness of the scan -----

  lemma {:induction false} CodesBelowComplete(data: seq<byte>, n: nat, p: nat) returns (k: nat)
    requires p < n && Detectable(data, p)
    ensures k < |CodesBelow(data, n)| && CodesBelow(data, n)[k] == CodeAt(data, p)
  {
    if p == n - 1 {
      k := |CodesBelow(data, n - 1)|;
    } else {
      k := CodesBelowComplete(data, n - 1, p);
    }
  }

  /**
   * An occurrence of `00 00 01` is recorded if and only if a byte follows it or a zero precedes it;
   * it is recorded in the 4-byte form exactly when a zero precedes it.
   */
  lemma ScanFindsExactly(data: seq<byte>, p: nat)
    requires Triple(data, p)
    ensures (exists k :: 0 <= k < |StartCodes(data)| && StartCodes(data)[k].Body() - 3 == p)
            <==> p + 4 <= |data| || ZeroBefore(data, p)
    ensures forall k :: 0 <= k < |StartCodes(data)| && StartCodes(data)[k].Body() - 3 == p ==>
                          (StartCodes(data)[k].prefixLen == 4 <==> ZeroBefore(data, p))
  {
    CodesBelowPlaced(data, |data|);
    if Detectable(data, p) {
      var k := CodesBelowComplete(data, |data|, p);
      assert StartCodes(data)[k].Body() - 3 == p;
    }
  }

  /** The scan does miss a start code that ends the buffer without a zero in front of it. */
  lemma FinalStartCodeMissed()
    ensures var data: seq<byte> := [0, 0, 1, 0x65, 0, 0, 1];
            Triple(data, 4) && forall k :: 0 <= k < |StartCodes(data)| ==> StartCodes(data)[k].Body() - 3 != 4
  {
    var data: seq<byte> := [0, 0, 1, 0x65, 0, 0, 1];
    ScanFindsExactly(data, 4);
  }

  /** Two recorded codes come in the order of their occurrences, and none is recorded twice. */
  lemma ScanKeepsOrder(data: seq<byte>, j: nat, k: nat)
    requires j < |StartCodes(data)| && k < |StartCodes(data)|
    ensures StartCodes(data)[j].Body() >= 3 && Triple(data, StartCodes(data)[j].Body() - 3)
    ensures j < k <==> StartCodes(data)[j].Body() < StartCodes(data)[k].Body()
  {
    CodesBelowPlaced(data, |data|);
  }

  // ----- Tiling -----

  /** The bytes from one start code to the next, start code included. */
  function Segment(data: seq<byte>, codes: seq<StartCode>, k: nat): seq<byte>
    requires k < |codes| && codes[k].pos <= EndOf(codes, k, |data|) <= |data|
  {
    data[codes[k].pos..EndOf(codes, k, |data|)]
  }

  ghost function SegmentsBelow(data: seq<byte>, codes: seq<StartCode>, n: nat): seq<byte>
    requires WellPlaced(codes, |data|) && n <= |codes|
  {
    if n == 0 then []
    else
      EndInside(codes, n - 1, |data|);
      SegmentsBelow(data, codes, n - 1) + Segment(data, codes, n - 1)
  }

  lemma {:induction false} SegmentsConcatenate(data: seq<byte>, codes: seq<StartCode>, n: nat)
    requires WellPlaced(codes, |data|) && 0 < n <= |codes|
    ensures EndOf(codes, n - 1, |data|) <= |data| && codes[0].pos <= EndOf(codes, n - 1, |data|)
    ensures SegmentsBelow(data, codes, n) == data[codes[0].pos..EndOf(codes, n - 1, |data|)]
  {
    EndInside(codes, n - 1, |data|);
    if n == 1 {
      assert SegmentsBelow(data, codes, 0) == [];
    } else {
      SegmentsConcatenate(data, codes, n - 1);
      var a, b, c := codes[0].pos, codes[n - 1].pos, EndOf(codes, n - 1, |data|);
      assert data[a..b] + data[b..c] == data[a..c];
    }
  }

  /** A start code without a body is exactly its own prefix. */
  lemma EmptySegment(data: seq<byte>, k: nat)
    requires k < |StartCodes(data)|
    requires EndOf(StartCodes(data), k, |data|) <= StartCodes(data)[k].Body()
    ensures var codes := StartCodes(data);
            && codes[k].pos <= EndOf(codes, k, |data|) <= |data|
            && Segment(data, codes, k) == if codes[k].prefixLen == 4 then [0, 0, 0, 1] else [0, 0, 1]
  {
    var codes := StartCodes(data);
    CodesBelowPlaced(data, |data|);
    EndInside(codes, k, |data|);
    var p := codes[k].Body() - 3;
    assert Triple(data, p) && codes[k] == CodeAt(data, p);
  }

  /** The total length of the frames of the start codes below `n`. */
  function FrameBytes(frames: seq<CarvedFrame>): nat {
    if frames == [] then 0 else FrameBytes(frames[..|frames| - 1]) + frames[|frames| - 1].length
  }

  /** The total length of the start codes below `n` that have no body. */
  function EmptyBytes(codes: seq<StartCode>, n: nat, len: nat): nat
    requires n <= |codes|
  {
    if n == 0 then 0
    else EmptyBytes(codes, n - 1, len)
         + if codes[n - 1].Body() < EndOf(codes, n - 1, len) then 0 else codes[n - 1].prefixLen
  }

  lemma {:induction false} BytesConserved(
    data: seq<byte>, base: nat, codes: seq<StartCode>, n: nat, blake3: Hash)
    requires WellPlaced(codes, |data|) && 0 < n <= |codes|
    ensures FrameBytes(FramesBelow(data, base, codes, n, blake3)) + EmptyBytes(codes, n, |data|) ==
            EndOf(codes, n - 1, |data|) - codes[0].pos
  {
    EndInside(codes, n - 1, |data|);
    FramesBelowNext(data, base, codes, n - 1, blake3);
    var before := FramesBelow(data, base, codes, n - 1, blake3);
    var frames := FramesBelow(data, base, codes, n, blake3);
    if n > 1 {
      BytesConserved(data, base, codes, n - 1, blake3);
    } else {
      assert before == [];
    }
    assert frames != before ==> frames[..|frames| - 1] == before;
  }

  /**
   * Tiling: from the first start code to the end of the buffer, the segments concatenate to the
   * buffer; every byte is in a frame or in the prefix of a start code that has no body.
   */
  lemma FramesTileBuffer(data: seq<byte>, base: nat, blake3: Hash)
    requires |data| >= 5 && StartCodes(data) != []
    ensures var codes := StartCodes(data);
            && WellPlaced(codes, |data|)
            && SegmentsBelow(data, codes, |codes|) == data[codes[0].pos..]
            && FrameBytes(Carve(data, base, blake3)) + EmptyBytes(codes, |codes|, |data|) ==
               |data| - codes[0].pos
  {
    hide StartCodes, SegmentsBelow, FrameBytes, EmptyBytes, FramesBelow;
    var codes := StartCodes(data);
    StartCodesPlaced(data);
    SegmentsConcatenate(data, codes, |codes|);
    BytesConserved(data, base, codes, |codes|, blake3);
  }

  // ----- Order and disjointness -----

  /** Frames are in increasing order, do not overlap, and lie in `[lo, hi)`. */
  ghost predicate OrderedWithin(frames: seq<CarvedFrame>, lo: nat, hi: nat) {
    && (forall i :: 0 <= i < |frames| ==>
                      lo <= frames[i].byteOffset && frames[i].byteOffset + frames[i].length <= hi)
    && (forall i :: 0 <= i < |frames| ==> frames[i].length >= 4)
    && (forall i, j :: 0 <= i < j < |frames| ==>
                         frames[i].byteOffset + frames[i].length <= frames[j].byteOffset)
  }

  lemma OrderedAppend(a: seq<CarvedFrame>, b: seq<CarvedFrame>, lo: nat, mid: nat, hi: nat)
    requires lo <= mid <= hi && OrderedWithin(a, lo, mid) && OrderedWithin(b, mid, hi)
    ensures OrderedWithin(a + b, lo, hi)
  {
  }

  lemma NoFramesYet(data: seq<byte>, base: nat, codes: seq<StartCode>, blake3: Hash)
    requires WellPlaced(codes, |data|) && codes != []
    ensures OrderedWithin(FramesBelow(data, base, codes, 0, blake3), base, base + codes[0].pos)
  {
  }

  lemma {:induction false} FramesOrdered(
    data: seq<byte>, base: nat, codes: seq<StartCode>, n: nat, blake3: Hash)
    requires WellPlaced(codes, |data|) && n < |codes|
    ensures OrderedWithin(FramesBelow(data, base, codes, n, blake3), base, base + codes[n].pos)
  {
    hide OrderedWithin, FramesBelow, WellPlaced;
    if n == 0 {
      NoFramesYet(data, base, codes, blake3);
    } else {
      FramesOrdered(data, base, codes, n - 1, blake3);
      FramesOrderedNext(data, base, codes, n - 1, blake3);
    }
  }

  lemma FramesOrderedNext(data: seq<byte>, base: nat, codes: seq<StartCode>, k: nat, blake3: Hash)
    requires WellPlaced(codes, |data|) && k < |codes|
    requires OrderedWithin(FramesBelow(data, base, codes, k, blake3), base, base + codes[k].pos)
    ensures OrderedWithin(FramesBelow(data, base, codes, k + 1, blake3), base, base + EndOf(codes, k, |data|))
  {
    FramesBelowNext(data, base, codes, k, blake3);
    var before := FramesBelow(data, base, codes, k, blake3);
    var start, end := codes[k].pos, EndOf(codes, k, |data|);
    var last := if codes[k].Body() < end then [FrameOf(data, base, codes[k], end, blake3)] else [];
    assert codes[k].prefixLen in {3, 4};
    assert OrderedWithin(last, base + start, base + end);
    OrderedAppend(before, last, base, base + start, base + end);
  }

  lemma AllFramesOrdered(data: seq<byte>, base: nat, codes: seq<StartCode>, blake3: Hash)
    requires WellPlaced(codes, |data|)
    ensures OrderedWithin(FramesBelow(data, base, codes, |codes|, blake3), base, base + |data|)
  {
    if codes != [] {
      FramesOrdered(data, base, codes, |codes| - 1, blake3);
      FramesOrderedNext(data, base, codes, |codes| - 1, blake3);
    }
  }

  lemma CarveOrdered(data: seq<byte>, base: nat, blake3: Hash)
    ensures OrderedWithin(Carve(data, base, blake3), base, base + |data|)
  {
    if |data| >= 5 {
      StartCodesPlaced(data);
      AllFramesOrdered(data, base, StartCodes(data), blake3);
    }
  }

  lemma CarveOneOrdered(image: seq<byte>, offset: nat, n: nat, blockSize: nat, blake3: Hash)
    requires PossibleRead(image, blockSize, offset, n)
    ensures OrderedWithin(CarveOne(image, offset, n, blake3), offset, offset + n)
    ensures CarveOne(image, offset, n, blake3) != [] ==> offset + n <= |image|
  {
    if n > 0 {
      CarveOrdered(image[offset..offset + n], offset, blake3);
    }
  }

  ghost predicate StrictlyIncreasing(indices: seq<nat>) {
    forall i, j :: 0 <= i < j < |indices| ==> indices[i] < indices[j]
  }

  lemma BlockEnds(index: nat, next: nat, blockSize: nat)
    requires index < next
    ensures OffsetOf(index, blockSize) + blockSize <= OffsetOf(next, blockSize)
  {
    MultiplyMonotone(index + 1, next, blockSize);
    assert (index + 1) * blockSize == index * blockSize + blockSize;
  }

  /** For strictly increasing block indices the whole result is ordered, and no two frames overlap. */
  lemma {:induction false} CarvedBlocksOrdered(
    image: seq<byte>, blockSize: nat, indices: seq<nat>, counts: seq<nat>, blake3: Hash)
    requires PossibleReads(image, blockSize, indices, counts) && StrictlyIncreasing(indices)
    ensures var hi := if indices == [] then 0 else indices[|indices| - 1] * blockSize + blockSize;
            OrderedWithin(CarveBlocks(image, blockSize, indices, counts, blake3), 0, hi)
  {
    if indices != [] {
      var k := |indices| - 1;
      CarvedBlocksOrdered(image, blockSize, indices[..k], counts[..k], blake3);
      var offset := OffsetOf(indices[k], blockSize);
      var before := CarveBlocks(image, blockSize, indices[..k], counts[..k], blake3);
      if k > 0 {
        BlockEnds(indices[k - 1], indices[k], blockSize);
      }
      assert OrderedWithin(before, 0, offset);
      var one := CarveOne(image, offset, counts[k], blake3);
      CarveOneOrdered(image, offset, counts[k], blockSize, blake3);
      OrderedAppend(before, one, 0, offset, offset + blockSize);
    }
  }

  ghost predicate InsideBlock(f: CarvedFrame, offset: nat, blockSize: nat, len: nat) {
    && offset <= f.byteOffset
    && f.byteOffset + f.length <= offset + blockSize
    && f.byteOffset + f.length <= len
  }

  lemma CarveOneInside(image: seq<byte>, offset: nat, n: nat, blockSize: nat, blake3: Hash, i: nat)
    requires PossibleRead(image, blockSize, offset, n)
    requires i < |CarveOne(image, offset, n, blake3)|
    ensures InsideBlock(CarveOne(image, offset, n, blake3)[i], offset, blockSize, |image|)
  {
    CarveOneOrdered(image, offset, n, blockSize, blake3);
  }

  /** No frame crosses a block: each lies inside one of the blocks that were asked for. */
  lemma {:induction false} FramesStayInBlocks(
    image: seq<byte>, blockSize: nat, indices: seq<nat>, counts: seq<nat>, blake3: Hash, i: nat)
    returns (k: nat)
    requires PossibleReads(image, blockSize, indices, counts)
    requires i < |CarveBlocks(image, blockSize, indices, counts, blake3)|
    ensures k < |indices|
    ensures InsideBlock(CarveBlocks(image, blockSize, indices, counts, blake3)[i],
                        indices[k] * blockSize, blockSize, |image|)
  {
    k := |indices| - 1;
    var before := CarveBlocks(image, blockSize, indices[..k], counts[..k], blake3);
    if i < |before| {
      k := FramesStayInBlocks(image, blockSize, indices[..k], counts[..k], blake3, i);
    } else {
      CarveOneInside(image, OffsetOf(indices[k], blockSize), counts[k], blockSize, blake3, i - |before|);
    }
  }
}
