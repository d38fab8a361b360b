/** Carving one block of an image against carving the whole image. */
module CarverWindow {
  import opened Bytes
  import opened Carver
  import opened CarverTiling

  lemma {:induction false} CodesBelowPrefix(data: seq<byte>, m: nat, n: nat)
    requires m <= n
    ensures CodesBelow(data, m) <= CodesBelow(data, n)
    decreases n
  {
    if m < n {
      CodesBelowPrefix(data, m, n - 1);
    }
  }

  /**
   * A start code of the window `[a, ..)` and one of the image stand for the same `00 00 01`. The
   * image's start code may begin one byte earlier, when that byte is a zero just before the window.
   */
  ghost predicate SameOccurrence(image: seq<byte>, a: nat, inWindow: StartCode, inImage: StartCode) {
    && inImage.Body() == a + inWindow.Body()
    && (|| inImage.pos == a + inWindow.pos
        || (inWindow.pos == 0 && inImage.pos + 1 == a && ZeroBefore(image, a)))
  }

  ghost predicate Matches(image: seq<byte>, a: nat, window: seq<StartCode>, codes: seq<StartCode>, j: nat) {
    && j + |window| <= |codes|
    && (forall k :: 0 <= k < |window| ==> SameOccurrence(image, a, window[k], codes[j + k]))
  }

  /** Away from its last three bytes the window sees exactly what the whole image sees. */
  lemma DetectableInWindow(image: seq<byte>, a: nat, b: nat, p: nat)
    requires a <= b <= |image|
    ensures p + 4 <= b - a ==> (Detectable(image[a..b], p) <==> Detectable(image, a + p))
    ensures Detectable(image[a..b], p) ==>
              && Detectable(image, a + p)
              && SameOccurrence(image, a, CodeAt(image[a..b], p), CodeAt(image, a + p))
    ensures p + 2 >= b - a ==> !Detectable(image[a..b], p)
  {
    var w := image[a..b];
    assert forall q :: 0 <= q < |w| ==> w[q] == image[a + q];
  }

  lemma {:induction false} CodesInWindow(image: seq<byte>, a: nat, b: nat, n: nat)
    requires a <= b <= |image| && n + 3 <= b - a
    ensures Matches(image, a, CodesBelow(image[a..b], n), CodesBelow(image, a + n), |CodesBelow(image, a)|)
    ensures |CodesBelow(image, a + n)| == |CodesBelow(image, a)| + |CodesBelow(image[a..b], n)|
  {
    if n > 0 {
      CodesInWindow(image, a, b, n - 1);
      DetectableInWindow(image, a, b, n - 1);
    }
  }

  lemma CodesWithLast(image: seq<byte>, a: nat, b: nat)
    requires a + 3 <= b <= |image|
    ensures Matches(image, a, CodesBelow(image[a..b], b - a - 2), CodesBelow(image, b - 2), |CodesBelow(image, a)|)
    ensures |CodesBelow(image, b - 2)| ==
            |CodesBelow(image, a)| + |CodesBelow(image[a..b], b - a - 2)|
            + if Detectable(image, b - 3) && !Detectable(image[a..b], b - a - 3) then 1 else 0
  {
    hide Detectable, CodeAt;
    var n := b - a - 3;
    CodesInWindow(image, a, b, n);
    DetectableInWindow(image, a, b, n);
    assert a + n == b - 3;
    assert CodesBelow(image[a..b], n + 1) == CodesBelow(image[a..b], n)
           + if Detectable(image[a..b], n) then [CodeAt(image[a..b], n)] else [];
    assert CodesBelow(image, b - 2) == CodesBelow(image, b - 3)
           + if Detectable(image, b - 3) then [CodeAt(image, b - 3)] else [];
  }

  /** Start codes recorded from position `n` on begin at `n - 1` at the earliest, and at `n` if nothing precedes. */
  lemma {:induction false} LaterCodes(data: seq<byte>, n: nat, m: nat, j: nat)
    requires n <= m && |CodesBelow(data, n)| <= j < |CodesBelow(data, m)|
    ensures CodesBelow(data, m)[j].Body() - 3 >= n
    ensures CodesBelow(data, m)[j].pos >= n - 1
    decreases m
  {
    if j < |CodesBelow(data, m - 1)| {
      LaterCodes(data, n, m - 1, j);
    } else {
      assert Detectable(data, m - 1);
      if m - 1 < n {
        CodesBelowPrefix(data, m, n);
        assert false;
      }
    }
  }

  /**
   * The start codes found in a window are a contiguous run of the start codes found in the whole
   * image, and the image's next one begins at most three bytes before the end of the window.
   */
  lemma WindowIsRun(image: seq<byte>, a: nat, b: nat) returns (j: nat)
    requires a + 5 <= b <= |image|
    ensures Matches(image, a, StartCodes(image[a..b]), StartCodes(image), j)
    ensures var next := j + |StartCodes(image[a..b])|;
            next < |StartCodes(image)| ==> StartCodes(image)[next].pos + 3 >= b
  {
    var w, whole := image[a..b], StartCodes(image);
    j := |CodesBelow(image, a)|;
    CodesBelowPrefix(image, a, |image|);
    var next := j + |StartCodes(w)|;
    CodesWithLast(image, a, b);
    forall p | b - a - 2 <= p < |w|
      ensures !Detectable(w, p)
    {
      DetectableInWindow(image, a, b, p);
    }
    CodesBelowSkip(w, b - a - 2, |w|);
    CodesBelowPrefix(image, b - 2, |image|);
    assert Matches(image, a, StartCodes(w), whole, j);
    if next < |whole| {
      NextAfterWindow(image, a, b, next);
    }
  }

  lemma NextAfterWindow(image: seq<byte>, a: nat, b: nat, next: nat)
    requires a + 5 <= b <= |image|
    requires next == |CodesBelow(image, a)| + |CodesBelow(image[a..b], b - a - 2)| < |StartCodes(image)|
    ensures StartCodes(image)[next].pos + 3 >= b
  {
    CodesWithLast(image, a, b);
    CodesBelowPrefix(image, b - 2, |image|);
    if next == |CodesBelow(image, b - 2)| {
      LaterCodes(image, b - 2, |image|, next);
    } else {
      // the image records `00 00 01` at b - 3, the window does not: no zero precedes it
      CodesInWindow(image, a, b, b - a - 3);
      DetectableInWindow(image, a, b, b - a - 3);
      assert image[a..b][b - a - 4] == image[b - 4];
      assert CodesBelow(image, b - 2)[next] == CodeAt(image, b - 3);
      assert StartCodes(image)[next] == CodeAt(image, b - 3);
    }
  }

  /** A start code is found in the window exactly when it and one following byte, or one preceding zero, are in it. */
  lemma FoundInWindow(image: seq<byte>, a: nat, b: nat, p: nat)
    requires a <= b <= |image| && a <= p && p + 3 <= b && Triple(image, p)
    ensures (exists k :: 0 <= k < |StartCodes(image[a..b])| && a + StartCodes(image[a..b])[k].Body() - 3 == p)
            <==> p + 4 <= b || (a < p && image[p - 1] == 0)
  {
    var w := image[a..b];
    assert Triple(w, p - a);
    ScanFindsExactly(w, p - a);
    assert ZeroBefore(w, p - a) <==> a < p && image[p - 1] == 0;
    if k :| 0 <= k < |StartCodes(w)| && a + StartCodes(w)[k].Body() - 3 == p {
      assert StartCodes(w)[k].Body() - 3 == p - a;
    }
    if k :| 0 <= k < |StartCodes(w)| && StartCodes(w)[k].Body() - 3 == p - a {
      assert a + StartCodes(w)[k].Body() - 3 == p;
    }
  }

  /** How a frame carved from `[a, b)` alone relates to start code `j` of the whole image. */
  ghost predicate FrameAgrees(image: seq<byte>, a: nat, b: nat, f: CarvedFrame, j: nat, blake3: Hash)
    requires b <= |image|
  {
    var codes := StartCodes(image);
    && j < |codes|
    && codes[j].Body() < |image|
    && (f.byteOffset == codes[j].pos || (f.byteOffset == a && codes[j].pos + 1 == a))
    && f.byteOffset + f.length <= b
    && f == DescribeFrame(f.byteOffset, image[codes[j].Body()],
                          image[f.byteOffset..f.byteOffset + f.length], blake3)
    && (f.byteOffset + f.length < b ==> f.byteOffset + f.length == EndOf(codes, j, |image|))
    && (f.byteOffset + f.length == b ==> b <= EndOf(codes, j, |image|) + 3)
  }

  lemma SliceInWindow(image: seq<byte>, a: nat, b: nat, lo: nat, hi: nat)
    requires a <= b <= |image| && lo <= hi <= b - a
    ensures image[a..b][lo..hi] == image[a + lo..a + hi]
  {
    var u, v := image[a..b][lo..hi], image[a + lo..a + hi];
    forall i | 0 <= i < hi - lo
      ensures u[i] == v[i]
    {
      assert u[i] == image[a..b][lo + i] == image[a + (lo + i)];
    }
  }

  lemma FrameOfWindow(image: seq<byte>, a: nat, b: nat, k: nat, j: nat, blake3: Hash)
    requires a <= b <= |image|
    requires WellPlaced(StartCodes(image[a..b]), b - a)
    requires Matches(image, a, StartCodes(image[a..b]), StartCodes(image), j)
    requires var next := j + |StartCodes(image[a..b])|;
             next < |StartCodes(image)| ==> StartCodes(image)[next].pos + 3 >= b
    requires k < |StartCodes(image[a..b])|
    requires StartCodes(image[a..b])[k].Body() < EndOf(StartCodes(image[a..b]), k, b - a) <= b - a
    ensures FrameAgrees(image, a, b,
                        FrameOf(image[a..b], a, StartCodes(image[a..b])[k],
                                EndOf(StartCodes(image[a..b]), k, b - a), blake3),
                        j + k, blake3)
  {
    hide CodesBelow, Detectable, DescribeFrame;
    var w := image[a..b];
    var inWindow, inImage := StartCodes(w), StartCodes(image);
    var code, end := inWindow[k], EndOf(inWindow, k, b - a);
    var f := FrameOf(w, a, code, end, blake3);
    assert SameOccurrence(image, a, code, inImage[j + k]);
    assert w[code.Body()] == image[a + code.Body()] == image[inImage[j + k].Body()];
    SliceInWindow(image, a, b, code.pos, end);
    DescribedFrame(a + code.pos, w[code.Body()], w[code.pos..end], blake3);
    assert f.byteOffset == a + code.pos && f.byteOffset + f.length == a + end;
    if k + 1 < |inWindow| {
      assert SameOccurrence(image, a, inWindow[k + 1], inImage[j + (k + 1)]);
      assert inWindow[k].Body() <= inWindow[k + 1].pos;
    }
  }

  lemma DescribedFrame(offset: nat, header: byte, slice: seq<byte>, blake3: Hash)
    ensures var f := DescribeFrame(offset, header, slice, blake3);
            f.byteOffset == offset && f.length == |slice|
  {
  }

  lemma CarveByIndex(data: seq<byte>, base: nat, blake3: Hash)
    requires |data| >= 5
    ensures var codes := StartCodes(data);
            var ks := NonEmptyBelow(codes, |codes|, |data|);
            && WellPlaced(codes, |data|)
            && |Carve(data, base, blake3)| == |ks|
            && forall i :: 0 <= i < |ks| ==>
                             && EndOf(codes, ks[i], |data|) <= |data|
                             && Carve(data, base, blake3)[i] ==
                                FrameOf(data, base, codes[ks[i]], EndOf(codes, ks[i], |data|), blake3)
  {
    StartCodesPlaced(data);
    FramesByIndex(data, base, StartCodes(data), |StartCodes(data)|, blake3);
  }

  /** The indices of the start codes that have a body. */
  function Bodied(data: seq<byte>): (ks: seq<nat>)
    ensures forall i :: 0 <= i < |ks| ==> ks[i] < |StartCodes(data)|
    ensures forall i, j :: 0 <= i < j < |ks| ==> ks[i] < ks[j]
  {
    NonEmptyBelow(StartCodes(data), |StartCodes(data)|, |data|)
  }

  lemma BodiedFrames(data: seq<byte>, base: nat, blake3: Hash)
    requires |data| >= 5
    ensures |Carve(data, base, blake3)| == |Bodied(data)|
  {
    CarveByIndex(data, base, blake3);
  }

  /** The `i`-th frame of a window whose start codes are the run of the image's that begins at `j`. */
  lemma WindowFrameAgrees(image: seq<byte>, a: nat, b: nat, i: nat, j: nat, blake3: Hash)
    requires a + 5 <= b <= |image|
    requires Matches(image, a, StartCodes(image[a..b]), StartCodes(image), j)
    requires var next := j + |StartCodes(image[a..b])|;
             next < |StartCodes(image)| ==> StartCodes(image)[next].pos + 3 >= b
    requires i < |Bodied(image[a..b])|
    ensures i < |Carve(image[a..b], a, blake3)|
    ensures FrameAgrees(image, a, b, Carve(image[a..b], a, blake3)[i], j + Bodied(image[a..b])[i], blake3)
  {
    hide Carve, FrameAgrees, StartCodes, Matches, NonEmptyBelow, WellPlaced;
    CarveByIndex(image[a..b], a, blake3);
    FrameOfWindow(image, a, b, Bodied(image[a..b])[i], j, blake3);
  }

  /**
   * Every frame carved from a block alone is anchored at a start code of the whole image, one byte
   * later at most; it has the same header byte; it ends at the image's next start code when the
   * block holds that one, and otherwise with the block, at most 3 bytes past that place.
   * `js` names, in order, the whole-image start codes.
   */
  lemma BlockFramesAgree(image: seq<byte>, a: nat, b: nat, blake3: Hash) returns (js: seq<nat>)
    requires a <= b <= |image|
    ensures |js| == |Carve(image[a..b], a, blake3)| && StrictlyIncreasing(js)
    ensures forall i :: 0 <= i < |js| ==> FrameAgrees(image, a, b, Carve(image[a..b], a, blake3)[i], js[i], blake3)
  {
    if b - a < 5 {
      return [];
    }
    hide Carve, FrameAgrees, StartCodes, Matches, Bodied;
    var w := image[a..b];
    var j := WindowIsRun(image, a, b);
    BodiedFrames(w, a, blake3);
    js := seq(|Bodied(w)|, i requires 0 <= i < |Bodied(w)| => j + Bodied(w)[i]);
    forall i | 0 <= i < |js|
      ensures FrameAgrees(image, a, b, Carve(w, a, blake3)[i], js[i], blake3)
    {
      WindowFrameAgrees(image, a, b, i, j, blake3);
    }
  }
}
