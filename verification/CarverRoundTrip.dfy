/**
 * The Annex B byte stream format of ITU-T H.264 as a printer, and the carver as its parser: carving
 * a stream of NAL units returns those units.
 */
module CarverRoundTrip {
  import opened Bytes
  import opened Carver

  /** A NAL unit with the start code it is written with. */
  datatype NalUnit = NalUnit(longPrefix: bool, body: seq<byte>)

  function Prefix(longPrefix: bool): seq<byte> {
    if longPrefix then [0, 0, 0, 1] else [0, 0, 1]
  }

  function Encode(u: NalUnit): seq<byte> {
    Prefix(u.longPrefix) + u.body
  }

  /** Section 7.4.1: no start code inside, and no zero byte at the end. */
  ghost predicate Clean(s: seq<byte>) {
    && (forall p :: 0 <= p < |s| ==> !Triple(s, p))
    && (s != [] ==> s[|s| - 1] != 0)
  }

  ghost predicate WellFormed(units: seq<NalUnit>) {
    forall k :: 0 <= k < |units| ==> units[k].body != [] && Clean(units[k].body)
  }

  /** The leading noise followed by the first `n` units. */
  function Stream(noise: seq<byte>, units: seq<NalUnit>, n: nat): seq<byte>
    requires n <= |units|
  {
    if n == 0 then noise else Stream(noise, units, n - 1) + Encode(units[n - 1])
  }

  /** Where each unit was written. */
  function WrittenCodes(noise: seq<byte>, units: seq<NalUnit>, n: nat): (codes: seq<StartCode>)
    requires n <= |units|
    ensures |codes| == n
  {
    if n == 0 then []
    else WrittenCodes(noise, units, n - 1)
         + [StartCode(|Stream(noise, units, n - 1)|, |Prefix(units[n - 1].longPrefix)|)]
  }

  /** One frame per unit, with its own offset, length, header byte and bytes. */
  function WrittenFrames(noise: seq<byte>, units: seq<NalUnit>, n: nat, base: nat, blake3: Hash)
    : seq<CarvedFrame>
    requires n <= |units| && forall k :: 0 <= k < |units| ==> units[k].body != []
  {
    if n == 0 then []
    else WrittenFrames(noise, units, n - 1, base, blake3)
         + [DescribeFrame(base + |Stream(noise, units, n - 1)|, units[n - 1].body[0],
                          Encode(units[n - 1]), blake3)]
  }

  /** A stream so far: no zero at its end, and no start code that still waits for a byte. */
  ghost predicate Closed(s: seq<byte>) {
    && (s != [] ==> s[|s| - 1] != 0)
    && (|s| >= 3 ==> !Triple(s, |s| - 3))
  }

  /** Appending a unit leaves every earlier detection as it was. */
  lemma EarlierUnchanged(s: seq<byte>, t: seq<byte>, p: nat)
    requires Closed(s) && s <= t && p < |s|
    ensures Detectable(t, p) <==> Detectable(s, p)
    ensures CodeAt(t, p) == CodeAt(s, p)
  {
    if p + 3 <= |s| {
      assert t[p] == s[p] && t[p + 1] == s[p + 1] && t[p + 2] == s[p + 2];
    } else {
      assert t[|s| - 1] != 0;
    }
  }

  lemma {:induction false} EarlierCodes(s: seq<byte>, t: seq<byte>, n: nat)
    requires Closed(s) && s <= t && n <= |s|
    ensures CodesBelow(t, n) == CodesBelow(s, n)
  {
    if n > 0 {
      EarlierCodes(s, t, n - 1);
      EarlierUnchanged(s, t, n - 1);
    }
  }

  /** In `s + Encode(u)` the only new occurrence is the one written. */
  lemma NewOccurrences(s: seq<byte>, u: NalUnit, p: nat)
    requires u.body != [] && Clean(u.body) && Closed(s) && |s| <= p < |s| + |Encode(u)|
    ensures var t := s + Encode(u);
            var written := |s| + |Prefix(u.longPrefix)| - 3;
            && (Triple(t, p) <==> p == written)
            && Detectable(t, written)
            && CodeAt(t, written) == StartCode(|s|, |Prefix(u.longPrefix)|)
  {
    var t := s + Encode(u);
    var start := |s| + |Prefix(u.longPrefix)|;
    assert t[start - 1] == 1 && t[start - 2] == 0 && t[start - 3] == 0;
    assert u.longPrefix ==> t[start - 4] == 0 && start - 4 == |s|;
    assert t[start..] == u.body;
    if p >= start {
      assert !Triple(u.body, p - start);
      assert forall q :: 0 <= q < |u.body| ==> u.body[q] == t[start + q];
    }
  }

  lemma AppendUnit(s: seq<byte>, u: NalUnit)
    requires u.body != [] && Clean(u.body) && Closed(s)
    ensures Closed(s + Encode(u))
    ensures StartCodes(s + Encode(u)) == StartCodes(s) + [StartCode(|s|, |Prefix(u.longPrefix)|)]
  {
    var t := s + Encode(u);
    var written := |s| + |Prefix(u.longPrefix)| - 3;
    forall p | |s| <= p < |t|
      ensures Triple(t, p) <==> p == written
      ensures Detectable(t, written) && CodeAt(t, written) == StartCode(|s|, |Prefix(u.longPrefix)|)
    {
      NewOccurrences(s, u, p);
    }
    EarlierCodes(s, t, |s|);
    CodesBelowSkip(t, |s|, written);
    CodesBelowSkip(t, written + 1, |t|);
    assert t[|t| - 1] == u.body[|u.body| - 1];
    assert written != |t| - 3;
  }

  lemma {:induction false} ScanInvertsStream(noise: seq<byte>, units: seq<NalUnit>, n: nat)
    requires n <= |units| && Clean(noise) && WellFormed(units)
    ensures Closed(Stream(noise, units, n))
    ensures StartCodes(Stream(noise, units, n)) == WrittenCodes(noise, units, n)
  {
    if n == 0 {
      CodesBelowSkip(noise, 0, |noise|);
    } else {
      ScanInvertsStream(noise, units, n - 1);
      AppendUnit(Stream(noise, units, n - 1), units[n - 1]);
    }
  }

  lemma {:induction false} StreamPrefix(noise: seq<byte>, units: seq<NalUnit>, m: nat, n: nat)
    requires m <= n <= |units|
    ensures Stream(noise, units, m) <= Stream(noise, units, n)
    decreases n
  {
    if m < n {
      StreamPrefix(noise, units, m, n - 1);
    }
  }

  lemma {:induction false} WrittenCodeAt(noise: seq<byte>, units: seq<NalUnit>, n: nat, k: nat)
    requires k < n <= |units|
    ensures WrittenCodes(noise, units, n)[k] ==
            StartCode(|Stream(noise, units, k)|, |Prefix(units[k].longPrefix)|)
  {
    if k < n - 1 {
      WrittenCodeAt(noise, units, n - 1, k);
    }
  }

  lemma SliceOfPrefix(s: seq<byte>, unit: seq<byte>, t: seq<byte>)
    requires s + unit <= t
    ensures t[|s|..|s| + |unit|] == unit
    ensures forall i :: 0 <= i < |unit| ==> t[|s| + i] == unit[i]
  {
    var next := s + unit;
    assert t[..|next|] == next;
    assert t[..|next|][|s|..] == t[|s|..|next|];
    assert forall i :: 0 <= i < |unit| ==> next[|s| + i] == unit[i];
  }

  /** The `k`-th written unit in the finished stream: where its code is and where it ends. */
  lemma UnitEnds(noise: seq<byte>, units: seq<NalUnit>, k: nat)
    requires k < |units|
    ensures var codes := WrittenCodes(noise, units, |units|);
            && codes[k] == StartCode(|Stream(noise, units, k)|, |Prefix(units[k].longPrefix)|)
            && EndOf(codes, k, |Stream(noise, units, |units|)|) ==
               |Stream(noise, units, k)| + |Encode(units[k])|
  {
    WrittenCodeAt(noise, units, |units|, k);
    if k + 1 < |units| {
      WrittenCodeAt(noise, units, |units|, k + 1);
    }
  }

  ghost predicate FrameIs(
    data: seq<byte>, base: nat, codes: seq<StartCode>, k: nat, frame: CarvedFrame, blake3: Hash)
    requires k < |codes|
  {
    var end := EndOf(codes, k, |data|);
    codes[k].Body() < end <= |data| && FrameOf(data, base, codes[k], end, blake3) == frame
  }

  lemma NoFramesBelow(data: seq<byte>, base: nat, codes: seq<StartCode>, blake3: Hash)
    requires WellPlaced(codes, |data|)
    ensures FramesBelow(data, base, codes, 0, blake3) == []
  {
  }

  /** Start codes that all have a body, with known frames, give those frames. */
  lemma {:induction false} FramesAre(
    data: seq<byte>, base: nat, codes: seq<StartCode>, frames: seq<CarvedFrame>, n: nat, blake3: Hash)
    requires WellPlaced(codes, |data|) && |frames| == |codes| && n <= |codes|
    requires forall k :: 0 <= k < |codes| ==> FrameIs(data, base, codes, k, frames[k], blake3)
    ensures FramesBelow(data, base, codes, n, blake3) == frames[..n]
  {
    hide FrameOf, CodesBelow, FramesBelow, WellPlaced;
    if n == 0 {
      NoFramesBelow(data, base, codes, blake3);
    } else {
      FramesAre(data, base, codes, frames, n - 1, blake3);
      FramesBelowNext(data, base, codes, n - 1, blake3);
      assert FrameIs(data, base, codes, n - 1, frames[n - 1], blake3);
      assert frames[..n] == frames[..n - 1] + [frames[n - 1]];
    }
  }

  lemma {:induction false} WrittenFrameAt(
    noise: seq<byte>, units: seq<NalUnit>, n: nat, k: nat, base: nat, blake3: Hash)
    requires k < n <= |units| && WellFormed(units)
    ensures |WrittenFrames(noise, units, n, base, blake3)| == n
    ensures WrittenFrames(noise, units, n, base, blake3)[k] ==
            DescribeFrame(base + |Stream(noise, units, k)|, units[k].body[0], Encode(units[k]), blake3)
  {
    hide Stream, Encode, DescribeFrame;
    if k < n - 1 {
      WrittenFrameAt(noise, units, n - 1, k, base, blake3);
    } else if n > 1 {
      WrittenFrameAt(noise, units, n - 1, 0, base, blake3);
    }
  }

  lemma UnitFrame(
    s: seq<byte>, u: NalUnit, t: seq<byte>, codes: seq<StartCode>, k: nat, base: nat, blake3: Hash)
    requires u.body != [] && s + Encode(u) <= t && k < |codes|
    requires codes[k] == StartCode(|s|, |Prefix(u.longPrefix)|)
    requires EndOf(codes, k, |t|) == |s| + |Encode(u)|
    ensures FrameIs(t, base, codes, k, DescribeFrame(base + |s|, u.body[0], Encode(u), blake3), blake3)
  {
    SliceOfPrefix(s, Encode(u), t);
    assert Encode(u)[|Prefix(u.longPrefix)|] == u.body[0];
  }

  lemma WrittenFrameIs(noise: seq<byte>, units: seq<NalUnit>, k: nat, base: nat, blake3: Hash)
    requires WellFormed(units) && k < |units|
    ensures FrameIs(Stream(noise, units, |units|), base, WrittenCodes(noise, units, |units|), k,
                    DescribeFrame(base + |Stream(noise, units, k)|, units[k].body[0], Encode(units[k]), blake3),
                    blake3)
  {
    UnitEnds(noise, units, k);
    StreamPrefix(noise, units, k + 1, |units|);
    UnitFrame(Stream(noise, units, k), units[k], Stream(noise, units, |units|),
              WrittenCodes(noise, units, |units|), k, base, blake3);
  }

  lemma FramesInvertStream(noise: seq<byte>, units: seq<NalUnit>, base: nat, blake3: Hash)
    requires WellFormed(units) && units != []
    requires WellPlaced(WrittenCodes(noise, units, |units|), |Stream(noise, units, |units|)|)
    ensures FramesBelow(Stream(noise, units, |units|), base,
                        WrittenCodes(noise, units, |units|), |units|, blake3)
            == WrittenFrames(noise, units, |units|, base, blake3)
  {
    var t, codes := Stream(noise, units, |units|), WrittenCodes(noise, units, |units|);
    var frames := WrittenFrames(noise, units, |units|, base, blake3);
    WrittenFrameAt(noise, units, |units|, 0, base, blake3);
    forall k | 0 <= k < |codes|
      ensures FrameIs(t, base, codes, k, frames[k], blake3)
    {
      WrittenFrameIs(noise, units, k, base, blake3);
      WrittenFrameAt(noise, units, |units|, k, base, blake3);
    }
    FramesAre(t, base, codes, frames, |codes|, blake3);
  }

  /**
   * Round trip. Carving the stream returns one frame per unit, exactly as written, whenever the
   * stream has at least 5 bytes; a shorter stream gives no frame, whatever it holds.
   */
  lemma CarveInvertsStream(noise: seq<byte>, units: seq<NalUnit>, base: nat, blake3: Hash)
    requires Clean(noise) && WellFormed(units)
    ensures var stream := Stream(noise, units, |units|);
            Carve(stream, base, blake3) ==
            if |stream| < 5 then [] else WrittenFrames(noise, units, |units|, base, blake3)
  {
    var n := |units|;
    var stream := Stream(noise, units, n);
    ScanInvertsStream(noise, units, n);
    StartCodesPlaced(stream);
    if n > 0 {
      FramesInvertStream(noise, units, base, blake3);
    }
  }
}
