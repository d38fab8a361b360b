/** Demultiplexing the records of a disk into one ordered stream per channel, with its missing sequence numbers. */
module Demux {
  import opened Wrappers
  import opened Records
  import opened Sorting

  datatype DemuxedStream = DemuxedStream(
    channelId: nat,
    totalBlocks: nat,
    minTimestamp: nat,
    maxTimestamp: nat,
    sequenceGaps: seq<nat>,
    records: seq<ExtractedRecord>)

  /** The sort key: sequence number, then timestamp. */
  predicate SequenceLeq(a: ExtractedRecord, b: ExtractedRecord) {
    a.sequenceNum < b.sequenceNum || (a.sequenceNum == b.sequenceNum && a.timestamp <= b.timestamp)
  }

  const SEQUENCE_ORDER: (ExtractedRecord, ExtractedRecord) -> bool := (a, b) => SequenceLeq(a, b)

  lemma SequenceOrderIsTotal()
    ensures TotalPreorder(SEQUENCE_ORDER)
  {
  }

  // ----- Specification -----

  /** The records of one channel, in their order. */
  function ChannelRecords(records: seq<ExtractedRecord>, channel: nat): seq<ExtractedRecord> {
    if records == [] then []
    else
      var last := records[|records| - 1];
      ChannelRecords(records[..|records| - 1], channel) + if last.channelId == channel then [last] else []
  }

  /** The channels that occur; channel 0 marks records without a camera. */
  function Channels(records: seq<ExtractedRecord>): set<nat> {
    set r | r in records && r.channelId > 0 :: r.channelId
  }

  function MinTimestamp(records: seq<ExtractedRecord>): nat {
    if records == [] then 0
    else if |records| == 1 then records[0].timestamp
    else
      var front, last := MinTimestamp(records[..|records| - 1]), records[|records| - 1].timestamp;
      if last < front then last else front
  }

  function MaxTimestamp(records: seq<ExtractedRecord>): nat {
    if records == [] then 0
    else
      var front, last := MaxTimestamp(records[..|records| - 1]), records[|records| - 1].timestamp;
      if last < front then front else last
  }

  const SEQUENCE_LIMIT := 0x1_0000_0000

  /** `prev + 1` on 32 bits. */
  function NextSequence(prev: nat): nat {
    (prev + 1) % SEQUENCE_LIMIT
  }

  function Range(lo: nat, hi: nat): (numbers: seq<nat>)
    ensures |numbers| == if lo < hi then hi - lo else 0
    ensures forall i :: 0 <= i < |numbers| ==> numbers[i] == lo + i
  {
    if lo < hi then seq(hi - lo, i => lo + i) else []
  }

  /** The numbers listed between two neighbours of the sorted stream. */
  function MissingBetween(prev: nat, current: nat): seq<nat> {
    Range(NextSequence(prev), current)
  }

  /** The gaps among the first `n` records of a sorted stream. */
  function GapsBelow(sorted: seq<ExtractedRecord>, n: nat): seq<nat>
    requires n <= |sorted|
  {
    if n <= 1 then []
    else GapsBelow(sorted, n - 1) + MissingBetween(sorted[n - 2].sequenceNum, sorted[n - 1].sequenceNum)
  }

  function StreamOf(channel: nat, bucket: seq<ExtractedRecord>): DemuxedStream {
    var sorted := Sort(bucket, SEQUENCE_ORDER);
    DemuxedStream(
      channel, |sorted|, MinTimestamp(sorted), MaxTimestamp(sorted), GapsBelow(sorted, |sorted|), sorted)
  }

  function Demultiplex(records: seq<ExtractedRecord>): map<nat, DemuxedStream> {
    map channel | channel in Channels(records) :: StreamOf(channel, ChannelRecords(records, channel))
  }

  // ----- The code -----

  /** The loop that carries `last_seq`, over a stream that has been sorted. */
  method SequenceGaps(sorted: seq<ExtractedRecord>) returns (gaps: seq<nat>)
    ensures gaps == GapsBelow(sorted, |sorted|)
  {
    gaps := [];
    var lastSeq: Option<nat> := None;
    for i := 0 to |sorted|
      invariant gaps == GapsBelow(sorted, i)
      invariant lastSeq == if i == 0 then None else Some(sorted[i - 1].sequenceNum)
    {
      var current := sorted[i].sequenceNum;
      if lastSeq.Some? {
        var next := NextSequence(lastSeq.value);
        if current > next {
          ghost var before := gaps;
          for missing := next to current
            invariant gaps == before + Range(next, missing)
          {
            gaps := gaps + [missing];
            assert Range(next, missing + 1) == Range(next, missing) + [missing];
          }
        }
      }
      lastSeq := Some(current);
    }
  }

  /** The buckets: one list per channel, filled in the order of the records. */
  method FillBuckets(records: seq<ExtractedRecord>) returns (buckets: map<nat, seq<ExtractedRecord>>)
    ensures buckets.Keys == Channels(records)
    ensures forall c :: c in buckets ==> buckets[c] == ChannelRecords(records, c)
  {
    buckets := map[];
    for i := 0 to |records|
      invariant buckets.Keys == Channels(records[..i])
      invariant forall c :: c in buckets ==> buckets[c] == ChannelRecords(records[..i], c)
    {
      var r := records[i];
      ChannelsNext(records, i);
      assert records[..i + 1][..i] == records[..i];
      if r.channelId > 0 {
        if r.channelId !in buckets {
          NoRecordsOf(records[..i], r.channelId);
        }
        var bucket := if r.channelId in buckets then buckets[r.channelId] else [];
        buckets := buckets[r.channelId := bucket + [r]];
      }
    }
    assert records[..|records|] == records;
  }

  lemma ChannelsNext(records: seq<ExtractedRecord>, i: nat)
    requires i < |records|
    ensures Channels(records[..i + 1]) ==
            Channels(records[..i]) + if records[i].channelId > 0 then {records[i].channelId} else {}
  {
    assert records[..i + 1] == records[..i] + [records[i]];
    forall c
      ensures c in Channels(records[..i + 1]) <==>
              c in Channels(records[..i]) || (records[i].channelId > 0 && c == records[i].channelId)
    {
      if c in Channels(records[..i]) {
        var r :| r in records[..i] && r.channelId > 0 && r.channelId == c;
        assert r in records[..i + 1];
      }
      if records[i].channelId > 0 && c == records[i].channelId {
        assert records[i] in records[..i + 1];
      }
      if c in Channels(records[..i + 1]) {
        var r :| r in records[..i + 1] && r.channelId > 0 && r.channelId == c;
        assert r in records[..i] || r == records[i];
      }
    }
  }

  lemma {:induction false} NoRecordsOf(records: seq<ExtractedRecord>, channel: nat)
    requires channel > 0 && channel !in Channels(records)
    ensures ChannelRecords(records, channel) == []
  {
    if records != [] {
      var last := records[|records| - 1];
      assert last in records;
      assert last.channelId != channel;
      assert forall r :: r in records[..|records| - 1] ==> r in records;
      NoRecordsOf(records[..|records| - 1], channel);
    }
  }

  method DemuxRecords(records: seq<ExtractedRecord>) returns (demuxed: map<nat, DemuxedStream>)
    ensures demuxed == Demultiplex(records)
  {
    var buckets := FillBuckets(records);
    demuxed := map[];
    var remaining := buckets.Keys;
    while remaining != {}
      invariant remaining <= buckets.Keys && demuxed.Keys == buckets.Keys - remaining
      invariant forall c :: c in demuxed ==> demuxed[c] == StreamOf(c, buckets[c])
      decreases |remaining|
    {
      var channel :| channel in remaining;
      remaining := remaining - {channel};
      var sorted := Sort(buckets[channel], SEQUENCE_ORDER);
      var gaps := SequenceGaps(sorted);
      demuxed := demuxed[channel :=
        DemuxedStream(channel, |sorted|, MinTimestamp(sorted), MaxTimestamp(sorted), gaps, sorted)];
    }
  }

  // ----- Partition -----

  lemma {:induction false} ChannelCounts(records: seq<ExtractedRecord>, channel: nat, r: ExtractedRecord)
    ensures multiset(ChannelRecords(records, channel))[r] ==
            if r.channelId == channel then multiset(records)[r] else 0
  {
    if records != [] {
      var k := |records| - 1;
      ChannelCounts(records[..k], channel, r);
      assert records == records[..k] + [records[k]];
    }
  }

  /**
   * The streams partition the records of the cameras: every stream holds the records of its channel,
   * each as often as it occurs and in the order of sequence number and timestamp; nothing else is kept.
   */
  lemma StreamsPartition(records: seq<ExtractedRecord>, channel: nat, r: ExtractedRecord)
    ensures r in records && r.channelId > 0 ==> r.channelId in Demultiplex(records)
    ensures channel in Demultiplex(records) ==>
              var stream := Demultiplex(records)[channel];
              && channel > 0 && stream.channelId == channel && stream.totalBlocks == |stream.records|
              && Sorted(stream.records, SEQUENCE_ORDER)
              && multiset(stream.records)[r] == if r.channelId == channel then multiset(records)[r] else 0
  {
    var bucket := ChannelRecords(records, channel);
    SequenceOrderIsTotal();
    SortSorted(bucket, SEQUENCE_ORDER);
    SortElements(bucket, SEQUENCE_ORDER);
    ChannelCounts(records, channel, r);
  }

  // ----- Gaps -----

  ghost predicate Present(sorted: seq<ExtractedRecord>, n: nat, number: nat)
    requires n <= |sorted|
  {
    exists i :: 0 <= i < n && sorted[i].sequenceNum == number
  }

  ghost predicate StrictlyIncreasing(numbers: seq<nat>) {
    forall i, j :: 0 <= i < j < |numbers| ==> numbers[i] < numbers[j]
  }

  ghost predicate InSequenceOrder(sorted: seq<ExtractedRecord>) {
    && (forall i :: 0 <= i < |sorted| ==> sorted[i].sequenceNum < SEQUENCE_LIMIT)
    && (forall i, j :: 0 <= i < j < |sorted| ==> sorted[i].sequenceNum <= sorted[j].sequenceNum)
  }

  /** The largest sequence number occurs twice: the counter's successor has wrapped. */
  ghost predicate RepeatsLimit(sorted: seq<ExtractedRecord>) {
    exists i :: 0 <= i && i + 1 < |sorted| && WrapsAt(sorted, i)
  }

  ghost predicate WrapsAt(sorted: seq<ExtractedRecord>, i: nat)
    requires i + 1 < |sorted|
  {
    sorted[i].sequenceNum == SEQUENCE_LIMIT - 1 && sorted[i + 1].sequenceNum == SEQUENCE_LIMIT - 1
  }

  /** The list is increasing and holds exactly the absent numbers between the first and the `n`-th record. */
  ghost predicate ListsAbsent(gaps: seq<nat>, sorted: seq<ExtractedRecord>, n: nat)
    requires 0 < n <= |sorted|
  {
    && StrictlyIncreasing(gaps)
    && forall m: nat :: m in gaps <==>
                        sorted[0].sequenceNum < m < sorted[n - 1].sequenceNum && !Present(sorted, n, m)
  }

  lemma {:induction false} GapsExact(sorted: seq<ExtractedRecord>, n: nat)
    requires InSequenceOrder(sorted) && !RepeatsLimit(sorted) && 0 < n <= |sorted|
    ensures ListsAbsent(GapsBelow(sorted, n), sorted, n)
  {
    if n > 1 {
      GapsExact(sorted, n - 1);
      GapsExactNext(sorted, n - 1);
    }
  }

  lemma GapsExactNext(sorted: seq<ExtractedRecord>, n: nat)
    requires InSequenceOrder(sorted) && !RepeatsLimit(sorted) && 0 < n < |sorted|
    requires ListsAbsent(GapsBelow(sorted, n), sorted, n)
    ensures ListsAbsent(GapsBelow(sorted, n + 1), sorted, n + 1)
  {
    var before := GapsBelow(sorted, n);
    var prev, current := sorted[n - 1].sequenceNum, sorted[n].sequenceNum;
    assert !WrapsAt(sorted, n - 1);
    var more := MissingBetween(prev, current);
    assert prev < current ==> NextSequence(prev) == prev + 1;
    assert prev == current ==> more == [];
    forall m: nat
      ensures m in before + more <==>
              sorted[0].sequenceNum < m < current && !Present(sorted, n + 1, m)
    {
      PresentNext(sorted, n, m);
      InRange(prev + 1, current, m);
      assert m in more <==> prev < m < current;
      assert m in before ==> m < prev;
      if prev < m {
        assert !Present(sorted, n, m);
      }
      if m == prev {
        assert Present(sorted, n, m);
      }
    }
    assert StrictlyIncreasing(before + more) by {
      forall i, j | 0 <= i < j < |before + more|
        ensures (before + more)[i] < (before + more)[j]
      {
        if i < |before| <= j {
          assert before[i] in before;
        }
      }
    }
  }

  lemma PresentNext(sorted: seq<ExtractedRecord>, n: nat, m: nat)
    requires n < |sorted|
    ensures Present(sorted, n + 1, m) <==> Present(sorted, n, m) || sorted[n].sequenceNum == m
  {
    if Present(sorted, n, m) {
      var i :| 0 <= i < n && sorted[i].sequenceNum == m;
      assert sorted[i].sequenceNum == m;
    }
    if sorted[n].sequenceNum == m {
      assert Present(sorted, n + 1, m);
    }
  }

  lemma InRange(lo: nat, hi: nat, m: nat)
    ensures m in Range(lo, hi) <==> lo <= m < hi
  {
    if lo <= m < hi {
      assert Range(lo, hi)[m - lo] == m;
    }
  }

  // ----- Exactly when the gap list is right -----

  lemma {:induction false} GapsGrow(sorted: seq<ExtractedRecord>, m: nat, n: nat, x: nat)
    requires m <= n <= |sorted| && x in GapsBelow(sorted, m)
    ensures x in GapsBelow(sorted, n)
    decreases n
  {
    if m < n {
      GapsGrow(sorted, m, n - 1, x);
    }
  }

  /** After the wrap the list begins again at zero. */
  lemma ZeroListed(sorted: seq<ExtractedRecord>, i: nat)
    requires i + 1 < |sorted| && WrapsAt(sorted, i)
    ensures 0 in GapsBelow(sorted, i + 2)
  {
    InRange(0, SEQUENCE_LIMIT - 1, 0);
    assert NextSequence(SEQUENCE_LIMIT - 1) == 0;
    assert 0 in MissingBetween(sorted[i].sequenceNum, sorted[i + 1].sequenceNum);
  }

  lemma ZeroIsNoGap(gaps: seq<nat>, sorted: seq<ExtractedRecord>)
    requires 0 in gaps && sorted != []
    ensures !ListsAbsent(gaps, sorted, |sorted|)
  {
  }

  /**
   * The gap list of a sorted stream is increasing and holds exactly the numbers missing between its
   * first and last, if and only if the largest 32-bit number does not occur twice.
   */
  lemma GapsRightExactly(sorted: seq<ExtractedRecord>)
    requires InSequenceOrder(sorted) && sorted != []
    ensures ListsAbsent(GapsBelow(sorted, |sorted|), sorted, |sorted|) <==> !RepeatsLimit(sorted)
  {
    hide ListsAbsent, WrapsAt, GapsBelow, InSequenceOrder;
    if RepeatsLimit(sorted) {
      var i: nat :| i + 1 < |sorted| && WrapsAt(sorted, i);
      ZeroListed(sorted, i);
      GapsGrow(sorted, i + 2, |sorted|, 0);
      ZeroIsNoGap(GapsBelow(sorted, |sorted|), sorted);
    } else {
      GapsExact(sorted, |sorted|);
    }
  }

  // ----- Counting -----

  ghost function Numbers(sorted: seq<ExtractedRecord>): set<nat> {
    set i | 0 <= i < |sorted| :: sorted[i].sequenceNum
  }

  function Elements(numbers: seq<nat>): set<nat> {
    set m | m in numbers
  }

  lemma {:induction false} IncreasingSize(numbers: seq<nat>)
    requires StrictlyIncreasing(numbers)
    ensures |Elements(numbers)| == |numbers|
  {
    if numbers != [] {
      var k := |numbers| - 1;
      IncreasingSize(numbers[..k]);
      assert numbers == numbers[..k] + [numbers[k]];
      assert numbers[k] !in Elements(numbers[..k]);
      assert Elements(numbers) == Elements(numbers[..k]) + {numbers[k]};
    }
  }

  lemma SplitSize(whole: set<nat>, a: set<nat>, b: set<nat>)
    requires whole == a + b && a !! b
    ensures |whole| == |a| + |b|
  {
  }

  /** Gaps and distinct sequence numbers together fill the span from the first to the last. */
  lemma GapsAndNumbersFillSpan(sorted: seq<ExtractedRecord>)
    requires InSequenceOrder(sorted) && sorted != [] && !RepeatsLimit(sorted)
    ensures |GapsBelow(sorted, |sorted|)| + |Numbers(sorted)| ==
            sorted[|sorted| - 1].sequenceNum - sorted[0].sequenceNum + 1
  {
    hide GapsBelow, RepeatsLimit, Numbers, StrictlyIncreasing;
    var gaps := GapsBelow(sorted, |sorted|);
    var lo, hi := sorted[0].sequenceNum, sorted[|sorted| - 1].sequenceNum;
    GapsExact(sorted, |sorted|);
    IncreasingSize(gaps);
    RangeIncreases(lo, hi + 1);
    IncreasingSize(Range(lo, hi + 1));
    SpanSplits(sorted, gaps, lo, hi);
    forall m
      ensures m in Elements(Range(lo, hi + 1)) <==> m in Elements(gaps) || m in Numbers(sorted)
    {
      InRange(lo, hi + 1, m);
    }
    SplitSize(Elements(Range(lo, hi + 1)), Elements(gaps), Numbers(sorted));
  }

  lemma RangeIncreases(lo: nat, hi: nat)
    ensures StrictlyIncreasing(Range(lo, hi))
  {
  }

  lemma SpanSplits(sorted: seq<ExtractedRecord>, gaps: seq<nat>, lo: nat, hi: nat)
    requires InSequenceOrder(sorted) && sorted != [] && ListsAbsent(gaps, sorted, |sorted|)
    requires lo == sorted[0].sequenceNum && hi == sorted[|sorted| - 1].sequenceNum
    ensures forall m: nat :: m in gaps || m in Numbers(sorted) <==> lo <= m < hi + 1
    ensures forall m: nat :: m in gaps ==> m !in Numbers(sorted)
  {
    forall m: nat
      ensures m in Numbers(sorted) <==> Present(sorted, |sorted|, m)
    {
      if Present(sorted, |sorted|, m) {
        var i :| 0 <= i < |sorted| && sorted[i].sequenceNum == m;
      }
    }
    assert Present(sorted, |sorted|, lo) && Present(sorted, |sorted|, hi);
  }

  // ----- For the streams of a disk -----

  lemma {:induction false} ChannelMembers(records: seq<ExtractedRecord>, channel: nat)
    ensures forall r :: r in ChannelRecords(records, channel) <==> r in records && r.channelId == channel
  {
    if records != [] {
      var k := |records| - 1;
      ChannelMembers(records[..k], channel);
      assert records == records[..k] + [records[k]];
    }
  }

  lemma {:induction false} TimestampBounds(records: seq<ExtractedRecord>)
    requires records != []
    ensures forall i :: 0 <= i < |records| ==>
                          MinTimestamp(records) <= records[i].timestamp <= MaxTimestamp(records)
    ensures exists i :: 0 <= i < |records| && records[i].timestamp == MinTimestamp(records)
    ensures exists i :: 0 <= i < |records| && records[i].timestamp == MaxTimestamp(records)
  {
    var k := |records| - 1;
    if k > 0 {
      TimestampBounds(records[..k]);
      var i :| 0 <= i < k && records[..k][i].timestamp == MinTimestamp(records[..k]);
      var j :| 0 <= j < k && records[..k][j].timestamp == MaxTimestamp(records[..k]);
      assert records[i].timestamp == MinTimestamp(records[..k]) && records[j].timestamp == MaxTimestamp(records[..k]);
    }
    assert records[k].timestamp == MinTimestamp(records) || k > 0;
  }

  /** Every stream is nonempty, in sequence order, and its gap list is right unless the counter's limit repeats. */
  lemma StreamGapsRight(records: seq<ExtractedRecord>, channel: nat)
    requires forall i :: 0 <= i < |records| ==> records[i].sequenceNum < SEQUENCE_LIMIT
    requires channel in Demultiplex(records)
    ensures var stream := Demultiplex(records)[channel];
            && stream.records != [] && InSequenceOrder(stream.records)
            && (ListsAbsent(stream.sequenceGaps, stream.records, |stream.records|) <==>
                !RepeatsLimit(stream.records))
  {
    hide ListsAbsent, RepeatsLimit, GapsBelow, Sort, MinTimestamp, MaxTimestamp;
    var bucket := ChannelRecords(records, channel);
    var stream := Demultiplex(records)[channel];
    assert stream == StreamOf(channel, bucket);
    SequenceOrderIsTotal();
    SortSorted(bucket, SEQUENCE_ORDER);
    SortElements(bucket, SEQUENCE_ORDER);
    ChannelMembers(records, channel);
    forall i | 0 <= i < |stream.records|
      ensures stream.records[i].sequenceNum < SEQUENCE_LIMIT
    {
      SortMembers(bucket, SEQUENCE_ORDER, stream.records[i]);
      assert stream.records[i] in records;
    }
    var r :| r in records && r.channelId > 0 && r.channelId == channel;
    assert r in bucket;
    GapsRightExactly(stream.records);
  }

  /** The two ends of a stream: no record of the channel is earlier or later, and both are reached. */
  ghost predicate BoundsOf(stream: DemuxedStream, records: seq<ExtractedRecord>, channel: nat) {
    && (forall r :: r in records && r.channelId == channel ==>
                      stream.minTimestamp <= r.timestamp <= stream.maxTimestamp)
    && (exists r :: r in records && r.channelId == channel && r.timestamp == stream.minTimestamp)
    && (exists r :: r in records && r.channelId == channel && r.timestamp == stream.maxTimestamp)
  }

  lemma SortedBounds(records: seq<ExtractedRecord>, channel: nat, sorted: seq<ExtractedRecord>, stream: DemuxedStream)
    requires sorted != [] && forall r :: r in sorted <==> r in records && r.channelId == channel
    requires stream.minTimestamp == MinTimestamp(sorted) && stream.maxTimestamp == MaxTimestamp(sorted)
    ensures BoundsOf(stream, records, channel)
  {
    hide MinTimestamp, MaxTimestamp;
    TimestampBounds(sorted);
    var i :| 0 <= i < |sorted| && sorted[i].timestamp == MinTimestamp(sorted);
    var j :| 0 <= j < |sorted| && sorted[j].timestamp == MaxTimestamp(sorted);
    assert sorted[i] in sorted && sorted[j] in sorted;
  }

  /**
   * There is a stream for exactly the channels of cameras that occur, and its time bounds are the
   * least and the greatest timestamp of the channel's records.
   */
  lemma StreamBounds(records: seq<ExtractedRecord>, channel: nat)
    ensures channel in Demultiplex(records) <==> channel > 0 && exists r :: r in records && r.channelId == channel
    ensures channel in Demultiplex(records) ==> BoundsOf(Demultiplex(records)[channel], records, channel)
  {
    hide Sort, MinTimestamp, MaxTimestamp, GapsBelow, BoundsOf;
    if channel in Demultiplex(records) {
      var bucket, stream := ChannelRecords(records, channel), Demultiplex(records)[channel];
      assert stream == StreamOf(channel, bucket);
      var sorted := Sort(bucket, SEQUENCE_ORDER);
      ChannelMembers(records, channel);
      forall r
        ensures r in sorted <==> r in records && r.channelId == channel
      {
        SortMembers(bucket, SEQUENCE_ORDER, r);
      }
      var r :| r in records && r.channelId > 0 && r.channelId == channel;
      assert r in sorted;
      SortedBounds(records, channel, sorted, stream);
    }
  }

  /** A stream is in the order of its sequence numbers, and of its timestamps where these repeat. */
  lemma StreamOrder(records: seq<ExtractedRecord>, channel: nat, i: nat, j: nat)
    requires channel in Demultiplex(records) && i < j < |Demultiplex(records)[channel].records|
    ensures var stream := Demultiplex(records)[channel].records;
            && stream[i].sequenceNum <= stream[j].sequenceNum
            && (stream[i].sequenceNum == stream[j].sequenceNum ==> stream[i].timestamp <= stream[j].timestamp)
  {
    hide Sort, MinTimestamp, MaxTimestamp, GapsBelow;
    var bucket := ChannelRecords(records, channel);
    assert Demultiplex(records)[channel] == StreamOf(channel, bucket);
    SequenceOrderIsTotal();
    SortSorted(bucket, SEQUENCE_ORDER);
    var stream := Sort(bucket, SEQUENCE_ORDER);
    assert SEQUENCE_ORDER(stream[i], stream[j]);
  }
}
