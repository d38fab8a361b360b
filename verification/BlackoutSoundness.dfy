/** What a reported blackout proves about the records, and which silences are reported. */
module BlackoutSoundness {
  import opened Sorting
  import opened Correlation
  import opened Blackouts

  /** No usable record of any channel lies strictly between one second after `start` and one before `end`. */
  ghost predicate Silent(records: seq<RecordInput>, start: nat, end: nat) {
    forall i :: 0 <= i < |records| && Counts(records[i]) ==> !StrictlyInside(records[i].timestamp, start, end)
  }

  ghost predicate HasTime(times: seq<Stamp>, t: nat) {
    exists i :: 0 <= i < |times| && times[i].time == t
  }

  ghost predicate RecordedAt(records: seq<RecordInput>, channel: nat, t: nat) {
    exists i :: 0 <= i < |records| && Counts(records[i]) && records[i].channelId == channel && records[i].timestamp == t
  }

  lemma SortedTimesExact(records: seq<RecordInput>, channel: nat, t: nat)
    ensures HasTime(SortedTimes(records, channel), t) <==> RecordedAt(records, channel, t)
  {
    hide Sort;
    var unsorted, times := ChannelTimes(records, channel), SortedTimes(records, channel);
    TimesExact(records, channel, t);
    if HasTime(times, t) {
      var i :| 0 <= i < |times| && times[i].time == t;
      SortMembers(unsorted, TIME_ORDER, times[i]);
      var j :| 0 <= j < |unsorted| && unsorted[j] == times[i];
    }
    if j :| 0 <= j < |unsorted| && unsorted[j].time == t {
      SortMembers(unsorted, TIME_ORDER, unsorted[j]);
      var i :| 0 <= i < |times| && times[i] == unsorted[j];
      assert times[i].time == t;
    }
  }

  /** Between two consecutive times of a channel it has no record. */
  lemma NothingBetweenNeighbours(times: seq<Stamp>, i: nat, t: nat)
    requires Ascending(times) && i + 1 < |times| && HasTime(times, t)
    ensures t <= times[i].time || times[i + 1].time <= t
  {
    var j :| 0 <= j < |times| && times[j].time == t;
  }

  lemma ChannelSilence(records: seq<RecordInput>, channel: nat, start: nat, end: nat)
    ensures RecordsInside(SortedTimes(records, channel), start, end) <==>
            exists t :: StrictlyInside(t, start, end) && RecordedAt(records, channel, t)
  {
    hide SortedTimes;
    var times := SortedTimes(records, channel);
    if RecordsInside(times, start, end) {
      var i :| 0 <= i < |times| && StrictlyInside(times[i].time, start, end);
      assert HasTime(times, times[i].time);
      SortedTimesExact(records, channel, times[i].time);
    }
    if t :| StrictlyInside(t, start, end) && RecordedAt(records, channel, t) {
      SortedTimesExact(records, channel, t);
      var i :| 0 <= i < |times| && times[i].time == t;
      assert RecordsInside(times, start, end);
    }
  }

  /** The times of the lowest-numbered active channel. */
  function PrimaryTimes(records: seq<RecordInput>): seq<Stamp> {
    var channels := ActiveChannels(records);
    if channels == [] then [] else SortedTimes(records, channels[0])
  }

  lemma PrimaryAscends(records: seq<RecordInput>)
    ensures Ascending(PrimaryTimes(records))
  {
    if ActiveChannels(records) != [] {
      TimesAscend(records, ActiveChannels(records)[0]);
    }
  }

  /** The other channels are silent in a gap of the primary one exactly when all channels are. */
  lemma SilenceOfAll(records: seq<RecordInput>, i: nat)
    requires i + 1 < |PrimaryTimes(records)|
    ensures var channels, times := ActiveChannels(records), PrimaryTimes(records);
            OthersSilent(records, channels, |channels|, times[i].time, times[i + 1].time)
            <==> Silent(records, times[i].time, times[i + 1].time)
  {
    hide SortedTimes, ActiveChannels, RecordsInside;
    var channels, times := ActiveChannels(records), PrimaryTimes(records);
    var start, end := times[i].time, times[i + 1].time;
    ActiveExact(records);
    PrimaryAscends(records);
    if OthersSilent(records, channels, |channels|, start, end) {
      forall r | 0 <= r < |records| && Counts(records[r])
        ensures !StrictlyInside(records[r].timestamp, start, end)
      {
        var c, t := records[r].channelId, records[r].timestamp;
        assert RecordedAt(records, c, t);
        assert c in channels;
        if c == channels[0] {
          SortedTimesExact(records, c, t);
          NothingBetweenNeighbours(times, i, t);
        } else {
          ChannelSilence(records, c, start, end);
        }
      }
    }
    if Silent(records, start, end) {
      forall k | 0 <= k < |channels| && channels[k] != channels[0]
        ensures !RecordsInside(SortedTimes(records, channels[k]), start, end)
      {
        ChannelSilence(records, channels[k], start, end);
      }
    }
  }

  /** The condition under which the gap after the `i`-th primary time is a blackout. */
  ghost predicate BlackoutGap(records: seq<RecordInput>, i: nat, minGap: int) {
    var times := PrimaryTimes(records);
    && i + 1 < |times| && times[i].time <= times[i + 1].time
    && minGap <= times[i + 1].time - times[i].time < TWO_63
    && Silent(records, times[i].time, times[i + 1].time)
  }

  lemma ReportedExactly(records: seq<RecordInput>, i: nat, minGap: int)
    requires minGap > 0 && Timestamps64Of(records) && i + 1 < |PrimaryTimes(records)|
    ensures Ascending(PrimaryTimes(records))
    ensures Reported(records, ActiveChannels(records), PrimaryTimes(records), i, minGap) <==>
            BlackoutGap(records, i, minGap)
  {
    hide ActiveChannels, OthersSilent;
    PrimaryAscends(records);
    SilenceOfAll(records, i);
    PrimaryBelow(records, i + 1);
  }

  ghost predicate Timestamps64Of(records: seq<RecordInput>) {
    forall i :: 0 <= i < |records| ==> records[i].timestamp < TWO_64
  }

  lemma PrimaryBelow(records: seq<RecordInput>, i: nat)
    requires Timestamps64Of(records) && i < |PrimaryTimes(records)|
    ensures RecordedAt(records, ActiveChannels(records)[0], PrimaryTimes(records)[i].time)
    ensures PrimaryTimes(records)[i].time < TWO_64
  {
    hide SortedTimes, ActiveChannels;
    var times := PrimaryTimes(records);
    assert HasTime(times, times[i].time);
    SortedTimesExact(records, ActiveChannels(records)[0], times[i].time);
  }

  lemma {:induction false} BlackoutsExactBelow(records: seq<RecordInput>, n: nat, minGap: int, b: Blackout)
    requires minGap > 0 && Timestamps64Of(records) && n <= GapCount(PrimaryTimes(records))
    requires Ascending(PrimaryTimes(records))
    ensures b in BlackoutsBelow(records, ActiveChannels(records), PrimaryTimes(records), n, minGap) <==>
            exists i: nat :: i < n && BlackoutGap(records, i, minGap)
                             && b == BlackoutAt(ActiveChannels(records), PrimaryTimes(records), i)
  {
    hide ActiveChannels, PrimaryTimes, Reported, BlackoutGap, BlackoutAt;
    if n > 0 {
      BlackoutsExactBelow(records, n - 1, minGap, b);
      ReportedExactly(records, n - 1, minGap);
    }
  }

  lemma DetectedAsBelow(records: seq<RecordInput>, minGap: int)
    requires minGap > 0
    ensures Ascending(PrimaryTimes(records))
    ensures DetectedBlackouts(records, minGap) ==
            BlackoutsBelow(records, ActiveChannels(records), PrimaryTimes(records),
                           GapCount(PrimaryTimes(records)), minGap)
  {
    hide ActiveChannels, SortedTimes;
    PrimaryAscends(records);
  }

  /**
   * Soundness and completeness: a blackout is reported if and only if it is a gap between two
   * consecutive times of the lowest-numbered channel, at least the minimum long, in which no usable
   * record of any channel lies strictly between one second after its start and one before its end.
   */
  lemma BlackoutsExact(records: seq<RecordInput>, minGap: int, b: Blackout)
    requires minGap > 0 && Timestamps64Of(records)
    ensures Ascending(PrimaryTimes(records))
    ensures b in DetectedBlackouts(records, minGap) <==>
            exists i: nat :: BlackoutGap(records, i, minGap)
                             && b == BlackoutAt(ActiveChannels(records), PrimaryTimes(records), i)
  {
    hide ActiveChannels, PrimaryTimes, BlackoutAt, DetectedBlackouts, Silent;
    DetectedAsBelow(records, minGap);
    BlackoutsExactBelow(records, GapCount(PrimaryTimes(records)), minGap, b);
  }

  // ----- Order and total duration -----

  ghost predicate Disjoint(bs: seq<Blackout>, lo: nat, hi: nat) {
    && (forall k :: 0 <= k < |bs| ==> lo <= bs[k].startTimestamp < bs[k].endTimestamp <= hi
                                      && bs[k].durationSecs == bs[k].endTimestamp - bs[k].startTimestamp)
    && (forall j, k :: 0 <= j < k < |bs| ==> bs[j].endTimestamp <= bs[k].startTimestamp)
  }

  function TotalDuration(bs: seq<Blackout>): int {
    if bs == [] then 0 else TotalDuration(bs[..|bs| - 1]) + bs[|bs| - 1].durationSecs
  }

  lemma GapIsProper(records: seq<RecordInput>, i: nat, minGap: int)
    requires minGap > 0 && BlackoutGap(records, i, minGap)
    ensures var b := BlackoutAt(ActiveChannels(records), PrimaryTimes(records), i);
            && b.startTimestamp == PrimaryTimes(records)[i].time < b.endTimestamp == PrimaryTimes(records)[i + 1].time
            && b.durationSecs == b.endTimestamp - b.startTimestamp
  {
    hide ActiveChannels, PrimaryTimes, Silent;
  }

  lemma AppendBlackout(bs: seq<Blackout>, b: Blackout, lo: nat, mid: nat, hi: nat)
    requires Disjoint(bs, lo, mid) && lo <= mid == b.startTimestamp < b.endTimestamp == hi
    requires b.durationSecs == hi - mid && TotalDuration(bs) <= mid - lo
    ensures Disjoint(bs + [b], lo, hi) && TotalDuration(bs + [b]) <= hi - lo
  {
    assert (bs + [b])[..|bs|] == bs;
  }

  lemma {:induction false} BlackoutsDisjointBelow(records: seq<RecordInput>, n: nat, minGap: int)
    requires minGap > 0 && Timestamps64Of(records) && n <= GapCount(PrimaryTimes(records))
    requires Ascending(PrimaryTimes(records)) && PrimaryTimes(records) != []
    ensures var times := PrimaryTimes(records);
            var bs := BlackoutsBelow(records, ActiveChannels(records), times, n, minGap);
            Disjoint(bs, times[0].time, times[n].time) && TotalDuration(bs) <= times[n].time - times[0].time
  {
    hide ActiveChannels, PrimaryTimes, Reported, BlackoutGap, BlackoutAt;
    var times := PrimaryTimes(records);
    if n > 0 {
      BlackoutsDisjointBelow(records, n - 1, minGap);
      ReportedExactly(records, n - 1, minGap);
      var before := BlackoutsBelow(records, ActiveChannels(records), times, n - 1, minGap);
      assert times[0].time <= times[n - 1].time <= times[n].time;
      if BlackoutGap(records, n - 1, minGap) {
        GapIsProper(records, n - 1, minGap);
        AppendBlackout(before, BlackoutAt(ActiveChannels(records), times, n - 1), times[0].time, times[n - 1].time, times[n].time);
      } else {
        assert BlackoutsBelow(records, ActiveChannels(records), times, n, minGap) == before;
      }
    }
  }

  /** The reported intervals are in order and do not overlap; together they last no longer than the recording. */
  lemma BlackoutsDisjoint(records: seq<RecordInput>, minGap: int)
    requires minGap > 0 && Timestamps64Of(records) && PrimaryTimes(records) != []
    ensures var times := PrimaryTimes(records);
            var bs := DetectedBlackouts(records, minGap);
            && Disjoint(bs, times[0].time, times[|times| - 1].time)
            && TotalDuration(bs) <= times[|times| - 1].time - times[0].time
  {
    hide ActiveChannels, PrimaryTimes, DetectedBlackouts, Disjoint, TotalDuration;
    DetectedAsBelow(records, minGap);
    BlackoutsDisjointBelow(records, GapCount(PrimaryTimes(records)), minGap);
  }

  // ----- Which silences are reported -----

  ghost predicate ReportedFor(bs: seq<Blackout>, start: nat, end: nat) {
    exists k :: 0 <= k < |bs| && bs[k].startTimestamp == start && bs[k].endTimestamp == end
  }

  /** `start` and `end` are times of the lowest-numbered channel, with none in between. */
  ghost predicate PrimaryNeighbours(records: seq<RecordInput>, start: nat, end: nat) {
    && HasTime(PrimaryTimes(records), start) && HasTime(PrimaryTimes(records), end)
    && forall t :: start < t < end ==> !HasTime(PrimaryTimes(records), t)
  }

  /** The last index whose time is at most `t`. */
  lemma LastUpTo(times: seq<Stamp>, t: nat, from: nat) returns (k: nat)
    requires Ascending(times) && from < |times| && times[from].time <= t
    ensures from <= k < |times| && times[k].time <= t
    ensures k + 1 < |times| ==> times[k + 1].time > t
    decreases |times| - from
  {
    k := from;
    if from + 1 < |times| && times[from + 1].time <= t {
      k := LastUpTo(times, t, from + 1);
    }
  }

  lemma NeighbourIndex(times: seq<Stamp>, start: nat, end: nat) returns (i: nat)
    requires Ascending(times) && start < end && HasTime(times, start) && HasTime(times, end)
    requires forall t :: start < t < end ==> !HasTime(times, t)
    ensures i + 1 < |times| && times[i].time == start && times[i + 1].time == end
  {
    var s, e :| 0 <= s < |times| && times[s].time == start && 0 <= e < |times| && times[e].time == end;
    i := LastUpTo(times, start, s);
    assert i < e;
    assert HasTime(times, times[i + 1].time);
  }

  /**
   * Of the silences that are long enough, exactly those are reported that both begin and end with a
   * record of the lowest-numbered channel and hold no other record of it.
   */
  lemma SilenceReportedExactly(records: seq<RecordInput>, minGap: int, start: nat, end: nat)
    requires Timestamps64Of(records) && Silent(records, start, end)
    requires 0 < minGap <= end - start < TWO_63
    ensures ReportedFor(DetectedBlackouts(records, minGap), start, end) <==> PrimaryNeighbours(records, start, end)
  {
    hide ActiveChannels, PrimaryTimes, DetectedBlackouts, Silent;
    var channels, times, bs := ActiveChannels(records), PrimaryTimes(records), DetectedBlackouts(records, minGap);
    PrimaryAscends(records);
    if ReportedFor(bs, start, end) {
      var k :| 0 <= k < |bs| && bs[k].startTimestamp == start && bs[k].endTimestamp == end;
      BlackoutsExact(records, minGap, bs[k]);
      var i: nat :| BlackoutGap(records, i, minGap) && bs[k] == BlackoutAt(channels, times, i);
      assert HasTime(times, times[i].time) && HasTime(times, times[i + 1].time);
      forall t | start < t < end
        ensures !HasTime(times, t)
      {
        if HasTime(times, t) {
          NothingBetweenNeighbours(times, i, t);
        }
      }
    }
    if PrimaryNeighbours(records, start, end) {
      var i := NeighbourIndex(times, start, end);
      var b := BlackoutAt(channels, times, i);
      assert BlackoutGap(records, i, minGap);
      BlackoutsExact(records, minGap, b);
      var k :| 0 <= k < |bs| && bs[k] == b;
    }
  }

  // ----- Not every silence is reported -----

  function PlainRecord(block: nat, channel: nat, timestamp: nat): RecordInput {
    RecordInput(block, block * 4096, channel, timestamp, "", 1, false, false, false, false)
  }

  const THREE_RECORDS: seq<RecordInput> := [PlainRecord(2, 1, 0), PlainRecord(3, 2, 10), PlainRecord(4, 1, 100)]

  lemma NoGapReported(i: nat)
    ensures !BlackoutGap(THREE_RECORDS, i, 30)
  {
    hide ActiveChannels, SortedTimes;
    var times := PrimaryTimes(THREE_RECORDS);
    if i + 1 < |times| {
      LowestIsOne();
      PrimaryBelow(THREE_RECORDS, i);
      PrimaryBelow(THREE_RECORDS, i + 1);
      assert times[i].time == 0 || times[i].time == 100;
      assert times[i + 1].time == 0 || times[i + 1].time == 100;
      assert Counts(THREE_RECORDS[1]) && StrictlyInside(THREE_RECORDS[1].timestamp, 0, 100);
    }
  }

  /** The silence from 10 to 100 is longer than the minimum, but it is not a gap of the primary channel. */
  lemma SilenceMissed()
    ensures Silent(THREE_RECORDS, 10, 100)
    ensures DetectedBlackouts(THREE_RECORDS, 30) == []
  {
    hide ActiveChannels, SortedTimes, DetectedBlackouts, BlackoutGap;
    var found := DetectedBlackouts(THREE_RECORDS, 30);
    if found != [] {
      BlackoutsExact(THREE_RECORDS, 30, found[0]);
      var i: nat :| BlackoutGap(THREE_RECORDS, i, 30);
      NoGapReported(i);
      assert false;
    }
  }

  lemma LowestIsOne()
    ensures ActiveChannels(THREE_RECORDS) != [] && ActiveChannels(THREE_RECORDS)[0] == 1
  {
    ActiveExact(THREE_RECORDS);
    var channels := ActiveChannels(THREE_RECORDS);
    assert Counts(THREE_RECORDS[0]) && THREE_RECORDS[0].channelId == 1;
    assert 1 in channels;
    var k :| 0 <= k < |channels| && channels[k] == 1;
    assert k > 0 ==> NUMBER_ORDER(channels[0], channels[k]);
    assert channels[0] in channels;
  }
}
