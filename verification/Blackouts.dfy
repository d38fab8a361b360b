/** The search for intervals in which no camera recorded. */
module Blackouts {
  import opened Sorting
  import opened Correlation

  datatype Blackout = Blackout(
    startTimestamp: nat,
    endTimestamp: nat,
    startNormalized: string,
    endNormalized: string,
    durationSecs: int,
    affectedChannels: seq<nat>,
    severity: string)

  datatype Stamp = Stamp(time: nat, normalized: string)

  const TIME_ORDER: (Stamp, Stamp) -> bool := (a: Stamp, b: Stamp) => a.time <= b.time

  predicate Counts(r: RecordInput) {
    r.channelId > 0 && !r.isCorrupted
  }

  // ----- Specification -----

  /** The stamps of a channel's usable records, in their order. */
  function ChannelTimes(records: seq<RecordInput>, channel: nat): seq<Stamp> {
    if records == [] then []
    else
      var last := records[|records| - 1];
      ChannelTimes(records[..|records| - 1], channel)
      + if Counts(last) && last.channelId == channel then [Stamp(last.timestamp, last.normalizedTimestamp)] else []
  }

  function SortedTimes(records: seq<RecordInput>, channel: nat): seq<Stamp> {
    Sort(ChannelTimes(records, channel), TIME_ORDER)
  }

  const NUMBER_ORDER: (nat, nat) -> bool := (a, b) => a <= b

  /** The channels with usable records, in increasing order: the keys of an ordered map. */
  function ActiveChannels(records: seq<RecordInput>): seq<nat> {
    if records == [] then []
    else
      var last := records[|records| - 1];
      var before := ActiveChannels(records[..|records| - 1]);
      if Counts(last) && last.channelId !in before then Insert(last.channelId, before, NUMBER_ORDER) else before
  }

  predicate StrictlyInside(t: nat, start: nat, end: nat) {
    start + 1 < t && t + 1 < end
  }

  predicate RecordsInside(times: seq<Stamp>, start: nat, end: nat) {
    exists i :: 0 <= i < |times| && StrictlyInside(times[i].time, start, end)
  }

  /** None of the channels from index `n` up to the last, except the first of all, recorded inside. */
  predicate OthersSilent(records: seq<RecordInput>, channels: seq<nat>, n: nat, start: nat, end: nat)
    requires n <= |channels|
  {
    forall k :: 0 <= k < n && channels[k] != channels[0] ==> !RecordsInside(SortedTimes(records, channels[k]), start, end)
  }

  /** Whether the gap after the `i`-th time of the primary channel is reported. */
  predicate Reported(records: seq<RecordInput>, channels: seq<nat>, times: seq<Stamp>, i: nat, minGap: int)
    requires i + 1 < |times| && times[i].time <= times[i + 1].time
  {
    && AsSigned(times[i + 1].time - times[i].time) >= minGap
    && OthersSilent(records, channels, |channels|, times[i].time, times[i + 1].time)
  }

  function BlackoutAt(channels: seq<nat>, times: seq<Stamp>, i: nat): Blackout
    requires i + 1 < |times| && times[i].time <= times[i + 1].time
  {
    var gap := AsSigned(times[i + 1].time - times[i].time);
    Blackout(
      times[i].time, times[i + 1].time, times[i].normalized, times[i + 1].normalized, gap, channels,
      if gap >= 60 then "CRITICAL" else "HIGH")
  }

  ghost predicate Ascending(times: seq<Stamp>) {
    forall i, j :: 0 <= i < j < |times| ==> times[i].time <= times[j].time
  }

  /** The reported gaps of the primary channel, in order. */
  function BlackoutsBelow(
    records: seq<RecordInput>, channels: seq<nat>, times: seq<Stamp>, n: nat, minGap: int): seq<Blackout>
    requires Ascending(times) && (n == 0 || n < |times|)
  {
    if n == 0 then []
    else
      BlackoutsBelow(records, channels, times, n - 1, minGap)
      + if Reported(records, channels, times, n - 1, minGap) then [BlackoutAt(channels, times, n - 1)] else []
  }

  lemma TimesAscend(records: seq<RecordInput>, channel: nat)
    ensures Ascending(SortedTimes(records, channel))
  {
    assert TotalPreorder(TIME_ORDER);
    SortSorted(ChannelTimes(records, channel), TIME_ORDER);
    var times := SortedTimes(records, channel);
    forall i, j | 0 <= i < j < |times|
      ensures times[i].time <= times[j].time
    {
      assert TIME_ORDER(times[i], times[j]);
    }
  }

  function GapCount(times: seq<Stamp>): nat {
    if |times| == 0 then 0 else |times| - 1
  }

  function DetectedBlackouts(records: seq<RecordInput>, minGap: int): seq<Blackout> {
    var channels := ActiveChannels(records);
    if minGap <= 0 || channels == [] then []
    else
      var times := SortedTimes(records, channels[0]);
      TimesAscend(records, channels[0]);
      BlackoutsBelow(records, channels, times, GapCount(times), minGap)
  }

  // ----- The channels -----

  lemma {:induction false} ActiveExact(records: seq<RecordInput>)
    ensures Sorted(ActiveChannels(records), NUMBER_ORDER)
    ensures forall c :: c in ActiveChannels(records) <==>
                        exists i :: 0 <= i < |records| && Counts(records[i]) && records[i].channelId == c
  {
    if records != [] {
      var k := |records| - 1;
      var before, last := ActiveChannels(records[..k]), records[k];
      ActiveExact(records[..k]);
      assert TotalPreorder(NUMBER_ORDER);
      InsertSorted(last.channelId, before, NUMBER_ORDER);
      forall c
        ensures c in ActiveChannels(records) <==> c in before || (Counts(last) && c == last.channelId)
      {
        InsertMembers(last.channelId, before, NUMBER_ORDER, c);
      }
      forall c
        ensures c in ActiveChannels(records) <==>
                exists i :: 0 <= i < |records| && Counts(records[i]) && records[i].channelId == c
      {
        if c in before {
          var i :| 0 <= i < k && Counts(records[..k][i]) && records[..k][i].channelId == c;
          assert records[i] == records[..k][i];
        }
        if i :| 0 <= i < |records| && Counts(records[i]) && records[i].channelId == c {
          if i < k {
            assert records[..k][i] == records[i];
          }
        }
      }
    }
  }

  lemma {:induction false} TimesExact(records: seq<RecordInput>, channel: nat, t: nat)
    ensures (exists i :: 0 <= i < |ChannelTimes(records, channel)| && ChannelTimes(records, channel)[i].time == t)
            <==> exists i :: 0 <= i < |records| && Counts(records[i])
                             && records[i].channelId == channel && records[i].timestamp == t
  {
    if records != [] {
      var k := |records| - 1;
      var before, all := ChannelTimes(records[..k], channel), ChannelTimes(records, channel);
      TimesExact(records[..k], channel, t);
      if i :| 0 <= i < |all| && all[i].time == t {
        if i < |before| {
          assert before[i].time == t;
          var j :| 0 <= j < k && Counts(records[..k][j]) && records[..k][j].channelId == channel
                   && records[..k][j].timestamp == t;
          assert records[j] == records[..k][j];
        } else {
          assert records[k].timestamp == t;
        }
      }
      if i :| 0 <= i < |records| && Counts(records[i]) && records[i].channelId == channel && records[i].timestamp == t {
        if i < k {
          assert records[..k][i] == records[i];
          var j :| 0 <= j < |before| && before[j].time == t;
          assert all[j].time == t;
        } else {
          assert all[|before|].time == t;
        }
      }
    }
  }

  // ----- The code -----

  /** The check of the other channels: stops at the first one that recorded inside the gap. */
  method AllOthersSilent(records: seq<RecordInput>, channelTimes: map<nat, seq<Stamp>>, channels: seq<nat>, start: nat, end: nat)
    returns (allBlackout: bool)
    requires channels != []
    requires forall c :: c in channels ==> c in channelTimes && channelTimes[c] == SortedTimes(records, c)
    ensures allBlackout == OthersSilent(records, channels, |channels|, start, end)
  {
    allBlackout := true;
    for k := 0 to |channels|
      invariant allBlackout && OthersSilent(records, channels, k, start, end)
    {
      var otherChannel := channels[k];
      if otherChannel == channels[0] {
        continue;
      }
      var hasRecordingInGap := false;
      var times := channelTimes[otherChannel];
      for i := 0 to |times|
        invariant !hasRecordingInGap
        invariant forall j :: 0 <= j < i ==> !StrictlyInside(times[j].time, start, end)
      {
        if times[i].time > start + 1 && times[i].time < end - 1 {
          hasRecordingInGap := true;
          assert RecordsInside(times, start, end);
          break;
        }
      }
      if hasRecordingInGap {
        allBlackout := false;
        return;
      }
    }
  }

  method GroupTimes(records: seq<RecordInput>) returns (channelTimes: map<nat, seq<Stamp>>, channels: seq<nat>)
    ensures channels == ActiveChannels(records)
    ensures forall c :: c in channelTimes <==> c in channels
    ensures forall c :: c in channelTimes ==> channelTimes[c] == ChannelTimes(records, c)
  {
    channelTimes, channels := map[], [];
    for i := 0 to |records|
      invariant channels == ActiveChannels(records[..i])
      invariant forall c :: c in channelTimes <==> c in channels
      invariant forall c :: c in channelTimes ==> channelTimes[c] == ChannelTimes(records[..i], c)
    {
      var r := records[i];
      assert records[..i + 1][..i] == records[..i];
      if r.channelId > 0 && !r.isCorrupted {
        var stamp := Stamp(r.timestamp, r.normalizedTimestamp);
        if r.channelId in channelTimes {
          channelTimes := channelTimes[r.channelId := channelTimes[r.channelId] + [stamp]];
        } else {
          NoTimes(records[..i], r.channelId);
          channelTimes := channelTimes[r.channelId := [stamp]];
          ghost var before := channels;
          channels := Insert(r.channelId, channels, NUMBER_ORDER);
          forall c
            ensures c in channels <==> c == r.channelId || c in before
          {
            InsertMembers(r.channelId, before, NUMBER_ORDER, c);
          }
        }
      }
    }
    assert records[..|records|] == records;
  }

  lemma {:induction false} NoTimes(records: seq<RecordInput>, channel: nat)
    requires channel !in ActiveChannels(records)
    ensures ChannelTimes(records, channel) == []
  {
    if records != [] {
      var k := |records| - 1;
      var before := ActiveChannels(records[..k]);
      InsertMembers(records[k].channelId, before, NUMBER_ORDER, channel);
      NoTimes(records[..k], channel);
    }
  }

  /** The loop over the gaps of the primary channel. */
  method SearchGaps(
    records: seq<RecordInput>, channelTimes: map<nat, seq<Stamp>>, channels: seq<nat>, minGapSecs: int)
    returns (blackouts: seq<Blackout>)
    requires channels != []
    requires forall c :: c in channels ==> c in channelTimes && channelTimes[c] == SortedTimes(records, c)
    ensures Ascending(SortedTimes(records, channels[0]))
    ensures blackouts == BlackoutsBelow(records, channels, SortedTimes(records, channels[0]),
                                        GapCount(SortedTimes(records, channels[0])), minGapSecs)
  {
    hide SortedTimes, OthersSilent;
    blackouts := [];
    var primaryTimes := channelTimes[channels[0]];
    TimesAscend(records, channels[0]);
    for i := 0 to GapCount(primaryTimes)
      invariant blackouts == BlackoutsBelow(records, channels, primaryTimes, i, minGapSecs)
    {
      var start, end := primaryTimes[i].time, primaryTimes[i + 1].time;
      var gap := AsSigned(end - start);
      if gap >= minGapSecs {
        var allBlackout := AllOthersSilent(records, channelTimes, channels, start, end);
        if allBlackout {
          blackouts := blackouts + [Blackout(
            start, end, primaryTimes[i].normalized, primaryTimes[i + 1].normalized, gap, channels,
            if gap >= 60 then "CRITICAL" else "HIGH")];
        }
      }
    }
  }

  /** The search reports exactly the gaps of the specification. */
  method DetectGlobalBlackouts(records: seq<RecordInput>, minGapSecs: int) returns (blackouts: seq<Blackout>)
    ensures blackouts == DetectedBlackouts(records, minGapSecs)
  {
    hide BlackoutsBelow;
    if |records| == 0 || minGapSecs <= 0 {
      return [];
    }
    var channelTimes, channels := GroupTimes(records);
    if |channels| == 0 {
      return [];
    }
    channelTimes := map c | c in channelTimes :: Sort(channelTimes[c], TIME_ORDER);
    blackouts := SearchGaps(records, channelTimes, channels, minGapSecs);
  }
}
