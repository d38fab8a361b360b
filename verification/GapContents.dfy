/** What a reported blackout and a raised alert say, field by field. */
module GapContents {
  import opened Records
  import opened Sorting
  import opened Correlation
  import opened Blackouts
  import opened BlackoutSoundness
  import opened Timeline
  import opened GapAgreement

  // ----- Blackouts -----

  /** An uncorrupted record of the camera with this time and text. */
  ghost predicate HasStamp(records: seq<RecordInput>, channel: nat, time: nat, text: string) {
    exists i :: 0 <= i < |records| && !records[i].isCorrupted && records[i].channelId == channel > 0
                && records[i].timestamp == time && records[i].normalizedTimestamp == text
  }

  lemma {:induction false} StampOfRecord(records: seq<RecordInput>, channel: nat, s: Stamp)
    requires s in ChannelTimes(records, channel)
    ensures HasStamp(records, channel, s.time, s.normalized)
  {
    var k := |records| - 1;
    if s in ChannelTimes(records[..k], channel) {
      StampOfRecord(records[..k], channel, s);
      var i :| 0 <= i < k && !records[..k][i].isCorrupted && records[..k][i].channelId == channel
               && records[..k][i].timestamp == s.time && records[..k][i].normalizedTimestamp == s.normalized;
      assert records[i] == records[..k][i];
    } else {
      assert records[k].timestamp == s.time;
    }
  }

  lemma PrimaryStamp(records: seq<RecordInput>, i: nat)
    requires i < |PrimaryTimes(records)|
    ensures ActiveChannels(records) != []
    ensures var s := PrimaryTimes(records)[i];
            HasStamp(records, ActiveChannels(records)[0], s.time, s.normalized)
  {
    hide Sort, ChannelTimes, ActiveChannels, HasStamp;
    var channel := ActiveChannels(records)[0];
    var s := PrimaryTimes(records)[i];
    SortMembers(ChannelTimes(records, channel), TIME_ORDER, s);
    StampOfRecord(records, channel, s);
  }

  /** The channels named are, in increasing order, those of the uncorrupted records of a camera. */
  ghost predicate NamesCameras(channels: seq<nat>, records: seq<RecordInput>) {
    && (forall i, j :: 0 <= i < j < |channels| ==> channels[i] <= channels[j])
    && (forall c :: c in channels <==> exists i :: 0 <= i < |records| && HasUsable(records[i], c))
  }

  predicate HasUsable(r: RecordInput, channel: nat) {
    !r.isCorrupted && r.channelId == channel > 0
  }

  lemma ActiveNames(records: seq<RecordInput>)
    ensures NamesCameras(ActiveChannels(records), records)
  {
    ActiveExact(records);
    var channels := ActiveChannels(records);
    forall i, j | 0 <= i < j < |channels|
      ensures channels[i] <= channels[j]
    {
      assert NUMBER_ORDER(channels[i], channels[j]);
    }
    forall c
      ensures c in channels <==> exists i :: 0 <= i < |records| && HasUsable(records[i], c)
    {
      if i :| 0 <= i < |records| && HasUsable(records[i], c) {
        assert Counts(records[i]);
      }
      if i :| 0 <= i < |records| && Counts(records[i]) && records[i].channelId == c {
        assert HasUsable(records[i], c);
      }
    }
  }

  ghost predicate NoneInside(records: seq<RecordInput>, start: nat, end: nat) {
    forall i :: 0 <= i < |records| && !records[i].isCorrupted && records[i].channelId > 0 ==>
                  records[i].timestamp <= start + 1 || records[i].timestamp + 1 >= end
  }

  /**
   * A reported blackout: it starts and ends with uncorrupted records of the lowest camera, whose
   * texts it carries; its length is the difference and at least the minimum; from a minute on it is
   * critical; it names all cameras; and none of them recorded more than a second inside it.
   */
  lemma BlackoutContents(records: seq<RecordInput>, minGap: int, b: Blackout)
    requires minGap > 0 && Timestamps64Of(records) && b in DetectedBlackouts(records, minGap)
    ensures NamesCameras(b.affectedChannels, records) && b.affectedChannels != []
    ensures HasStamp(records, b.affectedChannels[0], b.startTimestamp, b.startNormalized)
    ensures HasStamp(records, b.affectedChannels[0], b.endTimestamp, b.endNormalized)
    ensures minGap <= b.durationSecs == b.endTimestamp - b.startTimestamp
    ensures b.severity == if b.durationSecs >= 60 then "CRITICAL" else "HIGH"
    ensures NoneInside(records, b.startTimestamp, b.endTimestamp)
  {
    hide DetectedBlackouts, ActiveChannels, PrimaryTimes, HasStamp, NamesCameras;
    BlackoutsExact(records, minGap, b);
    var i: nat :| BlackoutGap(records, i, minGap) && b == BlackoutAt(ActiveChannels(records), PrimaryTimes(records), i);
    PrimaryStamp(records, i);
    PrimaryStamp(records, i + 1);
    ActiveNames(records);
  }

  /** An uncorrupted record of the camera at this time. */
  ghost predicate RecordsAt(records: seq<RecordInput>, channel: nat, time: nat) {
    exists i :: 0 <= i < |records| && !records[i].isCorrupted && records[i].channelId == channel > 0
                && records[i].timestamp == time
  }

  ghost predicate LowestCamera(records: seq<RecordInput>, channel: nat) {
    && (exists i :: 0 <= i < |records| && HasUsable(records[i], channel))
    && (forall i :: 0 <= i < |records| && !records[i].isCorrupted && records[i].channelId > 0 ==>
                      channel <= records[i].channelId)
  }

  lemma LowestIsPrimary(records: seq<RecordInput>, channel: nat)
    requires LowestCamera(records, channel)
    ensures ActiveChannels(records) != [] && ActiveChannels(records)[0] == channel
  {
    hide ActiveChannels;
    ActiveNames(records);
    var channels := ActiveChannels(records);
    assert channel in channels;
    var k :| 0 <= k < |channels| && channels[k] == channel;
    assert k > 0 ==> channels[0] <= channels[k];
    assert channels[0] in channels;
  }

  lemma PrimaryTimeExactly(records: seq<RecordInput>, channel: nat, t: nat)
    requires LowestCamera(records, channel)
    ensures HasTime(PrimaryTimes(records), t) <==> RecordsAt(records, channel, t)
  {
    hide ActiveChannels, SortedTimes;
    LowestIsPrimary(records, channel);
    SortedTimesExact(records, channel, t);
  }

  /**
   * A gap of the lowest camera that is long enough is reported, if no uncorrupted record of any
   * camera lies more than a second inside it.
   */
  lemma GapIsReported(records: seq<RecordInput>, minGap: int, channel: nat, start: nat, end: nat)
    requires Timestamps64Of(records) && LowestCamera(records, channel)
    requires RecordsAt(records, channel, start) && RecordsAt(records, channel, end)
    requires forall t :: start < t < end ==> !RecordsAt(records, channel, t)
    requires NoneInside(records, start, end) && 0 < minGap <= end - start < 0x8000_0000_0000_0000
    ensures ReportedFor(DetectedBlackouts(records, minGap), start, end)
  {
    hide PrimaryTimes, DetectedBlackouts, RecordsAt, LowestCamera;
    forall t
      ensures HasTime(PrimaryTimes(records), t) <==> RecordsAt(records, channel, t)
    {
      PrimaryTimeExactly(records, channel, t);
    }
    assert Silent(records, start, end);
    SilenceReportedExactly(records, minGap, start, end);
  }

  // ----- Alerts -----

  /** The alert is that of two neighbours in time order, further apart than expected. */
  predicate AlertSays(a: DiscontinuityAlert, prev: ExtractedRecord, curr: ExtractedRecord, maxGap: nat) {
    && curr.timestamp - prev.timestamp > maxGap
    && a.startTimestamp == prev.normalizedTimestamp && a.endTimestamp == curr.normalizedTimestamp
    && var distance := curr.timestamp - prev.timestamp;
    && a.durationSecs == (if distance < 0x8000_0000_0000_0000 then distance else distance - 0x1_0000_0000_0000_0000)
    && a.affectedChannels == [prev.channelId, curr.channelId]
    && (a.severity == "CRITICAL" <==> curr.timestamp - prev.timestamp > 60)
    && (a.severity == "HIGH" <==> 30 < curr.timestamp - prev.timestamp <= 60)
    && (a.severity == "MEDIUM" <==> curr.timestamp - prev.timestamp <= 30)
  }

  /** The neighbours of the time order that raise an alert. */
  ghost predicate Raises(sorted: seq<ExtractedRecord>, i: nat, maxGap: nat) {
    i + 1 < |sorted| && sorted[i + 1].timestamp - sorted[i].timestamp > maxGap
  }

  lemma AlertAtSays(sorted: seq<ExtractedRecord>, i: nat, maxGap: nat)
    requires AscendingRecords(sorted) && Raises(sorted, i, maxGap)
    ensures sorted[i].timestamp < sorted[i + 1].timestamp
    ensures AlertSays(AlertAt(sorted, i), sorted[i], sorted[i + 1], maxGap)
  {
  }

  ghost function RaisesBelow(sorted: seq<ExtractedRecord>, n: nat, maxGap: nat): seq<nat> {
    if n == 0 then [] else RaisesBelow(sorted, n - 1, maxGap) + if Raises(sorted, n - 1, maxGap) then [n - 1] else []
  }

  lemma {:induction false} RaisesExact(sorted: seq<ExtractedRecord>, n: nat, maxGap: nat)
    ensures var ks := RaisesBelow(sorted, n, maxGap);
            && (forall k: nat :: k in ks <==> k < n && Raises(sorted, k, maxGap))
            && (forall i, j :: 0 <= i < j < |ks| ==> ks[i] < ks[j])
  {
    hide Raises;
    if n > 0 {
      RaisesExact(sorted, n - 1, maxGap);
      var before := RaisesBelow(sorted, n - 1, maxGap);
      forall i | 0 <= i < |before|
        ensures before[i] < n - 1
      {
        assert before[i] in before;
      }
    }
  }

  /** The alerts say, one by one, what the neighbours `ks` are. */
  ghost predicate SayNeighbours(
    alerts: seq<DiscontinuityAlert>, ks: seq<nat>, sorted: seq<ExtractedRecord>, maxGap: nat)
  {
    |alerts| == |ks|
    && forall i :: 0 <= i < |ks| ==>
                     ks[i] + 1 < |sorted| && AlertSays(alerts[i], sorted[ks[i]], sorted[ks[i] + 1], maxGap)
  }

  lemma {:induction false} AlertsSay(sorted: seq<ExtractedRecord>, n: nat, maxGap: nat)
    requires AscendingRecords(sorted) && (n == 0 || n < |sorted|)
    ensures SayNeighbours(AlertsBelow(sorted, n, maxGap), RaisesBelow(sorted, n, maxGap), sorted, maxGap)
  {
    hide AlertSays, AlertAt;
    if n > 0 {
      AlertsSay(sorted, n - 1, maxGap);
      if Raises(sorted, n - 1, maxGap) {
        AlertAtSays(sorted, n - 1, maxGap);
      }
    }
  }

  /**
   * There is one alert for each two neighbours in time order that are further apart than expected, in
   * their order, and it says of them what they are.
   */
  lemma AlertsExactly(records: seq<ExtractedRecord>, maxGap: nat) returns (ks: seq<nat>)
    ensures AscendingRecords(ByTime(records))
    ensures forall r :: r in ByTime(records) <==> r in records && r.timestamp > 0
    ensures forall k: nat :: k in ks <==> Raises(ByTime(records), k, maxGap)
    ensures forall i, j :: 0 <= i < j < |ks| ==> ks[i] < ks[j]
    ensures SayNeighbours(Alerts(records, maxGap), ks, ByTime(records), maxGap)
  {
    hide Sort, AlertSays, AlertAt, TimedRecords;
    var sorted := ByTime(records);
    ByTimeAscends(records);
    forall r
      ensures r in sorted <==> r in records && r.timestamp > 0
    {
      SortMembers(TimedRecords(records), RECORD_ORDER, r);
      TimedMembers(records, r);
    }
    var n := if sorted == [] then 0 else |sorted| - 1;
    ks := RaisesBelow(sorted, n, maxGap);
    RaisesExact(sorted, n, maxGap);
    AlertsSay(sorted, n, maxGap);
  }
}
