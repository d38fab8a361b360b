/** The report that puts the merged timeline, the transitions and the blackouts of a case together. */
module CorrelationReport {
  import opened Sorting
  import opened Correlation
  import opened TransitionSearch
  import opened Blackouts
  import opened BlackoutSoundness
  import Timestamps

  datatype Report = Report(
    totalRecords: nat,
    activeChannels: seq<nat>,
    minTimestamp: nat,
    maxTimestamp: nat,
    minNormalized: string,
    maxNormalized: string,
    timelineEvents: seq<TimelineEvent>,
    transitions: seq<Transition>,
    blackouts: seq<Blackout>)

  // ----- Specification -----

  /** Every camera channel that occurs, corrupted records included, in increasing order. */
  function CameraChannels(records: seq<RecordInput>): seq<nat> {
    if records == [] then []
    else
      var last := records[|records| - 1].channelId;
      var before := CameraChannels(records[..|records| - 1]);
      if last > 0 && last !in before then Insert(last, before, NUMBER_ORDER) else before
  }

  function StampAt(timeline: seq<TimelineEvent>, i: int): Stamp {
    if 0 <= i < |timeline| then Stamp(timeline[i].timestamp, timeline[i].normalizedTimestamp)
    else Stamp(0, Timestamps.EPOCH_TEXT)
  }

  function ReportOf(records: seq<RecordInput>, windowSecs: int, blackoutGapSecs: int): Report {
    var timeline := MergeTimeline(records);
    var first, last := StampAt(timeline, 0), StampAt(timeline, |timeline| - 1);
    Report(
      |records|, CameraChannels(records), first.time, last.time, first.normalized, last.normalized,
      timeline, Transitions(timeline, windowSecs), DetectedBlackouts(records, blackoutGapSecs))
  }

  // ----- The report -----

  lemma MergedTimestamps64(records: seq<RecordInput>)
    requires Timestamps64Of(records)
    ensures Timestamps64(MergeTimeline(records))
  {
    var timeline := MergeTimeline(records);
    forall i | 0 <= i < |timeline|
      ensures timeline[i].timestamp < TWO_64
    {
      EventIsRecord(records, i);
    }
  }

  /** Every event of the merged timeline is one of the records. */
  lemma EventIsRecord(records: seq<RecordInput>, i: nat)
    requires i < |MergeTimeline(records)|
    ensures MergeTimeline(records)[i].Record() in records
  {
    SortMembers(records, TIMELINE_ORDER, Sort(records, TIMELINE_ORDER)[i]);
  }

  /** Every record is one of the events. */
  lemma RecordIsEvent(records: seq<RecordInput>, k: nat) returns (i: nat)
    requires k < |records|
    ensures i < |MergeTimeline(records)| && MergeTimeline(records)[i].Record() == records[k]
  {
    SortMembers(records, TIMELINE_ORDER, records[k]);
    i :| 0 <= i < |Sort(records, TIMELINE_ORDER)| && Sort(records, TIMELINE_ORDER)[i] == records[k];
  }

  method CollectChannels(records: seq<RecordInput>) returns (channels: seq<nat>)
    ensures channels == CameraChannels(records)
  {
    channels := [];
    for i := 0 to |records|
      invariant channels == CameraChannels(records[..i])
    {
      assert records[..i + 1][..i] == records[..i];
      var channel := records[i].channelId;
      if channel > 0 && channel !in channels {
        channels := Insert(channel, channels, NUMBER_ORDER);
      }
    }
    assert records[..|records|] == records;
  }

  method GenerateCorrelationReport(records: seq<RecordInput>, windowSecs: int, blackoutGapSecs: int)
    returns (report: Report)
    requires Timestamps64Of(records) && windowSecs < TWO_63
    ensures report == ReportOf(records, windowSecs, blackoutGapSecs)
  {
    hide MergeTimeline, Transitions, DetectedBlackouts;
    var timeline := MergeTimeline(records);
    MergeIsSortedPermutation(records);
    MergedTimestamps64(records);
    var transitions := DetectTransitions(timeline, windowSecs);
    var blackouts := DetectGlobalBlackouts(records, blackoutGapSecs);
    var activeChannels := CollectChannels(records);
    var minTs, minNorm := 0, Timestamps.EPOCH_TEXT;
    var maxTs, maxNorm := 0, Timestamps.EPOCH_TEXT;
    if timeline != [] {
      minTs, minNorm := timeline[0].timestamp, timeline[0].normalizedTimestamp;
      var last := timeline[|timeline| - 1];
      maxTs, maxNorm := last.timestamp, last.normalizedTimestamp;
    }
    report := Report(
      |records|, activeChannels, minTs, maxTs, minNorm, maxNorm, timeline, transitions, blackouts);
  }

  // ----- What the report's parts have to do with each other -----

  ghost predicate Increasing(numbers: seq<nat>) {
    forall i, j :: 0 <= i < j < |numbers| ==> numbers[i] < numbers[j]
  }

  lemma InsertIncreasing(x: nat, s: seq<nat>)
    requires Increasing(s) && x !in s
    ensures Increasing(Insert(x, s, NUMBER_ORDER))
  {
    if s != [] && !NUMBER_ORDER(x, s[0]) {
      var rest := Insert(x, s[1..], NUMBER_ORDER);
      InsertIncreasing(x, s[1..]);
      forall i | 0 <= i < |rest|
        ensures s[0] < rest[i]
      {
        InsertMembers(x, s[1..], NUMBER_ORDER, rest[i]);
      }
    }
  }

  ghost predicate CameraOf(records: seq<RecordInput>, channel: nat) {
    channel > 0 && exists i :: 0 <= i < |records| && records[i].channelId == channel
  }

  lemma {:induction false} CameraChannelsExact(records: seq<RecordInput>, channel: nat)
    ensures Increasing(CameraChannels(records))
    ensures channel in CameraChannels(records) <==> CameraOf(records, channel)
  {
    if records != [] {
      var k := |records| - 1;
      var before, last := CameraChannels(records[..k]), records[k].channelId;
      CameraChannelsExact(records[..k], channel);
      if last > 0 && last !in before {
        InsertIncreasing(last, before);
        InsertMembers(last, before, NUMBER_ORDER, channel);
      }
      CameraOfNext(records, k, channel);
      CameraChannelsExact(records[..k], last);
    }
  }

  lemma CameraOfNext(records: seq<RecordInput>, k: nat, channel: nat)
    requires |records| == k + 1
    ensures CameraOf(records, channel) <==> CameraOf(records[..k], channel) || (channel > 0 && records[k].channelId == channel)
  {
    if CameraOf(records[..k], channel) {
      var i :| 0 <= i < k && records[..k][i].channelId == channel;
      assert records[i].channelId == channel;
    }
    if i :| 0 <= i < |records| && records[i].channelId == channel && i < k {
      assert records[..k][i].channelId == channel;
    }
  }

  /** The bounds are the least and the greatest timestamp of the records. */
  lemma TimeBounds(records: seq<RecordInput>, windowSecs: int, blackoutGapSecs: int, k: nat)
    requires k < |records|
    ensures var report := ReportOf(records, windowSecs, blackoutGapSecs);
            && report.minTimestamp <= records[k].timestamp <= report.maxTimestamp
            && (exists r :: r in records && r.timestamp == report.minTimestamp && r.normalizedTimestamp == report.minNormalized)
            && (exists r :: r in records && r.timestamp == report.maxTimestamp && r.normalizedTimestamp == report.maxNormalized)
  {
    var timeline := MergeTimeline(records);
    MergeIsSortedPermutation(records);
    var i := RecordIsEvent(records, k);
    EventIsRecord(records, 0);
    EventIsRecord(records, |timeline| - 1);
    assert timeline[0].Record().timestamp == timeline[0].timestamp;
  }

  /** The report counts all records, and without any its bounds are the epoch's. */
  lemma ReportCounts(records: seq<RecordInput>, windowSecs: int, blackoutGapSecs: int)
    ensures var report := ReportOf(records, windowSecs, blackoutGapSecs);
            && report.totalRecords == |records| == |report.timelineEvents|
            && (records == [] ==>
                  && report.activeChannels == [] && report.transitions == [] && report.blackouts == []
                  && report.minTimestamp == 0 && report.minNormalized == "1970-01-01T00:00:00Z"
                  && report.maxTimestamp == 0 && report.maxNormalized == "1970-01-01T00:00:00Z")
  {
    SortElements(records, TIMELINE_ORDER);
  }

  ghost predicate TransitionFits(t: Transition, report: Report) {
    && t.fromChannel in report.activeChannels && t.toChannel in report.activeChannels
    && report.minTimestamp <= t.fromTimestamp < t.toTimestamp <= report.maxTimestamp
  }

  ghost predicate BlackoutFits(b: Blackout, report: Report) {
    && (forall c :: c in b.affectedChannels ==> c in report.activeChannels)
    && report.minTimestamp <= b.startTimestamp < b.endTimestamp <= report.maxTimestamp
  }

  lemma EventFits(records: seq<RecordInput>, windowSecs: int, blackoutGapSecs: int, e: TimelineEvent)
    requires e in MergeTimeline(records) && e.channelId > 0
    ensures var report := ReportOf(records, windowSecs, blackoutGapSecs);
            e.channelId in report.activeChannels && report.minTimestamp <= e.timestamp <= report.maxTimestamp
  {
    hide ReportOf;
    var timeline := MergeTimeline(records);
    var i :| 0 <= i < |timeline| && timeline[i] == e;
    EventIsRecord(records, i);
    var k :| 0 <= k < |records| && records[k] == e.Record();
    RecordFits(records, windowSecs, blackoutGapSecs, k);
  }

  lemma RecordFits(records: seq<RecordInput>, windowSecs: int, blackoutGapSecs: int, k: nat)
    requires k < |records| && records[k].channelId > 0
    ensures var report := ReportOf(records, windowSecs, blackoutGapSecs);
            && records[k].channelId in report.activeChannels
            && report.minTimestamp <= records[k].timestamp <= report.maxTimestamp
  {
    hide CameraChannels;
    CameraChannelsExact(records, records[k].channelId);
    TimeBounds(records, windowSecs, blackoutGapSecs, k);
  }

  /** Every transition of a report joins two of its active channels, within its time span. */
  lemma TransitionsFit(records: seq<RecordInput>, windowSecs: int, blackoutGapSecs: int, t: Transition)
    requires t in ReportOf(records, windowSecs, blackoutGapSecs).transitions
    ensures TransitionFits(t, ReportOf(records, windowSecs, blackoutGapSecs))
  {
    hide MergeTimeline, Transitions, CameraChannels, DetectedBlackouts;
    var timeline := MergeTimeline(records);
    MergeIsSortedPermutation(records);
    TransitionsExact(timeline, windowSecs, t.Key());
    ValidMembers(timeline);
    var events := ValidEvents(timeline);
    var from, to :| from in events && to in events && Linked(from, to, windowSecs) && t == TransitionOf(from, to);
    EventFits(records, windowSecs, blackoutGapSecs, from);
    EventFits(records, windowSecs, blackoutGapSecs, to);
  }

  /** Every blackout of a report affects only its active channels, and lies within its time span. */
  lemma BlackoutsFit(records: seq<RecordInput>, windowSecs: int, blackoutGapSecs: int, b: Blackout)
    requires Timestamps64Of(records)
    requires b in ReportOf(records, windowSecs, blackoutGapSecs).blackouts
    ensures BlackoutFits(b, ReportOf(records, windowSecs, blackoutGapSecs))
  {
    hide MergeTimeline, Transitions, CameraChannels, ActiveChannels, PrimaryTimes;
    assert blackoutGapSecs > 0;
    hide DetectedBlackouts;
    BlackoutsExact(records, blackoutGapSecs, b);
    var i: nat :| BlackoutGap(records, i, blackoutGapSecs) && b == BlackoutAt(ActiveChannels(records), PrimaryTimes(records), i);
    GapIsProper(records, i, blackoutGapSecs);
    PrimaryRecordFits(records, windowSecs, blackoutGapSecs, i);
    PrimaryRecordFits(records, windowSecs, blackoutGapSecs, i + 1);
    ActiveExact(records);
    forall c | c in b.affectedChannels
      ensures c in ReportOf(records, windowSecs, blackoutGapSecs).activeChannels
    {
      var k :| 0 <= k < |records| && Counts(records[k]) && records[k].channelId == c;
      RecordFits(records, windowSecs, blackoutGapSecs, k);
    }
  }

  lemma PrimaryRecordFits(records: seq<RecordInput>, windowSecs: int, blackoutGapSecs: int, i: nat)
    requires Timestamps64Of(records) && i < |PrimaryTimes(records)|
    ensures var report := ReportOf(records, windowSecs, blackoutGapSecs);
            report.minTimestamp <= PrimaryTimes(records)[i].time <= report.maxTimestamp
  {
    hide ReportOf, PrimaryTimes, ActiveChannels;
    PrimaryBelow(records, i);
    var k :| 0 <= k < |records| && Counts(records[k]) && records[k].timestamp == PrimaryTimes(records)[i].time;
    RecordFits(records, windowSecs, blackoutGapSecs, k);
  }
}
