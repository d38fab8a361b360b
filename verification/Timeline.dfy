/** The reconstructed timeline of a case, and the alerts for interruptions of the recording. */
module Timeline {
  import opened Wrappers
  import opened Records
  import opened Sorting
  import opened Correlation
  import opened Text
  import Carver

  datatype CorrelatedEvent = CorrelatedEvent(eventType: string, startTimestamp: string, confidence: real)

  datatype Detection = Detection(timestamp: nat, normalizedTimestamp: string, channelId: nat, relevanceScore: real)

  datatype TimelineEntry = TimelineEntry(
    timestamp: nat,
    normalizedTimestamp: string,
    channelId: Option<nat>,
    entryType: string,
    flagged: bool)

  datatype DiscontinuityAlert = DiscontinuityAlert(
    startTimestamp: string,
    endTimestamp: string,
    durationSecs: int,
    affectedChannels: seq<nat>,
    severity: string)

  // ----- Entries -----

  function RecordEntry(r: ExtractedRecord): TimelineEntry {
    TimelineEntry(r.timestamp, r.normalizedTimestamp, Some(r.channelId), "video_frame",
                  r.isCorrupted || (r.isScrambled && !r.descrambled))
  }

  const CARVED_ENTRY := TimelineEntry(0, "CARVED_UNINDEXED", None, "carved_frame", true)

  predicate OccursAt(text: string, part: string, i: nat) {
    i + |part| <= |text| && text[i..i + |part|] == part
  }

  predicate Contains(text: string, part: string) {
    exists i :: 0 <= i <= |text| && OccursAt(text, part, i)
  }

  function EventEntry(e: CorrelatedEvent): TimelineEntry {
    TimelineEntry(0, e.startTimestamp, None, "correlated_" + e.eventType,
                  Contains(e.eventType, "blackout") || e.confidence >= 0.90)
  }

  /** Only detections of at least this relevance become entries. */
  predicate Relevant(a: Detection) {
    a.relevanceScore >= 0.50
  }

  function LeadEntry(a: Detection): TimelineEntry {
    TimelineEntry(a.timestamp, a.normalizedTimestamp, Some(a.channelId), "analytics_lead", a.relevanceScore >= 0.75)
  }

  function DetectionEntry(a: Detection): seq<TimelineEntry> {
    if Relevant(a) then [LeadEntry(a)] else []
  }

  function RecordEntries(records: seq<ExtractedRecord>): seq<TimelineEntry> {
    if records == [] then [] else RecordEntries(records[..|records| - 1]) + [RecordEntry(records[|records| - 1])]
  }

  function CarvedEntries(carved: seq<Carver.CarvedFrame>): seq<TimelineEntry> {
    if carved == [] then [] else CarvedEntries(carved[..|carved| - 1]) + [CARVED_ENTRY]
  }

  function EventEntries(events: seq<CorrelatedEvent>): seq<TimelineEntry> {
    if events == [] then [] else EventEntries(events[..|events| - 1]) + [EventEntry(events[|events| - 1])]
  }

  function DetectionEntries(analytics: seq<Detection>): seq<TimelineEntry> {
    if analytics == [] then []
    else DetectionEntries(analytics[..|analytics| - 1]) + DetectionEntry(analytics[|analytics| - 1])
  }

  function Entries(
    records: seq<ExtractedRecord>, carved: seq<Carver.CarvedFrame>,
    events: seq<CorrelatedEvent>, analytics: seq<Detection>): seq<TimelineEntry>
  {
    RecordEntries(records) + CarvedEntries(carved) + EventEntries(events) + DetectionEntries(analytics)
  }

  // ----- What the entries are -----

  lemma {:induction false} RecordEntriesAt(records: seq<ExtractedRecord>)
    ensures |RecordEntries(records)| == |records|
    ensures forall i :: 0 <= i < |records| ==> RecordEntries(records)[i] == RecordEntry(records[i])
  {
    if records != [] {
      RecordEntriesAt(records[..|records| - 1]);
    }
  }

  lemma {:induction false} CarvedEntriesAt(carved: seq<Carver.CarvedFrame>)
    ensures |CarvedEntries(carved)| == |carved|
    ensures forall i :: 0 <= i < |carved| ==> CarvedEntries(carved)[i] == CARVED_ENTRY
  {
    if carved != [] {
      CarvedEntriesAt(carved[..|carved| - 1]);
    }
  }

  lemma {:induction false} EventEntriesAt(events: seq<CorrelatedEvent>)
    ensures |EventEntries(events)| == |events|
    ensures forall i :: 0 <= i < |events| ==> EventEntries(events)[i] == EventEntry(events[i])
  {
    if events != [] {
      EventEntriesAt(events[..|events| - 1]);
    }
  }

  function CountRelevant(analytics: seq<Detection>): nat {
    if analytics == [] then 0
    else CountRelevant(analytics[..|analytics| - 1]) + if Relevant(analytics[|analytics| - 1]) then 1 else 0
  }

  ghost predicate ComesFromDetection(analytics: seq<Detection>, e: TimelineEntry) {
    exists i :: 0 <= i < |analytics| && Relevant(analytics[i]) && e == LeadEntry(analytics[i])
  }

  lemma {:induction false} DetectionEntriesExact(analytics: seq<Detection>)
    ensures |DetectionEntries(analytics)| == CountRelevant(analytics)
    ensures forall e :: e in DetectionEntries(analytics) <==> ComesFromDetection(analytics, e)
  {
    hide LeadEntry, Relevant;
    if analytics != [] {
      var k := |analytics| - 1;
      DetectionEntriesExact(analytics[..k]);
      forall e
        ensures ComesFromDetection(analytics, e) <==>
                ComesFromDetection(analytics[..k], e) || (Relevant(analytics[k]) && e == LeadEntry(analytics[k]))
      {
        if i :| 0 <= i < k && Relevant(analytics[..k][i]) && e == LeadEntry(analytics[..k][i]) {
          assert analytics[i] == analytics[..k][i];
        }
        if i :| 0 <= i < |analytics| && Relevant(analytics[i]) && e == LeadEntry(analytics[i]) && i < k {
          assert analytics[..k][i] == analytics[i];
        }
      }
    }
  }

  // What an entry shows of its origin.

  predicate ShowsRecord(e: TimelineEntry, r: ExtractedRecord) {
    && e.timestamp == r.timestamp && e.normalizedTimestamp == r.normalizedTimestamp
    && e.channelId == Some(r.channelId) && e.entryType == "video_frame"
    && (e.flagged <==> r.isCorrupted || (r.isScrambled && !r.descrambled))
  }

  predicate ShowsCarving(e: TimelineEntry) {
    e.timestamp == 0 && e.normalizedTimestamp == "CARVED_UNINDEXED" && e.channelId == None
    && e.entryType == "carved_frame" && e.flagged
  }

  ghost predicate ShowsEvent(e: TimelineEntry, c: CorrelatedEvent) {
    && e.timestamp == 0 && e.normalizedTimestamp == c.startTimestamp
    && e.channelId == None && e.entryType == "correlated_" + c.eventType
    && (e.flagged <==> c.confidence >= 0.90 || exists p, q :: c.eventType == p + "blackout" + q)
  }

  predicate ShowsDetection(e: TimelineEntry, a: Detection) {
    && e.timestamp == a.timestamp && e.normalizedTimestamp == a.normalizedTimestamp
    && e.channelId == Some(a.channelId) && e.entryType == "analytics_lead"
    && (e.flagged <==> a.relevanceScore >= 0.75)
  }

  lemma ContainsPart(text: string, part: string)
    ensures Contains(text, part) <==> exists p, q :: text == p + part + q
  {
    if i :| 0 <= i <= |text| && OccursAt(text, part, i) {
      assert text == text[..i] + part + text[i + |part|..];
    }
    if p, q :| text == p + part + q {
      assert OccursAt(text, part, |p|);
    }
  }

  lemma RecordShows(e: TimelineEntry, r: ExtractedRecord)
    ensures e == RecordEntry(r) <==> ShowsRecord(e, r)
  {
  }

  lemma CarvingShows(e: TimelineEntry)
    ensures e == CARVED_ENTRY <==> ShowsCarving(e)
  {
  }

  lemma EventShows(e: TimelineEntry, c: CorrelatedEvent)
    ensures e == EventEntry(c) <==> ShowsEvent(e, c)
  {
    hide Contains;
    ContainsPart(c.eventType, "blackout");
  }

  lemma DetectionShows(e: TimelineEntry, a: Detection)
    ensures Relevant(a) && e == LeadEntry(a) <==> a.relevanceScore >= 0.50 && ShowsDetection(e, a)
  {
  }

  ghost predicate ComesFromRecord(records: seq<ExtractedRecord>, e: TimelineEntry) {
    exists i :: 0 <= i < |records| && ShowsRecord(e, records[i])
  }

  ghost predicate ComesFromEvent(events: seq<CorrelatedEvent>, e: TimelineEntry) {
    exists i :: 0 <= i < |events| && ShowsEvent(e, events[i])
  }

  ghost predicate ComesFromLead(analytics: seq<Detection>, e: TimelineEntry) {
    exists i :: 0 <= i < |analytics| && analytics[i].relevanceScore >= 0.50 && ShowsDetection(e, analytics[i])
  }

  lemma OriginsShow(
    records: seq<ExtractedRecord>, events: seq<CorrelatedEvent>, analytics: seq<Detection>, e: TimelineEntry)
    ensures (exists i :: 0 <= i < |records| && e == RecordEntry(records[i])) <==> ComesFromRecord(records, e)
    ensures (exists i :: 0 <= i < |events| && e == EventEntry(events[i])) <==> ComesFromEvent(events, e)
    ensures ComesFromDetection(analytics, e) <==> ComesFromLead(analytics, e)
  {
    hide RecordEntry, EventEntry, LeadEntry, Relevant, ShowsRecord, ShowsEvent, ShowsDetection;
    forall i | 0 <= i < |records|
      ensures e == RecordEntry(records[i]) <==> ShowsRecord(e, records[i])
    {
      RecordShows(e, records[i]);
    }
    forall i | 0 <= i < |events|
      ensures e == EventEntry(events[i]) <==> ShowsEvent(e, events[i])
    {
      EventShows(e, events[i]);
    }
    forall i | 0 <= i < |analytics|
      ensures Relevant(analytics[i]) && e == LeadEntry(analytics[i]) <==>
              analytics[i].relevanceScore >= 0.50 && ShowsDetection(e, analytics[i])
    {
      DetectionShows(e, analytics[i]);
    }
  }

  /** How many detections have a relevance of at least 0.50. */
  function CountLeads(analytics: seq<Detection>): nat {
    if analytics == [] then 0
    else CountLeads(analytics[1..]) + if analytics[0].relevanceScore >= 0.50 then 1 else 0
  }

  lemma {:induction false} LeadsCount(analytics: seq<Detection>)
    ensures CountRelevant(analytics) == CountLeads(analytics)
  {
    if analytics != [] {
      LeadsCount(analytics[1..]);
      LeadsCountFront(analytics);
    }
  }

  lemma {:induction false} LeadsCountFront(analytics: seq<Detection>)
    requires analytics != []
    ensures CountRelevant(analytics) ==
            CountRelevant(analytics[1..]) + if analytics[0].relevanceScore >= 0.50 then 1 else 0
  {
    var k := |analytics| - 1;
    if k > 0 {
      LeadsCountFront(analytics[..k]);
      assert analytics[..k][1..] == analytics[1..][..k - 1];
    }
  }

  /**
   * One entry per record, carved frame and event, and one per detection of relevance at least 0.50;
   * an entry is in the list if and only if it shows one of these, field by field.
   */
  lemma EntriesExactly(
    records: seq<ExtractedRecord>, carved: seq<Carver.CarvedFrame>,
    events: seq<CorrelatedEvent>, analytics: seq<Detection>, e: TimelineEntry)
    ensures var entries := Entries(records, carved, events, analytics);
            && |entries| == |records| + |carved| + |events| + CountLeads(analytics)
            && (e in entries <==>
                || ComesFromRecord(records, e)
                || (carved != [] && ShowsCarving(e))
                || ComesFromEvent(events, e)
                || ComesFromLead(analytics, e))
  {
    hide RecordEntry, EventEntry, LeadEntry, ComesFromDetection, RecordEntries, CarvedEntries, EventEntries,
         DetectionEntries, ComesFromRecord, ComesFromEvent, ComesFromLead, ShowsCarving;
    RecordEntriesAt(records);
    CarvedEntriesAt(carved);
    EventEntriesAt(events);
    DetectionEntriesExact(analytics);
    LeadsCount(analytics);
    OriginsShow(records, events, analytics, e);
    CarvingShows(e);
    var r, c, v := RecordEntries(records), CarvedEntries(carved), EventEntries(events);
    assert e in r <==> exists i :: 0 <= i < |records| && e == RecordEntry(records[i]);
    assert carved != [] ==> c[0] == CARVED_ENTRY;
    assert e in v <==> exists i :: 0 <= i < |events| && e == EventEntry(events[i]);
  }

  // ----- The order of the entries -----

  const NEVER := 0xFFFF_FFFF_FFFF_FFFF

  /** Entries without a timestamp sort as if they came last. */
  function SortTime(e: TimelineEntry): nat {
    if e.timestamp > 0 then e.timestamp else NEVER
  }

  predicate TextLeq(a: string, b: string) {
    if a == "" then true
    else if b == "" then false
    else if a[0] != b[0] then a[0] < b[0]
    else TextLeq(a[1..], b[1..])
  }

  predicate EntryLeq(a: TimelineEntry, b: TimelineEntry) {
    if SortTime(a) != SortTime(b) then SortTime(a) < SortTime(b)
    else TextLeq(a.normalizedTimestamp, b.normalizedTimestamp)
  }

  const ENTRY_ORDER: (TimelineEntry, TimelineEntry) -> bool := (a, b) => EntryLeq(a, b)

  lemma {:induction false} TextLeqTotal(a: string, b: string)
    ensures TextLeq(a, b) || TextLeq(b, a)
  {
    if a != "" && b != "" && a[0] == b[0] {
      TextLeqTotal(a[1..], b[1..]);
    }
  }

  lemma {:induction false} TextLeqTransitive(a: string, b: string, c: string)
    ensures TextLeq(a, b) && TextLeq(b, c) ==> TextLeq(a, c)
  {
    if a != "" && b != "" && c != "" && a[0] == b[0] == c[0] {
      TextLeqTransitive(a[1..], b[1..], c[1..]);
    }
  }

  /** The comparison of texts is the lexicographic one: a proper prefix comes first. */
  lemma {:induction false} TextLeqIsLexicographic(a: string, b: string)
    ensures TextLeq(a, b) <==> a <= b || LexLess(a, b)
  {
    if a != "" && b != "" {
      TextLeqIsLexicographic(a[1..], b[1..]);
      if a[0] == b[0] {
        SameStart(a, b);
      } else if a[0] < b[0] {
        assert DiffersAt(a, b, 0);
      } else {
        forall i: nat
          ensures !DiffersAt(a, b, i)
        {
          if i > 0 && i < |a| && i < |b| {
            assert a[..i][0] != b[..i][0];
          }
        }
      }
    }
  }

  lemma SameStart(a: string, b: string)
    requires a != "" && b != "" && a[0] == b[0]
    ensures a <= b <==> a[1..] <= b[1..]
    ensures LexLess(a, b) <==> LexLess(a[1..], b[1..])
  {
    assert a == [a[0]] + a[1..] && b == [b[0]] + b[1..];
    if i: nat :| DiffersAt(a, b, i) {
      assert a[1..][..i - 1] == a[..i][1..] && b[1..][..i - 1] == b[..i][1..];
      assert DiffersAt(a[1..], b[1..], i - 1);
    }
    if i: nat :| DiffersAt(a[1..], b[1..], i) {
      assert a[..i + 1] == [a[0]] + a[1..][..i] && b[..i + 1] == [b[0]] + b[1..][..i];
      assert DiffersAt(a, b, i + 1);
    }
  }

  lemma EntryOrderIsTotal()
    ensures TotalPreorder(ENTRY_ORDER)
  {
    forall x, y
      ensures ENTRY_ORDER(x, y) || ENTRY_ORDER(y, x)
    {
      TextLeqTotal(x.normalizedTimestamp, y.normalizedTimestamp);
    }
    forall x, y, z
      ensures ENTRY_ORDER(x, y) && ENTRY_ORDER(y, z) ==> ENTRY_ORDER(x, z)
    {
      TextLeqTransitive(x.normalizedTimestamp, y.normalizedTimestamp, z.normalizedTimestamp);
    }
  }

  /**
   * The timeline holds every entry once, in chronological order; after the entries without a time
   * comes no entry with one, unless it carries the largest 64-bit time. Ties are in text order.
   */
  lemma TimelineIsSorted(entries: seq<TimelineEntry>)
    ensures var timeline := Sort(entries, ENTRY_ORDER);
            && multiset(timeline) == multiset(entries)
            && (forall i, j :: 0 <= i < j < |timeline| && timeline[j].timestamp > 0 ==>
                                 if timeline[i].timestamp == 0 then timeline[j].timestamp >= NEVER
                                 else timeline[i].timestamp <= timeline[j].timestamp)
            && (forall i, j :: 0 <= i < j < |timeline| && timeline[i].timestamp == timeline[j].timestamp ==>
                                 (|| timeline[i].normalizedTimestamp <= timeline[j].normalizedTimestamp
                                  || LexLess(timeline[i].normalizedTimestamp, timeline[j].normalizedTimestamp)))
  {
    hide TextLeq, LexLess;
    var timeline := Sort(entries, ENTRY_ORDER);
    EntryOrderIsTotal();
    SortElements(entries, ENTRY_ORDER);
    SortSorted(entries, ENTRY_ORDER);
    forall i, j | 0 <= i < j < |timeline|
      ensures EntryLeq(timeline[i], timeline[j])
      ensures TextLeq(timeline[i].normalizedTimestamp, timeline[j].normalizedTimestamp) ==>
                || timeline[i].normalizedTimestamp <= timeline[j].normalizedTimestamp
                || LexLess(timeline[i].normalizedTimestamp, timeline[j].normalizedTimestamp)
    {
      assert ENTRY_ORDER(timeline[i], timeline[j]);
      TextLeqIsLexicographic(timeline[i].normalizedTimestamp, timeline[j].normalizedTimestamp);
    }
  }

  // ----- Alerts -----

  /** The records that carry a time. */
  function TimedRecords(records: seq<ExtractedRecord>): seq<ExtractedRecord> {
    if records == [] then []
    else
      var last := records[|records| - 1];
      TimedRecords(records[..|records| - 1]) + if last.timestamp > 0 then [last] else []
  }

  const RECORD_ORDER: (ExtractedRecord, ExtractedRecord) -> bool :=
    (a: ExtractedRecord, b: ExtractedRecord) => a.timestamp <= b.timestamp

  function ByTime(records: seq<ExtractedRecord>): seq<ExtractedRecord> {
    Sort(TimedRecords(records), RECORD_ORDER)
  }

  /** The `i`-th pair of neighbours is further apart than expected. */
  predicate Interrupted(sorted: seq<ExtractedRecord>, i: nat, maxGap: nat)
    requires i + 1 < |sorted|
  {
    sorted[i + 1].timestamp > sorted[i].timestamp + maxGap
  }

  function Severity(delta: int): string {
    if delta > 60 then "CRITICAL" else if delta > 30 then "HIGH" else "MEDIUM"
  }

  function AlertAt(sorted: seq<ExtractedRecord>, i: nat): DiscontinuityAlert
    requires i + 1 < |sorted| && sorted[i].timestamp <= sorted[i + 1].timestamp
  {
    var prev, curr := sorted[i], sorted[i + 1];
    var delta: nat := curr.timestamp - prev.timestamp;
    DiscontinuityAlert(
      prev.normalizedTimestamp, curr.normalizedTimestamp, AsSigned(delta),
      [prev.channelId, curr.channelId], Severity(delta))
  }

  /** The alerts for the first `n` pairs of neighbours. */
  function AlertsBelow(sorted: seq<ExtractedRecord>, n: nat, maxGap: nat): seq<DiscontinuityAlert>
    requires n == 0 || n < |sorted|
  {
    if n == 0 then []
    else
      AlertsBelow(sorted, n - 1, maxGap)
      + if Interrupted(sorted, n - 1, maxGap) then [AlertAt(sorted, n - 1)] else []
  }

  function Alerts(records: seq<ExtractedRecord>, maxGap: nat): seq<DiscontinuityAlert> {
    var sorted := ByTime(records);
    AlertsBelow(sorted, if sorted == [] then 0 else |sorted| - 1, maxGap)
  }

  // ----- The code -----

  method CollectEntries(
    records: seq<ExtractedRecord>, carved: seq<Carver.CarvedFrame>,
    events: seq<CorrelatedEvent>, analytics: seq<Detection>) returns (timeline: seq<TimelineEntry>)
    ensures timeline == Entries(records, carved, events, analytics)
  {
    hide Contains, RecordEntry, EventEntry;
    timeline := [];
    for i := 0 to |records|
      invariant timeline == RecordEntries(records[..i])
    {
      assert records[..i + 1][..i] == records[..i];
      timeline := timeline + [RecordEntry(records[i])];
    }
    assert records[..|records|] == records;
    ghost var done := timeline;
    for i := 0 to |carved|
      invariant timeline == done + CarvedEntries(carved[..i])
    {
      assert carved[..i + 1][..i] == carved[..i];
      timeline := timeline + [CARVED_ENTRY];
    }
    assert carved[..|carved|] == carved;
    done := timeline;
    for i := 0 to |events|
      invariant timeline == done + EventEntries(events[..i])
    {
      assert events[..i + 1][..i] == events[..i];
      timeline := timeline + [EventEntry(events[i])];
    }
    assert events[..|events|] == events;
    done := timeline;
    for i := 0 to |analytics|
      invariant timeline == done + DetectionEntries(analytics[..i])
    {
      assert analytics[..i + 1][..i] == analytics[..i];
      var a := analytics[i];
      if a.relevanceScore >= 0.50 {
        timeline := timeline + [TimelineEntry(
          a.timestamp, a.normalizedTimestamp, Some(a.channelId), "analytics_lead", a.relevanceScore >= 0.75)];
      }
    }
    assert analytics[..|analytics|] == analytics;
  }

  method FilterTimed(records: seq<ExtractedRecord>) returns (timed: seq<ExtractedRecord>)
    ensures timed == TimedRecords(records)
  {
    timed := [];
    for i := 0 to |records|
      invariant timed == TimedRecords(records[..i])
    {
      assert records[..i + 1][..i] == records[..i];
      if records[i].timestamp > 0 {
        timed := timed + [records[i]];
      }
    }
    assert records[..|records|] == records;
  }

  /** The loop over the windows of two neighbouring records. */
  method CollectAlerts(sorted: seq<ExtractedRecord>, maxGap: nat) returns (alerts: seq<DiscontinuityAlert>)
    ensures alerts == AlertsBelow(sorted, if sorted == [] then 0 else |sorted| - 1, maxGap)
  {
    alerts := [];
    if |sorted| < 2 {
      return;
    }
    for i := 0 to |sorted| - 1
      invariant alerts == AlertsBelow(sorted, i, maxGap)
    {
      var prev, curr := sorted[i], sorted[i + 1];
      if curr.timestamp > prev.timestamp {
        var delta := curr.timestamp - prev.timestamp;
        if delta > maxGap {
          var severity := if delta > 60 then "CRITICAL" else if delta > 30 then "HIGH" else "MEDIUM";
          alerts := alerts + [DiscontinuityAlert(
            prev.normalizedTimestamp, curr.normalizedTimestamp, AsSigned(delta),
            [prev.channelId, curr.channelId], severity)];
        }
      }
    }
  }

  method ReconstructTimeline(
    records: seq<ExtractedRecord>, carved: seq<Carver.CarvedFrame>,
    events: seq<CorrelatedEvent>, analytics: seq<Detection>, maxExpectedGapSecs: nat)
    returns (timeline: seq<TimelineEntry>, alerts: seq<DiscontinuityAlert>)
    ensures timeline == Sort(Entries(records, carved, events, analytics), ENTRY_ORDER)
    ensures alerts == Alerts(records, maxExpectedGapSecs)
  {
    timeline := CollectEntries(records, carved, events, analytics);
    timeline := Sort(timeline, ENTRY_ORDER);
    var timed := FilterTimed(records);
    var validRecords := Sort(timed, RECORD_ORDER);
    alerts := CollectAlerts(validRecords, maxExpectedGapSecs);
  }
}
