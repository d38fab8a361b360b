/** Cross-camera correlation: the merged timeline, the transition search, and the blackout search. */
module Correlation {
  import opened Records
  import opened Sorting

  datatype RecordInput = RecordInput(
    blockIndex: nat,
    byteOffset: nat,
    channelId: nat,
    timestamp: nat,
    normalizedTimestamp: string,
    sequenceNum: nat,
    isKeyframe: bool,
    isScrambled: bool,
    descrambled: bool,
    isCorrupted: bool)

  function ToCorrelationInput(r: ExtractedRecord): RecordInput {
    RecordInput(
      r.blockIndex, r.byteOffset, r.channelId, r.timestamp, r.normalizedTimestamp, r.sequenceNum,
      r.flags & 1 != 0, r.isScrambled, r.descrambled, r.isCorrupted)
  }

  datatype TimelineEvent = TimelineEvent(
    sequenceOrder: nat,
    blockIndex: nat,
    byteOffset: nat,
    channelId: nat,
    timestamp: nat,
    normalizedTimestamp: string,
    sequenceNum: nat,
    isKeyframe: bool,
    isScrambled: bool,
    descrambled: bool,
    isCorrupted: bool)
  {
    /** The record the event was made from. */
    function Record(): RecordInput {
      RecordInput(blockIndex, byteOffset, channelId, timestamp, normalizedTimestamp, sequenceNum,
                  isKeyframe, isScrambled, descrambled, isCorrupted)
    }

    /** Only uncorrupted events of a camera channel take part in the transition search. */
    predicate Valid() {
      !isCorrupted && channelId > 0
    }
  }

  // ----- The merged timeline -----

  /** By timestamp, then channel, then sequence number, then block. */
  predicate TimelineLeq(a: RecordInput, b: RecordInput) {
    if a.timestamp != b.timestamp then a.timestamp < b.timestamp
    else if a.channelId != b.channelId then a.channelId < b.channelId
    else if a.sequenceNum != b.sequenceNum then a.sequenceNum < b.sequenceNum
    else a.blockIndex <= b.blockIndex
  }

  const TIMELINE_ORDER: (RecordInput, RecordInput) -> bool := (a, b) => TimelineLeq(a, b)

  function EventOf(order: nat, r: RecordInput): TimelineEvent {
    TimelineEvent(
      order, r.blockIndex, r.byteOffset, r.channelId, r.timestamp, r.normalizedTimestamp, r.sequenceNum,
      r.isKeyframe, r.isScrambled, r.descrambled, r.isCorrupted)
  }

  function MergeTimeline(records: seq<RecordInput>): (timeline: seq<TimelineEvent>) {
    var sorted := Sort(records, TIMELINE_ORDER);
    seq(|sorted|, i requires 0 <= i < |sorted| => EventOf(i + 1, sorted[i]))
  }

  function RecordsOf(timeline: seq<TimelineEvent>): (records: seq<RecordInput>)
    ensures |records| == |timeline|
  {
    seq(|timeline|, i requires 0 <= i < |timeline| => timeline[i].Record())
  }

  lemma TimelineOrderIsTotal()
    ensures TotalPreorder(TIMELINE_ORDER)
  {
  }

  /** The merge loses nothing, adds nothing, numbers from 1, and is chronological. */
  lemma MergeIsSortedPermutation(records: seq<RecordInput>)
    ensures var timeline := MergeTimeline(records);
            && multiset(RecordsOf(timeline)) == multiset(records)
            && Sorted(RecordsOf(timeline), TIMELINE_ORDER)
            && (forall i :: 0 <= i < |timeline| ==> timeline[i].sequenceOrder == i + 1)
            && Chronological(timeline)
  {
    var timeline := MergeTimeline(records);
    var sorted := Sort(records, TIMELINE_ORDER);
    TimelineOrderIsTotal();
    SortElements(records, TIMELINE_ORDER);
    SortSorted(records, TIMELINE_ORDER);
    assert RecordsOf(timeline) == sorted;
    forall i, j | 0 <= i < j < |timeline|
      ensures timeline[i].timestamp <= timeline[j].timestamp
    {
      assert TIMELINE_ORDER(sorted[i], sorted[j]);
    }
  }

  /** The order of the timeline: time, then channel, then sequence number, then block. */
  lemma TimelineTies(records: seq<RecordInput>, i: nat, j: nat)
    requires i < j < |MergeTimeline(records)|
    ensures var e, f := MergeTimeline(records)[i], MergeTimeline(records)[j];
            && e.timestamp <= f.timestamp
            && (e.timestamp == f.timestamp ==> e.channelId <= f.channelId)
            && (e.timestamp == f.timestamp && e.channelId == f.channelId ==> e.sequenceNum <= f.sequenceNum)
            && (e.timestamp == f.timestamp && e.channelId == f.channelId && e.sequenceNum == f.sequenceNum ==>
                  e.blockIndex <= f.blockIndex)
  {
    hide Sort;
    TimelineOrderIsTotal();
    SortSorted(records, TIMELINE_ORDER);
    var sorted := Sort(records, TIMELINE_ORDER);
    assert TIMELINE_ORDER(sorted[i], sorted[j]);
  }

  /** A stored record, as the correlation takes it: the lowest flag bit marks a keyframe. */
  lemma InputOfRecord(r: ExtractedRecord)
    ensures var x := ToCorrelationInput(r);
            && x.blockIndex == r.blockIndex && x.byteOffset == r.byteOffset && x.channelId == r.channelId
            && x.timestamp == r.timestamp && x.normalizedTimestamp == r.normalizedTimestamp
            && x.sequenceNum == r.sequenceNum
            && (x.isKeyframe <==> r.flags & 0x0001 == 0x0001)
            && (x.isScrambled <==> r.isScrambled) && (x.descrambled <==> r.descrambled)
            && (x.isCorrupted <==> r.isCorrupted)
  {
  }

  ghost predicate DistinctBlocks(records: seq<RecordInput>) {
    forall i, j :: 0 <= i < j < |records| ==> records[i].blockIndex != records[j].blockIndex
  }

  lemma SameBlockSameRecord(records: seq<RecordInput>, i: nat, j: nat)
    requires DistinctBlocks(records) && i < |records| && j < |records|
    requires records[i].blockIndex == records[j].blockIndex
    ensures i == j
  {
  }

  /** With distinct block indices the merged timeline does not depend on the order of the records. */
  lemma MergeIsCanonical(a: seq<RecordInput>, b: seq<RecordInput>)
    requires multiset(a) == multiset(b) && DistinctBlocks(a)
    ensures MergeTimeline(a) == MergeTimeline(b)
  {
    TimelineOrderIsTotal();
    forall i, j | 0 <= i < |a| && 0 <= j < |a| && Equivalent(TIMELINE_ORDER, a[i], a[j])
      ensures a[i] == a[j]
    {
      SameBlockSameRecord(a, i, j);
    }
    SortCanonical(a, b, TIMELINE_ORDER);
  }

  // ----- Transitions -----

  ghost predicate Chronological(timeline: seq<TimelineEvent>) {
    forall i, j :: 0 <= i < j < |timeline| ==> timeline[i].timestamp <= timeline[j].timestamp
  }

  const TWO_63 := 0x8000_0000_0000_0000
  const TWO_64 := 0x1_0000_0000_0000_0000

  /** `as i64` on an unsigned 64-bit difference. */
  function AsSigned(difference: nat): int {
    if difference < TWO_63 then difference else difference - TWO_64
  }

  datatype Transition = Transition(
    fromChannel: nat,
    toChannel: nat,
    fromTimestamp: nat,
    toTimestamp: nat,
    fromNormalized: string,
    toNormalized: string,
    deltaSecs: int,
    fromBlockIndex: nat,
    toBlockIndex: nat)
  {
    function Key(): (nat, nat, nat, nat) {
      (fromChannel, toChannel, fromTimestamp, toTimestamp)
    }
  }

  function TransitionOf(from: TimelineEvent, to: TimelineEvent): Transition {
    Transition(
      from.channelId, to.channelId, from.timestamp, to.timestamp,
      from.normalizedTimestamp, to.normalizedTimestamp,
      to.timestamp - from.timestamp, from.blockIndex, to.blockIndex)
  }

  /** Two events on different channels, the second later by at most the window. */
  predicate Linked(from: TimelineEvent, to: TimelineEvent, window: int) {
    && from.channelId != to.channelId
    && 0 < to.timestamp - from.timestamp <= window
  }

  function LinkOf(from: TimelineEvent, to: TimelineEvent, window: int): seq<Transition> {
    if Linked(from, to, window) then [TransitionOf(from, to)] else []
  }

  function ValidEvents(timeline: seq<TimelineEvent>): seq<TimelineEvent> {
    if timeline == [] then []
    else
      var last := timeline[|timeline| - 1];
      ValidEvents(timeline[..|timeline| - 1]) + if last.Valid() then [last] else []
  }

  /** Every later partner of event `i`, up to index `j`: no early exit. */
  function RowBelow(events: seq<TimelineEvent>, i: nat, j: nat, window: int): seq<Transition>
    requires i < j <= |events|
  {
    if j == i + 1 then [] else RowBelow(events, i, j - 1, window) + LinkOf(events[i], events[j - 1], window)
  }

  /** All pairs whose first event is below `n`. */
  function PairsBelow(events: seq<TimelineEvent>, n: nat, window: int): seq<Transition>
    requires n <= |events|
  {
    if n == 0 then []
    else PairsBelow(events, n - 1, window) + RowBelow(events, n - 1, |events|, window)
  }

  function KeysOf(transitions: seq<Transition>): set<(nat, nat, nat, nat)> {
    set t | t in transitions :: t.Key()
  }

  /** The first transition of every key, in order. */
  function Deduplicate(transitions: seq<Transition>): seq<Transition> {
    if transitions == [] then []
    else
      var k := |transitions| - 1;
      Deduplicate(transitions[..k])
      + if transitions[k].Key() in KeysOf(transitions[..k]) then [] else [transitions[k]]
  }

  /** The brute-force specification: all pairs, then the first of each key. */
  function Transitions(timeline: seq<TimelineEvent>, window: int): seq<Transition> {
    var events := ValidEvents(timeline);
    Deduplicate(PairsBelow(events, |events|, window))
  }

  lemma {:induction false} ValidMembers(timeline: seq<TimelineEvent>)
    ensures forall e :: e in ValidEvents(timeline) <==> e in timeline && e.Valid()
    ensures |ValidEvents(timeline)| <= |timeline|
  {
    if timeline != [] {
      var k := |timeline| - 1;
      ValidMembers(timeline[..k]);
      assert timeline == timeline[..k] + [timeline[k]];
    }
  }

  lemma {:induction false} ValidChronological(timeline: seq<TimelineEvent>)
    requires Chronological(timeline)
    ensures Chronological(ValidEvents(timeline))
  {
    if timeline != [] {
      var k := |timeline| - 1;
      ValidChronological(timeline[..k]);
      ValidMembers(timeline[..k]);
      var before := ValidEvents(timeline[..k]);
      forall i | 0 <= i < |before|
        ensures before[i].timestamp <= timeline[k].timestamp
      {
        assert before[i] in timeline[..k];
      }
    }
  }

  method FilterValid(timeline: seq<TimelineEvent>) returns (events: seq<TimelineEvent>)
    ensures events == ValidEvents(timeline)
  {
    events := [];
    for i := 0 to |timeline|
      invariant events == ValidEvents(timeline[..i])
    {
      assert timeline[..i + 1][..i] == timeline[..i];
      if !timeline[i].isCorrupted && timeline[i].channelId > 0 {
        events := events + [timeline[i]];
      }
    }
    assert timeline[..|timeline|] == timeline;
  }

  /** Once a partner is beyond the window, so is every later one. */
  lemma {:induction false} RestOfRow(events: seq<TimelineEvent>, i: nat, j: nat, n: nat, window: int)
    requires Chronological(events) && i < j < n <= |events|
    requires events[j].timestamp - events[i].timestamp > window
    ensures RowBelow(events, i, n, window) == RowBelow(events, i, j, window)
    decreases n
  {
    if n > j + 1 {
      RestOfRow(events, i, j, n - 1, window);
      assert events[j].timestamp <= events[n - 1].timestamp;
    } else {
      assert !Linked(events[i], events[j], window);
    }
  }

  ghost predicate Timestamps64(events: seq<TimelineEvent>) {
    forall i :: 0 <= i < |events| ==> events[i].timestamp < TWO_64
  }

  /** The inner loop: stops at the first partner whose signed difference exceeds the window. */
  method SearchRow(events: seq<TimelineEvent>, i: nat, window: int) returns (row: seq<Transition>)
    requires Chronological(events) && Timestamps64(events) && i < |events| && 0 < window < TWO_63
    ensures row == RowBelow(events, i, |events|, window)
  {
    row := [];
    var fromEvent := events[i];
    for j := i + 1 to |events|
      invariant row == RowBelow(events, i, j, window)
    {
      var toEvent := events[j];
      if toEvent.timestamp < fromEvent.timestamp {
        continue;
      }
      var delta := AsSigned(toEvent.timestamp - fromEvent.timestamp);
      if delta > window {
        RestOfRow(events, i, j, |events|, window);
        return;
      }
      if fromEvent.channelId != toEvent.channelId && delta > 0 {
        row := row + [Transition(
          fromEvent.channelId, toEvent.channelId, fromEvent.timestamp, toEvent.timestamp,
          fromEvent.normalizedTimestamp, toEvent.normalizedTimestamp, delta,
          fromEvent.blockIndex, toEvent.blockIndex)];
      }
    }
  }

  method DeduplicateTransitions(transitions: seq<Transition>) returns (deduped: seq<Transition>)
    ensures deduped == Deduplicate(transitions)
  {
    deduped := [];
    var seen: set<(nat, nat, nat, nat)> := {};
    for i := 0 to |transitions|
      invariant deduped == Deduplicate(transitions[..i])
      invariant seen == KeysOf(transitions[..i])
    {
      assert transitions[..i + 1][..i] == transitions[..i];
      var t := transitions[i];
      KeysNext(transitions, i);
      if t.Key() !in seen {
        seen := seen + {t.Key()};
        deduped := deduped + [t];
      }
    }
    assert transitions[..|transitions|] == transitions;
  }

  lemma KeysNext(transitions: seq<Transition>, i: nat)
    requires i < |transitions|
    ensures KeysOf(transitions[..i + 1]) == KeysOf(transitions[..i]) + {transitions[i].Key()}
  {
    assert transitions[..i + 1] == transitions[..i] + [transitions[i]];
    forall k
      ensures k in KeysOf(transitions[..i + 1]) <==> k in KeysOf(transitions[..i]) || k == transitions[i].Key()
    {
      if k in KeysOf(transitions[..i]) {
        var t :| t in transitions[..i] && t.Key() == k;
        assert t in transitions[..i + 1];
      }
      assert transitions[i] in transitions[..i + 1];
    }
  }

  /** The early-breaking search equals the search over all pairs, even where a difference wraps. */
  method DetectTransitions(timeline: seq<TimelineEvent>, maxWindowSecs: int) returns (r: seq<Transition>)
    requires Chronological(timeline) && Timestamps64(timeline) && maxWindowSecs < TWO_63
    ensures r == Transitions(timeline, maxWindowSecs)
  {
    if |timeline| < 2 || maxWindowSecs <= 0 {
      NoTransitions(timeline, maxWindowSecs);
      return [];
    }
    var events := FilterValid(timeline);
    ValidChronological(timeline);
    ValidMembers(timeline);
    assert Timestamps64(events) by {
      forall i | 0 <= i < |events|
        ensures events[i].timestamp < TWO_64
      {
        assert events[i] in timeline;
      }
    }
    var transitions := [];
    for i := 0 to |events|
      invariant transitions == PairsBelow(events, i, maxWindowSecs)
    {
      var row := SearchRow(events, i, maxWindowSecs);
      transitions := transitions + row;
    }
    r := DeduplicateTransitions(transitions);
  }

  lemma {:induction false} EmptyRow(events: seq<TimelineEvent>, i: nat, j: nat, window: int)
    requires i < j <= |events| && window <= 0
    ensures RowBelow(events, i, j, window) == []
    decreases j
  {
    if j > i + 1 {
      hide TransitionOf;
      EmptyRow(events, i, j - 1, window);
      assert !Linked(events[i], events[j - 1], window);
    }
  }

  lemma {:induction false} EmptyPairs(events: seq<TimelineEvent>, n: nat, window: int)
    requires n <= |events| && (window <= 0 || |events| < 2)
    ensures PairsBelow(events, n, window) == []
  {
    if n > 0 {
      EmptyPairs(events, n - 1, window);
      if window <= 0 {
        EmptyRow(events, n - 1, |events|, window);
      }
    }
  }

  lemma NoTransitions(timeline: seq<TimelineEvent>, window: int)
    requires |timeline| < 2 || window <= 0
    ensures Transitions(timeline, window) == []
  {
    ValidMembers(timeline);
    var events := ValidEvents(timeline);
    EmptyPairs(events, |events|, window);
  }
}
