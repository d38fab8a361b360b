/** The blackout search and the interruption alerts, two gap detectors written separately, agree. */
module GapAgreement {
  import opened Records
  import opened Sorting
  import opened Correlation
  import opened Blackouts
  import opened BlackoutSoundness
  import opened Timeline

  /**
   * The records with a time are exactly the usable records of a camera, so that both detectors look
   * at the same ones; the others, like those of the front blocks, have the timestamp 0.
   */
  ghost predicate TimedAreUsable(records: seq<ExtractedRecord>) {
    forall i :: 0 <= i < |records| ==>
                  && records[i].timestamp < TWO_63
                  && (records[i].timestamp > 0 <==> !records[i].isCorrupted && records[i].channelId > 0)
  }

  function CorrelationInputs(records: seq<ExtractedRecord>): (inputs: seq<RecordInput>)
    ensures |inputs| == |records|
    ensures forall i :: 0 <= i < |records| ==> inputs[i] == ToCorrelationInput(records[i])
  {
    seq(|records|, i requires 0 <= i < |records| => ToCorrelationInput(records[i]))
  }

  // ----- The alert list as a list of neighbours -----

  ghost predicate AscendingRecords(sorted: seq<ExtractedRecord>) {
    forall i, j :: 0 <= i < j < |sorted| ==> sorted[i].timestamp <= sorted[j].timestamp
  }

  lemma {:induction false} AlertsExact(sorted: seq<ExtractedRecord>, n: nat, maxGap: nat, a: DiscontinuityAlert)
    requires AscendingRecords(sorted) && (n == 0 || n < |sorted|)
    ensures a in AlertsBelow(sorted, n, maxGap) <==>
            exists i: nat :: i < n && Interrupted(sorted, i, maxGap) && a == AlertAt(sorted, i)
  {
    hide AlertAt;
    if n > 0 {
      AlertsExact(sorted, n - 1, maxGap, a);
    }
  }

  lemma {:induction false} TimedMembers(records: seq<ExtractedRecord>, r: ExtractedRecord)
    ensures r in TimedRecords(records) <==> r in records && r.timestamp > 0
  {
    if records != [] {
      var k := |records| - 1;
      TimedMembers(records[..k], r);
      assert records == records[..k] + [records[k]];
    }
  }

  lemma ByTimeAscends(records: seq<ExtractedRecord>)
    ensures AscendingRecords(ByTime(records))
  {
    assert TotalPreorder(RECORD_ORDER);
    var sorted := ByTime(records);
    SortSorted(TimedRecords(records), RECORD_ORDER);
    forall i, j | 0 <= i < j < |sorted|
      ensures sorted[i].timestamp <= sorted[j].timestamp
    {
      assert RECORD_ORDER(sorted[i], sorted[j]);
    }
  }

  ghost predicate TimeOccurs(sorted: seq<ExtractedRecord>, t: nat) {
    exists i :: 0 <= i < |sorted| && sorted[i].timestamp == t
  }

  /** The sorted list holds exactly the times of the usable records. */
  lemma TimesOfUsable(records: seq<ExtractedRecord>, t: nat)
    requires TimedAreUsable(records)
    ensures var inputs := CorrelationInputs(records);
            TimeOccurs(ByTime(records), t) <==>
            exists i :: 0 <= i < |inputs| && Counts(inputs[i]) && inputs[i].timestamp == t
  {
    hide Sort, TimedRecords;
    var timed, sorted, inputs := TimedRecords(records), ByTime(records), CorrelationInputs(records);
    if TimeOccurs(sorted, t) {
      var i :| 0 <= i < |sorted| && sorted[i].timestamp == t;
      SortMembers(timed, RECORD_ORDER, sorted[i]);
      TimedMembers(records, sorted[i]);
      var j :| 0 <= j < |records| && records[j] == sorted[i];
      assert Counts(inputs[j]) && inputs[j].timestamp == t;
    }
    if i :| 0 <= i < |inputs| && Counts(inputs[i]) && inputs[i].timestamp == t {
      TimedMembers(records, records[i]);
      SortMembers(timed, RECORD_ORDER, records[i]);
      var j :| 0 <= j < |sorted| && sorted[j] == records[i];
      assert sorted[j].timestamp == t;
    }
  }

  // ----- Finding the pair of neighbours around a silence -----

  /** The last index whose time is at most `t`. */
  lemma LastAtMost(sorted: seq<ExtractedRecord>, t: nat, from: nat) returns (k: nat)
    requires AscendingRecords(sorted) && from < |sorted| && sorted[from].timestamp <= t
    ensures from <= k < |sorted| && sorted[k].timestamp <= t
    ensures k + 1 < |sorted| ==> sorted[k + 1].timestamp > t
    decreases |sorted| - from
  {
    if from + 1 < |sorted| && sorted[from + 1].timestamp <= t {
      k := LastAtMost(sorted, t, from + 1);
    } else {
      k := from;
    }
  }

  /** The neighbours `i` and `i + 1` reach into the silent core of the interval `[start, end]`. */
  ghost predicate Spans(sorted: seq<ExtractedRecord>, i: nat, start: nat, end: nat) {
    i + 1 < |sorted| && sorted[i].timestamp + 1 < end && start + 1 < sorted[i + 1].timestamp
  }

  ghost predicate SilentSorted(sorted: seq<ExtractedRecord>, start: nat, end: nat) {
    forall i :: 0 <= i < |sorted| ==> !StrictlyInside(sorted[i].timestamp, start, end)
  }

  /** Around a silence with records at both ends there is one pair of neighbours, nearly as far apart. */
  lemma SpanningPair(sorted: seq<ExtractedRecord>, start: nat, end: nat) returns (k: nat)
    requires AscendingRecords(sorted) && SilentSorted(sorted, start, end)
    requires TimeOccurs(sorted, start) && TimeOccurs(sorted, end) && start + 2 < end
    ensures Spans(sorted, k, start, end)
    ensures end - start - 2 <= sorted[k + 1].timestamp - sorted[k].timestamp <= end - start
    ensures forall i: nat :: Spans(sorted, i, start, end) ==> i == k
  {
    var a :| 0 <= a < |sorted| && sorted[a].timestamp == start;
    var b :| 0 <= b < |sorted| && sorted[b].timestamp == end;
    k := LastAtMost(sorted, start + 1, a);
    IndexOrder(sorted, k, b);
    assert sorted[k + 1].timestamp <= end;
    assert !StrictlyInside(sorted[k + 1].timestamp, start, end);
    assert start <= sorted[k].timestamp;
    forall i: nat | Spans(sorted, i, start, end)
      ensures i == k
    {
      assert !StrictlyInside(sorted[i].timestamp, start, end);
      IndexOrder(sorted, i, k + 1);
      IndexOrder(sorted, k, i + 1);
    }
  }

  lemma IndexOrder(sorted: seq<ExtractedRecord>, i: nat, j: nat)
    requires AscendingRecords(sorted) && i < |sorted| && j < |sorted|
    requires sorted[i].timestamp < sorted[j].timestamp
    ensures i < j
  {
  }

  // ----- Agreement -----

  lemma BlackoutEnds(records: seq<ExtractedRecord>, minGap: int, b: Blackout)
    requires TimedAreUsable(records) && minGap > 0
    requires b in DetectedBlackouts(CorrelationInputs(records), minGap)
    ensures var sorted := ByTime(records);
            && TimeOccurs(sorted, b.startTimestamp) && TimeOccurs(sorted, b.endTimestamp)
            && SilentSorted(sorted, b.startTimestamp, b.endTimestamp)
            && b.startTimestamp < b.endTimestamp && b.durationSecs == b.endTimestamp - b.startTimestamp
  {
    hide DetectedBlackouts, ActiveChannels, PrimaryTimes, ByTime;
    var inputs := CorrelationInputs(records);
    assert Timestamps64Of(inputs);
    BlackoutsExact(inputs, minGap, b);
    var i: nat :| BlackoutGap(inputs, i, minGap) && b == BlackoutAt(ActiveChannels(inputs), PrimaryTimes(inputs), i);
    GapIsProper(inputs, i, minGap);
    PrimaryBelow(inputs, i);
    PrimaryBelow(inputs, i + 1);
    TimesOfUsable(records, b.startTimestamp);
    TimesOfUsable(records, b.endTimestamp);
    var sorted := ByTime(records);
    forall k | 0 <= k < |sorted|
      ensures !StrictlyInside(sorted[k].timestamp, b.startTimestamp, b.endTimestamp)
    {
      assert TimeOccurs(sorted, sorted[k].timestamp);
      TimesOfUsable(records, sorted[k].timestamp);
      var j :| 0 <= j < |inputs| && Counts(inputs[j]) && inputs[j].timestamp == sorted[k].timestamp;
    }
  }

  /** Pair `i` raised an alert and reaches into the blackout's silent core. */
  ghost predicate AlertSpans(records: seq<ExtractedRecord>, i: nat, maxGap: nat, b: Blackout) {
    var sorted := ByTime(records);
    Spans(sorted, i, b.startTimestamp, b.endTimestamp) && Interrupted(sorted, i, maxGap)
  }

  /**
   * When the records with a time are exactly the usable ones, each reported blackout that lasts more than
   * two seconds beyond the expected gap overlaps exactly one alert, at most two seconds shorter.
   */
  lemma DetectorsAgree(records: seq<ExtractedRecord>, minGap: int, maxGap: nat, b: Blackout) returns (k: nat)
    requires TimedAreUsable(records) && minGap > 0
    requires b in DetectedBlackouts(CorrelationInputs(records), minGap) && b.durationSecs - 2 > maxGap
    ensures AlertSpans(records, k, maxGap, b)
    ensures forall i: nat :: AlertSpans(records, i, maxGap, b) ==> i == k
    ensures AscendingRecords(ByTime(records))
    ensures AlertAt(ByTime(records), k) in Alerts(records, maxGap)
    ensures b.durationSecs - 2 <= AlertAt(ByTime(records), k).durationSecs <= b.durationSecs
  {
    hide DetectedBlackouts, ByTime, AlertsBelow;
    var sorted := ByTime(records);
    ByTimeAscends(records);
    BlackoutEnds(records, minGap, b);
    k := SpanningPair(sorted, b.startTimestamp, b.endTimestamp);
    AlertsExact(sorted, |sorted| - 1, maxGap, AlertAt(sorted, k));
    EndBelow(records, b);
  }

  lemma EndBelow(records: seq<ExtractedRecord>, b: Blackout)
    requires TimedAreUsable(records) && TimeOccurs(ByTime(records), b.endTimestamp)
    ensures b.endTimestamp < TWO_63
  {
    TimesOfUsable(records, b.endTimestamp);
  }
}
