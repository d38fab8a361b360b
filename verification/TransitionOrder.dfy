/** Which pair of events each reported transition is made of, and in which order they are reported. */
module TransitionOrder {
  import opened Correlation

  /** Two positions of the merged timeline. */
  datatype Pair = Pair(first: nat, second: nat)

  predicate Before(p: Pair, q: Pair) {
    p.first < q.first || (p.first == q.first && p.second < q.second)
  }

  ghost predicate InOrder(ps: seq<Pair>) {
    forall m, n :: 0 <= m < n < |ps| ==> Before(ps[m], ps[n])
  }

  // ----- The pairs behind the search -----

  /** The pairs behind `RowBelow`. */
  ghost function RowPairs(events: seq<TimelineEvent>, i: nat, j: nat, window: int): seq<Pair>
    requires i < j <= |events|
  {
    if j == i + 1 then []
    else RowPairs(events, i, j - 1, window) + if Linked(events[i], events[j - 1], window) then [Pair(i, j - 1)] else []
  }

  /** The pairs behind `PairsBelow`. */
  ghost function PairList(events: seq<TimelineEvent>, n: nat, window: int): seq<Pair>
    requires n <= |events|
  {
    if n == 0 then [] else PairList(events, n - 1, window) + RowPairs(events, n - 1, |events|, window)
  }

  /** Each pair is linked and gives the transition at its place. */
  ghost predicate GiveTransitions(events: seq<TimelineEvent>, ps: seq<Pair>, ts: seq<Transition>, window: int) {
    |ps| == |ts|
    && forall m :: 0 <= m < |ps| ==>
                     && ps[m].first < ps[m].second < |events|
                     && Linked(events[ps[m].first], events[ps[m].second], window)
                     && ts[m] == TransitionOf(events[ps[m].first], events[ps[m].second])
  }

  lemma AppendPair(events: seq<TimelineEvent>, ps: seq<Pair>, ts: seq<Transition>, p: Pair, window: int)
    requires GiveTransitions(events, ps, ts, window) && InOrder(ps)
    requires p.first < p.second < |events| && Linked(events[p.first], events[p.second], window)
    requires forall m :: 0 <= m < |ps| ==> Before(ps[m], p)
    ensures GiveTransitions(events, ps + [p], ts + [TransitionOf(events[p.first], events[p.second])], window)
    ensures InOrder(ps + [p])
  {
    hide Linked, TransitionOf, Before;
  }

  /** The pairs of one row: exactly the linked ones of event `i`. */
  ghost predicate IsRow(events: seq<TimelineEvent>, ps: seq<Pair>, i: nat, j: nat, window: int)
    requires i < j <= |events|
  {
    forall p :: p in ps <==> p.first == i && i < p.second < j && Linked(events[i], events[p.second], window)
  }

  lemma RowNext(events: seq<TimelineEvent>, ps: seq<Pair>, i: nat, j: nat, window: int)
    requires i < j < |events| && IsRow(events, ps, i, j, window)
    ensures IsRow(events, ps + if Linked(events[i], events[j], window) then [Pair(i, j)] else [], i, j + 1, window)
    ensures forall m :: 0 <= m < |ps| ==> Before(ps[m], Pair(i, j))
  {
    hide Linked;
    forall m | 0 <= m < |ps|
      ensures Before(ps[m], Pair(i, j))
    {
      assert ps[m] in ps;
    }
  }

  lemma {:induction false} RowPairsMatch(events: seq<TimelineEvent>, i: nat, j: nat, window: int)
    requires i < j <= |events|
    ensures GiveTransitions(events, RowPairs(events, i, j, window), RowBelow(events, i, j, window), window)
    ensures InOrder(RowPairs(events, i, j, window))
    ensures IsRow(events, RowPairs(events, i, j, window), i, j, window)
    decreases j
  {
    hide Linked, TransitionOf, IsRow, Before;
    if j == i + 1 {
      EmptyRowOf(events, i, window);
    } else {
      var before := RowPairs(events, i, j - 1, window);
      hide GiveTransitions, InOrder;
      RowPairsMatch(events, i, j - 1, window);
      RowNext(events, before, i, j - 1, window);
      if Linked(events[i], events[j - 1], window) {
        AppendPair(events, before, RowBelow(events, i, j - 1, window), Pair(i, j - 1), window);
      }
    }
  }

  lemma EmptyRowOf(events: seq<TimelineEvent>, i: nat, window: int)
    requires i < |events|
    ensures IsRow(events, [], i, i + 1, window)
  {
  }

  lemma {:induction false} PairListMatch(events: seq<TimelineEvent>, n: nat, window: int)
    requires n <= |events|
    ensures GiveTransitions(events, PairList(events, n, window), PairsBelow(events, n, window), window)
    ensures InOrder(PairList(events, n, window))
    ensures forall p :: p in PairList(events, n, window) <==>
                        && p.first < n && p.first < p.second < |events|
                        && Linked(events[p.first], events[p.second], window)
  {
    hide Linked, TransitionOf, RowBelow, RowPairs;
    if n > 0 {
      PairListMatch(events, n - 1, window);
      RowPairsMatch(events, n - 1, |events|, window);
      var before, row := PairList(events, n - 1, window), RowPairs(events, n - 1, |events|, window);
      forall m | 0 <= m < |before|
        ensures before[m].first < n - 1
      {
        assert before[m] in before;
      }
      forall m | 0 <= m < |row|
        ensures row[m].first == n - 1
      {
        assert row[m] in row;
      }
    }
  }

  // ----- The first pair of every key -----

  /** Where the kept transitions stood. */
  ghost function KeptAt(ts: seq<Transition>): seq<nat> {
    if ts == [] then []
    else
      var k := |ts| - 1;
      KeptAt(ts[..k]) + if ts[k].Key() in KeysOf(ts[..k]) then [] else [k]
  }

  lemma {:induction false} KeptAreFirst(ts: seq<Transition>)
    ensures |KeptAt(ts)| == |Deduplicate(ts)|
    ensures forall m :: 0 <= m < |KeptAt(ts)| ==>
                          KeptAt(ts)[m] < |ts| && Deduplicate(ts)[m] == ts[KeptAt(ts)[m]]
    ensures forall m, n :: 0 <= m < n < |KeptAt(ts)| ==> KeptAt(ts)[m] < KeptAt(ts)[n]
    ensures forall m, l :: 0 <= m < |KeptAt(ts)| && 0 <= l < KeptAt(ts)[m] ==> ts[l].Key() != ts[KeptAt(ts)[m]].Key()
  {
    if ts != [] {
      var k := |ts| - 1;
      KeptAreFirst(ts[..k]);
      var kept := KeptAt(ts);
      forall m, l | 0 <= m < |kept| && 0 <= l < kept[m]
        ensures ts[l].Key() != ts[kept[m]].Key()
      {
        assert ts[l] == ts[..k][l];
        if m < |KeptAt(ts[..k])| {
          assert ts[kept[m]] == ts[..k][kept[m]];
        } else {
          assert ts[..k][l] in ts[..k];
        }
      }
    }
  }

  // ----- Positions in the timeline -----

  /** Where the valid events stand in the timeline. */
  ghost function ValidAt(timeline: seq<TimelineEvent>): seq<nat> {
    if timeline == [] then []
    else
      var k := |timeline| - 1;
      ValidAt(timeline[..k]) + if timeline[k].Valid() then [k] else []
  }

  lemma {:induction false} ValidPlaces(timeline: seq<TimelineEvent>)
    ensures |ValidAt(timeline)| == |ValidEvents(timeline)|
    ensures forall m :: 0 <= m < |ValidAt(timeline)| ==>
                          && ValidAt(timeline)[m] < |timeline|
                          && timeline[ValidAt(timeline)[m]] == ValidEvents(timeline)[m]
    ensures forall m, n :: 0 <= m < n < |ValidAt(timeline)| ==> ValidAt(timeline)[m] < ValidAt(timeline)[n]
    ensures forall i: nat :: i in ValidAt(timeline) <==> i < |timeline| && timeline[i].Valid()
  {
    if timeline != [] {
      ValidPlaces(timeline[..|timeline| - 1]);
    }
  }

  /** The events `i` and `j` are of two cameras, uncorrupted, the second later by at most the window. */
  ghost predicate Eligible(timeline: seq<TimelineEvent>, i: nat, j: nat, window: int) {
    && i < j < |timeline|
    && !timeline[i].isCorrupted && !timeline[j].isCorrupted
    && timeline[i].channelId > 0 && timeline[j].channelId > 0
    && timeline[i].channelId != timeline[j].channelId
    && timeline[i].timestamp < timeline[j].timestamp <= timeline[i].timestamp + window
  }

  /** The transition says of its two events what they are, field by field. */
  predicate Describes(t: Transition, from: TimelineEvent, to: TimelineEvent) {
    && t.fromChannel == from.channelId && t.toChannel == to.channelId
    && t.fromTimestamp == from.timestamp && t.toTimestamp == to.timestamp
    && t.fromNormalized == from.normalizedTimestamp && t.toNormalized == to.normalizedTimestamp
    && t.fromBlockIndex == from.blockIndex && t.toBlockIndex == to.blockIndex
    && t.deltaSecs == t.toTimestamp - t.fromTimestamp
  }

  /** Pairs of the same two channels at the same two times. */
  predicate SameKey(f: TimelineEvent, t: TimelineEvent, f': TimelineEvent, t': TimelineEvent) {
    && f.channelId == f'.channelId && t.channelId == t'.channelId
    && f.timestamp == f'.timestamp && t.timestamp == t'.timestamp
  }

  lemma EligibleIsLinked(timeline: seq<TimelineEvent>, i: nat, j: nat, window: int)
    requires i < j < |timeline|
    ensures Eligible(timeline, i, j, window) <==>
            timeline[i].Valid() && timeline[j].Valid() && Linked(timeline[i], timeline[j], window)
  {
  }

  lemma SameKeys(f: TimelineEvent, t: TimelineEvent, f': TimelineEvent, t': TimelineEvent)
    ensures Describes(TransitionOf(f, t), f, t)
    ensures SameKey(f, t, f', t') <==> TransitionOf(f, t).Key() == TransitionOf(f', t').Key()
  {
  }

  /** The events of the two pairs are of the same channels at the same times. */
  ghost predicate SameKeyAt(timeline: seq<TimelineEvent>, p: Pair, q: Pair) {
    && p.first < |timeline| && p.second < |timeline| && q.first < |timeline| && q.second < |timeline|
    && SameKey(timeline[p.first], timeline[p.second], timeline[q.first], timeline[q.second])
  }

  /** The transition is that of one eligible pair, field by field. */
  ghost predicate MadeFrom(timeline: seq<TimelineEvent>, t: Transition, q: Pair, window: int) {
    && Eligible(timeline, q.first, q.second, window)
    && q.first < |timeline| && q.second < |timeline|
    && Describes(t, timeline[q.first], timeline[q.second])
  }

  lemma PlacesKeepOrder(places: seq<nat>, p: Pair, q: Pair)
    requires forall m, n :: 0 <= m < n < |places| ==> places[m] < places[n]
    requires p.first < |places| && p.second < |places| && q.first < |places| && q.second < |places|
    ensures Before(p, q) <==> Before(Pair(places[p.first], places[p.second]), Pair(places[q.first], places[q.second]))
  {
    assert p.first < q.first ==> places[p.first] < places[q.first];
    assert q.first < p.first ==> places[q.first] < places[p.first];
    assert p.second < q.second ==> places[p.second] < places[q.second];
    assert q.second < p.second ==> places[q.second] < places[p.second];
  }

  lemma PlaceIsPair(timeline: seq<TimelineEvent>, p: Pair, window: int)
    requires p.first < p.second < |ValidEvents(timeline)|
    requires Linked(ValidEvents(timeline)[p.first], ValidEvents(timeline)[p.second], window)
    ensures p.second < |ValidAt(timeline)|
    ensures Eligible(timeline, ValidAt(timeline)[p.first], ValidAt(timeline)[p.second], window)
    ensures Describes(TransitionOf(ValidEvents(timeline)[p.first], ValidEvents(timeline)[p.second]),
                      timeline[ValidAt(timeline)[p.first]], timeline[ValidAt(timeline)[p.second]])
  {
    hide Linked, TransitionOf, ValidEvents, ValidAt, Eligible, Describes;
    ValidPlaces(timeline);
    var i, j := ValidAt(timeline)[p.first], ValidAt(timeline)[p.second];
    assert i in ValidAt(timeline) && j in ValidAt(timeline);
    EligibleIsLinked(timeline, i, j, window);
    SameKeys(timeline[i], timeline[j], timeline[i], timeline[j]);
  }

  lemma OrderIsStrict(p: Pair, q: Pair)
    ensures Before(p, q) ==> !Before(q, p)
    ensures !Before(p, p)
  {
  }

  lemma EligiblePlace(timeline: seq<TimelineEvent>, i: nat, j: nat, window: int) returns (q: Pair)
    requires Eligible(timeline, i, j, window)
    ensures |ValidAt(timeline)| == |ValidEvents(timeline)|
    ensures q.first < q.second < |ValidAt(timeline)|
    ensures ValidAt(timeline)[q.first] == i && ValidAt(timeline)[q.second] == j
    ensures Linked(ValidEvents(timeline)[q.first], ValidEvents(timeline)[q.second], window)
  {
    hide Linked, ValidEvents, ValidAt;
    ValidPlaces(timeline);
    EligibleIsLinked(timeline, i, j, window);
    var places := ValidAt(timeline);
    assert i in places && j in places;
    var a, b :| 0 <= a < |places| && places[a] == i && 0 <= b < |places| && places[b] == j;
    q := Pair(a, b);
  }

  /** The position, among all linked pairs, of the `m`-th reported one. */
  ghost function KeptPair(timeline: seq<TimelineEvent>, window: int, m: nat): (p: Pair)
    requires m < |Transitions(timeline, window)|
    ensures p.first < p.second < |ValidEvents(timeline)| == |ValidAt(timeline)|
    ensures Linked(ValidEvents(timeline)[p.first], ValidEvents(timeline)[p.second], window)
    ensures Transitions(timeline, window)[m] ==
            TransitionOf(ValidEvents(timeline)[p.first], ValidEvents(timeline)[p.second])
  {
    hide Linked, TransitionOf, PairList, PairsBelow, ValidEvents, ValidAt, KeptAt, Deduplicate;
    var events := ValidEvents(timeline);
    ValidPlaces(timeline);
    PairListMatch(events, |events|, window);
    KeptAreFirst(PairsBelow(events, |events|, window));
    PairList(events, |events|, window)[KeptAt(PairsBelow(events, |events|, window))[m]]
  }

  /** The timeline positions of the pair behind the `m`-th reported transition. */
  ghost function ReportedPair(timeline: seq<TimelineEvent>, window: int, m: nat): Pair
    requires m < |Transitions(timeline, window)|
  {
    var p := KeptPair(timeline, window, m);
    Pair(ValidAt(timeline)[p.first], ValidAt(timeline)[p.second])
  }

  lemma KeptPairsInOrder(timeline: seq<TimelineEvent>, window: int, m: nat, n: nat)
    requires m < n < |Transitions(timeline, window)|
    ensures Before(KeptPair(timeline, window, m), KeptPair(timeline, window, n))
  {
    hide Linked, TransitionOf, PairList, PairsBelow, ValidEvents, ValidAt, KeptAt, Deduplicate, Before;
    var events := ValidEvents(timeline);
    PairListMatch(events, |events|, window);
    KeptAreFirst(PairsBelow(events, |events|, window));
  }

  /** Every reported transition is that of one eligible pair of timeline events, field by field. */
  lemma TransitionMadeFrom(timeline: seq<TimelineEvent>, window: int, m: nat)
    requires m < |Transitions(timeline, window)|
    ensures MadeFrom(timeline, Transitions(timeline, window)[m], ReportedPair(timeline, window, m), window)
  {
    hide Linked, TransitionOf, ValidEvents, ValidAt, Describes, Transitions, KeptPair;
    PlaceIsPair(timeline, KeptPair(timeline, window, m), window);
  }

  /** The transitions are in timeline order: by their first event, then by their second. */
  lemma TransitionsInOrder(timeline: seq<TimelineEvent>, window: int, m: nat, n: nat)
    requires m < n < |Transitions(timeline, window)|
    ensures Before(ReportedPair(timeline, window, m), ReportedPair(timeline, window, n))
  {
    hide ValidEvents, ValidAt, Transitions, KeptPair, Before;
    ValidPlaces(timeline);
    KeptPairsInOrder(timeline, window, m, n);
    PlacesKeepOrder(ValidAt(timeline), KeptPair(timeline, window, m), KeptPair(timeline, window, n));
  }

  lemma KeptPairIsFirst(timeline: seq<TimelineEvent>, window: int, m: nat, q: Pair)
    requires m < |Transitions(timeline, window)|
    requires q.first < q.second < |ValidEvents(timeline)|
    requires Linked(ValidEvents(timeline)[q.first], ValidEvents(timeline)[q.second], window)
    requires TransitionOf(ValidEvents(timeline)[q.first], ValidEvents(timeline)[q.second]).Key() ==
             Transitions(timeline, window)[m].Key()
    ensures !Before(q, KeptPair(timeline, window, m))
  {
    hide Linked, TransitionOf, PairList, PairsBelow, ValidEvents, KeptAt, Deduplicate, Before;
    var events := ValidEvents(timeline);
    var ps, ts := PairList(events, |events|, window), PairsBelow(events, |events|, window);
    PairListMatch(events, |events|, window);
    KeptAreFirst(ts);
    assert q in ps;
    var l :| 0 <= l < |ps| && ps[l] == q;
    assert ts[l].Key() == ts[KeptAt(ts)[m]].Key();
    OrderIsStrict(KeptPair(timeline, window, m), q);
  }

  /** Of the eligible pairs with the same channels and times the reported one comes first. */
  lemma FirstPairReported(timeline: seq<TimelineEvent>, window: int, m: nat, q: Pair)
    requires m < |Transitions(timeline, window)| && Eligible(timeline, q.first, q.second, window)
    requires SameKeyAt(timeline, q, ReportedPair(timeline, window, m))
    ensures !Before(q, ReportedPair(timeline, window, m))
  {
    hide Linked, TransitionOf, ValidEvents, ValidAt, Eligible, SameKey, Transitions, KeptPair, Before;
    var places, p := ValidAt(timeline), KeptPair(timeline, window, m);
    ValidPlaces(timeline);
    var r := EligiblePlace(timeline, q.first, q.second, window);
    SameKeys(timeline[q.first], timeline[q.second], timeline[places[p.first]], timeline[places[p.second]]);
    KeptPairIsFirst(timeline, window, m, r);
    PlacesKeepOrder(places, r, p);
  }
}
