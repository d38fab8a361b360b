/** What the transition search finds: every key of a linked pair, exactly once. */
module TransitionSearch {
  import opened Correlation

  type Key = (nat, nat, nat, nat)

  /** The transition was made from a linked pair of the events. */
  ghost predicate FromPair(events: seq<TimelineEvent>, t: Transition, window: int) {
    exists from, to :: from in events && to in events && Linked(from, to, window) && t == TransitionOf(from, to)
  }

  lemma {:induction false} RowExact(events: seq<TimelineEvent>, i: nat, n: nat, window: int, t: Transition)
    requires i < n <= |events|
    ensures t in RowBelow(events, i, n, window) <==>
            exists j :: i < j < n && Linked(events[i], events[j], window) && t == TransitionOf(events[i], events[j])
    decreases n
  {
    if n > i + 1 {
      RowExact(events, i, n - 1, window, t);
      var last := LinkOf(events[i], events[n - 1], window);
      assert t in RowBelow(events, i, n, window) <==> t in RowBelow(events, i, n - 1, window) || t in last;
      assert t in last <==> Linked(events[i], events[n - 1], window) && t == TransitionOf(events[i], events[n - 1]);
    }
  }

  ghost predicate PairAt(events: seq<TimelineEvent>, i: nat, t: Transition, window: int)
    requires i < |events|
  {
    exists j :: i < j < |events| && Linked(events[i], events[j], window) && t == TransitionOf(events[i], events[j])
  }

  lemma {:induction false} PairsExact(events: seq<TimelineEvent>, n: nat, window: int, t: Transition)
    requires n <= |events|
    ensures t in PairsBelow(events, n, window) <==> exists i :: 0 <= i < n && PairAt(events, i, t, window)
  {
    if n > 0 {
      PairsExact(events, n - 1, window, t);
      RowExact(events, n - 1, |events|, window, t);
      if t in RowBelow(events, n - 1, |events|, window) {
        assert PairAt(events, n - 1, t, window);
      }
    }
  }

  /** In a chronological list a linked pair is found from its earlier event, whatever the positions. */
  lemma AllLinkedPairsFound(events: seq<TimelineEvent>, window: int, t: Transition)
    requires Chronological(events)
    ensures t in PairsBelow(events, |events|, window) <==> FromPair(events, t, window)
  {
    PairsExact(events, |events|, window, t);
    if FromPair(events, t, window) {
      var from, to :| from in events && to in events && Linked(from, to, window) && t == TransitionOf(from, to);
      var i :| 0 <= i < |events| && events[i] == from;
      var j :| 0 <= j < |events| && events[j] == to;
      EarlierFirst(events, i, j);
      assert PairAt(events, i, t, window);
    }
    if t in PairsBelow(events, |events|, window) {
      var i :| 0 <= i < |events| && PairAt(events, i, t, window);
      var j :| i < j < |events| && Linked(events[i], events[j], window) && t == TransitionOf(events[i], events[j]);
      assert events[i] in events && events[j] in events;
    }
  }

  lemma EarlierFirst(events: seq<TimelineEvent>, i: nat, j: nat)
    requires Chronological(events) && i < |events| && j < |events|
    requires events[i].timestamp < events[j].timestamp
    ensures i < j
  {
  }

  // ----- Deduplication -----

  ghost predicate DistinctKeys(transitions: seq<Transition>) {
    forall i, j :: 0 <= i < j < |transitions| ==> transitions[i].Key() != transitions[j].Key()
  }

  lemma {:induction false} DeduplicateExact(transitions: seq<Transition>)
    ensures DistinctKeys(Deduplicate(transitions))
    ensures KeysOf(Deduplicate(transitions)) == KeysOf(transitions)
    ensures forall t :: t in Deduplicate(transitions) ==> t in transitions
  {
    if transitions != [] {
      var k := |transitions| - 1;
      var before, last := Deduplicate(transitions[..k]), transitions[k];
      DeduplicateExact(transitions[..k]);
      KeysNext(transitions, k);
      assert transitions[..k + 1] == transitions;
      if last.Key() !in KeysOf(transitions[..k]) {
        AppendKey(before, last);
      }
    }
  }

  lemma AppendKey(before: seq<Transition>, last: Transition)
    requires DistinctKeys(before) && last.Key() !in KeysOf(before)
    ensures DistinctKeys(before + [last])
    ensures KeysOf(before + [last]) == KeysOf(before) + {last.Key()}
  {
    var all := before + [last];
    forall i, j | 0 <= i < j < |all|
      ensures all[i].Key() != all[j].Key()
    {
      if j == |before| {
        assert before[i] in before;
      }
    }
    assert all[..|before|] == before && all[..|before| + 1] == all;
    KeysNext(all, |before|);
  }

  /** Two uncorrupted events of different cameras, the second later by at most the window. */
  predicate Expected(from: TimelineEvent, to: TimelineEvent, window: int) {
    && !from.isCorrupted && !to.isCorrupted && from.channelId > 0 && to.channelId > 0
    && from.channelId != to.channelId
    && from.timestamp < to.timestamp <= from.timestamp + window
  }

  /** A key that some pair of valid events, on different channels and within the window, has. */
  ghost predicate ExpectedKey(timeline: seq<TimelineEvent>, window: int, key: Key) {
    exists from, to :: from in timeline && to in timeline && Expected(from, to, window)
                       && key == (from.channelId, to.channelId, from.timestamp, to.timestamp)
  }

  lemma ExpectedIsLinked(from: TimelineEvent, to: TimelineEvent, window: int)
    ensures Expected(from, to, window) <==> from.Valid() && to.Valid() && Linked(from, to, window)
    ensures TransitionOf(from, to).Key() == (from.channelId, to.channelId, from.timestamp, to.timestamp)
  {
  }

  lemma KeysExact(timeline: seq<TimelineEvent>, pairs: seq<Transition>, window: int, key: Key)
    requires var events := ValidEvents(timeline);
             forall t :: t in pairs <==> FromPair(events, t, window)
    ensures key in KeysOf(pairs) <==> ExpectedKey(timeline, window, key)
  {
    hide Linked, TransitionOf, Expected, ValidEvents;
    var events := ValidEvents(timeline);
    ValidMembers(timeline);
    if key in KeysOf(pairs) {
      var t :| t in pairs && t.Key() == key;
      var from, to :| from in events && to in events && Linked(from, to, window) && t == TransitionOf(from, to);
      ExpectedIsLinked(from, to, window);
    }
    if ExpectedKey(timeline, window, key) {
      var from, to :| from in timeline && to in timeline && Expected(from, to, window)
                      && key == (from.channelId, to.channelId, from.timestamp, to.timestamp);
      ExpectedIsLinked(from, to, window);
      assert FromPair(events, TransitionOf(from, to), window);
    }
  }

  /**
   * The search refines all pairs: its keys are exactly those of the valid pairs within the window,
   * each occurs once, and every transition reported was made from such a pair.
   */
  lemma TransitionsExact(timeline: seq<TimelineEvent>, window: int, key: Key)
    requires Chronological(timeline)
    ensures var found := Transitions(timeline, window);
            && DistinctKeys(found)
            && (key in KeysOf(found) <==> ExpectedKey(timeline, window, key))
            && (forall t :: t in found ==> FromPair(ValidEvents(timeline), t, window))
  {
    hide ExpectedKey, FromPair, ValidEvents, KeysOf;
    var events := ValidEvents(timeline);
    var pairs := PairsBelow(events, |events|, window);
    ValidChronological(timeline);
    DeduplicateExact(pairs);
    forall t
      ensures t in pairs <==> FromPair(events, t, window)
    {
      AllLinkedPairsFound(events, window, t);
    }
    KeysExact(timeline, pairs, window, key);
  }

  /** The transition list of a case does not depend on the order of its records. */
  lemma TransitionsCanonical(a: seq<RecordInput>, b: seq<RecordInput>, window: int)
    requires multiset(a) == multiset(b) && DistinctBlocks(a)
    ensures Transitions(MergeTimeline(a), window) == Transitions(MergeTimeline(b), window)
  {
    MergeIsCanonical(a, b);
  }
}
