// Sweep-line overlap detection and the naive pairwise form it replaces.
module SweepLine {
  import opened Machine
  import opened Overlaps
  import opened Sorting

  datatype Event = Event(point: int64, isStart: bool, index: nat)

  // Half-open intervals: an end is handled before a start at the same point.
  predicate Before(a: Event, b: Event) {
    if a.point != b.point then a.point < b.point
    else if a.isStart != b.isStart then !a.isStart
    else a.index < b.index
  }

  predicate EventLeq(a: Event, b: Event) {
    a == b || Before(a, b)
  }

  function StartOf(ivs: seq<Interval>, i: nat): Event
    requires i < |ivs|
  {
    Event(ivs[i].start, true, i)
  }

  function EndOf(ivs: seq<Interval>, i: nat): Event
    requires i < |ivs|
  {
    Event(ivs[i].end, false, i)
  }

  // The events are exactly the starts and ends of the non-empty intervals.
  ghost predicate EventsOf(ivs: seq<Interval>, events: seq<Event>) {
    && (forall i :: 0 <= i < |ivs| && !ivs[i].Empty() ==> StartOf(ivs, i) in events && EndOf(ivs, i) in events)
    && (forall e :: e in events ==>
          e.index < |ivs| && !ivs[e.index].Empty()
          && e == if e.isStart then StartOf(ivs, e.index) else EndOf(ivs, e.index))
  }

  ghost predicate Ordered(events: seq<Event>) {
    forall a, b :: 0 <= a < b < |events| ==> Before(events[a], events[b])
  }

  // The events handled before position k are those that come before events[k].
  lemma SeenIsBefore(events: seq<Event>, k: nat, e: Event)
    requires Ordered(events) && k < |events| && e in events
    ensures e in events[..k] <==> Before(e, events[k])
  {
    var j :| 0 <= j < |events| && events[j] == e;
    if j < k {
      assert events[..k][j] == e;
    }
    if e in events[..k] {
      var i :| 0 <= i < k && events[..k][i] == e;
      assert events[i] == e;
    }
  }

  // ---- The active list ---------------------------------------------------------

  // Started and not yet ended.
  ghost predicate IsActive(ivs: seq<Interval>, seen: seq<Event>, i: nat) {
    i < |ivs| && !ivs[i].Empty() && StartOf(ivs, i) in seen && EndOf(ivs, i) !in seen
  }

  ghost predicate ActiveList(ivs: seq<Interval>, seen: seq<Event>, active: seq<nat>) {
    && Distinct(active)
    && forall i :: i in active <==> IsActive(ivs, seen, i)
  }

  // When j starts, the active intervals are those already started that overlap it.
  lemma ActiveOverlap(ivs: seq<Interval>, events: seq<Event>, k: nat, i: nat)
    requires EventsOf(ivs, events) && Ordered(events) && k < |events| && events[k].isStart
    requires i < |ivs| && i != events[k].index && !ivs[i].Empty() && StartOf(ivs, i) in events[..k]
    ensures events[k].index < |ivs|
    ensures EndOf(ivs, i) !in events[..k] <==> ivs[i].Overlaps(ivs[events[k].index])
  {
    assert events[k] in events;
    SeenIsBefore(events, k, StartOf(ivs, i));
    SeenIsBefore(events, k, EndOf(ivs, i));
  }

  // Position of index in the active list, as the linear search finds it.
  method RemoveActive(active: seq<nat>, index: nat) returns (r: seq<nat>)
    requires Distinct(active)
    ensures Distinct(r)
    ensures forall i :: i in r <==> i in active && i != index
  {
    r := active;
    var i := 0;
    while i < |r|
      invariant 0 <= i <= |r| && r == active
      invariant forall j :: 0 <= j < i ==> r[j] != index
    {
      if r[i] == index {
        // Swap with the last and pop.
        r := r[i := r[|r| - 1]];
        r := r[..|r| - 1];
        forall x ensures x in r <==> x in active && x != index {
          if x in active && x != index {
            var j :| 0 <= j < |active| && active[j] == x;
            assert r[if j == |active| - 1 then i else j] == x;
          }
        }
        break;
      }
      i := i + 1;
    }
  }

  // ---- What has been reported ----------------------------------------------------

  ghost predicate Reported(ivs: seq<Interval>, seen: seq<Event>, p: IdPair) {
    exists i: nat, j: nat :: PairSeen(ivs, seen, i, j) && p == MinMax(ivs[i].id, ivs[j].id)
  }

  ghost predicate PairSeen(ivs: seq<Interval>, seen: seq<Event>, i: nat, j: nat) {
    && i < |ivs| && j < |ivs| && i != j && ivs[i].Overlaps(ivs[j])
    && StartOf(ivs, i) in seen && StartOf(ivs, j) in seen
  }

  lemma PairSeenSymmetric(ivs: seq<Interval>, seen: seq<Event>, i: nat, j: nat)
    requires PairSeen(ivs, seen, i, j)
    ensures PairSeen(ivs, seen, j, i) && MinMax(ivs[i].id, ivs[j].id) == MinMax(ivs[j].id, ivs[i].id)
  {
  }

  // Handling one start event reports exactly the pairs with the active intervals.
  lemma StartReports(ivs: seq<Interval>, events: seq<Event>, k: nat, active: seq<nat>, p: IdPair)
    requires EventsOf(ivs, events) && Ordered(events) && k < |events| && events[k].isStart
    requires ActiveList(ivs, events[..k], active)
    ensures events[k].index < |ivs| && forall a :: a in active ==> a < |ivs|
    ensures Reported(ivs, events[..k + 1], p) <==>
              Reported(ivs, events[..k], p)
              || exists a :: a in active && p == MinMax(ivs[a].id, ivs[events[k].index].id)
  {
    assert events[k] in events;
    var started := events[k].index;
    assert events[..k + 1] == events[..k] + [events[k]];
    assert StartOf(ivs, started) == events[k];
    StartUnseen(ivs, events, k);
    if Reported(ivs, events[..k + 1], p) {
      var i: nat, j: nat :| PairSeen(ivs, events[..k + 1], i, j) && p == MinMax(ivs[i].id, ivs[j].id);
      PairSeenSymmetric(ivs, events[..k + 1], i, j);
      if i == started {
        ActiveOverlap(ivs, events, k, j);
        assert j in active;
      } else if j == started {
        ActiveOverlap(ivs, events, k, i);
        assert i in active;
      } else {
        assert PairSeen(ivs, events[..k], i, j);
      }
    }
    if Reported(ivs, events[..k], p) {
      var i: nat, j: nat :| PairSeen(ivs, events[..k], i, j) && p == MinMax(ivs[i].id, ivs[j].id);
      assert PairSeen(ivs, events[..k + 1], i, j);
    }
    forall a | a in active ensures PairSeen(ivs, events[..k + 1], a, started) {
      assert IsActive(ivs, events[..k], a);
      ActiveOverlap(ivs, events, k, a);
    }
  }

  lemma StartUnseen(ivs: seq<Interval>, events: seq<Event>, k: nat)
    requires EventsOf(ivs, events) && Ordered(events) && k < |events|
    ensures events[k] !in events[..k]
  {
    SeenIsBefore(events, k, events[k]);
  }

  lemma EndReportsNothing(ivs: seq<Interval>, events: seq<Event>, k: nat, p: IdPair)
    requires k < |events| && !events[k].isStart
    ensures Reported(ivs, events[..k + 1], p) <==> Reported(ivs, events[..k], p)
  {
    assert events[..k + 1] == events[..k] + [events[k]];
    forall i, j ensures PairSeen(ivs, events[..k + 1], i, j) <==> PairSeen(ivs, events[..k], i, j) {
    }
  }

  lemma ActiveAfterStart(ivs: seq<Interval>, events: seq<Event>, k: nat, active: seq<nat>)
    requires EventsOf(ivs, events) && Ordered(events) && k < |events| && events[k].isStart
    requires ActiveList(ivs, events[..k], active)
    ensures ActiveList(ivs, events[..k + 1], active + [events[k].index])
  {
    assert events[k] in events;
    var started := events[k].index;
    assert events[..k + 1] == events[..k] + [events[k]];
    StartUnseen(ivs, events, k);
    assert started !in active;
    SeenIsBefore(events, k, EndOf(ivs, started));
    forall i ensures i in active + [started] <==> IsActive(ivs, events[..k + 1], i) {
      assert i in active <==> IsActive(ivs, events[..k], i);
    }
  }

  lemma ActiveAfterEnd(ivs: seq<Interval>, events: seq<Event>, k: nat, active: seq<nat>, rest: seq<nat>)
    requires EventsOf(ivs, events) && Ordered(events) && k < |events| && !events[k].isStart
    requires ActiveList(ivs, events[..k], active)
    requires Distinct(rest) && forall i :: i in rest <==> i in active && i != events[k].index
    ensures ActiveList(ivs, events[..k + 1], rest)
  {
    assert events[k] in events;
    assert events[..k + 1] == events[..k] + [events[k]];
    forall i ensures i in rest <==> IsActive(ivs, events[..k + 1], i) {
      assert i in active <==> IsActive(ivs, events[..k], i);
    }
  }

  // ---- The algorithm --------------------------------------------------------------

  method BuildEvents(ivs: seq<Interval>) returns (events: seq<Event>)
    ensures EventsOf(ivs, events)
    ensures forall a, b :: 0 <= a < b < |events| ==> events[a] != events[b]
  {
    events := [];
    for i := 0 to |ivs|
      invariant forall j :: 0 <= j < i && !ivs[j].Empty() ==> StartOf(ivs, j) in events && EndOf(ivs, j) in events
      invariant forall e :: e in events ==>
                  e.index < i && !ivs[e.index].Empty()
                  && e == if e.isStart then StartOf(ivs, e.index) else EndOf(ivs, e.index)
      invariant forall a, b :: 0 <= a < b < |events| ==> events[a] != events[b]
    {
      var iv := ivs[i];
      if iv.Empty() {
        continue;
      }
      assert forall a :: 0 <= a < |events| ==> events[a] in events;
      events := events + [Event(iv.start, true, i)];
      events := events + [Event(iv.end, false, i)];
    }
  }

  lemma EventOrderIsTotal()
    ensures TotalPreorder(EventLeq)
  {
  }

  lemma PairOrderIsTotal()
    ensures TotalPreorder(PairLeq)
  {
  }

  // Sorting distinct events leaves them strictly ordered.
  lemma SortedEventsAreOrdered(unsorted: seq<Event>, events: seq<Event>)
    requires forall a, b :: 0 <= a < b < |unsorted| ==> unsorted[a] != unsorted[b]
    requires multiset(events) == multiset(unsorted) && SortedBy(EventLeq, events)
    ensures Ordered(events)
    ensures forall e :: e in events <==> e in unsorted
  {
    forall e ensures e in events <==> e in unsorted {
      assert e in events <==> e in multiset(events);
      assert e in unsorted <==> e in multiset(unsorted);
    }
    forall a, b | 0 <= a < b < |events| ensures Before(events[a], events[b]) {
      assert EventLeq(events[a], events[b]);
      if events[a] == events[b] {
        TwiceInMultiset(events, a, b);
        OnceInMultiset(unsorted, events[a]);
        assert false;
      }
    }
  }

  lemma TwiceInMultiset(s: seq<Event>, a: nat, b: nat)
    requires a < b < |s| && s[a] == s[b]
    ensures multiset(s)[s[a]] >= 2
  {
    assert s == s[..a] + [s[a]] + s[a + 1..b] + [s[b]] + s[b + 1..];
  }

  lemma {:induction false} OnceInMultiset(s: seq<Event>, e: Event)
    requires forall a, b :: 0 <= a < b < |s| ==> s[a] != s[b]
    ensures multiset(s)[e] <= 1
    decreases |s|
  {
    if s != [] {
      var last := |s| - 1;
      OnceInMultiset(s[..last], e);
      assert s == s[..last] + [s[last]];
      if s[last] == e {
        assert e !in s[..last];
        assert e !in multiset(s[..last]);
      }
    }
  }

  // Every pair of active and starting intervals, in list order.
  method ReportActive(ivs: seq<Interval>, active: seq<nat>, index: nat) returns (pairs: seq<IdPair>)
    requires index < |ivs| && forall a :: a in active ==> a < |ivs|
    ensures forall p :: p in pairs <==> exists a :: a in active && p == MinMax(ivs[a].id, ivs[index].id)
  {
    pairs := [];
    for k := 0 to |active|
      invariant |pairs| == k
      invariant forall j :: 0 <= j < k ==> active[j] in active && pairs[j] == MinMax(ivs[active[j]].id, ivs[index].id)
    {
      assert active[k] in active;
      pairs := pairs + [MinMax(ivs[active[k]].id, ivs[index].id)];
    }
  }

  method Sweep(ivs: seq<Interval>, events: seq<Event>) returns (result: seq<IdPair>)
    requires EventsOf(ivs, events) && Ordered(events)
    ensures forall p :: p in result <==> p in OverlapPairs(ivs)
  {
    result := [];
    var active: seq<nat> := [];
    for k := 0 to |events|
      invariant ActiveList(ivs, events[..k], active)
      invariant forall p :: p in result <==> Reported(ivs, events[..k], p)
    {
      var event := events[k];
      assert event in events;
      if event.isStart {
        forall p { StartReports(ivs, events, k, active, p); }
        var pairs := ReportActive(ivs, active, event.index);
        result := result + pairs;
        ActiveAfterStart(ivs, events, k, active);
        active := active + [event.index];
      } else {
        forall p { EndReportsNothing(ivs, events, k, p); }
        var rest := RemoveActive(active, event.index);
        ActiveAfterEnd(ivs, events, k, active, rest);
        active := rest;
      }
    }
    assert events[..|events|] == events;
    AllReported(ivs, events);
  }

  lemma AllReported(ivs: seq<Interval>, events: seq<Event>)
    requires EventsOf(ivs, events)
    ensures forall p :: Reported(ivs, events, p) <==> p in OverlapPairs(ivs)
  {
    forall p ensures Reported(ivs, events, p) <==> p in OverlapPairs(ivs) {
      if Reported(ivs, events, p) {
        var i: nat, j: nat :| PairSeen(ivs, events, i, j) && p == MinMax(ivs[i].id, ivs[j].id);
        OverlapPairsAnyOrder(ivs, i, j);
      }
      if p in OverlapPairs(ivs) {
        var i, j :| 0 <= i < j < |ivs| && ivs[i].Overlaps(ivs[j]) && p == MinMax(ivs[i].id, ivs[j].id);
        assert PairSeen(ivs, events, i, j);
      }
    }
  }

  // Sorted and unique at the end: the canonical list of the overlapping pairs.
  method FindOverlappingPairs(ivs: seq<Interval>) returns (result: seq<IdPair>)
    ensures Canonical(result)
    ensures Elements(result) == OverlapPairs(ivs)
  {
    if |ivs| < 2 {
      return [];
    }
    var unsorted := BuildEvents(ivs);
    EventOrderIsTotal();
    var events := Sort(unsorted, EventLeq);
    SortedEventsAreOrdered(unsorted, events);
    var found := Sweep(ivs, events);
    PairOrderIsTotal();
    var sorted := Sort(found, PairLeq);
    SameMembers(found, sorted);
    result := Unique(sorted);
    UniqueSortedIsCanonical(sorted, result);
  }

  lemma UniqueSortedIsCanonical(s: seq<IdPair>, r: seq<IdPair>)
    requires SortedBy(PairLeq, s)
    requires forall k :: 0 < k < |r| ==> r[k - 1] != r[k]
    requires exists at: seq<nat> :: IsSubsequence(r, s, at)
    ensures Canonical(r)
  {
    var at: seq<nat> :| IsSubsequence(r, s, at);
    forall i, j | 0 <= i < j < |r| ensures PairLess(r[i], r[j]) {
      assert r[j - 1] != r[j];
      assert PairLeq(s[at[j - 1]], s[at[j]]);
      if i < j - 1 { assert PairLeq(s[at[i]], s[at[j - 1]]); }
    }
  }

  // ---- The naive form -----------------------------------------------------------------

  ghost predicate OverlapAt(ivs: seq<Interval>, a: nat, b: nat) {
    a < b < |ivs| && ivs[a].Overlaps(ivs[b])
  }

  ghost predicate LabelsOverlap(ivs: seq<Interval>, q: IdPair) {
    exists a: nat, b: nat :: OverlapAt(ivs, a, b) && q == (ivs[a].id, ivs[b].id)
  }

  // Pairwise, labels as they come: not canonical, but the same pairs.
  method FindOverlapsNaive(ivs: seq<Interval>) returns (result: seq<IdPair>)
    ensures (set p | p in result :: MinMax(p.0, p.1)) == OverlapPairs(ivs)
  {
    result := [];
    for i := 0 to |ivs|
      invariant forall q :: q in result ==> LabelsOverlap(ivs, q)
      invariant forall a: nat, b: nat {:trigger OverlapAt(ivs, a, b)} ::
                  a < i && OverlapAt(ivs, a, b) ==> (ivs[a].id, ivs[b].id) in result
    {
      for j := i + 1 to |ivs|
        invariant forall q :: q in result ==> LabelsOverlap(ivs, q)
        invariant forall a: nat, b: nat {:trigger OverlapAt(ivs, a, b)} ::
                    (a < i || (a == i && b < j)) && OverlapAt(ivs, a, b) ==> (ivs[a].id, ivs[b].id) in result
      {
        if ivs[i].Overlaps(ivs[j]) {
          assert OverlapAt(ivs, i, j);
          result := result + [(ivs[i].id, ivs[j].id)];
        }
      }
    }
    NaivePairsAreAll(ivs, result);
  }

  lemma NaivePairsAreAll(ivs: seq<Interval>, result: seq<IdPair>)
    requires forall q :: q in result ==> LabelsOverlap(ivs, q)
    requires forall a: nat, b: nat {:trigger OverlapAt(ivs, a, b)} :: OverlapAt(ivs, a, b) ==>
        (ivs[a].id, ivs[b].id) in result
    ensures (set p | p in result :: MinMax(p.0, p.1)) == OverlapPairs(ivs)
  {
    var found := set p | p in result :: MinMax(p.0, p.1);
    forall p ensures p in found <==> p in OverlapPairs(ivs) {
      if p in found {
        var q :| q in result && p == MinMax(q.0, q.1);
        var a: nat, b: nat :| OverlapAt(ivs, a, b) && q == (ivs[a].id, ivs[b].id);
      }
      if p in OverlapPairs(ivs) {
        var a, b :| 0 <= a < b < |ivs| && ivs[a].Overlaps(ivs[b]) && p == MinMax(ivs[a].id, ivs[b].id);
        assert OverlapAt(ivs, a, b);
      }
    }
  }
}
