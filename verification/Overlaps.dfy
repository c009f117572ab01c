// What every overlap detector has to report, as one declarative list.
module Overlaps {
  import opened Machine

  datatype Interval = Interval(start: int64, end: int64, id: int32) {
    predicate Empty() {
      start >= end
    }

    predicate Overlaps(other: Interval) {
      if Empty() || other.Empty() then false
      else start < other.end && other.start < end
    }
  }

  type IdPair = (int, int)

  function MinMax(a: int, b: int): IdPair {
    if b < a then (b, a) else (a, b)
  }

  // Lexicographic order of std::pair.
  predicate PairLess(p: IdPair, q: IdPair) {
    p.0 < q.0 || (p.0 == q.0 && p.1 < q.1)
  }

  predicate PairLeq(p: IdPair, q: IdPair) {
    p == q || PairLess(p, q)
  }

  // Sorted without duplicates.
  ghost predicate Canonical(s: seq<IdPair>) {
    forall i, j :: 0 <= i < j < |s| ==> PairLess(s[i], s[j])
  }

  ghost function Elements(s: seq<IdPair>): set<IdPair> {
    set p | p in s
  }

  // A canonical list is determined by its elements.
  lemma {:induction false} CanonicalUnique(s: seq<IdPair>, t: seq<IdPair>)
    requires Canonical(s) && Canonical(t)
    requires forall p :: p in s <==> p in t
    ensures s == t
    decreases |s|
  {
    assert forall k :: 0 <= k < |s| ==> s[k] in t;
    assert forall k :: 0 <= k < |t| ==> t[k] in s;
    if s != [] && t != [] {
      assert s[0] == t[0];
      forall p ensures p in s[1..] <==> p in t[1..] {
        assert p in s <==> p == s[0] || p in s[1..];
        assert p in t <==> p == t[0] || p in t[1..];
        assert s[0] !in s[1..];
        assert t[0] !in t[1..];
      }
      CanonicalUnique(s[1..], t[1..]);
    }
  }

  // The identifiers of every pair of positions whose intervals overlap.
  ghost function OverlapPairs(ivs: seq<Interval>): set<IdPair> {
    set i, j | 0 <= i < j < |ivs| && ivs[i].Overlaps(ivs[j]) :: MinMax(ivs[i].id, ivs[j].id)
  }

  lemma OverlapPairsAnyOrder(ivs: seq<Interval>, i: nat, j: nat)
    requires i < |ivs| && j < |ivs| && i != j && ivs[i].Overlaps(ivs[j])
    ensures MinMax(ivs[i].id, ivs[j].id) in OverlapPairs(ivs)
  {
    assert MinMax(ivs[i].id, ivs[j].id) == MinMax(ivs[j].id, ivs[i].id);
    if j < i { assert ivs[j].Overlaps(ivs[i]); }
  }
}
