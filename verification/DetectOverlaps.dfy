// Overlap detection over field candidates: a pairwise path for few, the sweep
// line for many, and the vectorised pairwise form with precomputed ends.
module DetectOverlaps {
  import opened Machine
  import opened Overlaps
  import opened SweepLine

  datatype Candidate = Candidate(offset: int64, size: uint64)

  datatype Outcome = Pairs(pairs: seq<IdPair>) | LengthError

  // The exclusive end of a candidate, when its interval is non-empty and its
  // end is representable.
  function CandidateEnd(c: Candidate): Option<int> {
    if c.size == 0 || c.size > INT64_MAX || c.offset > INT64_MAX - c.size then None
    else Some(c.offset + c.size)
  }

  predicate CandidatesOverlap(a: Candidate, b: Candidate) {
    && CandidateEnd(a).Some? && CandidateEnd(b).Some?
    && a.offset < CandidateEnd(b).value
    && b.offset < CandidateEnd(a).value
  }

  ghost predicate HasByte(c: Candidate, b: int) {
    c.offset <= b < c.offset + c.size
  }

  // Overlap means a common byte, and that both ends are representable.
  lemma OverlapMeansCommonByte(a: Candidate, b: Candidate)
    ensures CandidatesOverlap(a, b) <==>
              && a.offset + a.size <= INT64_MAX && b.offset + b.size <= INT64_MAX
              && a.size <= INT64_MAX && b.size <= INT64_MAX
              && exists x: int :: HasByte(a, x) && HasByte(b, x)
  {
    if CandidatesOverlap(a, b) {
      var x := if a.offset < b.offset then b.offset else a.offset;
      assert HasByte(a, x) && HasByte(b, x);
    }
  }

  // Positions of overlapping candidates, in lexicographic order: row i holds
  // the partners of i below j.
  ghost function Row(cs: seq<Candidate>, i: nat, j: nat): seq<IdPair>
    requires i < |cs| && j <= |cs|
    decreases j
  {
    if j <= i + 1 then []
    else if CandidatesOverlap(cs[i], cs[j - 1]) then Row(cs, i, j - 1) + [(i, j - 1)]
    else Row(cs, i, j - 1)
  }

  ghost function Rows(cs: seq<Candidate>, i: nat): seq<IdPair>
    requires i <= |cs|
  {
    if i == 0 then [] else Rows(cs, i - 1) + Row(cs, i - 1, |cs|)
  }

  ghost function OverlapList(cs: seq<Candidate>): seq<IdPair> {
    Rows(cs, |cs|)
  }

  // ---- The list is the canonical one ---------------------------------------------

  lemma {:induction false} RowMembers(cs: seq<Candidate>, i: nat, j: nat, p: IdPair)
    requires i < |cs| && j <= |cs|
    ensures p in Row(cs, i, j) <==>
              p.0 == i && i < p.1 < j && CandidatesOverlap(cs[i], cs[p.1])
    decreases j
  {
    if j > i + 1 { RowMembers(cs, i, j - 1, p); }
  }

  lemma {:induction false} RowsMembers(cs: seq<Candidate>, i: nat, p: IdPair)
    requires i <= |cs|
    ensures p in Rows(cs, i) <==>
              0 <= p.0 < i && p.0 < p.1 < |cs| && CandidatesOverlap(cs[p.0], cs[p.1])
  {
    if i > 0 {
      RowMembers(cs, i - 1, |cs|, p);
      RowsMembers(cs, i - 1, p);
      assert p in Rows(cs, i) <==> p in Rows(cs, i - 1) || p in Row(cs, i - 1, |cs|);
    }
  }

  lemma CanonicalConcat(a: seq<IdPair>, b: seq<IdPair>)
    requires Canonical(a) && Canonical(b)
    requires forall p, q :: p in a && q in b ==> PairLess(p, q)
    ensures Canonical(a + b)
  {
    forall i, j | 0 <= i < j < |a + b| ensures PairLess((a + b)[i], (a + b)[j]) {
      if i < |a| <= j {
        assert (a + b)[i] in a && (a + b)[j] in b;
      }
    }
  }

  lemma {:induction false} RowCanonical(cs: seq<Candidate>, i: nat, j: nat)
    requires i < |cs| && j <= |cs|
    ensures Canonical(Row(cs, i, j))
    decreases j
  {
    if j > i + 1 {
      RowCanonical(cs, i, j - 1);
      var last := (i, j - 1);
      forall p | p in Row(cs, i, j - 1) ensures PairLess(p, last) { RowMembers(cs, i, j - 1, p); }
      CanonicalConcat(Row(cs, i, j - 1), [last]);
    }
  }

  lemma {:induction false} RowsCanonical(cs: seq<Candidate>, i: nat)
    requires i <= |cs|
    ensures Canonical(Rows(cs, i))
  {
    if i > 0 {
      RowCanonical(cs, i - 1, |cs|);
      RowsCanonical(cs, i - 1);
      forall p, q | p in Rows(cs, i - 1) && q in Row(cs, i - 1, |cs|) ensures PairLess(p, q) {
        RowsMembers(cs, i - 1, p);
        RowMembers(cs, i - 1, |cs|, q);
      }
      CanonicalConcat(Rows(cs, i - 1), Row(cs, i - 1, |cs|));
    }
  }

  // The list holds exactly the overlapping positions, sorted, each once.
  lemma OverlapListIsCanonical(cs: seq<Candidate>)
    ensures Canonical(OverlapList(cs))
    ensures forall p :: p in OverlapList(cs) <==>
              0 <= p.0 < p.1 < |cs| && CandidatesOverlap(cs[p.0], cs[p.1])
  {
    RowsCanonical(cs, |cs|);
    forall p { RowsMembers(cs, |cs|, p); }
  }

  lemma ShortListIsEmpty(cs: seq<Candidate>)
    requires |cs| < 2
    ensures OverlapList(cs) == []
  {
    if |cs| == 1 {
      assert Rows(cs, 0) == [] && Row(cs, 0, 1) == [];
    }
  }

  // ---- The two paths ------------------------------------------------------------------

  method DetectPairwise(cs: seq<Candidate>) returns (result: seq<IdPair>)
    ensures result == OverlapList(cs)
  {
    result := [];
    for i := 0 to |cs|
      invariant result == Rows(cs, i)
    {
      if CandidateEnd(cs[i]).None? {
        InvalidRow(cs, i, |cs|);
        continue;
      }
      var iEnd := CandidateEnd(cs[i]).value;
      for j := i + 1 to |cs|
        invariant result == Rows(cs, i) + Row(cs, i, j)
      {
        if CandidateEnd(cs[j]).None? {
          continue;
        }
        var jEnd := CandidateEnd(cs[j]).value;
        if cs[i].offset < jEnd && cs[j].offset < iEnd {
          result := result + [(i, j)];
        }
      }
    }
  }

  lemma {:induction false} InvalidRow(cs: seq<Candidate>, i: nat, j: nat)
    requires i < |cs| && j <= |cs| && CandidateEnd(cs[i]).None?
    ensures Row(cs, i, j) == []
    decreases j
  {
    if j > i + 1 { InvalidRow(cs, i, j - 1); }
  }

  // The sweep's view of a candidate: an empty interval when it has no end.
  function AsInterval(c: Candidate, i: int32): Interval {
    if CandidateEnd(c).Some? then Interval(c.offset, CandidateEnd(c).value, i) else Interval(c.offset, c.offset, i)
  }

  lemma IntervalsOverlapAlike(a: Candidate, b: Candidate, i: int32, j: int32)
    ensures AsInterval(a, i).Overlaps(AsInterval(b, j)) <==> CandidatesOverlap(a, b)
  {
  }

  method BuildIntervals(cs: seq<Candidate>) returns (ivs: seq<Interval>)
    requires |cs| <= INT32_MAX
    ensures |ivs| == |cs| && forall i :: 0 <= i < |cs| ==> ivs[i] == AsInterval(cs[i], i)
  {
    ivs := [];
    for i := 0 to |cs|
      invariant |ivs| == i && forall k :: 0 <= k < i ==> ivs[k] == AsInterval(cs[k], k)
    {
      var offset := cs[i].offset;
      if cs[i].size > INT64_MAX || offset > INT64_MAX - cs[i].size {
        ivs := ivs + [Interval(offset, offset, i)];
        continue;
      }
      ivs := ivs + [Interval(offset, offset + cs[i].size, i)];
    }
  }

  lemma SweepFindsTheList(cs: seq<Candidate>, ivs: seq<Interval>, result: seq<IdPair>)
    requires |cs| <= INT32_MAX
    requires |ivs| == |cs| && forall i :: 0 <= i < |cs| ==> ivs[i] == AsInterval(cs[i], i)
    requires Canonical(result) && Elements(result) == OverlapPairs(ivs)
    ensures result == OverlapList(cs)
  {
    OverlapListIsCanonical(cs);
    forall p ensures p in result <==> p in OverlapList(cs) {
      assert p in result <==> p in Elements(result);
      if p in OverlapPairs(ivs) {
        var i, j :| 0 <= i < j < |ivs| && ivs[i].Overlaps(ivs[j]) && p == MinMax(ivs[i].id, ivs[j].id);
        IntervalsOverlapAlike(cs[i], cs[j], i, j);
      }
      if p in OverlapList(cs) {
        IntervalsOverlapAlike(cs[p.0], cs[p.1], p.0, p.1);
        assert ivs[p.0].Overlaps(ivs[p.1]) && p == MinMax(ivs[p.0].id, ivs[p.1].id);
      }
    }
    CanonicalUnique(result, OverlapList(cs));
  }

  // One list for every threshold.
  method Detect(cs: seq<Candidate>, threshold: nat) returns (outcome: Outcome)
    ensures outcome == if |cs| > INT32_MAX then LengthError else Pairs(OverlapList(cs))
  {
    if |cs| < 2 {
      ShortListIsEmpty(cs);
      return Pairs([]);
    }
    if |cs| > INT32_MAX {
      return LengthError;
    }
    if |cs| <= threshold {
      var result := DetectPairwise(cs);
      return Pairs(result);
    }
    var ivs := BuildIntervals(cs);
    var result := FindOverlappingPairs(ivs);
    SweepFindsTheList(cs, ivs, result);
    outcome := Pairs(result);
  }

  // ---- The batch form ---------------------------------------------------------------------

  ghost function BatchCandidates(offsets: seq<int64>, sizes: seq<uint32>): seq<Candidate>
    requires |offsets| == |sizes|
  {
    seq(|offsets|, i requires 0 <= i < |offsets| => Candidate(offsets[i], sizes[i]))
  }

  method BatchOverlapSmall(offsets: seq<int64>, sizes: seq<uint32>) returns (outcome: Outcome)
    requires |offsets| == |sizes|
    ensures outcome == if |offsets| > UINT32_MAX then LengthError
                       else Pairs(OverlapList(BatchCandidates(offsets, sizes)))
  {
    ghost var cs := BatchCandidates(offsets, sizes);
    var n := |offsets|;
    if n < 2 {
      ShortListIsEmpty(cs);
      return Pairs([]);
    }
    if n > UINT32_MAX {
      return LengthError;
    }
    var ends: array<int64> := new int64[n](_ => 0);
    var valid: array<bool> := new bool[n](_ => false);
    for i := 0 to n
      invariant forall k :: 0 <= k < i ==> (valid[k] <==> CandidateEnd(cs[k]).Some?)
      invariant forall k :: 0 <= k < i && valid[k] ==> ends[k] == CandidateEnd(cs[k]).value
      invariant forall k :: i <= k < n ==> !valid[k]
    {
      if offsets[i] <= INT64_MAX - sizes[i] {
        ends[i] := offsets[i] + sizes[i];
        valid[i] := sizes[i] != 0;
      }
    }
    var result: seq<IdPair> := [];
    for i := 0 to n - 1
      invariant result == Rows(cs, i)
    {
      for j := i + 1 to n
        invariant result == Rows(cs, i) + Row(cs, i, j)
      {
        if valid[i] && valid[j] && offsets[i] < ends[j] && offsets[j] < ends[i] {
          result := result + [(i, j)];
        }
      }
    }
    // The last position has no partners.
    assert Row(cs, n - 1, n) == [];
    outcome := Pairs(result);
  }
}
