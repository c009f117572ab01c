// The benchmark's simple union-find, and its agreement with the fast one.
module NaiveUnionFind {
  import opened Forest
  import opened UnionFind

  // Recursive find with full path compression; no ranks.
  class Naive {
    var parent: seq<nat>
    // The same parents with a rank for each element that makes them a forest.
    ghost var ranked: seq<Entry>
    ghost var united: set<Pair>

    ghost predicate Valid()
      reads this
    {
      && |ranked| == |parent|
      && (forall i {:trigger Up(ranked, i)} {:trigger parent[i]} :: 0 <= i < |parent| ==> parent[i] == Up(ranked, i))
      && IsForest(ranked)
      && Represents(ranked, united)
    }

    constructor (n: nat)
      ensures Valid() && |parent| == n && united == {}
    {
      parent := seq(n, (i: nat) => i);
      ranked := seq(n, (i: nat) => Entry(i, 0, 0));
      united := {};
      new;
      SingletonsRepresentNothing(ranked);
    }

    method Find(x: nat) returns (root: nat)
      requires Valid() && x < |parent|
      modifies this`parent, this`ranked
      ensures Valid() && OnlyParentsMoved(old(ranked), ranked)
      ensures root == Root(ranked, x) == Root(old(ranked), x)
      decreases MaxRank(ranked) - RankAt(ranked, x)
    {
      if parent[x] != x {
        ghost var es := ranked;
        RankAtMostMax(es, parent[x]);
        var r := Find(parent[x]);
        ghost var fs := ranked;
        assert Root(fs, x) == Root(es, x) == r != x && RankAt(fs, x) == RankAt(es, x);
        assert Root(fs, r) == Root(es, r) == r;
        ReparentKeepsRoots(fs, x, r);
        SameRootsRepresent(fs, Reparent(fs, x, r), united);
        OnlyParentsMovedTwice(es, fs, Reparent(fs, x, r));
        parent := parent[x := r];
        ranked := Reparent(fs, x, r);
      }
      root := parent[x];
    }

    method Unite(a: nat, b: nat)
      requires Valid() && a < |parent| && b < |parent|
      modifies this
      ensures Valid() && |parent| == old(|parent|)
      ensures united == old(united) + {(a, b)}
    {
      var ra := Find(a);
      var rb := Find(b);
      assert Root(ranked, a) == ra && Root(ranked, b) == rb;
      if ra != rb {
        ghost var rank := if RankAt(ranked, ra) < RankAt(ranked, rb) then RankAt(ranked, rb)
                          else RankAt(ranked, ra) + 1;
        LinkRepresents(ranked, united, a, b, rb, ra, rank);
        parent := parent[ra := rb];
        ranked := Link(ranked, rb, ra, rank);
      } else {
        RedundantPairRepresents(ranked, united, a, b);
      }
      united := united + {(a, b)};
    }

    method SameSet(a: nat, b: nat) returns (same: bool)
      requires Valid() && a < |parent| && b < |parent|
      modifies this`parent, this`ranked
      ensures Valid() && |parent| == old(|parent|)
      ensures same <==> Related(united, a, b)
    {
      var ra := Find(a);
      var rb := Find(b);
      same := ra == rb;
      assert same <==> Related(united, a, b);
    }
  }

  lemma SingletonsRepresentNothing(es: seq<Entry>)
    requires forall i {:trigger Up(es, i)} :: 0 <= i < |es| ==> Up(es, i) == i
    ensures IsForest(es) && Represents(es, {})
  {
    forall a, b | 0 <= a < |es| && 0 <= b < |es|
      ensures Root(es, a) == Root(es, b) <==> Related({}, a, b)
    {
      if a == b { RelatedReflexive({}, a); }
      if Related({}, a, b) { RelatedOnlyWithinRoots(es, {}, a, b); }
    }
  }

  ghost predicate InRange(pairs: seq<Pair>, n: nat) {
    forall k :: 0 <= k < |pairs| ==> pairs[k].0 < n && pairs[k].1 < n
  }

  ghost function PairSet(pairs: seq<Pair>): set<Pair> {
    set p | p in pairs
  }

  method BuildFlat(n: nat) returns (flat: FlatUnionFind)
    requires n <= 0x8000_0000
    ensures fresh(flat) && flat.Valid() && |flat.data| == n && flat.united == {}
  {
    flat := new FlatUnionFind();
    for i := 0 to n
      invariant fresh(flat) && flat.Valid() && |flat.data| == i && flat.united == {}
      invariant forall id :: id in flat.idToIndex ==> id < i
    {
      var idx := flat.MakeSet(i);
    }
  }

  method UniteAll(flat: FlatUnionFind, simple: Naive, n: nat, pairs: seq<Pair>)
    requires flat.Valid() && |flat.data| == n && flat.united == {}
    requires simple.Valid() && |simple.parent| == n && simple.united == {}
    requires InRange(pairs, n)
    modifies flat, simple
    ensures flat.Valid() && |flat.data| == n && flat.united == PairSet(pairs)
    ensures simple.Valid() && |simple.parent| == n && simple.united == PairSet(pairs)
  {
    for k := 0 to |pairs|
      invariant flat.Valid() && |flat.data| == n
      invariant simple.Valid() && |simple.parent| == n
      invariant flat.united == PairSet(pairs[..k]) && simple.united == PairSet(pairs[..k])
    {
      assert pairs[..k + 1] == pairs[..k] + [pairs[k]];
      assert (pairs[k].0, pairs[k].1) == pairs[k];
      assert PairSet(pairs[..k + 1]) == PairSet(pairs[..k]) + {pairs[k]};
      var root := flat.Unite(pairs[k].0, pairs[k].1);
      simple.Unite(pairs[k].0, pairs[k].1);
    }
    assert pairs[..|pairs|] == pairs;
  }

  ghost predicate AnswersClosure(answers: seq<bool>, edges: set<Pair>, queries: seq<Pair>) {
    && |answers| == |queries|
    && forall k :: 0 <= k < |queries| ==> (answers[k] <==> Related(edges, queries[k].0, queries[k].1))
  }

  method AskFlat(flat: FlatUnionFind, queries: seq<Pair>) returns (answers: seq<bool>)
    requires flat.Valid() && InRange(queries, |flat.data|)
    modifies flat
    ensures AnswersClosure(answers, old(flat.united), queries)
  {
    answers := [];
    for k := 0 to |queries|
      invariant flat.Valid() && |flat.data| == old(|flat.data|) && flat.united == old(flat.united)
      invariant AnswersClosure(answers, flat.united, queries[..k])
    {
      var same := flat.SameSet(queries[k].0, queries[k].1);
      answers := answers + [same];
    }
    assert queries[..|queries|] == queries;
  }

  method AskNaive(simple: Naive, queries: seq<Pair>) returns (answers: seq<bool>)
    requires simple.Valid() && InRange(queries, |simple.parent|)
    modifies simple
    ensures AnswersClosure(answers, old(simple.united), queries)
  {
    answers := [];
    for k := 0 to |queries|
      invariant simple.Valid() && |simple.parent| == old(|simple.parent|) && simple.united == old(simple.united)
      invariant AnswersClosure(answers, simple.united, queries[..k])
    {
      var same := simple.SameSet(queries[k].0, queries[k].1);
      answers := answers + [same];
    }
    assert queries[..|queries|] == queries;
  }

  // Both structures run the same unions over n elements: every query gets the
  // same answer, and it is membership in the closure of the united pairs.
  method AnswerBoth(n: nat, pairs: seq<Pair>, queries: seq<Pair>) returns (fast: seq<bool>, naive: seq<bool>)
    requires n <= 0x8000_0000 && InRange(pairs, n) && InRange(queries, n)
    ensures fast == naive && AnswersClosure(fast, PairSet(pairs), queries)
  {
    var flat := BuildFlat(n);
    var simple := new Naive(n);
    UniteAll(flat, simple, n, pairs);
    fast := AskFlat(flat, queries);
    naive := AskNaive(simple, queries);
    assert forall k :: 0 <= k < |fast| ==> fast[k] == naive[k];
  }
}
