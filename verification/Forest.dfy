// The parent forest behind both union-find structures, and the equivalence
// closure of the united pairs that it has to represent.
module Forest {
  import opened Machine

  // One element: the index of its parent (a root points to itself), its rank
  // and the caller's identifier.
  datatype Entry = Entry(parent: nat, rank: nat, id: int32)

  type Pair = (nat, nat)

  // ---- Forests -----------------------------------------------------------

  function Up(es: seq<Entry>, i: nat): nat
    requires i < |es|
  {
    es[i].parent
  }

  function RankAt(es: seq<Entry>, i: nat): nat
    requires i < |es|
  {
    es[i].rank
  }

  // Parents exist, and ranks strictly increase along parent links.
  ghost predicate IsForest(es: seq<Entry>) {
    forall i {:trigger Up(es, i)} :: 0 <= i < |es| ==>
      && Up(es, i) < |es|
      && (Up(es, i) != i ==> RankAt(es, i) < RankAt(es, Up(es, i)))
  }

  ghost function MaxRank(es: seq<Entry>): nat {
    if es == [] then 0
    else if RankAt(es, 0) >= MaxRank(es[1..]) then RankAt(es, 0) else MaxRank(es[1..])
  }

  lemma {:induction false} RankAtMostMax(es: seq<Entry>, i: nat)
    requires i < |es|
    ensures RankAt(es, i) <= MaxRank(es)
  {
    if i > 0 { RankAtMostMax(es[1..], i - 1); }
  }

  ghost function Root(es: seq<Entry>, i: nat): (r: nat)
    requires IsForest(es) && i < |es|
    ensures r < |es| && Up(es, r) == r
    ensures Up(es, i) != i ==> RankAt(es, i) < RankAt(es, r)
    ensures Up(es, i) == i ==> r == i
    decreases MaxRank(es) - RankAt(es, i)
  {
    if Up(es, i) == i then i
    else
      RankAtMostMax(es, Up(es, i));
      Root(es, Up(es, i))
  }

  ghost function Class(es: seq<Entry>, r: nat): set<nat>
    requires IsForest(es)
  {
    set i: nat | i < |es| && Root(es, i) == r
  }

  // The classical union-by-rank bound.
  ghost predicate RanksPaidFor(es: seq<Entry>)
    requires IsForest(es)
  {
    forall r {:trigger Class(es, r)} :: 0 <= r < |es| && Up(es, r) == r ==> Pow2(RankAt(es, r)) <= |Class(es, r)|
  }

  ghost predicate SameRoots(es: seq<Entry>, es': seq<Entry>)
    requires IsForest(es) && IsForest(es')
  {
    |es'| == |es| && forall j {:trigger Root(es', j)} :: 0 <= j < |es| ==> Root(es', j) == Root(es, j)
  }

  // ---- How each write changes the roots ------------------------------------

  function Reparent(es: seq<Entry>, i: nat, a: nat): seq<Entry>
    requires i < |es|
  {
    es[i := es[i].(parent := a)]
  }

  lemma ReparentIsForest(es: seq<Entry>, i: nat, a: nat)
    requires IsForest(es) && i < |es| && a < |es| && RankAt(es, i) < RankAt(es, a)
    ensures IsForest(Reparent(es, i, a))
  {
    forall k | 0 <= k < |es| ensures k != i ==> Up(Reparent(es, i, a), k) == Up(es, k) < |es| {
    }
  }

  lemma {:induction false} ReparentRootAt(es: seq<Entry>, i: nat, a: nat, j: nat)
    requires IsForest(es) && i < |es| && a < |es| && j < |es|
    requires Up(es, i) != i && RankAt(es, i) < RankAt(es, a) && Root(es, a) == Root(es, i)
    ensures IsForest(Reparent(es, i, a))
    ensures Root(Reparent(es, i, a), j) == Root(es, j)
    decreases MaxRank(es) - RankAt(es, j)
  {
    ReparentIsForest(es, i, a);
    RankAtMostMax(es, j);
    if j == i {
      RankAtMostMax(es, a);
      ReparentRootAt(es, i, a, a);
    } else if Up(es, j) != j {
      RankAtMostMax(es, Up(es, j));
      ReparentRootAt(es, i, a, Up(es, j));
    }
  }

  // Moving an element below another ancestor of its own tree changes no root.
  lemma ReparentKeepsRoots(es: seq<Entry>, i: nat, a: nat)
    requires IsForest(es) && i < |es| && a < |es|
    requires Up(es, i) != i && RankAt(es, i) < RankAt(es, a) && Root(es, a) == Root(es, i)
    ensures IsForest(Reparent(es, i, a)) && SameRoots(es, Reparent(es, i, a))
  {
    ReparentRootAt(es, i, a, i);
    forall j | 0 <= j < |es| ensures Root(Reparent(es, i, a), j) == Root(es, j) {
      ReparentRootAt(es, i, a, j);
    }
  }

  function Link(es: seq<Entry>, x: nat, y: nat, rank: nat): seq<Entry>
    requires x < |es| && y < |es| && x != y
  {
    es[y := es[y].(parent := x)][x := es[x].(rank := rank)]
  }

  lemma LinkIsForest(es: seq<Entry>, x: nat, y: nat, rank: nat)
    requires IsForest(es) && x < |es| && y < |es| && x != y
    requires Up(es, x) == x && RankAt(es, x) <= rank && RankAt(es, y) < rank
    ensures IsForest(Link(es, x, y, rank))
  {
    forall k | 0 <= k < |es| ensures k != y ==> Up(Link(es, x, y, rank), k) == Up(es, k) < |es| {
    }
  }

  lemma {:induction false} LinkRootAt(es: seq<Entry>, x: nat, y: nat, rank: nat, j: nat)
    requires IsForest(es) && x < |es| && y < |es| && j < |es| && x != y
    requires Up(es, x) == x && Up(es, y) == y && RankAt(es, x) <= rank && RankAt(es, y) < rank
    ensures IsForest(Link(es, x, y, rank))
    ensures Root(Link(es, x, y, rank), j) == if Root(es, j) == y then x else Root(es, j)
    decreases MaxRank(es) - RankAt(es, j)
  {
    LinkIsForest(es, x, y, rank);
    RankAtMostMax(es, j);
    if j != y && Up(es, j) != j {
      RankAtMostMax(es, Up(es, j));
      LinkRootAt(es, x, y, rank, Up(es, j));
    }
  }

  // Hanging root y below root x merges y's class into x's and touches no other.
  lemma LinkMergesRoots(es: seq<Entry>, x: nat, y: nat, rank: nat)
    requires IsForest(es) && x < |es| && y < |es| && x != y
    requires Up(es, x) == x && Up(es, y) == y && RankAt(es, x) <= rank && RankAt(es, y) < rank
    ensures IsForest(Link(es, x, y, rank))
    ensures forall j :: 0 <= j < |es| ==>
              Root(Link(es, x, y, rank), j) == if Root(es, j) == y then x else Root(es, j)
  {
    LinkRootAt(es, x, y, rank, x);
    forall j | 0 <= j < |es|
      ensures Root(Link(es, x, y, rank), j) == if Root(es, j) == y then x else Root(es, j)
    {
      LinkRootAt(es, x, y, rank, j);
    }
  }

  lemma AppendIsForest(es: seq<Entry>, id: int32)
    requires IsForest(es)
    ensures IsForest(es + [Entry(|es|, 0, id)])
  {
    forall k | 0 <= k < |es| ensures Up(es + [Entry(|es|, 0, id)], k) == Up(es, k) < |es| {
    }
  }

  lemma {:induction false} AppendRootAt(es: seq<Entry>, id: int32, j: nat)
    requires IsForest(es) && j < |es|
    ensures IsForest(es + [Entry(|es|, 0, id)])
    ensures Root(es + [Entry(|es|, 0, id)], j) == Root(es, j)
    decreases MaxRank(es) - RankAt(es, j)
  {
    AppendIsForest(es, id);
    RankAtMostMax(es, j);
    if Up(es, j) != j {
      RankAtMostMax(es, Up(es, j));
      AppendRootAt(es, id, Up(es, j));
    }
  }

  // A new element is a class of its own.
  lemma AppendKeepsRoots(es: seq<Entry>, id: int32)
    requires IsForest(es)
    ensures IsForest(es + [Entry(|es|, 0, id)])
    ensures Root(es + [Entry(|es|, 0, id)], |es|) == |es|
    ensures forall j :: 0 <= j < |es| ==> Root(es + [Entry(|es|, 0, id)], j) == Root(es, j)
  {
    AppendIsForest(es, id);
    forall j | 0 <= j < |es| ensures Root(es + [Entry(|es|, 0, id)], j) == Root(es, j) {
      AppendRootAt(es, id, j);
    }
  }

  // ---- Union by rank -------------------------------------------------------

  lemma SameRootsKeepPaidFor(es: seq<Entry>, es': seq<Entry>)
    requires IsForest(es) && IsForest(es') && SameRoots(es, es') && RanksPaidFor(es)
    requires forall j :: 0 <= j < |es| ==> RankAt(es', j) == RankAt(es, j)
    ensures RanksPaidFor(es')
  {
    forall r | 0 <= r < |es'| && Up(es', r) == r
      ensures Pow2(RankAt(es', r)) <= |Class(es', r)|
    {
      assert Root(es', r) == r == Root(es, r);
      assert Class(es', r) == Class(es, r);
    }
  }

  lemma AppendKeepsPaidFor(es: seq<Entry>, id: int32)
    requires IsForest(es) && RanksPaidFor(es)
    ensures IsForest(es + [Entry(|es|, 0, id)]) && RanksPaidFor(es + [Entry(|es|, 0, id)])
  {
    AppendKeepsRoots(es, id);
    var es' := es + [Entry(|es|, 0, id)];
    forall r | 0 <= r < |es'| && Up(es', r) == r
      ensures Pow2(RankAt(es', r)) <= |Class(es', r)|
    {
      if r == |es| {
        assert r in Class(es', r);
        SubsetSize({r}, Class(es', r));
      } else {
        assert Up(es, r) == r;
        assert Class(es, r) <= Class(es', r);
        SubsetSize(Class(es, r), Class(es', r));
      }
    }
  }

  // The rank the surviving root gets.
  function LinkedRank(es: seq<Entry>, x: nat, y: nat): nat
    requires x < |es| && y < |es|
  {
    if RankAt(es, x) == RankAt(es, y) then RankAt(es, x) + 1 else RankAt(es, x)
  }

  lemma LinkClassSize(es: seq<Entry>, x: nat, y: nat, rank: nat, r: nat)
    requires IsForest(es) && x < |es| && y < |es| && x != y
    requires Up(es, x) == x && Up(es, y) == y && RankAt(es, x) <= rank && RankAt(es, y) < rank
    requires r != y
    ensures IsForest(Link(es, x, y, rank))
    ensures |Class(Link(es, x, y, rank), r)|
         == |Class(es, r)| + if r == x then |Class(es, y)| else 0
  {
    var es' := Link(es, x, y, rank);
    LinkIsForest(es, x, y, rank);
    forall i: nat | i < |es| ensures Root(es', i) == if Root(es, i) == y then x else Root(es, i) {
      LinkRootAt(es, x, y, rank, i);
    }
    if r == x {
      assert Class(es', x) == Class(es, x) + Class(es, y);
      assert Class(es, x) !! Class(es, y);
    } else {
      assert Class(es', r) == Class(es, r);
    }
  }

  lemma LinkPaysFor(es: seq<Entry>, x: nat, y: nat, r: nat)
    requires IsForest(es) && x < |es| && y < |es| && x != y && r < |es| && r != y
    requires Up(es, x) == x && Up(es, y) == y && RankAt(es, y) <= RankAt(es, x)
    requires Pow2(RankAt(es, r)) <= |Class(es, r)| && Pow2(RankAt(es, y)) <= |Class(es, y)|
    ensures IsForest(Link(es, x, y, LinkedRank(es, x, y)))
    ensures Pow2(RankAt(Link(es, x, y, LinkedRank(es, x, y)), r))
         <= |Class(Link(es, x, y, LinkedRank(es, x, y)), r)|
  {
    LinkClassSize(es, x, y, LinkedRank(es, x, y), r);
  }

  lemma LinkKeepsPaidFor(es: seq<Entry>, x: nat, y: nat)
    requires IsForest(es) && RanksPaidFor(es) && x < |es| && y < |es| && x != y
    requires Up(es, x) == x && Up(es, y) == y && RankAt(es, y) <= RankAt(es, x)
    ensures IsForest(Link(es, x, y, LinkedRank(es, x, y)))
    ensures RanksPaidFor(Link(es, x, y, LinkedRank(es, x, y)))
  {
    var es' := Link(es, x, y, LinkedRank(es, x, y));
    LinkMergesRoots(es, x, y, LinkedRank(es, x, y));
    forall r | 0 <= r < |es| && Up(es', r) == r
      ensures Pow2(RankAt(es', r)) <= |Class(es', r)|
    {
      var cr, cy := Class(es, r), Class(es, y);
      LinkPaysFor(es, x, y, r);
    }
  }

  // No rank, and hence no number of upward steps, exceeds log2 of the size.
  lemma RankBound(es: seq<Entry>, i: nat)
    requires IsForest(es) && RanksPaidFor(es) && i < |es|
    ensures Pow2(RankAt(es, i)) <= |es|
  {
    var r := Root(es, i);
    RangeSize(Class(es, r), 0, |es|);
    Pow2Monotone(RankAt(es, i), RankAt(es, r));
  }

  // ---- Identifiers -----------------------------------------------------------

  // The map holds each element's identifier with its index, and nothing else.
  ghost predicate Indexed(es: seq<Entry>, ids: map<int32, nat>)
    decreases |es|
  {
    if es == [] then ids == map[]
    else
      var last := |es| - 1;
      && es[last].id in ids
      && ids[es[last].id] == last
      && Indexed(es[..last], ids - {es[last].id})
  }

  lemma {:induction false} IndexOfId(es: seq<Entry>, ids: map<int32, nat>, i: nat)
    requires Indexed(es, ids) && i < |es|
    ensures es[i].id in ids && ids[es[i].id] == i
    decreases |es|
  {
    var last := |es| - 1;
    if i < last { IndexOfId(es[..last], ids - {es[last].id}, i); }
  }

  lemma {:induction false} IdAtIndex(es: seq<Entry>, ids: map<int32, nat>, id: int32)
    requires Indexed(es, ids) && id in ids
    ensures ids[id] < |es| && es[ids[id]].id == id
    decreases |es|
  {
    var last := |es| - 1;
    if id != es[last].id { IdAtIndex(es[..last], ids - {es[last].id}, id); }
  }

  lemma AppendIndexed(es: seq<Entry>, ids: map<int32, nat>, e: Entry)
    requires Indexed(es, ids) && e.id !in ids
    ensures Indexed(es + [e], ids[e.id := |es|])
  {
    assert (es + [e])[..|es|] == es;
    assert ids[e.id := |es|] - {e.id} == ids;
  }

  lemma {:induction false} IndexedByIdsOnly(es: seq<Entry>, es': seq<Entry>, ids: map<int32, nat>)
    requires Indexed(es, ids) && |es'| == |es|
    requires forall i {:trigger es'[i].id} :: 0 <= i < |es| ==> es'[i].id == es[i].id
    ensures Indexed(es', ids)
    decreases |es|
  {
    if es != [] {
      var last := |es| - 1;
      IndexedByIdsOnly(es[..last], es'[..last], ids - {es[last].id});
    }
  }

  // Identifiers are distinct 32-bit keys, so there are at most 2^32 elements.
  lemma IdsBoundSize(es: seq<Entry>, ids: map<int32, nat>)
    requires Indexed(es, ids)
    ensures |es| <= 0x1_0000_0000
  {
    OneIdEach(es, ids);
    RangeSize(ids.Keys, INT32_MIN, 0x1_0000_0000);
  }

  lemma {:induction false} OneIdEach(es: seq<Entry>, ids: map<int32, nat>)
    requires Indexed(es, ids)
    ensures |ids| == |es|
    decreases |es|
  {
    if es != [] {
      var last := |es| - 1;
      OneIdEach(es[..last], ids - {es[last].id});
      assert ids.Keys == (ids - {es[last].id}).Keys + {es[last].id};
    }
  }

  // ---- The equivalence closure of a set of pairs -------------------------------

  ghost predicate Adjacent(edges: set<Pair>, a: nat, b: nat) {
    (a, b) in edges || (b, a) in edges
  }

  // The k-th link of a chain.
  ghost predicate Linked(edges: set<Pair>, c: seq<nat>, k: nat)
    requires 0 < k < |c|
  {
    Adjacent(edges, c[k - 1], c[k])
  }

  ghost predicate IsChain(edges: set<Pair>, c: seq<nat>) {
    && |c| > 0
    && forall k {:trigger Linked(edges, c, k)} :: 0 < k < |c| ==> Linked(edges, c, k)
  }

  // The smallest equivalence relation that contains the pairs: a and b are
  // joined by a chain of pairs, each used in either direction.
  ghost predicate Related(edges: set<Pair>, a: nat, b: nat) {
    exists c :: IsChain(edges, c) && c[0] == a && c[|c| - 1] == b
  }

  lemma RelatedReflexive(edges: set<Pair>, a: nat)
    ensures Related(edges, a, a)
  {
    assert IsChain(edges, [a]);
  }

  lemma RelatedStep(edges: set<Pair>, a: nat, b: nat)
    requires Adjacent(edges, a, b)
    ensures Related(edges, a, b)
  {
    assert IsChain(edges, [a, b]);
  }

  lemma RelatedTransitive(edges: set<Pair>, a: nat, b: nat, c: nat)
    requires Related(edges, a, b) && Related(edges, b, c)
    ensures Related(edges, a, c)
  {
    var p :| IsChain(edges, p) && p[0] == a && p[|p| - 1] == b;
    var q :| IsChain(edges, q) && q[0] == b && q[|q| - 1] == c;
    var s := p + q[1..];
    forall k | 0 < k < |s| ensures Linked(edges, s, k) {
      if k < |p| {
        assert Linked(edges, p, k);
      } else {
        assert Linked(edges, q, k - |p| + 1);
        assert s[k] == q[k - |p| + 1] && s[k - 1] == q[k - |p|];
      }
    }
    assert IsChain(edges, s) && s[0] == a && s[|s| - 1] == c;
  }

  lemma RelatedSymmetric(edges: set<Pair>, a: nat, b: nat)
    requires Related(edges, a, b)
    ensures Related(edges, b, a)
  {
    var p :| IsChain(edges, p) && p[0] == a && p[|p| - 1] == b;
    var s := seq(|p|, k requires 0 <= k < |p| => p[|p| - 1 - k]);
    forall k | 0 < k < |s| ensures Linked(edges, s, k) {
      assert Linked(edges, p, |p| - k);
    }
    assert IsChain(edges, s) && s[0] == b && s[|s| - 1] == a;
  }

  // Any property of pairs that is an equivalence and contains the pairs
  // contains the closure: used with "has the same root".
  lemma {:induction false} ChainWithinLabels(edges: set<Pair>, c: seq<nat>, labels: seq<nat>)
    requires IsChain(edges, c)
    requires forall p :: p in edges ==> p.0 < |labels| && p.1 < |labels| && labels[p.0] == labels[p.1]
    requires c[0] < |labels|
    ensures c[|c| - 1] < |labels| && labels[c[|c| - 1]] == labels[c[0]]
    decreases |c|
  {
    if |c| > 1 {
      assert Linked(edges, c, 1);
      forall k | 0 < k < |c[1..]| ensures Linked(edges, c[1..], k) {
        assert Linked(edges, c, k + 1);
      }
      ChainWithinLabels(edges, c[1..], labels);
    }
  }

  lemma RelatedMonotone(small: set<Pair>, large: set<Pair>, a: nat, b: nat)
    requires small <= large && Related(small, a, b)
    ensures Related(large, a, b)
  {
    var p :| IsChain(small, p) && p[0] == a && p[|p| - 1] == b;
    forall k | 0 < k < |p| ensures Linked(large, p, k) {
      assert Linked(small, p, k);
    }
    assert IsChain(large, p);
  }

  // ---- Forests that represent a closure ------------------------------------------

  // Two elements have the same root exactly when the closure relates them.
  ghost predicate Represents(es: seq<Entry>, edges: set<Pair>)
    requires IsForest(es)
  {
    && (forall p :: p in edges ==> p.0 < |es| && p.1 < |es|)
    && (forall a, b {:trigger Root(es, a), Root(es, b), Related(edges, a, b)} :: 0 <= a < |es| && 0 <= b < |es| ==>
          (Root(es, a) == Root(es, b) <==> Related(edges, a, b)))
  }

  lemma SameRootsRepresent(es: seq<Entry>, es': seq<Entry>, edges: set<Pair>)
    requires IsForest(es) && IsForest(es') && SameRoots(es, es') && Represents(es, edges)
    ensures Represents(es', edges)
  {
  }

  ghost function RootLabels(es: seq<Entry>): seq<nat>
    requires IsForest(es)
  {
    seq(|es|, i requires 0 <= i < |es| => Root(es, i))
  }

  // Pairs whose ends already share a root only relate elements that share one.
  lemma RelatedOnlyWithinRoots(es: seq<Entry>, edges: set<Pair>, a: nat, b: nat)
    requires IsForest(es) && a < |es| && b < |es|
    requires forall p :: p in edges ==> p.0 < |es| && p.1 < |es| && Root(es, p.0) == Root(es, p.1)
    requires Related(edges, a, b)
    ensures Root(es, a) == Root(es, b)
  {
    var c :| IsChain(edges, c) && c[0] == a && c[|c| - 1] == b;
    ChainWithinLabels(edges, c, RootLabels(es));
  }

  lemma EdgesShareRoots(es: seq<Entry>, edges: set<Pair>)
    requires IsForest(es) && Represents(es, edges)
    ensures forall p :: p in edges ==> p.0 < |es| && p.1 < |es| && Root(es, p.0) == Root(es, p.1)
  {
    forall p | p in edges ensures Root(es, p.0) == Root(es, p.1) {
      assert (p.0, p.1) == p;
      RelatedStep(edges, p.0, p.1);
    }
  }

  // Uniting two elements that already share a root adds nothing.
  lemma RedundantPairRepresents(es: seq<Entry>, edges: set<Pair>, u: nat, v: nat)
    requires IsForest(es) && Represents(es, edges) && u < |es| && v < |es|
    requires Root(es, u) == Root(es, v)
    ensures Represents(es, edges + {(u, v)})
  {
    var edges' := edges + {(u, v)};
    EdgesShareRoots(es, edges);
    forall a, b | 0 <= a < |es| && 0 <= b < |es|
      ensures Root(es, a) == Root(es, b) <==> Related(edges', a, b)
    {
      if Root(es, a) == Root(es, b) { RelatedMonotone(edges, edges', a, b); }
      if Related(edges', a, b) { RelatedOnlyWithinRoots(es, edges', a, b); }
    }
  }

  // Elements that a link puts under one root are related by the enlarged closure.
  lemma MergedAreRelated(es: seq<Entry>, edges: set<Pair>, u: nat, v: nat, a: nat, b: nat)
    requires IsForest(es) && Represents(es, edges) && u < |es| && v < |es| && a < |es| && b < |es|
    requires Root(es, a) == Root(es, u) && Root(es, b) == Root(es, v)
    ensures Related(edges + {(u, v)}, a, b)
  {
    var edges' := edges + {(u, v)};
    assert Related(edges, a, u) && Related(edges, v, b);
    RelatedMonotone(edges, edges', a, u);
    RelatedStep(edges', u, v);
    RelatedMonotone(edges, edges', v, b);
    RelatedTransitive(edges', a, u, v);
    RelatedTransitive(edges', a, v, b);
  }

  // Linking the roots of two elements represents the closure with that pair added.
  lemma LinkRepresents(es: seq<Entry>, edges: set<Pair>, u: nat, v: nat, x: nat, y: nat, rank: nat)
    requires IsForest(es) && Represents(es, edges) && u < |es| && v < |es|
    requires x < |es| && y < |es| && x != y && RankAt(es, x) <= rank && RankAt(es, y) < rank
    requires Up(es, x) == x && Up(es, y) == y
    requires (Root(es, u) == x && Root(es, v) == y) || (Root(es, u) == y && Root(es, v) == x)
    ensures IsForest(Link(es, x, y, rank))
    ensures Represents(Link(es, x, y, rank), edges + {(u, v)})
  {
    var es' := Link(es, x, y, rank);
    var edges' := edges + {(u, v)};
    LinkMergesRoots(es, x, y, rank);
    EdgesShareRoots(es, edges);
    forall a, b | 0 <= a < |es'| && 0 <= b < |es'|
      ensures Root(es', a) == Root(es', b) <==> Related(edges', a, b)
    {
      if Root(es', a) == Root(es', b) { LinkedAreRelated(es, edges, u, v, x, y, a, b); }
      if Related(edges', a, b) { RelatedOnlyWithinRoots(es', edges', a, b); }
    }
  }

  lemma LinkedAreRelated(es: seq<Entry>, edges: set<Pair>, u: nat, v: nat, x: nat, y: nat, a: nat, b: nat)
    requires IsForest(es) && Represents(es, edges) && u < |es| && v < |es| && a < |es| && b < |es|
    requires (Root(es, u) == x && Root(es, v) == y) || (Root(es, u) == y && Root(es, v) == x)
    requires var ra, rb := Root(es, a), Root(es, b); (if ra == y then x else ra) == (if rb == y then x else rb)
    ensures Related(edges + {(u, v)}, a, b)
  {
    if Root(es, a) == Root(es, b) {
      assert Related(edges, a, b);
      RelatedMonotone(edges, edges + {(u, v)}, a, b);
    } else if Root(es, a) == Root(es, u) {
      MergedAreRelated(es, edges, u, v, a, b);
    } else {
      MergedAreRelated(es, edges, u, v, b, a);
      RelatedSymmetric(edges + {(u, v)}, b, a);
    }
  }

  lemma AppendRepresents(es: seq<Entry>, edges: set<Pair>, id: int32)
    requires IsForest(es) && Represents(es, edges)
    ensures IsForest(es + [Entry(|es|, 0, id)])
    ensures Represents(es + [Entry(|es|, 0, id)], edges)
  {
    var es' := es + [Entry(|es|, 0, id)];
    AppendKeepsRoots(es, id);
    EdgesShareRoots(es, edges);
    forall a, b | 0 <= a < |es'| && 0 <= b < |es'|
      ensures Root(es', a) == Root(es', b) <==> Related(edges, a, b)
    {
      if a == b { RelatedReflexive(edges, a); }
      if Related(edges, a, b) { RelatedOnlyWithinRoots(es', edges, a, b); }
    }
  }

  // Two structures that performed the same unions answer every query alike.
  lemma RepresentationsAgree(es: seq<Entry>, fs: seq<Entry>, edges: set<Pair>, a: nat, b: nat)
    requires IsForest(es) && IsForest(fs) && Represents(es, edges) && Represents(fs, edges)
    requires a < |es| && b < |es| && |es| == |fs|
    ensures Root(es, a) == Root(es, b) <==> Root(fs, a) == Root(fs, b)
  {
    assert Root(es, a) == Root(es, b) <==> Related(edges, a, b);
  }
}
