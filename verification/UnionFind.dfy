// Disjoint sets over a flat buffer: path halving, union by rank, and a map
// from identifiers to indices.
module UnionFind {
  import opened Machine
  import opened Forest

  // static_cast<uint32_t>
  function ToUint32(value: nat): nat {
    value % 0x1_0000_0000
  }

  // Increment of a uint16_t
  function NextUint16(value: nat): nat {
    (value + 1) % 0x1_0000
  }

  lemma RankFitsUint16(es: seq<Entry>, i: nat)
    requires IsForest(es) && RanksPaidFor(es) && i < |es| <= 0x1_0000_0000
    ensures RankAt(es, i) <= 32
  {
    RankBound(es, i);
    Pow2_32();
    if RankAt(es, i) > 32 { Pow2Monotone(33, RankAt(es, i)); }
  }

  // What a find may change: parents only, and no element's root.
  ghost predicate OnlyParentsMoved(es: seq<Entry>, es': seq<Entry>)
    requires IsForest(es) && IsForest(es')
  {
    && SameRoots(es, es')
    && (forall j {:trigger RankAt(es', j)} :: 0 <= j < |es| ==> RankAt(es', j) == RankAt(es, j))
    && (forall j {:trigger es'[j].id} :: 0 <= j < |es| ==> es'[j].id == es[j].id)
  }

  // The invariant of every reachable state.
  ghost predicate Sound(es: seq<Entry>, ids: map<int32, nat>, united: set<Pair>) {
    && IsForest(es)
    && RanksPaidFor(es)
    && Indexed(es, ids)
    && Represents(es, united)
  }

  lemma AppendSound(es: seq<Entry>, ids: map<int32, nat>, united: set<Pair>, id: int32)
    requires Sound(es, ids, united) && id !in ids
    ensures Sound(es + [Entry(|es|, 0, id)], ids[id := |es|], united)
    ensures |es| < 0x1_0000_0000
  {
    AppendKeepsPaidFor(es, id);
    AppendRepresents(es, united, id);
    AppendIndexed(es, ids, Entry(|es|, 0, id));
    IdsBoundSize(es + [Entry(|es|, 0, id)], ids[id := |es|]);
  }

  // One halving step: the grandparent is a valid new parent and lies higher.
  lemma HalveSound(es: seq<Entry>, ids: map<int32, nat>, united: set<Pair>, i: nat)
    requires Sound(es, ids, united) && i < |es| && Up(es, i) != i
    ensures var g := Up(es, Up(es, i));
            && g < |es| < 0x1_0000_0001 && RankAt(es, i) < RankAt(es, g) && Root(es, g) == Root(es, i)
            && Sound(Reparent(es, i, g), ids, united)
            && OnlyParentsMoved(es, Reparent(es, i, g))
  {
    var p := Up(es, i);
    var g := Up(es, p);
    ReparentKeepsRoots(es, i, g);
    SameRootsKeepPaidFor(es, Reparent(es, i, g));
    SameRootsRepresent(es, Reparent(es, i, g), united);
    IndexedByIdsOnly(es, Reparent(es, i, g), ids);
    IdsBoundSize(es, ids);
  }

  lemma LinkSound(es: seq<Entry>, ids: map<int32, nat>, united: set<Pair>, u: nat, v: nat, x: nat, y: nat)
    requires Sound(es, ids, united) && u < |es| && v < |es|
    requires x < |es| && y < |es| && x != y && RankAt(es, y) <= RankAt(es, x)
    requires (Root(es, u) == x && Root(es, v) == y) || (Root(es, u) == y && Root(es, v) == x)
    ensures |es| < 0x1_0000_0001 && RankAt(es, x) <= 32
    ensures var linked := Link(es, x, y, LinkedRank(es, x, y));
            && Sound(linked, ids, united + {(u, v)})
            && Root(linked, u) == x == Root(linked, v)
  {
    IdsBoundSize(es, ids);
    RankFitsUint16(es, x);
    IndexedByIdsOnly(es, Link(es, x, y, LinkedRank(es, x, y)), ids);
    LinkKeepsPaidFor(es, x, y);
    LinkMergesRoots(es, x, y, LinkedRank(es, x, y));
    LinkRepresents(es, united, u, v, x, y, LinkedRank(es, x, y));
  }

  // The two narrow writes of a link lose nothing.
  lemma LinkWritesAreExact(es: seq<Entry>, x: nat, y: nat)
    requires x < |es| < 0x1_0000_0001 && y < |es| && x != y && RankAt(es, x) <= 32
    ensures var hung := es[y := es[y].(parent := ToUint32(x))];
            && (hung[x].rank == hung[y].rank ==>
                  hung[x := hung[x].(rank := NextUint16(hung[x].rank))] == Link(es, x, y, LinkedRank(es, x, y)))
            && (hung[x].rank != hung[y].rank ==> hung == Link(es, x, y, LinkedRank(es, x, y)))
  {
    assert ToUint32(x) == x && NextUint16(es[x].rank) == es[x].rank + 1;
  }

  lemma OnlyParentsMovedTwice(es: seq<Entry>, es': seq<Entry>, es'': seq<Entry>)
    requires IsForest(es) && IsForest(es') && IsForest(es'')
    requires OnlyParentsMoved(es, es') && OnlyParentsMoved(es', es'')
    ensures OnlyParentsMoved(es, es'')
  {
    forall j | 0 <= j < |es| ensures Root(es'', j) == Root(es, j) {
      assert Root(es'', j) == Root(es', j);
    }
    forall j | 0 <= j < |es| ensures RankAt(es'', j) == RankAt(es, j) {
      assert RankAt(es'', j) == RankAt(es', j);
    }
  }

  class FlatUnionFind {
    var data: seq<Entry>
    var idToIndex: map<int32, nat>
    // The index pairs united since construction or the last Clear.
    ghost var united: set<Pair>

    ghost predicate Valid()
      reads this
    {
      Sound(data, idToIndex, united)
    }

    // What finds leave alone.
    twostate predicate SameElements()
      requires old(Valid()) && Valid()
      reads this
    {
      && idToIndex == old(idToIndex) && united == old(united)
      && OnlyParentsMoved(old(data), data)
    }

    constructor ()
      ensures Valid()
      ensures data == [] && idToIndex == map[] && united == {}
    {
      data := [];
      idToIndex := map[];
      united := {};
    }

    method MakeSet(id: int32) returns (idx: nat)
      requires Valid()
      modifies this
      ensures Valid()
      ensures idToIndex == if id in old(idToIndex) then old(idToIndex) else old(idToIndex)[id := |old(data)|]
      ensures |data| == if id in old(idToIndex) then |old(data)| else |old(data)| + 1
      ensures idx == idToIndex[id] < |data|
      ensures id in old(idToIndex) ==> data == old(data)
      ensures id !in old(idToIndex) ==> data == old(data) + [Entry(|old(data)|, 0, id)]
      ensures united == old(united)
    {
      if id in idToIndex {
        IdAtIndex(data, idToIndex, id);
        return idToIndex[id];
      }
      AppendSound(data, idToIndex, united, id);
      idx := |data|;
      data := data + [Entry(ToUint32(idx), 0, id)];
      idToIndex := idToIndex[id := idx];
    }

    // One step of path halving: idx now points to its grandparent.
    method Halve(idx: nat) returns (grandparent: nat)
      requires Valid() && idx < |data| && Up(data, idx) != idx
      modifies this`data
      ensures Valid() && SameElements()
      ensures grandparent < |data| && Root(old(data), grandparent) == Root(old(data), idx)
      ensures RankAt(old(data), idx) < RankAt(old(data), grandparent)
    {
      HalveSound(data, idToIndex, united, idx);
      grandparent := data[data[idx].parent].parent;
      data := data[idx := data[idx].(parent := ToUint32(grandparent))];
    }

    // Path halving. The root is at most log2(|data|) steps away.
    method Find(start: nat) returns (root: nat, ghost steps: nat)
      requires Valid() && start < |data|
      modifies this`data
      ensures Valid() && SameElements()
      ensures root == Root(data, start) == Root(old(data), start)
      ensures Pow2(steps) <= |data|
    {
      ghost var es := data;
      root := start;
      steps := 0;
      while data[root].parent != root
        invariant Valid() && OnlyParentsMoved(es, data)
        invariant root < |data| && Root(es, root) == Root(es, start)
        invariant steps <= RankAt(es, root)
        decreases RankAt(es, Root(es, start)) - RankAt(es, root)
      {
        ghost var before := data;
        assert Up(data, root) == data[root].parent;
        assert RankAt(data, root) == RankAt(es, root) && Root(data, root) == Root(es, root);
        root := Halve(root);
        assert RankAt(before, root) == RankAt(es, root) && Root(before, root) == Root(es, root);
        OnlyParentsMovedTwice(es, before, data);
        steps := steps + 1;
      }
      assert Root(data, root) == Up(data, root) == root;
      RankBound(es, root);
      Pow2Monotone(steps, RankAt(es, root));
    }

    method FindById(id: int32) returns (root: nat)
      requires Valid()
      modifies this
      ensures Valid()
      ensures id in idToIndex && idToIndex[id] < |data| && root == Root(data, idToIndex[id])
      ensures Extends(old(idToIndex), idToIndex) && idToIndex.Keys == old(idToIndex).Keys + {id}
      ensures united == old(united)
    {
      var idx := MakeSet(id);
      ghost var steps;
      root, steps := Find(idx);
    }

    // Union by rank: the classes of x and y become one and no other changes.
    method Unite(x: nat, y: nat) returns (root: nat)
      requires Valid() && x < |data| && y < |data|
      modifies this`united, this`data
      ensures Valid()
      ensures united == old(united) + {(x, y)}
      ensures |data| == |old(data)|
      ensures root == Root(data, x) == Root(data, y)
    {
      var a: nat, b: nat;
      ghost var s, t;
      a, s := Find(x);
      b, t := Find(y);
      if a == b {
        RedundantPairRepresents(data, united, x, y);
        united := united + {(x, y)};
        return a;
      }
      if data[a].rank < data[b].rank {
        a, b := b, a;
      }
      LinkSound(data, idToIndex, united, x, y, a, b);
      LinkWritesAreExact(data, a, b);
      data := data[b := data[b].(parent := ToUint32(a))];
      if data[a].rank == data[b].rank {
        data := data[a := data[a].(rank := NextUint16(data[a].rank))];
      }
      united := united + {(x, y)};
      root := a;
    }

    method UniteById(id1: int32, id2: int32) returns (root: nat)
      requires Valid()
      modifies this
      ensures Valid()
      ensures Extends(old(idToIndex), idToIndex) && idToIndex.Keys == old(idToIndex).Keys + {id1, id2}
      ensures united == old(united) + {(idToIndex[id1], idToIndex[id2])}
      ensures idToIndex[id1] < |data| && idToIndex[id2] < |data|
      ensures root == Root(data, idToIndex[id1]) == Root(data, idToIndex[id2])
    {
      var x, y := MakeBoth(id1, id2);
      root := Unite(x, y);
    }

    // Both identifiers have an element.
    method MakeBoth(id1: int32, id2: int32) returns (x: nat, y: nat)
      requires Valid()
      modifies this
      ensures Valid() && united == old(united)
      ensures Extends(old(idToIndex), idToIndex) && idToIndex.Keys == old(idToIndex).Keys + {id1, id2}
      ensures x == idToIndex[id1] < |data| && y == idToIndex[id2] < |data|
    {
      x := MakeSet(id1);
      y := MakeSet(id2);
    }

    method SameSet(x: nat, y: nat) returns (same: bool)
      requires Valid() && x < |data| && y < |data|
      modifies this`data
      ensures Valid() && SameElements()
      ensures same <==> Related(united, x, y)
    {
      var a: nat, b: nat;
      ghost var s, t;
      a, s := Find(x);
      b, t := Find(y);
      same := a == b;
    }

    // The identifiers of x's class, each once, in index order.
    method GetSet(x: nat) returns (ids: seq<int32>)
      requires Valid() && x < |data|
      modifies this`data
      ensures Valid() && SameElements()
      ensures forall id: int32 :: id in ids <==> id in idToIndex && Related(united, x, idToIndex[id])
      ensures InIndexOrder(ids, idToIndex)
    {
      ids := [];
      ghost var es := data;
      var root: nat;
      ghost var s;
      root, s := Find(x);
      for i := 0 to |data|
        invariant Valid() && OnlyParentsMoved(es, data)
        invariant idToIndex == old(idToIndex) && united == old(united)
        invariant ids == MemberIds(es, root, i)
      {
        ghost var before := data;
        var r: nat;
        r, s := Find(i);
        OnlyParentsMovedTwice(es, before, data);
        assert r == Root(es, i);
        SameId(es, data, idToIndex, i);
        if r == root {
          ids := ids + [data[i].id];
        }
      }
      IndexesInRange(es, idToIndex);
      MemberIdsAre(es, idToIndex, root, |es|);
      MemberIdsInOrder(es, idToIndex, root, |es|);
      MembersAreRelated(es, idToIndex, united, x);
    }

    // First every identifier gets its element, then the unions run.
    method BatchUnite(pairs: seq<(int32, int32)>)
      requires Valid()
      modifies this
      ensures Valid()
      ensures forall k :: 0 <= k < |pairs| ==> pairs[k].0 in idToIndex && pairs[k].1 in idToIndex
      ensures Extends(old(idToIndex), idToIndex)
      ensures united == old(united) + IndexPairs(pairs, idToIndex)
    {
      for k := 0 to |pairs|
        invariant Valid() && united == old(united)
        invariant Extends(old(idToIndex), idToIndex)
        invariant forall j :: 0 <= j < k ==> pairs[j].0 in idToIndex && pairs[j].1 in idToIndex
      {
        var a, b := MakeBoth(pairs[k].0, pairs[k].1);
      }
      ghost var ids := idToIndex;
      for k := 0 to |pairs|
        invariant Valid() && idToIndex == ids
        invariant united == old(united) + IndexPairs(pairs[..k], ids)
      {
        IndexPairsAppend(pairs[..k], pairs[k], ids);
        var r := UniteById(pairs[k].0, pairs[k].1);
        assert idToIndex == ids;
        assert pairs[..k + 1] == pairs[..k] + [pairs[k]];
      }
      assert pairs[..|pairs|] == pairs;
    }

    method Clear()
      requires Valid()
      modifies this
      ensures Valid()
      ensures data == [] && idToIndex == map[] && united == {}
    {
      data := [];
      idToIndex := map[];
      united := {};
    }
  }

  // The identifiers of the first n elements that have this root.
  ghost function MemberIds(es: seq<Entry>, root: nat, n: nat): seq<int32>
    requires IsForest(es) && n <= |es|
  {
    if n == 0 then []
    else MemberIds(es, root, n - 1) + if Root(es, n - 1) == root then [es[n - 1].id] else []
  }

  lemma SameId(es: seq<Entry>, es': seq<Entry>, ids: map<int32, nat>, i: nat)
    requires Indexed(es, ids) && Indexed(es', ids) && i < |es'|
    ensures i < |es| && es'[i].id == es[i].id
  {
    IndexOfId(es', ids, i);
    IdAtIndex(es, ids, es'[i].id);
  }

  lemma IndexesInRange(es: seq<Entry>, ids: map<int32, nat>)
    requires Indexed(es, ids)
    ensures forall id :: id in ids ==> ids[id] < |es|
  {
    forall id | id in ids ensures ids[id] < |es| { IdAtIndex(es, ids, id); }
  }

  // Exactly the identifiers of the class below n ...
  lemma {:induction false} MemberIdsAre(es: seq<Entry>, ids: map<int32, nat>, root: nat, n: nat)
    requires IsForest(es) && n <= |es| && Indexed(es, ids)
    requires forall id :: id in ids ==> ids[id] < |es|
    ensures forall id :: id in MemberIds(es, root, n) <==>
              id in ids && ids[id] < n && Root(es, ids[id]) == root
  {
    if n > 0 {
      MemberIdsAre(es, ids, root, n - 1);
      IndexOfId(es, ids, n - 1);
      forall id | id in ids && ids[id] == n - 1 ensures id == es[n - 1].id { IdAtIndex(es, ids, id); }
    }
  }

  // ... in strictly increasing index order, so each occurs once.
  ghost predicate InIndexOrder(members: seq<int32>, ids: map<int32, nat>) {
    && (forall j :: 0 <= j < |members| ==> members[j] in ids)
    && (forall j, k :: 0 <= j < k < |members| ==> ids[members[j]] < ids[members[k]])
  }

  lemma AppendInIndexOrder(members: seq<int32>, ids: map<int32, nat>, id: int32)
    requires InIndexOrder(members, ids) && id in ids
    requires forall m :: m in members ==> ids[m] < ids[id]
    ensures InIndexOrder(members + [id], ids)
  {
    assert forall j :: 0 <= j < |members| ==> members[j] in members;
  }

  lemma {:induction false} MemberIdsInOrder(es: seq<Entry>, ids: map<int32, nat>, root: nat, n: nat)
    requires IsForest(es) && n <= |es| && Indexed(es, ids)
    requires forall id :: id in ids ==> ids[id] < |es|
    ensures InIndexOrder(MemberIds(es, root, n), ids)
  {
    if n > 0 {
      MemberIdsInOrder(es, ids, root, n - 1);
      MemberIdsAre(es, ids, root, n - 1);
      IndexOfId(es, ids, n - 1);
      if Root(es, n - 1) == root {
        AppendInIndexOrder(MemberIds(es, root, n - 1), ids, es[n - 1].id);
      }
    }
  }

  lemma MembersAreRelated(es: seq<Entry>, ids: map<int32, nat>, united: set<Pair>, x: nat)
    requires Sound(es, ids, united) && x < |es|
    ensures forall id :: id in ids ==> ids[id] < |es|
    ensures forall id :: id in ids ==> (Root(es, ids[id]) == Root(es, x) <==> Related(united, x, ids[id]))
  {
    forall id | id in ids
      ensures ids[id] < |es| && (Root(es, ids[id]) == Root(es, x) <==> Related(united, x, ids[id]))
    {
      IdAtIndex(es, ids, id);
    }
  }

  // Every identifier keeps its index.
  ghost predicate Extends(ids: map<int32, nat>, ids': map<int32, nat>) {
    forall id :: id in ids ==> id in ids' && ids'[id] == ids[id]
  }

  ghost function IndexPairs(pairs: seq<(int32, int32)>, ids: map<int32, nat>): set<Pair>
    requires forall k :: 0 <= k < |pairs| ==> pairs[k].0 in ids && pairs[k].1 in ids
  {
    set k | 0 <= k < |pairs| :: (ids[pairs[k].0], ids[pairs[k].1])
  }

  lemma IndexPairsAppend(pairs: seq<(int32, int32)>, p: (int32, int32), ids: map<int32, nat>)
    requires forall k :: 0 <= k < |pairs| ==> pairs[k].0 in ids && pairs[k].1 in ids
    requires p.0 in ids && p.1 in ids
    ensures IndexPairs(pairs + [p], ids) == IndexPairs(pairs, ids) + {(ids[p.0], ids[p.1])}
  {
    var more := pairs + [p];
    assert more[|pairs|] == p;
    forall e | e in IndexPairs(pairs, ids) ensures e in IndexPairs(more, ids) {
      var k :| 0 <= k < |pairs| && e == (ids[pairs[k].0], ids[pairs[k].1]);
      assert more[k] == pairs[k];
    }
  }
}
