// Breadth-first search over the call graph: traversal with a depth limit and
// the shortest call path.
module CallGraph {
  import opened Machine

  type Address = nat

  const BADADDR: Address := 0xFFFF_FFFF_FFFF_FFFF

  // The direct callees (or callers) of each known function, in listing order.
  type Graph = map<Address, seq<Address>>

  function Neighbors(g: Graph, v: Address): seq<Address> {
    if v in g then g[v] else []
  }

  predicate Edge(g: Graph, v: Address, w: Address) {
    w in Neighbors(g, v) && w != BADADDR
  }

  // w is reached from s by exactly n calls.
  ghost predicate Walk(g: Graph, s: Address, w: Address, n: nat)
    decreases n
  {
    if n == 0 then s == w else exists v :: Walk(g, s, v, n - 1) && Edge(g, v, w)
  }

  lemma WalkStep(g: Graph, s: Address, v: Address, w: Address, n: nat)
    requires Walk(g, s, v, n) && Edge(g, v, w)
    ensures Walk(g, s, w, n + 1)
  {
  }

  // ---- Finiteness ---------------------------------------------------------------------

  ghost function Universe(g: Graph, s: Address): set<Address> {
    {s} + set v, w | v in g && w in g[v] :: w
  }

  lemma EdgeInUniverse(g: Graph, s: Address, v: Address, w: Address)
    requires Edge(g, v, w)
    ensures w in Universe(g, s)
  {
    assert v in g && w in g[v];
  }

  lemma WalkInUniverse(g: Graph, s: Address, v: Address, n: nat)
    requires Walk(g, s, v, n)
    ensures v in Universe(g, s)
  {
    if n > 0 {
      var u :| Walk(g, s, u, n - 1) && Edge(g, u, v);
      EdgeInUniverse(g, s, u, v);
    }
  }

  // ---- The invariant of the search ---------------------------------------------------------

  type Queue = seq<(Address, int)>

  // dist records every visited function with its true distance from s.
  ghost predicate DistOk(g: Graph, s: Address, dist: map<Address, nat>) {
    && s in dist && dist[s] == 0
    && (forall v {:trigger dist[v]} :: v in dist ==>
          v != BADADDR && Walk(g, s, v, dist[v]))
    && (forall v, n {:trigger Walk(g, s, v, n), dist[v]} :: v in dist && Walk(g, s, v, n) ==> dist[v] <= n)
  }

  // Queued functions lie at distance d or d + 1, nearer ones first.
  ghost predicate QueueOk(queue: Queue, dist: map<Address, nat>, d: int) {
    && (forall k :: 0 <= k < |queue| ==>
          queue[k].0 in dist && queue[k].1 == dist[queue[k].0] && d <= queue[k].1 <= d + 1)
    && (forall j, k :: 0 <= j < k < |queue| ==> queue[j].1 <= queue[k].1 && queue[j].0 != queue[k].0)
  }

  ghost predicate Queued(queue: Queue, v: Address) {
    exists k :: 0 <= k < |queue| && queue[k].0 == v
  }

  // Every function already handled has had its neighbours visited, except those
  // at the depth limit and the one in hand.
  ghost predicate Closed(g: Graph, dist: map<Address, nat>, queue: Queue, inHand: Option<Address>, maxDepth: int) {
    forall v, w {:trigger Edge(g, v, w), dist[v]} ::
      v in dist && Edge(g, v, w) && !Queued(queue, v) && inHand != Some(v) && dist[v] < maxDepth ==> w in dist
  }

  // Whatever lies nearer than everything pending has been visited.
  lemma {:induction false} NearIsVisited(g: Graph, s: Address, dist: map<Address, nat>, queue: Queue,
                                         inHand: Option<Address>, maxDepth: int, level: nat, w: Address, n: nat)
    requires DistOk(g, s, dist) && Closed(g, dist, queue, inHand, maxDepth)
    requires forall k :: 0 <= k < |queue| ==> queue[k].0 in dist && level <= dist[queue[k].0]
    requires inHand.Some? ==> inHand.value in dist && level <= dist[inHand.value]
    requires n <= level && n <= maxDepth && Walk(g, s, w, n)
    ensures w in dist
    decreases n
  {
    if n > 0 {
      var v :| Walk(g, s, v, n - 1) && Edge(g, v, w);
      NearIsVisited(g, s, dist, queue, inHand, maxDepth, level, v, n - 1);
      assert dist[v] <= n - 1;
    }
  }

  // A neighbour not seen before lies exactly one step farther.
  lemma DiscoverOk(g: Graph, s: Address, dist: map<Address, nat>, queue: Queue, maxDepth: int, v: Address, w: Address)
    requires DistOk(g, s, dist) && Closed(g, dist, queue, Some(v), maxDepth)
    requires v in dist && dist[v] < maxDepth && QueueOk(queue, dist, dist[v])
    requires Edge(g, v, w) && w !in dist && !Queued(queue, v)
    ensures DistOk(g, s, dist[w := dist[v] + 1])
    ensures QueueOk(queue + [(w, dist[v] + 1)], dist[w := dist[v] + 1], dist[v])
  {
    WalkStep(g, s, v, w, dist[v]);
    forall n | Walk(g, s, w, n) ensures dist[v] + 1 <= n {
      if n <= dist[v] {
        NearIsVisited(g, s, dist, queue, Some(v), maxDepth, dist[v], w, n);
      }
    }
  }

  // The functions of v's first j neighbours, and what was known, are visited.
  ghost predicate Expanded(g: Graph, dist: map<Address, nat>, v: Address, j: nat) {
    forall i :: 0 <= i < j && i < |Neighbors(g, v)| && Neighbors(g, v)[i] != BADADDR ==> Neighbors(g, v)[i] in dist
  }

  lemma ExpandedCloses(g: Graph, dist: map<Address, nat>, queue: Queue, v: Address, maxDepth: int)
    requires Closed(g, dist, queue, Some(v), maxDepth)
    requires v in dist && (dist[v] < maxDepth ==> Expanded(g, dist, v, |Neighbors(g, v)|))
    ensures Closed(g, dist, queue, None, maxDepth)
  {
  }

  // Taking the front off the queue puts it in hand.
  lemma PopOk(g: Graph, dist: map<Address, nat>, queue: Queue, maxDepth: int)
    requires queue != [] && QueueOk(queue, dist, queue[0].1) && Closed(g, dist, queue, None, maxDepth)
    ensures QueueOk(queue[1..], dist, queue[0].1)
    ensures !Queued(queue[1..], queue[0].0)
    ensures Closed(g, dist, queue[1..], Some(queue[0].0), maxDepth)
  {
    forall u | Queued(queue, u) && u != queue[0].0 ensures Queued(queue[1..], u) {
      var k :| 0 <= k < |queue| && queue[k].0 == u;
      assert queue[1..][k - 1].0 == u;
    }
  }

  lemma PushKeepsClosed(g: Graph, dist: map<Address, nat>, queue: Queue, v: Address, w: Address, d: nat, maxDepth: int)
    requires Closed(g, dist, queue, Some(v), maxDepth) && w !in dist
    ensures Closed(g, dist[w := d], queue + [(w, d as int)], Some(v), maxDepth)
  {
    var queue' := queue + [(w, d as int)];
    assert queue'[|queue|].0 == w;
    forall u | Queued(queue, u) ensures Queued(queue', u) {
      var k :| 0 <= k < |queue| && queue[k].0 == u;
      assert queue'[k].0 == u;
    }
  }

  // The whole invariant while func, at this depth, is in hand and its first j
  // neighbours have been looked at.
  ghost predicate InHand(g: Graph, s: Address, dist: map<Address, nat>, queue: Queue,
                         func: Address, depth: int, j: nat, maxDepth: int) {
    && DistOk(g, s, dist)
    && func in dist && dist[func] == depth < maxDepth
    && QueueOk(queue, dist, depth) && !Queued(queue, func)
    && Closed(g, dist, queue, Some(func), maxDepth)
    && Expanded(g, dist, func, j)
  }

  // And between functions.
  ghost predicate Between(g: Graph, s: Address, dist: map<Address, nat>, queue: Queue, maxDepth: int) {
    && DistOk(g, s, dist)
    && (queue != [] ==> QueueOk(queue, dist, queue[0].1))
    && Closed(g, dist, queue, None, maxDepth)
  }

  lemma StartBetween(g: Graph, s: Address, maxDepth: int)
    requires s != BADADDR
    ensures Between(g, s, map[s := 0], [(s, 0)], maxDepth)
  {
    assert [(s, 0)][0].0 == s;
    assert Queued([(s, 0)], s);
  }

  lemma TakeInHand(g: Graph, s: Address, dist: map<Address, nat>, queue: Queue, maxDepth: int)
    requires queue != [] && Between(g, s, dist, queue, maxDepth)
    ensures queue[0].1 < maxDepth ==> InHand(g, s, dist, queue[1..], queue[0].0, queue[0].1, 0, maxDepth)
    ensures queue[0].1 >= maxDepth ==> Between(g, s, dist, queue[1..], maxDepth)
    ensures queue[0].0 in dist && dist[queue[0].0] == queue[0].1 && !Queued(queue[1..], queue[0].0)
  {
    PopOk(g, dist, queue, maxDepth);
    if queue[0].1 >= maxDepth { ExpandedCloses(g, dist, queue[1..], queue[0].0, maxDepth); }
    QueueTailOk(dist, queue[1..], queue[0].1);
  }

  lemma QueueTailOk(dist: map<Address, nat>, queue: Queue, d: int)
    requires QueueOk(queue, dist, d)
    ensures queue != [] ==> QueueOk(queue, dist, queue[0].1)
  {
  }

  lemma SkipNeighbor(g: Graph, s: Address, dist: map<Address, nat>, queue: Queue,
                     func: Address, depth: int, j: nat, maxDepth: int)
    requires InHand(g, s, dist, queue, func, depth, j, maxDepth) && j < |Neighbors(g, func)|
    requires Neighbors(g, func)[j] == BADADDR || Neighbors(g, func)[j] in dist
    ensures InHand(g, s, dist, queue, func, depth, j + 1, maxDepth)
  {
  }

  lemma TakeNeighbor(g: Graph, s: Address, dist: map<Address, nat>, queue: Queue,
                     func: Address, depth: int, j: nat, maxDepth: int)
    requires InHand(g, s, dist, queue, func, depth, j, maxDepth) && j < |Neighbors(g, func)|
    requires Neighbors(g, func)[j] != BADADDR && Neighbors(g, func)[j] !in dist
    ensures depth >= 0 && Edge(g, func, Neighbors(g, func)[j])
    ensures InHand(g, s, dist[Neighbors(g, func)[j] := depth + 1], queue + [(Neighbors(g, func)[j], depth + 1)],
                   func, depth, j + 1, maxDepth)
  {
    var w := Neighbors(g, func)[j];
    DiscoverOk(g, s, dist, queue, maxDepth, func, w);
    PushKeepsClosed(g, dist, queue, func, w, depth + 1, maxDepth);
    var queue' := queue + [(w, depth + 1)];
    forall k | 0 <= k < |queue'| ensures queue'[k].0 != func {
      if k < |queue| { assert Queued(queue, queue[k].0); }
    }
  }

  lemma AllNeighborsTaken(g: Graph, s: Address, dist: map<Address, nat>, queue: Queue, func: Address, depth: int,
      maxDepth: int)
    requires InHand(g, s, dist, queue, func, depth, |Neighbors(g, func)|, maxDepth)
    ensures Between(g, s, dist, queue, maxDepth)
  {
    ExpandedCloses(g, dist, queue, func, maxDepth);
    QueueTailOk(dist, queue, depth);
  }

  // ---- Paths ---------------------------------------------------------------------------------

  ghost predicate CallAt(g: Graph, p: seq<Address>, k: nat)
    requires 0 < k < |p|
  {
    Edge(g, p[k - 1], p[k])
  }

  // A chain of calls from a to b.
  ghost predicate IsCallPath(g: Graph, p: seq<Address>, a: Address, b: Address) {
    && p != [] && p[0] == a && p[|p| - 1] == b
    && forall k {:trigger CallAt(g, p, k)} :: 0 < k < |p| ==> CallAt(g, p, k)
  }

  lemma {:induction false} PathIsWalk(g: Graph, p: seq<Address>, a: Address, b: Address)
    requires IsCallPath(g, p, a, b)
    ensures Walk(g, a, b, |p| - 1)
    decreases |p|
  {
    if |p| > 1 {
      var n := |p| - 1;
      assert CallAt(g, p, n);
      forall k | 0 < k < n ensures CallAt(g, p[..n], k) { assert CallAt(g, p, k); }
      PathIsWalk(g, p[..n], a, p[n - 1]);
    }
  }

  lemma PathSnoc(g: Graph, p: seq<Address>, a: Address, v: Address, w: Address)
    requires IsCallPath(g, p, a, v) && Edge(g, v, w)
    ensures IsCallPath(g, p + [w], a, w)
  {
    forall k | 0 < k < |p + [w]| ensures CallAt(g, p + [w], k) {
      if k < |p| { assert CallAt(g, p, k); }
    }
  }

  lemma {:induction false} WalkHasPath(g: Graph, a: Address, b: Address, n: nat) returns (p: seq<Address>)
    requires Walk(g, a, b, n)
    ensures IsCallPath(g, p, a, b) && |p| == n + 1
    decreases n
  {
    if n == 0 {
      p := [a];
    } else {
      var v :| Walk(g, a, v, n - 1) && Edge(g, v, b);
      var q := WalkHasPath(g, a, v, n - 1);
      PathSnoc(g, q, a, v, b);
      p := q + [b];
    }
  }

  function Reversed(s: seq<Address>): seq<Address> {
    if s == [] then [] else Reversed(s[1..]) + [s[0]]
  }

  // Every visited function but the start was reached from a nearer one.
  ghost predicate ParentOk(g: Graph, s: Address, dist: map<Address, nat>, parent: map<Address, Address>) {
    && parent.Keys == dist.Keys
    && s in parent && parent[s] == BADADDR
    && forall v {:trigger parent[v]} :: v in parent && v != s ==>
         parent[v] in dist && Edge(g, parent[v], v) && dist[v] == dist[parent[v]] + 1
  }

  // Follows the parents up to the start; the distance drops at each step.
  method Reconstruct(g: Graph, s: Address, ghost dist: map<Address, nat>, parent: map<Address, Address>,
      target: Address)
      returns (path: seq<Address>)
    requires DistOk(g, s, dist) && ParentOk(g, s, dist, parent) && target in dist
    ensures IsCallPath(g, path, s, target) && |path| == dist[target] + 1
  {
    path := [];
    var current := target;
    ghost var tail := [];
    while current != BADADDR
      invariant current == BADADDR || current in dist
      invariant tail == Reversed(path)
      invariant current == BADADDR ==> IsCallPath(g, tail, s, target) && |tail| == dist[target] + 1
      invariant current != BADADDR ==> IsCallPath(g, [current] + tail, current, target)
      invariant current != BADADDR ==> |tail| + dist[current] == dist[target]
      decreases if current in dist then dist[current] + 1 else 0
    {
      ghost var next := parent[current];
      ReversedSnoc(path, current);
      if current == s {
      } else {
        PathCons(g, [current] + tail, next, current, target);
      }
      path := path + [current];
      tail := [current] + tail;
      current := parent[current];
    }
    path := Reversed(path);
  }

  lemma {:induction false} ReversedSnoc(s: seq<Address>, x: Address)
    ensures Reversed(s + [x]) == [x] + Reversed(s)
    decreases |s|
  {
    if s == [] {
      assert [] + [x] == [x];
    } else {
      assert (s + [x])[1..] == s[1..] + [x];
      ReversedSnoc(s[1..], x);
    }
  }

  lemma PathCons(g: Graph, p: seq<Address>, u: Address, v: Address, b: Address)
    requires IsCallPath(g, p, v, b) && Edge(g, u, v)
    ensures IsCallPath(g, [u] + p, u, b)
  {
    forall k | 0 < k < |[u] + p| ensures CallAt(g, [u] + p, k) {
      if k > 1 { assert CallAt(g, p, k - 1); }
    }
  }

  ghost predicate PathWithin(g: Graph, a: Address, b: Address, maxDepth: int) {
    exists p :: IsCallPath(g, p, a, b) && |p| - 1 <= maxDepth
  }

  // Records func as the parent of its j-th neighbour, seen for the first time.
  method ReachNeighbor(g: Graph, source: Address, maxDepth: int, func: Address, depth: int, j: nat,
                       parent0: map<Address, Address>, queue0: Queue, ghost dist0: map<Address, nat>)
      returns (parent: map<Address, Address>, queue: Queue, ghost dist: map<Address, nat>)
    requires InHand(g, source, dist0, queue0, func, depth, j, maxDepth) && ParentOk(g, source, dist0, parent0)
    requires j < |Neighbors(g, func)| && Neighbors(g, func)[j] != BADADDR && Neighbors(g, func)[j] !in dist0
    ensures InHand(g, source, dist, queue, func, depth, j + 1, maxDepth) && ParentOk(g, source, dist, parent)
    ensures depth >= 0 && dist == dist0[Neighbors(g, func)[j] := depth + 1]
  {
    var callee := Neighbors(g, func)[j];
    TakeNeighbor(g, source, dist0, queue0, func, depth, j, maxDepth);
    AddParent(g, source, dist0, parent0, func, callee);
    parent := parent0[callee := func];
    queue := queue0 + [(callee, depth + 1)];
    dist := dist0[callee := depth + 1];
  }

  // The inner loop: visits the neighbours of func until the target appears.
  method ExpandForPath(g: Graph, source: Address, target: Address, maxDepth: int, func: Address, depth: int,
                       parent0: map<Address, Address>, queue0: Queue, ghost dist0: map<Address, nat>)
      returns (found: bool, parent: map<Address, Address>, queue: Queue, ghost dist: map<Address, nat>)
    requires InHand(g, source, dist0, queue0, func, depth, 0, maxDepth) && ParentOk(g, source, dist0, parent0)
    requires target !in dist0
    ensures DistOk(g, source, dist) && ParentOk(g, source, dist, parent)
    ensures found <==> target in dist
    ensures found ==> dist[target] <= maxDepth
    ensures !found ==> Between(g, source, dist, queue, maxDepth)
    ensures |dist0| <= |dist| && (!found && |dist| == |dist0| ==> queue == queue0)
  {
    found, parent, queue, dist := false, parent0, queue0, dist0;
    var callees := Neighbors(g, func);
    var j := 0;
    while j < |callees| && !found
      invariant j <= |callees| && ParentOk(g, source, dist, parent) && DistOk(g, source, dist)
      invariant !found ==> InHand(g, source, dist, queue, func, depth, j, maxDepth)
      invariant found <==> target in dist
      invariant found ==> dist[target] <= maxDepth
      invariant |dist0| <= |dist| && (!found && |dist| == |dist0| ==> queue == queue0)
    {
      var callee := callees[j];
      if callee == BADADDR || callee in parent {
        SkipNeighbor(g, source, dist, queue, func, depth, j, maxDepth);
      } else {
        var extended;
        parent, extended, dist := ReachNeighbor(g, source, maxDepth, func, depth, j, parent, queue, dist);
        if callee == target {
          found := true;
        } else {
          queue := extended;
        }
      }
      j := j + 1;
    }
    if !found {
      AllNeighborsTaken(g, source, dist, queue, func, depth, maxDepth);
    }
  }

  // A shortest path when one of at most maxDepth calls exists, else nothing.
  method FindCallPath(g: Graph, source: Address, target: Address, maxDepth: int) returns (result: seq<Address>)
    ensures source == BADADDR || target == BADADDR ==> result == []
    ensures source == target != BADADDR ==> result == [source]
    ensures source != BADADDR && target != BADADDR && source != target ==>
              if PathWithin(g, source, target, maxDepth)
              then IsCallPath(g, result, source, target)
                   && forall p :: IsCallPath(g, p, source, target) ==> |result| <= |p|
              else result == []
  {
    if source == BADADDR || target == BADADDR {
      result := [];
    } else if source == target {
      result := [source];
    } else {
      result := SearchPath(g, source, target, maxDepth);
    }
  }

  method SearchPath(g: Graph, source: Address, target: Address, maxDepth: int) returns (result: seq<Address>)
    requires source != BADADDR && target != BADADDR && source != target
    ensures if PathWithin(g, source, target, maxDepth)
            then IsCallPath(g, result, source, target)
                 && forall p :: IsCallPath(g, p, source, target) ==> |result| <= |p|
            else result == []
  {
    var parent: map<Address, Address> := map[source := BADADDR];
    var queue: Queue := [(source, 0)];
    ghost var dist: map<Address, nat> := map[source := 0];
    StartBetween(g, source, maxDepth);
    ghost var limit := SearchIsFinite(g, source);
    var found := false;
    while queue != [] && !found
      invariant DistOk(g, source, dist) && ParentOk(g, source, dist, parent)
      invariant !found ==> Between(g, source, dist, queue, maxDepth)
      invariant found <==> target in dist
      invariant found ==> dist[target] <= maxDepth
      invariant |dist| <= limit
      decreases !found, limit - |dist|, |queue|
    {
      TakeInHand(g, source, dist, queue, maxDepth);
      var (func, depth) := queue[0];
      queue := queue[1..];
      if depth < maxDepth {
        found, parent, queue, dist := ExpandForPath(g, source, target, maxDepth, func, depth, parent, queue, dist);
      }
    }
    if found {
      result := Reconstruct(g, source, dist, parent, target);
      FoundIsShortest(g, source, target, maxDepth, dist, result);
    } else {
      NotFoundMeansNone(g, source, target, maxDepth, dist);
      result := [];
    }
  }

  // A bound on the number of functions any search from s can visit.
  lemma SearchIsFinite(g: Graph, s: Address) returns (limit: nat)
    ensures forall dist {:trigger DistOk(g, s, dist)} :: DistOk(g, s, dist) ==> |dist| <= limit
  {
    limit := |Universe(g, s)|;
    forall dist | DistOk(g, s, dist) ensures |dist| <= limit {
      forall v | v in dist.Keys ensures v in Universe(g, s) { WalkInUniverse(g, s, v, dist[v]); }
      SubsetSize(dist.Keys, Universe(g, s));
    }
  }

  lemma AddParent(g: Graph, s: Address, dist: map<Address, nat>, parent: map<Address, Address>, v: Address, w: Address)
    requires ParentOk(g, s, dist, parent) && v in dist && w !in dist && Edge(g, v, w)
    ensures ParentOk(g, s, dist[w := dist[v] + 1], parent[w := v])
  {
  }

  lemma FoundIsShortest(g: Graph, s: Address, target: Address, maxDepth: int, dist: map<Address, nat>,
      path: seq<Address>)
    requires DistOk(g, s, dist) && target in dist && dist[target] <= maxDepth
    requires IsCallPath(g, path, s, target) && |path| == dist[target] + 1
    ensures PathWithin(g, s, target, maxDepth)
    ensures forall p :: IsCallPath(g, p, s, target) ==> |path| <= |p|
  {
    forall p | IsCallPath(g, p, s, target) ensures |path| <= |p| {
      PathIsWalk(g, p, s, target);
    }
  }

  lemma NotFoundMeansNone(g: Graph, s: Address, target: Address, maxDepth: int, dist: map<Address, nat>)
    requires DistOk(g, s, dist) && Closed(g, dist, [], None, maxDepth) && target !in dist
    ensures !PathWithin(g, s, target, maxDepth)
  {
    if PathWithin(g, s, target, maxDepth) {
      var p :| IsCallPath(g, p, s, target) && |p| - 1 <= maxDepth;
      PathIsWalk(g, p, s, target);
      NearIsVisited(g, s, dist, [], None, maxDepth, |p|, target, |p| - 1);
    }
  }

  // ---- Traversal -------------------------------------------------------------------------------

  // Collects the called end of every edge it is shown; never stops the traversal.
  class ReachableFunctionsVisitor {
    var functions: set<Address>
    // The functions entered so far, with the depth they were queued at.
    ghost var entered: seq<(Address, int)>

    constructor ()
      ensures functions == {} && entered == []
    {
      functions := {};
      entered := [];
    }

    method EnterFunction(func: Address, ghost depth: int) returns (ok: bool)
      modifies this`entered
      ensures ok && entered == old(entered) + [(func, depth)]
    {
      entered := entered + [(func, depth)];
      ok := true;
    }

    method VisitEdge(caller: Address, callee: Address) returns (ok: bool)
      modifies this`functions
      ensures ok && functions == if callee != BADADDR then old(functions) + {callee} else old(functions)
    {
      if callee != BADADDR {
        functions := functions + {callee};
      }
      ok := true;
    }
  }

  ghost predicate WasEntered(entered: seq<(Address, int)>, v: Address) {
    exists k :: 0 <= k < |entered| && entered[k].0 == v
  }

  // Every function nearer than the limit is entered once, with its distance,
  // when it leaves the queue.
  ghost predicate EnteredOk(entered: seq<(Address, int)>, dist: map<Address, nat>, queue: Queue, maxDepth: int) {
    && (forall k :: 0 <= k < |entered| ==>
          && entered[k].0 in dist && entered[k].1 == dist[entered[k].0] < maxDepth
          && !Queued(queue, entered[k].0))
    && (forall j, k :: 0 <= j < k < |entered| ==> entered[j].0 != entered[k].0)
    && (forall v {:trigger WasEntered(entered, v)} :: v in dist && dist[v] < maxDepth && !Queued(queue, v) ==>
          WasEntered(entered, v))
  }

  // The called ends of v's first j edges.
  function CalledEnds(g: Graph, forward: bool, v: Address, j: nat): set<Address>
    requires j <= |Neighbors(g, v)|
  {
    if j == 0 then {}
    else
      var neighbor := Neighbors(g, v)[j - 1];
      CalledEnds(g, forward, v, j - 1)
      + if neighbor == BADADDR then {} else {if forward then neighbor else v}
  }

  // Those of all edges of the entered functions.
  ghost function AllEnds(g: Graph, forward: bool, entered: seq<(Address, int)>): set<Address> {
    if entered == [] then {}
    else
      var n := |entered| - 1;
      AllEnds(g, forward, entered[..n]) + CalledEnds(g, forward, entered[n].0, |Neighbors(g, entered[n].0)|)
  }

  lemma {:induction false} CalledEndsAre(g: Graph, forward: bool, v: Address, j: nat, w: Address)
    requires j <= |Neighbors(g, v)|
    ensures w in CalledEnds(g, forward, v, j) <==>
              exists i :: 0 <= i < j && Neighbors(g, v)[i] != BADADDR && w == if forward then Neighbors(g, v)[i] else v
  {
    if j > 0 { CalledEndsAre(g, forward, v, j - 1, w); }
  }

  lemma {:induction false} AllEndsAre(g: Graph, forward: bool, entered: seq<(Address, int)>, w: Address)
    ensures w in AllEnds(g, forward, entered) <==>
              exists v: Address, u: Address :: WasEntered(entered, v) && Edge(g, v, u) && w == if forward then u else v
  {
    if entered != [] {
      var n := |entered| - 1;
      var last := entered[n].0;
      AllEndsAre(g, forward, entered[..n], w);
      CalledEndsAre(g, forward, last, |Neighbors(g, last)|, w);
      assert entered == entered[..n] + [(last, entered[n].1)];
      EnterOne(entered[..n], last, entered[n].1);
      if w in CalledEnds(g, forward, last, |Neighbors(g, last)|) {
        var i :| 0 <= i < |Neighbors(g, last)| && Neighbors(g, last)[i] != BADADDR
                 && w == if forward then Neighbors(g, last)[i] else last;
        assert Edge(g, last, Neighbors(g, last)[i]);
      }
      if u: Address :| Edge(g, last, u) && w == if forward then u else last {
        var i :| 0 <= i < |Neighbors(g, last)| && Neighbors(g, last)[i] == u;
      }
    }
  }

  lemma EnterOne(entered: seq<(Address, int)>, v: Address, depth: int)
    ensures forall u :: WasEntered(entered + [(v, depth)], u) <==> WasEntered(entered, u) || u == v
  {
    var entered' := entered + [(v, depth)];
    assert entered'[|entered|].0 == v;
    forall u | WasEntered(entered, u) ensures WasEntered(entered', u) {
      var k :| 0 <= k < |entered| && entered[k].0 == u;
      assert entered'[k].0 == u;
    }
  }

  // Taking the front off the queue: entered when nearer than the limit.
  lemma EnterFront(entered: seq<(Address, int)>, dist: map<Address, nat>, queue: Queue, maxDepth: int)
    requires queue != [] && QueueOk(queue, dist, queue[0].1) && EnteredOk(entered, dist, queue, maxDepth)
    ensures !WasEntered(entered, queue[0].0)
    ensures queue[0].1 < maxDepth ==> EnteredOk(entered + [queue[0]], dist, queue[1..], maxDepth)
    ensures queue[0].1 >= maxDepth ==> EnteredOk(entered, dist, queue[1..], maxDepth)
  {
    var front := queue[0].0;
    assert Queued(queue, front);
    EnterOne(entered, front, queue[0].1);
    forall u ensures Queued(queue, u) <==> u == front || Queued(queue[1..], u) {
      if Queued(queue, u) && u != front {
        var k :| 0 <= k < |queue| && queue[k].0 == u;
        assert queue[1..][k - 1].0 == u;
      }
      if Queued(queue[1..], u) {
        var k :| 0 <= k < |queue[1..]| && queue[1..][k].0 == u;
        assert queue[k + 1].0 == u;
      }
    }
    forall k | 0 <= k < |queue[1..]| ensures queue[1..][k].0 != front {
      assert queue[1..][k] == queue[k + 1];
    }
  }

  lemma QueueOneMore(entered: seq<(Address, int)>, dist: map<Address, nat>, queue: Queue, w: Address, d: nat,
      maxDepth: int)
    requires EnteredOk(entered, dist, queue, maxDepth) && w !in dist
    ensures EnteredOk(entered, dist[w := d], queue + [(w, d as int)], maxDepth)
  {
    var queue' := queue + [(w, d as int)];
    assert queue'[|queue|].0 == w;
    forall u ensures Queued(queue', u) <==> Queued(queue, u) || u == w {
      if Queued(queue, u) {
        var k :| 0 <= k < |queue| && queue[k].0 == u;
        assert queue'[k].0 == u;
      }
    }
  }

  lemma CalledEndsStep(g: Graph, forward: bool, v: Address, j: nat, before: set<Address>)
    requires j < |Neighbors(g, v)|
    ensures Neighbors(g, v)[j] == BADADDR ==>
              before + CalledEnds(g, forward, v, j + 1) == before + CalledEnds(g, forward, v, j)
    ensures Neighbors(g, v)[j] != BADADDR ==>
              before + CalledEnds(g, forward, v, j + 1)
              == before + CalledEnds(g, forward, v, j) + {if forward then Neighbors(g, v)[j] else v}
  {
  }

  // Visits func's j-th neighbour: queued one step farther when it is new.
  method VisitNeighbor(g: Graph, source: Address, maxDepth: int, func: Address, depth: int, j: nat,
                       visited0: set<Address>, queue0: Queue, ghost dist0: map<Address, nat>,
                       ghost entered: seq<(Address, int)>)
      returns (visited: set<Address>, queue: Queue, ghost dist: map<Address, nat>)
    requires InHand(g, source, dist0, queue0, func, depth, j, maxDepth) && visited0 == dist0.Keys
    requires EnteredOk(entered, dist0, queue0, maxDepth)
    requires j < |Neighbors(g, func)| && Neighbors(g, func)[j] != BADADDR
    ensures InHand(g, source, dist, queue, func, depth, j + 1, maxDepth) && visited == dist.Keys
    ensures EnteredOk(entered, dist, queue, maxDepth)
    ensures |dist0| <= |dist| && (|dist| == |dist0| ==> queue == queue0)
  {
    var neighbor := Neighbors(g, func)[j];
    visited, queue, dist := visited0, queue0, dist0;
    if neighbor !in visited0 {
      TakeNeighbor(g, source, dist0, queue0, func, depth, j, maxDepth);
      QueueOneMore(entered, dist0, queue0, neighbor, depth + 1, maxDepth);
      visited := visited0 + {neighbor};
      dist := dist0[neighbor := depth + 1];
      queue := queue0 + [(neighbor, depth + 1)];
    } else {
      SkipNeighbor(g, source, dist0, queue0, func, depth, j, maxDepth);
    }
  }

  // Shows every edge of func to the visitor and queues what is new.
  method ExpandForVisit(g: Graph, forward: bool, source: Address, visitor: ReachableFunctionsVisitor, maxDepth: int,
                        func: Address, depth: int, visited0: set<Address>, queue0: Queue,
                        ghost dist0: map<Address, nat>,
                        ghost entered: seq<(Address, int)>)
      returns (visited: set<Address>, queue: Queue, ghost dist: map<Address, nat>)
    requires InHand(g, source, dist0, queue0, func, depth, 0, maxDepth) && visited0 == dist0.Keys
    requires EnteredOk(entered, dist0, queue0, maxDepth)
    modifies visitor`functions
    ensures Between(g, source, dist, queue, maxDepth) && visited == dist.Keys
    ensures EnteredOk(entered, dist, queue, maxDepth)
    ensures visitor.functions == old(visitor.functions) + CalledEnds(g, forward, func, |Neighbors(g, func)|)
    ensures |dist0| <= |dist| && (|dist| == |dist0| ==> queue == queue0)
  {
    visited, queue, dist := visited0, queue0, dist0;
    var neighbors := Neighbors(g, func);
    for j := 0 to |neighbors|
      invariant InHand(g, source, dist, queue, func, depth, j, maxDepth) && visited == dist.Keys
      invariant EnteredOk(entered, dist, queue, maxDepth)
      invariant visitor.functions == old(visitor.functions) + CalledEnds(g, forward, func, j)
      invariant |dist0| <= |dist| && (|dist| == |dist0| ==> queue == queue0)
    {
      var neighbor := neighbors[j];
      CalledEndsStep(g, forward, func, j, old(visitor.functions));
      if neighbor == BADADDR {
        SkipNeighbor(g, source, dist, queue, func, depth, j, maxDepth);
      } else {
        var caller := if forward then func else neighbor;
        var callee := if forward then neighbor else func;
        var ok := visitor.VisitEdge(caller, callee);
        if ok {
          visited, queue, dist := VisitNeighbor(g, source, maxDepth, func, depth, j, visited, queue, dist, entered);
        }
      }
    }
    AllNeighborsTaken(g, source, dist, queue, func, depth, maxDepth);
  }

  // The functions reached by a walk of at least low and at most high calls.
  ghost predicate ReachedWithin(g: Graph, s: Address, w: Address, low: nat, high: int) {
    exists n: nat :: low <= n <= high && Walk(g, s, w, n)
  }

  // What entering exactly the functions nearer than maxDepth means for a log.
  ghost predicate EnteredExactly(g: Graph, s: Address, entered: seq<(Address, int)>, maxDepth: int) {
    && (forall k :: 0 <= k < |entered| ==>
          && 0 <= entered[k].1 < maxDepth
          && Walk(g, s, entered[k].0, entered[k].1)
          && forall n: nat :: Walk(g, s, entered[k].0, n) ==> entered[k].1 <= n)
    && (forall j, k :: 0 <= j < k < |entered| ==> entered[j].0 != entered[k].0)
    && (forall v :: ReachedWithin(g, s, v, 0, maxDepth - 1) ==> WasEntered(entered, v))
  }

  // Breadth-first from start, along callees when forward and callers otherwise.
  method TraverseBfs(callees: Graph, callers: Graph, start: Address, visitor: ReachableFunctionsVisitor,
                     maxDepth: int, forward: bool)
    requires visitor.entered == []
    modifies visitor
    ensures start == BADADDR ==> visitor.functions == old(visitor.functions) && visitor.entered == []
    ensures start != BADADDR ==>
              EnteredExactly(if forward then callees else callers, start, visitor.entered, maxDepth)
    ensures start != BADADDR && forward ==>
              forall w :: w in visitor.functions <==>
                w in old(visitor.functions) || ReachedWithin(callees, start, w, 1, maxDepth)
    ensures start != BADADDR && !forward ==>
              forall w :: w in visitor.functions <==>
                w in old(visitor.functions)
                || (ReachedWithin(callers, start, w, 0, maxDepth - 1) && exists u :: Edge(callers, w, u))
  {
    if start != BADADDR {
      var g := if forward then callees else callers;
      TraverseFrom(g, start, visitor, maxDepth, forward);
      forall w { EndsAreReached(g, start, maxDepth, forward, visitor.entered, w); }
    }
  }

  // One round of the traversal: takes the front off the queue and handles it.
  method VisitFront(g: Graph, start: Address, visitor: ReachableFunctionsVisitor, maxDepth: int, forward: bool,
                    visited0: set<Address>, queue0: Queue, ghost dist0: map<Address, nat>, ghost before: set<Address>)
      returns (visited: set<Address>, queue: Queue, ghost dist: map<Address, nat>)
    requires queue0 != [] && Between(g, start, dist0, queue0, maxDepth) && visited0 == dist0.Keys
    requires EnteredOk(visitor.entered, dist0, queue0, maxDepth)
    requires visitor.functions == before + AllEnds(g, forward, visitor.entered)
    modifies visitor
    ensures Between(g, start, dist, queue, maxDepth) && visited == dist.Keys
    ensures EnteredOk(visitor.entered, dist, queue, maxDepth)
    ensures visitor.functions == before + AllEnds(g, forward, visitor.entered)
    ensures |dist0| <= |dist| && (|dist| == |dist0| ==> |queue| < |queue0|)
  {
    TakeInHand(g, start, dist0, queue0, maxDepth);
    EnterFront(visitor.entered, dist0, queue0, maxDepth);
    var (func, depth) := queue0[0];
    assert queue0[0] == (func, depth);
    visited, queue, dist := visited0, queue0[1..], dist0;
    if depth < maxDepth {
      AllEndsSnoc(g, forward, visitor.entered, func, depth);
      var ok := visitor.EnterFunction(func, depth);
      if ok {
        visited, queue, dist :=
          ExpandForVisit(g, forward, start, visitor, maxDepth, func, depth, visited, queue, dist, visitor.entered);
      }
    }
  }

  method TraverseFrom(g: Graph, start: Address, visitor: ReachableFunctionsVisitor, maxDepth: int, forward: bool)
    requires visitor.entered == [] && start != BADADDR
    modifies visitor
    ensures EnteredExactly(g, start, visitor.entered, maxDepth)
    ensures visitor.functions == old(visitor.functions) + AllEnds(g, forward, visitor.entered)
  {
    var visited := {start};
    var queue: Queue := [(start, 0)];
    ghost var dist: map<Address, nat> := map[start := 0];
    StartBetween(g, start, maxDepth);
    NothingEntered(dist, queue, start, maxDepth);
    ghost var limit := SearchIsFinite(g, start);
    while queue != []
      invariant Between(g, start, dist, queue, maxDepth) && visited == dist.Keys
      invariant EnteredOk(visitor.entered, dist, queue, maxDepth)
      invariant visitor.functions == old(visitor.functions) + AllEnds(g, forward, visitor.entered)
      invariant |dist| <= limit
      decreases limit - |dist|, |queue|
    {
      visited, queue, dist := VisitFront(g, start, visitor, maxDepth, forward, visited, queue, dist,
          old(visitor.functions));
    }
    TraversalIsExact(g, start, maxDepth, dist, visitor.entered);
  }

  lemma AllEndsSnoc(g: Graph, forward: bool, entered: seq<(Address, int)>, func: Address, depth: int)
    ensures AllEnds(g, forward, entered + [(func, depth)])
         == AllEnds(g, forward, entered) + CalledEnds(g, forward, func, |Neighbors(g, func)|)
  {
    assert (entered + [(func, depth)])[..|entered|] == entered;
  }

  lemma NothingEntered(dist: map<Address, nat>, queue: Queue, s: Address, maxDepth: int)
    requires dist == map[s := 0] && queue == [(s, 0)]
    ensures EnteredOk([], dist, queue, maxDepth)
  {
    assert Queued(queue, s) by { assert queue[0].0 == s; }
  }

  lemma TraversalIsExact(g: Graph, s: Address, maxDepth: int, dist: map<Address, nat>, entered: seq<(Address, int)>)
    requires Between(g, s, dist, [], maxDepth) && EnteredOk(entered, dist, [], maxDepth)
    ensures EnteredExactly(g, s, entered, maxDepth)
  {
    forall v | ReachedWithin(g, s, v, 0, maxDepth - 1) ensures WasEntered(entered, v) {
      var n: nat :| n <= maxDepth - 1 && Walk(g, s, v, n);
      NearIsVisited(g, s, dist, [], None, maxDepth, n, v, n);
      assert dist[v] <= n;
    }
    forall k, n: nat | 0 <= k < |entered| && Walk(g, s, entered[k].0, n) ensures entered[k].1 <= n {
      assert dist[entered[k].0] <= n;
    }
  }

  lemma EndsAreReached(g: Graph, s: Address, maxDepth: int, forward: bool, entered: seq<(Address, int)>, w: Address)
    requires EnteredExactly(g, s, entered, maxDepth)
    ensures forward ==> (w in AllEnds(g, forward, entered) <==> ReachedWithin(g, s, w, 1, maxDepth))
    ensures !forward ==> (w in AllEnds(g, forward, entered) <==>
                            ReachedWithin(g, s, w, 0, maxDepth - 1) && exists u :: Edge(g, w, u))
  {
    AllEndsAre(g, forward, entered, w);
    if w in AllEnds(g, forward, entered) {
      var v: Address, u: Address :| WasEntered(entered, v) && Edge(g, v, u) && w == if forward then u else v;
      var k :| 0 <= k < |entered| && entered[k].0 == v;
      WalkStep(g, s, v, u, entered[k].1);
      assert Walk(g, s, u, entered[k].1 + 1);
    }
    if forward && ReachedWithin(g, s, w, 1, maxDepth) {
      var n: nat :| 1 <= n <= maxDepth && Walk(g, s, w, n);
      var v :| Walk(g, s, v, n - 1) && Edge(g, v, w);
      assert ReachedWithin(g, s, v, 0, maxDepth - 1);
    }
  }
}
