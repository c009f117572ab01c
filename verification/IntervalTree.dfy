// A segment tree over intervals sorted by start, augmented with the largest end
// below each node and stored in an array of four cells per interval.
module IntervalTree {
  import opened Machine
  import opened Sorting

  datatype Interval = Interval(start: int64, end: int64, id: int32)

  predicate StartLeq(a: Interval, b: Interval) {
    a.start <= b.start
  }

  predicate Hits(iv: Interval, qstart: int64, qend: int64) {
    iv.start < qend && qstart < iv.end
  }

  // Identifiers of the intervals at positions l to h - 1 that meet the query,
  // in position order: what a linear scan would return.
  function Scan(ivs: seq<Interval>, l: nat, h: nat, qstart: int64, qend: int64): seq<int32>
    requires l <= h <= |ivs|
    decreases h
  {
    if l == h then []
    else if Hits(ivs[h - 1], qstart, qend) then Scan(ivs, l, h - 1, qstart, qend) + [ivs[h - 1].id]
    else Scan(ivs, l, h - 1, qstart, qend)
  }

  lemma {:induction false} ScanConcat(ivs: seq<Interval>, l: nat, m: nat, h: nat, qstart: int64, qend: int64)
    requires l <= m <= h <= |ivs|
    ensures Scan(ivs, l, h, qstart, qend) == Scan(ivs, l, m, qstart, qend) + Scan(ivs, m, h, qstart, qend)
    decreases h
  {
    if m < h { ScanConcat(ivs, l, m, h - 1, qstart, qend); }
  }

  lemma {:induction false} ScanNothing(ivs: seq<Interval>, l: nat, h: nat, qstart: int64, qend: int64)
    requires l <= h <= |ivs|
    requires forall i :: l <= i < h ==> !Hits(ivs[i], qstart, qend)
    ensures Scan(ivs, l, h, qstart, qend) == []
    decreases h
  {
    if l < h { ScanNothing(ivs, l, h - 1, qstart, qend); }
  }

  lemma {:induction false} ScanMembers(ivs: seq<Interval>, h: nat, qstart: int64, qend: int64, id: int32)
    requires h <= |ivs|
    ensures id in Scan(ivs, 0, h, qstart, qend) <==>
              exists i :: 0 <= i < h && ivs[i].id == id && Hits(ivs[i], qstart, qend)
  {
    if h > 0 { ScanMembers(ivs, h - 1, qstart, qend, id); }
  }

  // ---- The tree ----------------------------------------------------------------------

  function Max(a: int64, b: int64): int64 {
    if a < b then b else a
  }

  // The left half is never the smaller one.
  function Mid(l: nat, r: nat): (m: nat)
    requires l < r
    ensures l <= m < r && 2 * (m - l + 1) <= r - l + 2 && 2 * (r - m) <= r - l + 2
  {
    (l + r) / 2
  }

  ghost function LargestEnd(ivs: seq<Interval>, l: nat, r: nat): int64
    requires l <= r < |ivs|
    decreases r - l
  {
    if l == r then ivs[l].end
    else Max(LargestEnd(ivs, l, Mid(l, r)), LargestEnd(ivs, Mid(l, r) + 1, r))
  }

  // The upper bound it is, and the least one: some interval attains it.
  lemma {:induction false} LargestEndIsMax(ivs: seq<Interval>, l: nat, r: nat)
    requires l <= r < |ivs|
    ensures forall i :: l <= i <= r ==> ivs[i].end <= LargestEnd(ivs, l, r)
    ensures exists i :: l <= i <= r && ivs[i].end == LargestEnd(ivs, l, r)
    decreases r - l
  {
    if l == r {
      assert ivs[l].end == LargestEnd(ivs, l, r);
    } else {
      LargestEndIsMax(ivs, l, Mid(l, r));
      LargestEndIsMax(ivs, Mid(l, r) + 1, r);
    }
  }

  // Every cell below node holds the largest end of its range.
  ghost predicate TreeOk(ivs: seq<Interval>, maxEnd: seq<int64>, node: nat, l: nat, r: nat)
    requires l <= r < |ivs|
    decreases r - l
  {
    && node < |maxEnd|
    && maxEnd[node] == LargestEnd(ivs, l, r)
    && (l < r ==>
          && TreeOk(ivs, maxEnd, 2 * node, l, Mid(l, r))
          && TreeOk(ivs, maxEnd, 2 * node + 1, Mid(l, r) + 1, r))
  }

  // m lies in the subtree of node.
  ghost predicate Below(m: nat, node: nat) {
    m == node || (m > node && Below(m / 2, node))
  }

  lemma {:induction false} BelowLinear(m: nat, a: nat, b: nat)
    requires Below(m, a) && Below(m, b) && a <= b
    ensures Below(b, a)
  {
    if m != b { BelowLinear(m / 2, a, b); }
  }

  lemma SiblingsDisjoint(m: nat, node: nat)
    requires node > 0 && Below(m, 2 * node)
    ensures !Below(m, 2 * node + 1)
  {
    var a: nat, b: nat := 2 * node, 2 * node + 1;
    if Below(m, b) {
      BelowLinear(m, a, b);
    }
  }

  lemma {:induction false} ChildBelow(m: nat, node: nat)
    requires node > 0 && (Below(m, 2 * node) || Below(m, 2 * node + 1))
    ensures Below(m, node) && m != node
  {
    if m != 2 * node && m != 2 * node + 1 {
      ChildBelow(m / 2, node);
    }
  }

  // Agreement on the cells below node.
  ghost predicate SameBelow(a: seq<int64>, b: seq<int64>, node: nat) {
    |a| == |b| && forall m: nat {:trigger Below(m, node)} :: m < |a| && Below(m, node) ==> b[m] == a[m]
  }

  // Agreement on all others.
  ghost predicate SameOutside(a: seq<int64>, b: seq<int64>, node: nat) {
    |a| == |b| && forall m: nat {:trigger Below(m, node)} :: m < |a| && !Below(m, node) ==> b[m] == a[m]
  }

  lemma SameBelowChildren(a: seq<int64>, b: seq<int64>, node: nat)
    requires node > 0 && SameBelow(a, b, node)
    ensures SameBelow(a, b, 2 * node) && SameBelow(a, b, 2 * node + 1)
  {
    var left: nat, right: nat := 2 * node, 2 * node + 1;
    forall m: nat | m < |a| && Below(m, left) ensures b[m] == a[m] { ChildBelow(m, node); }
    forall m: nat | m < |a| && Below(m, right) ensures b[m] == a[m] { ChildBelow(m, node); }
  }

  lemma {:induction false} TreeOkFrame(ivs: seq<Interval>, a: seq<int64>, b: seq<int64>, node: nat, l: nat, r: nat)
    requires node > 0 && l <= r < |ivs| && TreeOk(ivs, a, node, l, r)
    requires SameBelow(a, b, node)
    ensures TreeOk(ivs, b, node, l, r)
    decreases r - l
  {
    assert Below(node, node);
    if l < r {
      SameBelowChildren(a, b, node);
      TreeOkFrame(ivs, a, b, 2 * node, l, Mid(l, r));
      TreeOkFrame(ivs, a, b, 2 * node + 1, Mid(l, r) + 1, r);
    }
  }

  lemma SiblingUntouched(a: seq<int64>, b: seq<int64>, node: nat)
    requires node > 0 && SameOutside(a, b, 2 * node + 1)
    ensures SameBelow(a, b, 2 * node)
  {
    var left: nat, right: nat := 2 * node, 2 * node + 1;
    forall m: nat | m < |a| && Below(m, left) ensures b[m] == a[m] {
      SiblingsDisjoint(m, node);
      assert !Below(m, right);
    }
  }

  lemma ChildrenUntouched(a: seq<int64>, node: nat, x: int64)
    requires 0 < node < |a|
    ensures SameBelow(a, a[node := x], 2 * node) && SameBelow(a, a[node := x], 2 * node + 1)
  {
    var left: nat, right: nat := 2 * node, 2 * node + 1;
    forall m: nat | m < |a| && Below(m, left) ensures a[node := x][m] == a[m] { ChildBelow(m, node); }
    forall m: nat | m < |a| && Below(m, right) ensures a[node := x][m] == a[m] { ChildBelow(m, node); }
  }

  lemma OutsideUntouched(a: seq<int64>, b: seq<int64>, c: seq<int64>, node: nat, x: int64)
    requires 0 < node < |a| && SameOutside(a, b, 2 * node) && SameOutside(b, c, 2 * node + 1)
    ensures SameOutside(a, c[node := x], node)
  {
    var left: nat, right: nat := 2 * node, 2 * node + 1;
    forall m: nat | m < |a| && !Below(m, node) ensures c[node := x][m] == a[m] {
      assert Below(node, node);
      if Below(m, left) || Below(m, right) { ChildBelow(m, node); }
    }
  }

  lemma LeafFilled(ivs: seq<Interval>, a: seq<int64>, node: nat, l: nat)
    requires node < |a| && l < |ivs|
    ensures TreeOk(ivs, a[node := ivs[l].end], node, l, l) && SameOutside(a, a[node := ivs[l].end], node)
  {
    assert Below(node, node);
  }

  // The two children survive the writes that follow them ...
  lemma ChildrenSurvive(ivs: seq<Interval>, left: seq<int64>, both: seq<int64>, joined: seq<int64>,
                        node: nat, l: nat, m: nat, r: nat, x: int64)
    requires 0 < node < |both| && l <= m < r < |ivs| && joined == both[node := x]
    requires SameOutside(left, both, 2 * node + 1)
    requires TreeOk(ivs, left, 2 * node, l, m) && TreeOk(ivs, both, 2 * node + 1, m + 1, r)
    ensures TreeOk(ivs, joined, 2 * node, l, m) && TreeOk(ivs, joined, 2 * node + 1, m + 1, r)
  {
    SiblingUntouched(left, both, node);
    TreeOkFrame(ivs, left, both, 2 * node, l, m);
    ChildrenUntouched(both, node, x);
    TreeOkFrame(ivs, both, joined, 2 * node, l, m);
    TreeOkFrame(ivs, both, joined, 2 * node + 1, m + 1, r);
  }

  lemma TreeOkRoot(ivs: seq<Interval>, maxEnd: seq<int64>, node: nat, l: nat, r: nat)
    requires l <= r < |ivs| && TreeOk(ivs, maxEnd, node, l, r)
    ensures node < |maxEnd| && maxEnd[node] == LargestEnd(ivs, l, r)
  {
  }

  // ... so filling them and then the node itself fills the subtree.
  lemma JoinTree(ivs: seq<Interval>, left: seq<int64>, both: seq<int64>, node: nat, l: nat, m: nat, r: nat)
    requires 0 < node < |both| && l <= m < r < |ivs| && m == Mid(l, r)
    requires SameOutside(left, both, 2 * node + 1)
    requires TreeOk(ivs, left, 2 * node, l, m)
    requires TreeOk(ivs, both, 2 * node + 1, m + 1, r)
    ensures 2 * node + 1 < |both|
    ensures TreeOk(ivs, both[node := Max(both[2 * node], both[2 * node + 1])], node, l, r)
  {
    SiblingUntouched(left, both, node);
    TreeOkFrame(ivs, left, both, 2 * node, l, m);
    TreeOkRoot(ivs, both, 2 * node, l, m);
    TreeOkRoot(ivs, both, 2 * node + 1, m + 1, r);
    var x := Max(both[2 * node], both[2 * node + 1]);
    ChildrenSurvive(ivs, left, both, both[node := x], node, l, m, r, x);
    NodeOk(ivs, both[node := x], node, l, m, r);
  }

  lemma SubtreeFilled(ivs: seq<Interval>, before: seq<int64>, left: seq<int64>, both: seq<int64>, node: nat,
      l: nat, m: nat, r: nat)
    requires 0 < node < |before| && l <= m < r < |ivs| && m == Mid(l, r)
    requires SameOutside(before, left, 2 * node) && SameOutside(left, both, 2 * node + 1)
    requires TreeOk(ivs, left, 2 * node, l, m)
    requires TreeOk(ivs, both, 2 * node + 1, m + 1, r)
    ensures 2 * node + 1 < |both| == |before|
    ensures var joined := both[node := Max(both[2 * node], both[2 * node + 1])];
            TreeOk(ivs, joined, node, l, r) && SameOutside(before, joined, node)
  {
    JoinTree(ivs, left, both, node, l, m, r);
    OutsideUntouched(before, left, both, node, Max(both[2 * node], both[2 * node + 1]));
  }

  lemma NodeOk(ivs: seq<Interval>, maxEnd: seq<int64>, node: nat, l: nat, m: nat, r: nat)
    requires l <= m < r < |ivs| && m == Mid(l, r) && node < |maxEnd|
    requires maxEnd[node] == Max(LargestEnd(ivs, l, m), LargestEnd(ivs, m + 1, r))
    requires TreeOk(ivs, maxEnd, 2 * node, l, m) && TreeOk(ivs, maxEnd, 2 * node + 1, m + 1, r)
    ensures TreeOk(ivs, maxEnd, node, l, r)
  {
  }

  // Nothing below a node whose largest end is not past the query's start.
  lemma PruneByEnd(ivs: seq<Interval>, maxEnd: seq<int64>, node: nat, l: nat, r: nat, qstart: int64, qend: int64)
    requires l <= r < |ivs| && TreeOk(ivs, maxEnd, node, l, r) && maxEnd[node] <= qstart
    ensures Scan(ivs, l, r + 1, qstart, qend) == []
  {
    LargestEndIsMax(ivs, l, r);
    ScanNothing(ivs, l, r + 1, qstart, qend);
  }

  // Nothing from the first interval that starts past the query's end.
  lemma PruneByStart(ivs: seq<Interval>, l: nat, r: nat, qstart: int64, qend: int64)
    requires l <= r < |ivs| && SortedBy(StartLeq, ivs) && ivs[l].start >= qend
    ensures Scan(ivs, l, r + 1, qstart, qend) == []
  {
    assert forall i :: l < i <= r ==> StartLeq(ivs[l], ivs[i]);
    ScanNothing(ivs, l, r + 1, qstart, qend);
  }

  // ---- Four cells per interval suffice --------------------------------------------------

  // Every node that the recursion visits from here on has its cell.
  ghost predicate Fits(node: nat, l: nat, r: nat, cells: nat)
    requires l <= r
    decreases r - l
  {
    && 0 < node < cells
    && (l < r ==> Fits(2 * node, l, Mid(l, r), cells) && Fits(2 * node + 1, Mid(l, r) + 1, r, cells))
  }

  // Every node that the construction for n intervals visits.
  lemma FitsInFour(n: nat)
    requires n > 0
    ensures Fits(1, 0, n - 1, 4 * n)
  {
    NarrowFits(1, 0, n - 1, n);
  }

  // The index may double because the range halves.
  lemma {:induction false} NarrowFits(node: nat, l: nat, r: nat, n: nat)
    requires l <= r && 0 < node < 4 * n && (node + 1) * (r - l) <= 2 * (n - 1)
    ensures Fits(node, l, r, 4 * n)
    decreases r - l
  {
    if l < r {
      var m := Mid(l, r);
      ChildFits(2 * node + 1, node + 1, m - l, r - l, 2 * (n - 1));
      ChildFits(2 * node + 2, node + 1, r - (m + 1), r - l, 2 * (n - 1));
      NarrowFits(2 * node, l, m, n);
      NarrowFits(2 * node + 1, m + 1, r, n);
    }
  }

  lemma ChildFits(child: nat, parent: nat, range: nat, whole: nat, limit: nat)
    requires parent * whole <= limit && child <= 2 * parent && 0 < whole && 2 * range <= whole
    ensures child * range <= limit && child <= 2 * limit
  {
    MulLeq(child, 2 * parent, range);
    MulLeq(2 * range, whole, parent);
    MulLeq(1, whole, parent);
    assert 2 * parent * range == 2 * range * parent;
  }

  lemma MulLeq(a: nat, b: nat, c: nat)
    requires a <= b
    ensures a * c <= b * c && c * a <= c * b
  {
    assert b * c == a * c + (b - a) * c;
  }

  // ---- The class -------------------------------------------------------------------------

  class IntervalTree {
    var intervals: seq<Interval>
    var tree: seq<nat>
    var maxEnd: seq<int64>

    ghost predicate Valid()
      reads this
    {
      && SortedBy(StartLeq, intervals)
      && (intervals != [] ==>
            |maxEnd| == 4 * |intervals| && TreeOk(intervals, maxEnd, 1, 0, |intervals| - 1))
    }

    constructor ()
      ensures Valid() && intervals == []
    {
      intervals, tree, maxEnd := [], [], [];
    }

    method Build(ivs: seq<Interval>)
      modifies this
      ensures Valid()
      ensures multiset(intervals) == multiset(ivs)
    {
      intervals := ivs;
      if |intervals| == 0 {
        return;
      }
      intervals := Sort(intervals, StartLeq);
      var n := |intervals|;
      assert n == |ivs| by { assert n == |multiset(intervals)|; }
      tree := seq(4 * n, i => 0);
      maxEnd := seq(4 * n, i => 0);
      FitsInFour(n);
      BuildTree(1, 0, n - 1);
    }

    // Fills the subtree of node.
    method BuildTree(node: nat, l: nat, r: nat)
      requires l <= r < |intervals|
      requires |tree| == |maxEnd| == 4 * |intervals|
      requires Fits(node, l, r, 4 * |intervals|)
      modifies this`tree, this`maxEnd
      ensures |tree| == |maxEnd| == 4 * |intervals|
      ensures TreeOk(intervals, maxEnd, node, l, r)
      ensures SameOutside(old(maxEnd), maxEnd, node)
      decreases r - l
    {
      if l == r {
        tree := tree[node := l];
        maxEnd := maxEnd[node := intervals[l].end];
        LeafFilled(intervals, old(maxEnd), node, l);
        return;
      }
      ghost var ivs, before := intervals, maxEnd;
      var mid := Mid(l, r);
      BuildTree(2 * node, l, mid);
      ghost var left := maxEnd;
      assert intervals == ivs && TreeOk(ivs, left, 2 * node, l, mid);
      BuildTree(2 * node + 1, mid + 1, r);
      assert intervals == ivs && TreeOk(ivs, maxEnd, 2 * node + 1, mid + 1, r);
      SubtreeFilled(ivs, before, left, maxEnd, node, l, mid, r);
      maxEnd := maxEnd[node := Max(maxEnd[2 * node], maxEnd[2 * node + 1])];
    }

    // Exactly the intervals that meet the query, in position order.
    method QueryOverlaps(qstart: int64, qend: int64) returns (result: seq<int32>)
      requires Valid()
      ensures result == Scan(intervals, 0, |intervals|, qstart, qend)
    {
      if |intervals| == 0 {
        return [];
      }
      result := QueryRange(1, 0, |intervals| - 1, qstart, qend, []);
    }

    method QueryRange(node: nat, l: nat, r: nat, qstart: int64, qend: int64, acc: seq<int32>)
        returns (result: seq<int32>)
      requires l <= r < |intervals| && SortedBy(StartLeq, intervals)
      requires TreeOk(intervals, maxEnd, node, l, r)
      ensures result == acc + Scan(intervals, l, r + 1, qstart, qend)
      decreases r - l
    {
      // Nothing below ends after the query starts.
      if maxEnd[node] <= qstart {
        PruneByEnd(intervals, maxEnd, node, l, r, qstart, qend);
        return acc;
      }
      // The leftmost interval, and so every other, starts after the query ends.
      if intervals[l].start >= qend {
        PruneByStart(intervals, l, r, qstart, qend);
        return acc;
      }
      if l == r {
        assert Scan(intervals, l, l, qstart, qend) == [];
        if intervals[l].start < qend && qstart < intervals[l].end {
          return acc + [intervals[l].id];
        }
        return acc;
      }
      var mid := Mid(l, r);
      result := QueryRange(2 * node, l, mid, qstart, qend, acc);
      result := QueryRange(2 * node + 1, mid + 1, r, qstart, qend, result);
      ScanConcat(intervals, l, mid + 1, r + 1, qstart, qend);
    }
  }

  // In terms of the caller's list: an identifier is returned exactly when some
  // interval carrying it meets the query.
  method QueryFresh(ivs: seq<Interval>, qstart: int64, qend: int64) returns (result: seq<int32>)
    ensures forall id :: id in result <==> exists iv :: iv in ivs && iv.id == id && Hits(iv, qstart, qend)
  {
    var t := new IntervalTree();
    t.Build(ivs);
    result := t.QueryOverlaps(qstart, qend);
    forall id ensures id in result <==> exists iv :: iv in ivs && iv.id == id && Hits(iv, qstart, qend) {
      ScanMembers(t.intervals, |t.intervals|, qstart, qend, id);
      SameMembers(ivs, t.intervals);
      if id in result {
        var i :| 0 <= i < |t.intervals| && t.intervals[i].id == id && Hits(t.intervals[i], qstart, qend);
        assert t.intervals[i] in ivs;
      }
    }
  }
}
