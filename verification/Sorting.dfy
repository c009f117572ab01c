// What the C++ library's sort, unique and erase promise their callers.
module Sorting {
  ghost predicate TotalPreorder<T(!new)>(leq: (T, T) -> bool) {
    && (forall a, b :: leq(a, b) || leq(b, a))
    && (forall a, b, c :: leq(a, b) && leq(b, c) ==> leq(a, c))
  }

  ghost predicate SortedBy<T>(leq: (T, T) -> bool, s: seq<T>) {
    forall i, j :: 0 <= i < j < |s| ==> leq(s[i], s[j])
  }

  // Some sorted permutation; nothing is promised about the order of equals.
  method Sort<T(!new)>(s: seq<T>, leq: (T, T) -> bool) returns (r: seq<T>)
    requires TotalPreorder(leq)
    ensures SortedBy(leq, r)
    ensures multiset(r) == multiset(s)
  {
    r := [];
    for k := 0 to |s|
      invariant SortedBy(leq, r)
      invariant multiset(r) == multiset(s[..k])
    {
      r := Insert(r, s[k], leq);
      assert s[..k + 1] == s[..k] + [s[k]];
    }
    assert s[..|s|] == s;
  }

  method Insert<T(!new)>(s: seq<T>, x: T, leq: (T, T) -> bool) returns (r: seq<T>)
    requires TotalPreorder(leq) && SortedBy(leq, s)
    ensures SortedBy(leq, r)
    ensures multiset(r) == multiset(s) + multiset{x}
  {
    var k := |s|;
    while k > 0 && !leq(s[k - 1], x)
      invariant 0 <= k <= |s|
      invariant forall j :: k <= j < |s| ==> leq(x, s[j])
    {
      k := k - 1;
    }
    forall j | 0 <= j < k ensures leq(s[j], x) {
      assert leq(s[k - 1], x);
    }
    SortedAround(s, k, x, leq);
    r := s[..k] + [x] + s[k..];
    assert s == s[..k] + s[k..];
  }

  lemma SortedAround<T(!new)>(s: seq<T>, k: nat, x: T, leq: (T, T) -> bool)
    requires TotalPreorder(leq) && SortedBy(leq, s) && k <= |s|
    requires forall j :: 0 <= j < k ==> leq(s[j], x)
    requires forall j :: k <= j < |s| ==> leq(x, s[j])
    ensures SortedBy(leq, s[..k] + [x] + s[k..])
  {
    var r := s[..k] + [x] + s[k..];
    forall i, j | 0 <= i < j < |r| ensures leq(r[i], r[j]) {
      assert r[i] == if i < k then s[i] else if i == k then x else s[i - 1];
      assert r[j] == if j < k then s[j] else if j == k then x else s[j - 1];
    }
  }

  lemma SameMembers<T>(s: seq<T>, t: seq<T>)
    requires multiset(s) == multiset(t)
    ensures forall x :: x in s <==> x in t
  {
    forall x ensures x in s <==> x in t {
      assert x in s <==> x in multiset(s);
      assert x in t <==> x in multiset(t);
    }
  }

  // unique followed by erase: the first of each run of equal neighbours stays.
  method Unique<T(==)>(s: seq<T>) returns (r: seq<T>)
    ensures forall x :: x in r <==> x in s
    ensures forall k :: 0 < k < |r| ==> r[k - 1] != r[k]
    ensures exists at: seq<nat> :: IsSubsequence(r, s, at)
  {
    r := [];
    ghost var at: seq<nat> := [];
    for k := 0 to |s|
      invariant IsSubsequence(r, s[..k], at)
      invariant forall x :: x in r <==> x in s[..k]
      invariant k > 0 ==> |r| > 0 && r[|r| - 1] == s[k - 1]
      invariant forall j :: 0 < j < |r| ==> r[j - 1] != r[j]
    {
      if |r| == 0 || r[|r| - 1] != s[k] {
        r := r + [s[k]];
        at := at + [k];
      }
      assert s[..k + 1] == s[..k] + [s[k]];
    }
    assert s[..|s|] == s;
  }

  // r picks the positions at of s, in order.
  ghost predicate IsSubsequence<T>(r: seq<T>, s: seq<T>, at: seq<nat>) {
    && |at| == |r|
    && (forall k :: 0 <= k < |r| ==> at[k] < |s| && r[k] == s[at[k]])
    && (forall j, k :: 0 <= j < k < |r| ==> at[j] < at[k])
  }
}
