// Least-significant-digit radix sort: four stable counting passes between two
// buffers whose roles are swapped after each pass.
module RadixSort {
  import opened Machine
  import opened Bits

  // (x >> shift) & 0xFF
  function Digit(x: uint32, shift: nat): nat {
    x / Pow2(shift) % 256
  }

  // The low bits of x.
  function Low(x: uint32, shift: nat): nat {
    x % Pow2(shift)
  }

  ghost predicate SortedLow(s: seq<uint32>, shift: nat) {
    forall i, j :: 0 <= i < j < |s| ==> Low(s[i], shift) <= Low(s[j], shift)
  }

  ghost predicate Sorted(s: seq<uint32>) {
    forall i, j :: 0 <= i < j < |s| ==> s[i] <= s[j]
  }

  lemma MulStep(a: nat, b: nat, unit: nat)
    requires a < b
    ensures a * unit + unit <= b * unit
  {
    assert b * unit == a * unit + unit + (b - a - 1) * unit;
  }

  lemma DivModSplit(x: nat, unit: nat)
    requires unit > 0
    ensures x % (unit * 256) == x / unit % 256 * unit + x % unit
  {
    var q, r := x / unit, x % unit;
    var h, d := q / 256, q % 256;
    Regroup(h, d, unit);
    MulStep(d, 256, unit);
    ModUnique(x, unit * 256, h, d * unit + r);
  }

  lemma Regroup(h: nat, d: nat, unit: nat)
    ensures (h * 256 + d) * unit == h * (unit * 256) + d * unit
  {
    assert (h * 256 + d) * unit == h * 256 * unit + d * unit;
    assert h * 256 * unit == h * (256 * unit);
  }

  // One byte more of the low bits: the digit decides, then the old low bits.
  lemma LowStep(x: uint32, shift: nat)
    ensures Low(x, shift + 8) == Digit(x, shift) * Pow2(shift) + Low(x, shift)
    ensures Low(x, shift) < Pow2(shift)
  {
    assert Pow2(shift + 8) == 2 * Pow2(shift + 7) == 4 * Pow2(shift + 6) == 8 * Pow2(shift + 5)
        == 16 * Pow2(shift + 4) == 32 * Pow2(shift + 3) == 64 * Pow2(shift + 2) == 128 * Pow2(shift + 1)
        == 256 * Pow2(shift);
    DivModSplit(x, Pow2(shift));
  }

  lemma LowerDigitFirst(x: uint32, y: uint32, shift: nat)
    requires Digit(x, shift) < Digit(y, shift)
    ensures Low(x, shift + 8) <= Low(y, shift + 8)
  {
    LowStep(x, shift);
    LowStep(y, shift);
    MulStep(Digit(x, shift), Digit(y, shift), Pow2(shift));
  }

  // ---- One stable pass, as a function ---------------------------------------------

  // The elements with digit b, in their original order.
  function Filter(s: seq<uint32>, shift: nat, b: nat): seq<uint32> {
    if s == [] then []
    else
      var n := |s| - 1;
      if Digit(s[n], shift) == b then Filter(s[..n], shift, b) + [s[n]] else Filter(s[..n], shift, b)
  }

  // Where bucket b starts.
  function Start(s: seq<uint32>, shift: nat, b: nat): nat {
    if b == 0 then 0 else Start(s, shift, b - 1) + |Filter(s, shift, b - 1)|
  }

  // Buckets 0 to b - 1, one after the other.
  function Buckets(s: seq<uint32>, shift: nat, b: nat): (r: seq<uint32>)
    ensures |r| == Start(s, shift, b)
  {
    if b == 0 then [] else Buckets(s, shift, b - 1) + Filter(s, shift, b - 1)
  }

  // A stable sort on one byte.
  function StablePass(s: seq<uint32>, shift: nat): seq<uint32> {
    Buckets(s, shift, 256)
  }

  lemma {:induction false} StartSnoc(s: seq<uint32>, shift: nat, b: nat)
    requires s != []
    ensures Start(s, shift, b) == Start(s[..|s| - 1], shift, b) + if Digit(s[|s| - 1], shift) < b then 1 else 0
  {
    if b > 0 { StartSnoc(s, shift, b - 1); }
  }

  lemma {:induction false} StartTotal(s: seq<uint32>, shift: nat)
    ensures Start(s, shift, 256) == |s|
  {
    if s == [] {
      StartOfEmpty(shift, 256);
    } else {
      StartSnoc(s, shift, 256);
      StartTotal(s[..|s| - 1], shift);
    }
  }

  lemma {:induction false} StartOfEmpty(shift: nat, b: nat)
    ensures Start([], shift, b) == 0
  {
    if b > 0 { StartOfEmpty(shift, b - 1); }
  }

  lemma {:induction false} StartMonotone(s: seq<uint32>, shift: nat, b: nat, c: nat)
    requires b <= c
    ensures Start(s, shift, b) <= Start(s, shift, c)
  {
    if b < c { StartMonotone(s, shift, b, c - 1); }
  }

  lemma {:induction false} FilterElements(s: seq<uint32>, shift: nat, b: nat)
    ensures forall x :: x in Filter(s, shift, b) ==> x in s && Digit(x, shift) == b
  {
    if s != [] { FilterElements(s[..|s| - 1], shift, b); }
  }

  lemma {:induction false} FilterKeepsOrder(s: seq<uint32>, shift: nat, b: nat)
    requires SortedLow(s, shift)
    ensures SortedLow(Filter(s, shift, b), shift)
  {
    if s != [] {
      var n := |s| - 1;
      FilterKeepsOrder(s[..n], shift, b);
      FilterElements(s[..n], shift, b);
      var rest := Filter(s[..n], shift, b);
      forall i | 0 <= i < |rest| ensures Low(rest[i], shift) <= Low(s[n], shift) {
        assert rest[i] in s[..n];
        var k :| 0 <= k < n && s[k] == rest[i];
      }
    }
  }

  // Within one bucket the digit is the same, so the old order carries over.
  lemma BucketSorted(s: seq<uint32>, shift: nat, b: nat)
    requires SortedLow(s, shift)
    ensures SortedLow(Filter(s, shift, b), shift + 8)
  {
    var f := Filter(s, shift, b);
    FilterKeepsOrder(s, shift, b);
    FilterElements(s, shift, b);
    forall i, j | 0 <= i < j < |f| ensures Low(f[i], shift + 8) <= Low(f[j], shift + 8) {
      assert f[i] in f && f[j] in f;
      LowStep(f[i], shift);
      LowStep(f[j], shift);
    }
  }

  lemma {:induction false} BucketsElements(s: seq<uint32>, shift: nat, b: nat)
    ensures forall x :: x in Buckets(s, shift, b) ==> Digit(x, shift) < b
  {
    if b > 0 {
      BucketsElements(s, shift, b - 1);
      FilterElements(s, shift, b - 1);
    }
  }

  // A pass keeps the order on the lower bytes and adds its own.
  lemma {:induction false} BucketsSorted(s: seq<uint32>, shift: nat, b: nat)
    requires SortedLow(s, shift)
    ensures SortedLow(Buckets(s, shift, b), shift + 8)
  {
    if b > 0 {
      BucketsSorted(s, shift, b - 1);
      BucketSorted(s, shift, b - 1);
      BucketsElements(s, shift, b - 1);
      FilterElements(s, shift, b - 1);
      var lower, top := Buckets(s, shift, b - 1), Filter(s, shift, b - 1);
      forall i, j | 0 <= i < |lower| && 0 <= j < |top|
        ensures Low(lower[i], shift + 8) <= Low(top[j], shift + 8)
      {
        assert lower[i] in lower && top[j] in top;
        LowerDigitFirst(lower[i], top[j], shift);
      }
    }
  }

  // Number of elements with digit below b and value x: all of them once b is 256.
  lemma {:induction false} BucketsCount(s: seq<uint32>, shift: nat, b: nat, x: uint32)
    ensures multiset(Buckets(s, shift, b))[x] == if Digit(x, shift) < b then multiset(s)[x] else 0
  {
    if b > 0 {
      BucketsCount(s, shift, b - 1, x);
      FilterCount(s, shift, b - 1, x);
    }
  }

  lemma {:induction false} FilterCount(s: seq<uint32>, shift: nat, b: nat, x: uint32)
    ensures multiset(Filter(s, shift, b))[x] == if Digit(x, shift) == b then multiset(s)[x] else 0
  {
    if s != [] {
      var n := |s| - 1;
      FilterCount(s[..n], shift, b, x);
      assert s == s[..n] + [s[n]];
    }
  }

  lemma PassIsPermutation(s: seq<uint32>, shift: nat)
    ensures multiset(StablePass(s, shift)) == multiset(s)
    ensures |StablePass(s, shift)| == |s|
  {
    forall x: uint32 ensures multiset(StablePass(s, shift))[x] == multiset(s)[x] {
      BucketsCount(s, shift, 256, x);
    }
    StartTotal(s, shift);
  }

  // ---- The pass in place -------------------------------------------------------------

  // The part of bucket b that the first i elements fill.
  ghost predicate Filled(d: seq<uint32>, s: seq<uint32>, shift: nat, i: nat, b: nat)
    requires i <= |s|
  {
    var f := Filter(s[..i], shift, b);
    var at := Start(s, shift, b);
    at + |f| <= |d| && d[at..at + |f|] == f
  }

  lemma {:induction false} FilterPrefix(s: seq<uint32>, shift: nat, b: nat, i: nat)
    requires i <= |s|
    ensures |Filter(s[..i], shift, b)| <= |Filter(s, shift, b)|
    ensures i < |s| && Digit(s[i], shift) == b ==> |Filter(s[..i], shift, b)| < |Filter(s, shift, b)|
    decreases |s|
  {
    if i < |s| {
      var n := |s| - 1;
      FilterPrefix(s[..n], shift, b, i);
      assert s[..n][..i] == s[..i];
    } else {
      assert s[..i] == s;
    }
  }

  // The slot for element i: the next free one of its bucket.
  ghost function Slot(s: seq<uint32>, shift: nat, i: nat): nat
    requires i < |s|
  {
    Start(s, shift, Digit(s[i], shift)) + |Filter(s[..i], shift, Digit(s[i], shift))|
  }

  lemma FilterNext(s: seq<uint32>, shift: nat, b: nat, i: nat)
    requires i < |s|
    ensures Filter(s[..i + 1], shift, b)
         == Filter(s[..i], shift, b) + if Digit(s[i], shift) == b then [s[i]] else []
  {
    assert s[..i + 1][..i] == s[..i];
  }

  // It lies inside its own bucket, and so in no other.
  lemma SlotInBucket(s: seq<uint32>, shift: nat, i: nat)
    requires i < |s|
    ensures Start(s, shift, Digit(s[i], shift)) <= Slot(s, shift, i) < Start(s, shift, Digit(s[i], shift) + 1) <= |s|
  {
    FilterPrefix(s, shift, Digit(s[i], shift), i);
    StartMonotone(s, shift, Digit(s[i], shift) + 1, 256);
    StartTotal(s, shift);
  }

  lemma FilledInBucket(s: seq<uint32>, shift: nat, i: nat, b: nat)
    requires i <= |s|
    ensures Start(s, shift, b) + |Filter(s[..i], shift, b)| <= Start(s, shift, b + 1)
  {
    FilterPrefix(s, shift, b, i);
  }

  lemma PlaceFills(d: seq<uint32>, d': seq<uint32>, s: seq<uint32>, shift: nat, i: nat, b: nat)
    requires i < |s| == |d| && b < 256 && Filled(d, s, shift, i, b)
    requires Slot(s, shift, i) < |d| && d' == d[Slot(s, shift, i) := s[i]]
    ensures Filled(d', s, shift, i + 1, b)
  {
    var c := Digit(s[i], shift);
    var f := Filter(s[..i], shift, b);
    var lo := Start(s, shift, b);
    FilterNext(s, shift, b, i);
    SlotInBucket(s, shift, i);
    FilledInBucket(s, shift, i, b);
    if b == c {
      assert d'[lo..lo + |f| + 1] == d[lo..lo + |f|] + [s[i]];
    } else {
      if b < c { StartMonotone(s, shift, b + 1, c); } else { StartMonotone(s, shift, c + 1, b); }
      assert d'[lo..lo + |f|] == d[lo..lo + |f|];
    }
  }

  ghost predicate AllFilled(d: seq<uint32>, s: seq<uint32>, shift: nat, i: nat)
    requires i <= |s|
  {
    forall b :: 0 <= b < 256 ==> Filled(d, s, shift, i, b)
  }

  lemma PlaceFillsAll(d: seq<uint32>, d': seq<uint32>, s: seq<uint32>, shift: nat, i: nat, next: nat)
    requires i < |s| == |d| && next == i + 1 && AllFilled(d, s, shift, i)
    requires Slot(s, shift, i) < |d| && d' == d[Slot(s, shift, i) := s[i]]
    ensures AllFilled(d', s, shift, next)
  {
    forall b | 0 <= b < 256 ensures Filled(d', s, shift, next, b) {
      PlaceFills(d, d', s, shift, i, b);
    }
  }

  // The next free slot of every bucket.
  ghost predicate NextSlots(buckets: seq<nat>, s: seq<uint32>, shift: nat, i: nat)
    requires i <= |s|
  {
    |buckets| == 256 && forall b :: 0 <= b < 256 ==> buckets[b] == Start(s, shift, b) + |Filter(s[..i], shift, b)|
  }

  lemma NextSlotsStep(buckets: seq<nat>, s: seq<uint32>, shift: nat, i: nat)
    requires i < |s| && NextSlots(buckets, s, shift, i)
    ensures buckets[Digit(s[i], shift)] == Slot(s, shift, i)
    ensures NextSlots(buckets[Digit(s[i], shift) := Slot(s, shift, i) + 1], s, shift, i + 1)
  {
    forall b | 0 <= b < 256
      ensures buckets[Digit(s[i], shift) := Slot(s, shift, i) + 1][b]
           == Start(s, shift, b) + |Filter(s[..i + 1], shift, b)|
    {
      FilterNext(s, shift, b, i);
    }
  }

  lemma NothingFilled(d: seq<uint32>, s: seq<uint32>, shift: nat)
    requires |d| == |s|
    ensures AllFilled(d, s, shift, 0)
  {
    forall b | 0 <= b < 256 ensures Filled(d, s, shift, 0, b) {
      StartMonotone(s, shift, b, 256);
      StartTotal(s, shift);
    }
  }

  lemma {:induction false} AllFilledIsBuckets(d: seq<uint32>, s: seq<uint32>, shift: nat, b: nat)
    requires |d| == |s| && b <= 256
    requires AllFilled(d, s, shift, |s|)
    ensures Start(s, shift, b) <= |d| && d[..Start(s, shift, b)] == Buckets(s, shift, b)
  {
    if b > 0 {
      AllFilledIsBuckets(d, s, shift, b - 1);
      assert Filled(d, s, shift, |s|, b - 1);
      assert s[..|s|] == s;
      var at := Start(s, shift, b - 1);
      assert d[..Start(s, shift, b)] == d[..at] + d[at..Start(s, shift, b)];
    }
  }

  method CountDigits(data: array<uint32>, shift: nat, buckets: array<nat>)
    requires buckets.Length == 256
    modifies buckets
    ensures forall b :: 0 <= b < 256 ==> buckets[b] == |Filter(data[..], shift, b)|
  {
    for b := 0 to 256
      invariant forall c :: 0 <= c < b ==> buckets[c] == 0
    {
      buckets[b] := 0;
    }
    for i := 0 to data.Length
      invariant forall b :: 0 <= b < 256 ==> buckets[b] == |Filter(data[..i], shift, b)|
    {
      assert data[..i + 1][..i] == data[..i];
      var b := Digit(data[i], shift);
      buckets[b] := buckets[b] + 1;
    }
    assert data[..data.Length] == data[..];
  }

  method PrefixSums(ghost s: seq<uint32>, shift: nat, buckets: array<nat>)
    requires buckets.Length == 256
    requires forall b :: 0 <= b < 256 ==> buckets[b] == |Filter(s, shift, b)|
    modifies buckets
    ensures forall b :: 0 <= b < 256 ==> buckets[b] == Start(s, shift, b)
  {
    var total := 0;
    ghost var counts := buckets[..];
    assert forall b :: 0 <= b < 256 ==> counts[b] == |Filter(s, shift, b)|;
    for b := 0 to 256
      invariant total == Start(s, shift, b)
      invariant forall c :: 0 <= c < b ==> buckets[c] == Start(s, shift, c)
      invariant forall c :: b <= c < 256 ==> buckets[c] == counts[c]
    {
      var oldCount := buckets[b];
      buckets[b] := total;
      total := total + oldCount;
    }
  }

  method Place(data: array<uint32>, temp: array<uint32>, shift: nat, buckets: array<nat>)
    requires buckets.Length == 256 && data != temp && temp.Length == data.Length
    requires forall b :: 0 <= b < 256 ==> buckets[b] == Start(data[..], shift, b)
    modifies temp, buckets
    ensures temp[..] == StablePass(data[..], shift)
  {
    ghost var s := data[..];
    NothingFilled(temp[..], s, shift);
    for i := 0 to data.Length
      invariant data[..] == s
      invariant NextSlots(buckets[..], s, shift, i)
      invariant AllFilled(temp[..], s, shift, i)
    {
      ghost var d: seq<uint32>, slots: seq<nat> := temp[..], buckets[..];
      ghost var taken: nat := Slot(s, shift, i) + 1;
      SlotInBucket(s, shift, i);
      NextSlotsStep(slots, s, shift, i);
      var bucket := Digit(data[i], shift);
      temp[buckets[bucket]] := data[i];
      buckets[bucket] := buckets[bucket] + 1;
      assert temp[..] == d[Slot(s, shift, i) := s[i]];
      assert buckets[..] == slots[bucket := taken];
      PlaceFillsAll(d, temp[..], s, shift, i, i + 1);
    }
    StartTotal(s, shift);
    AllFilledIsBuckets(temp[..], s, shift, 256);
    assert temp[..] == temp[..Start(s, shift, 256)];
  }

  method CountingPass(data: array<uint32>, temp: array<uint32>, shift: nat)
    requires data != temp && temp.Length == data.Length
    modifies temp
    ensures temp[..] == StablePass(old(data[..]), shift)
  {
    var buckets := new nat[256];
    CountDigits(data, shift, buckets);
    PrefixSums(data[..], shift, buckets);
    Place(data, temp, shift, buckets);
  }

  // Four passes; after four swaps the result is in the caller's buffer.
  method RadixSortU32(data: array<uint32>, temp: array<uint32>)
    requires data != temp && temp.Length == data.Length
    modifies data, temp
    ensures Sorted(data[..])
    ensures multiset(data[..]) == multiset(old(data[..]))
  {
    var from, to := data, temp;
    var shift := 0;
    while shift < 32
      invariant shift in {0, 8, 16, 24, 32}
      invariant if shift in {0, 16, 32} then from == data && to == temp else from == temp && to == data
      invariant SortedLow(from[..], shift)
      invariant multiset(from[..]) == multiset(old(data[..]))
    {
      PassIsPermutation(from[..], shift);
      BucketsSorted(from[..], shift, 256);
      CountingPass(from, to, shift);
      from, to := to, from;
      shift := shift + 8;
    }
    SortedLow32(data[..]);
  }

  lemma SortedLow32(s: seq<uint32>)
    requires SortedLow(s, 32)
    ensures Sorted(s)
  {
    Pow2_32();
    forall i, j | 0 <= i < j < |s| ensures s[i] <= s[j] {
      assert Low(s[i], 32) == s[i] && Low(s[j], 32) == s[j];
    }
  }
}
