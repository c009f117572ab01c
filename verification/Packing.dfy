// ABI packing and alignment, and the checked arithmetic on signed offsets.
module Packing {
  import opened Machine
  import opened Bits
  import Sorting

  datatype Requirement = Requirement(offset: int64, naturalAlignment: uint32)

  // ---- Two's complement ---------------------------------------------------------------

  function ToBits(x: int64): uint64 {
    if x < 0 then x + 0x1_0000_0000_0000_0000 else x
  }

  function FromBits(b: uint64): int64 {
    if b > INT64_MAX then b - 0x1_0000_0000_0000_0000 else b
  }

  // C++ division rounds towards zero.
  function Remainder(a: int, b: int): int
    requires b > 0
  {
    if a >= 0 then a % b else -((-a) % b)
  }

  lemma ZeroRemainder(a: int, b: int)
    requires b > 0
    ensures Remainder(a, b) == 0 <==> a % b == 0
  {
    if a < 0 {
      var q, r := (-a) / b, (-a) % b;
      assert -a == b * q + r;
      if r == 0 {
        assert b * (-q) == -(b * q);
        ModUnique(a, b, -q, 0);
      } else if a % b == 0 {
        assert b * (-(a / b)) == -(b * (a / b));
        ModUnique(-a, b, -(a / b), 0);
      }
    }
  }

  // ---- Divisibility ---------------------------------------------------------------------

  lemma DividesSum(i: int, size: int, offset: int, m: int)
    requires m > 0 && size % m == 0 && offset % m == 0
    ensures (i * size + offset) % m == 0
  {
    var c, d := size / m, offset / m;
    assert size == m * c && offset == m * d;
    Reassociate(m, c, i);
    MultipleIsDivisible(i * size + offset, m, c * i + d);
  }

  lemma SmallerPowerDivides(a: int, b: int)
    requires IsPowerOfTwo(a) && IsPowerOfTwo(b) && a <= b
    ensures a > 0 && b % a == 0
  {
    var j: nat :| a == Pow2(j);
    var k: nat :| b == Pow2(k);
    if j > k {
      Pow2Monotone(k + 1, j);
    }
    Pow2Divides(j, k);
  }

  // ---- Rounding an offset up --------------------------------------------------------------

  predicate IsPackingValue(value: uint32) {
    value != 0 && BitAnd(value, value - 1) == 0
  }

  lemma PackingValuesArePowersOfTwo(value: uint32)
    ensures IsPackingValue(value) <==> IsPowerOfTwo(value)
  {
    if value == 0 {
      forall k: nat ensures Pow2(k) != value {}
    } else {
      PowerOfTwoTest(value);
    }
  }

  // The greatest int64 stands for failure.
  function AlignOffset(offset: int64, alignment: uint32): int64 {
    if alignment == 0 || BitAnd(alignment, alignment - 1) != 0 then INT64_MAX
    else
      var adjustment := alignment - 1;
      if offset > INT64_MAX - adjustment then INT64_MAX
      else
        MaskedIsSmaller(ToBits(offset + adjustment), UINT64_MAX - adjustment);
        FromBits(BitAnd(ToBits(offset + adjustment), UINT64_MAX - adjustment))
  }

  lemma ShiftedRemainder(x: int, p: int, half: int)
    requires p > 0 && -(p * half) <= x
    ensures (x + 2 * (p * half)) % p == x % p && x - x % p >= -(p * half)
  {
    var q := x / p;
    assert x == p * q + x % p;
    assert p * (q + 2 * half) == p * q + 2 * (p * half);
    ModUnique(x + 2 * (p * half), p, q + 2 * half, x % p);
    FloorNotBelow(p, q, -half, x % p);
  }

  lemma FloorNotBelow(p: int, q: int, c: int, r: int)
    requires p > 0 && 0 <= r < p && p * q + r >= p * c
    ensures p * q >= p * c
  {
    if q < c {
      AtLeast(p, c - q);
    }
  }

  lemma RoundedBits(x: int64, p: int, half: int, rounded: int)
    requires p > 0 && p * half == 0x8000_0000_0000_0000 && rounded == ToBits(x) - ToBits(x) % p
    ensures 0 <= rounded <= UINT64_MAX && FromBits(rounded) == x - x % p
  {
    RemainderBounds(ToBits(x), p);
    if x < 0 {
      ShiftedRemainder(x, p, half);
    }
  }

  lemma RemainderBounds(x: int, p: int)
    requires p > 0
    ensures 0 <= x % p < p && (x >= 0 ==> x % p <= x)
  {
  }

  // Masking the two's complement form rounds down to a multiple of 2^k, also
  // below zero.
  lemma MaskRoundsDown(x: int64, p: int)
    requires IsPowerOfTwo(p) && p <= UINT32_MAX
    ensures 0 < p && BitAnd(ToBits(x), UINT64_MAX - (p - 1)) <= UINT64_MAX
    ensures FromBits(BitAnd(ToBits(x), UINT64_MAX - (p - 1))) == x - x % p
  {
    var k: nat :| p == Pow2(k);
    ExponentBound(k);
    var rounded := ToBits(x) - ToBits(x) % p;
    assert BitAnd(ToBits(x), UINT64_MAX - (p - 1)) == rounded by {
      Pow2_64();
      ClearLowBits(ToBits(x), k, 64);
    }
    var half := 0x8000_0000_0000_0000 / p;
    assert p * half == 0x8000_0000_0000_0000 by {
      Pow2_64();
      Pow2Divides(k, 63);
      ExactDivision(0x8000_0000_0000_0000, p);
    }
    RoundedBits(x, p, half, rounded);
  }

  lemma ExponentBound(k: nat)
    requires Pow2(k) <= UINT32_MAX
    ensures k <= 32
  {
    Pow2_32();
    if k > 32 { Pow2Monotone(32, k); }
  }

  lemma ExactDivision(x: int, p: int)
    requires p > 0 && x % p == 0
    ensures p * (x / p) == x
  {
  }

  lemma RoundedUp(offset: int, p: int)
    requires p > 0
    ensures var r := (offset + p - 1) - (offset + p - 1) % p;
            r % p == 0 && offset <= r < offset + p
  {
    var x := offset + p - 1;
    RemainderBounds(x, p);
    MultipleIsDivisible(x - x % p, p, x / p);
  }

  // The result is the least multiple of the alignment not below the offset, unless
  // the alignment is no power of two or the sum would overflow. The sentinel is also
  // the result for the greatest offset and alignment 1, where it is no failure.
  lemma AlignOffsetRoundsUp(offset: int64, alignment: uint32)
    ensures IsPowerOfTwo(alignment) && offset + alignment - 1 <= INT64_MAX ==>
              && alignment > 0 && AlignOffset(offset, alignment) % alignment == 0
              && offset <= AlignOffset(offset, alignment) < offset + alignment
    ensures AlignOffset(offset, alignment) == INT64_MAX <==>
            !IsPowerOfTwo(alignment) || offset + alignment - 1 > INT64_MAX || (offset == INT64_MAX && alignment == 1)
  {
    PackingValuesArePowersOfTwo(alignment);
    if IsPowerOfTwo(alignment) && offset + alignment - 1 <= INT64_MAX {
      var x: int64 := offset + alignment - 1;
      MaskRoundsDown(x, alignment);
      assert AlignOffset(offset, alignment) == x - x % alignment;
      RoundedUp(offset, alignment);
      var k: nat :| alignment == Pow2(k);
      if k > 0 { EvenDividesNoOdd(INT64_MAX, k); }
    }
  }

  lemma EvenDividesNoOdd(x: int, k: nat)
    requires k > 0 && x % 2 == 1
    ensures x % Pow2(k) != 0
  {
    MultipleIsDivisible(Pow2(k), 2, Pow2(k - 1));
    if x % Pow2(k) == 0 { DividesThrough(x, Pow2(k), 2); }
  }

  // ---- Packing caps --------------------------------------------------------------------------

  function Max(a: int, b: int): int { if a < b then b else a }

  function Min(a: int, b: int): int { if a < b then a else b }

  function Effective(requirement: Requirement, packing: uint32): (e: uint32)
    ensures packing > 0 ==> e > 0
  {
    Min(Max(1, requirement.naturalAlignment), packing)
  }

  // Every field is aligned to the smaller of its natural alignment and the cap.
  ghost predicate AlignsAll(requirements: seq<Requirement>, packing: uint32)
    requires packing > 0
  {
    forall k :: 0 <= k < |requirements| ==> requirements[k].offset % Effective(requirements[k], packing) == 0
  }

  ghost predicate Admissible(options: seq<uint32>, cap: uint32, value: uint32) {
    value in options && IsPowerOfTwo(value) && value <= cap
  }

  ghost predicate PowersOfTwo(requirements: seq<Requirement>) {
    forall k :: 0 <= k < |requirements| ==> IsPowerOfTwo(Max(1, requirements[k].naturalAlignment))
  }

  // The largest admissible option that aligns every field.
  ghost predicate IsCanonicalCap(requirements: seq<Requirement>, options: seq<uint32>, cap: uint32, r: Option<uint32>) {
    && (r.Some? ==> Admissible(options, cap, r.value) && r.value > 0 && AlignsAll(requirements, r.value))
    && (forall q: uint32 :: q > 0 && Admissible(options, cap, q) && (r.None? || q > r.value) ==>
        !AlignsAll(requirements, q))
  }

  method AllAligned(requirements: seq<Requirement>, packing: uint32) returns (valid: bool)
    requires packing > 0
    ensures valid <==> AlignsAll(requirements, packing)
  {
    for k := 0 to |requirements|
      invariant forall j :: 0 <= j < k ==> requirements[j].offset % Effective(requirements[j], packing) == 0
    {
      var effective := Effective(requirements[k], packing);
      ZeroRemainder(requirements[k].offset, effective);
      if Remainder(requirements[k].offset, effective) != 0 {
        return false;
      }
    }
    valid := true;
  }

  // The admissible options, largest first, each once.
  method AdmissibleOptions(packingOptions: seq<uint32>, maximumCap: uint32) returns (options: seq<uint32>)
    ensures forall v :: v in options <==> Admissible(packingOptions, maximumCap, v)
    ensures forall i, j :: 0 <= i < j < |options| ==> options[i] >= options[j]
  {
    var kept: seq<uint32> := [];
    for i := 0 to |packingOptions|
      invariant forall v :: v in kept <==> Admissible(packingOptions[..i], maximumCap, v)
    {
      PackingValuesArePowersOfTwo(packingOptions[i]);
      assert packingOptions[..i + 1] == packingOptions[..i] + [packingOptions[i]];
      if IsPackingValue(packingOptions[i]) && packingOptions[i] <= maximumCap {
        kept := kept + [packingOptions[i]];
      }
    }
    assert packingOptions[..|packingOptions|] == packingOptions;
    var sorted := Sorting.Sort(kept, (a: uint32, b: uint32) => a >= b);
    options := Sorting.Unique(sorted);
    Sorting.SameMembers(sorted, kept);
    Descending(sorted, options);
  }

  method CanonicalPackingCap(requirements: seq<Requirement>, packingOptions: seq<uint32>, maximumCap: uint32)
      returns (r: Option<uint32>)
    ensures IsCanonicalCap(requirements, packingOptions, maximumCap, r)
  {
    if maximumCap == 0 {
      return None;
    }
    var options := AdmissibleOptions(packingOptions, maximumCap);
    for i := 0 to |options|
      invariant forall j :: 0 <= j < i ==> options[j] > 0 && !AlignsAll(requirements, options[j])
    {
      PackingValuesArePowersOfTwo(options[i]);
      assert Admissible(packingOptions, maximumCap, options[i]) by { assert options[i] in options; }
      var valid := AllAligned(requirements, options[i]);
      if valid {
        LargerOnesFail(requirements, packingOptions, maximumCap, options, i, Some(options[i]));
        return Some(options[i]);
      }
    }
    LargerOnesFail(requirements, packingOptions, maximumCap, options, |options|, None);
    r := None;
  }

  // Every admissible option above the result was tried and failed.
  lemma LargerOnesFail(requirements: seq<Requirement>, packingOptions: seq<uint32>, cap: uint32, options: seq<uint32>,
      tried: nat, r: Option<uint32>)
    requires tried <= |options| && r == (if tried == |options| then None else Some(options[tried]))
    requires forall v :: v in options <==> Admissible(packingOptions, cap, v)
    requires forall i, j :: 0 <= i < j < |options| ==> options[i] >= options[j]
    requires forall j :: 0 <= j < tried ==> options[j] > 0 && !AlignsAll(requirements, options[j])
    ensures forall q: uint32 :: q > 0 && Admissible(packingOptions, cap, q) && (r.None? || q > r.value) ==>
        !AlignsAll(requirements, q)
  {
    forall q: uint32 | q > 0 && Admissible(packingOptions, cap, q) && (r.None? || q > r.value)
        ensures !AlignsAll(requirements, q) {
      assert q in options;
      var j :| 0 <= j < |options| && options[j] == q;
    }
  }

  lemma Descending(sorted: seq<uint32>, options: seq<uint32>)
    requires forall i, j :: 0 <= i < j < |sorted| ==> sorted[i] >= sorted[j]
    requires exists at: seq<nat> :: Sorting.IsSubsequence(options, sorted, at)
    ensures forall i, j :: 0 <= i < j < |options| ==> options[i] >= options[j]
  {
    var at: seq<nat> :| Sorting.IsSubsequence(options, sorted, at);
    forall i, j | 0 <= i < j < |options| ensures options[i] >= options[j] {
      assert at[i] < at[j];
    }
  }

  method EffectiveAlignmentForPacking(requirements: seq<Requirement>, packing: uint32) returns (result: uint32)
    ensures IsEffectiveAlignment(requirements, packing, result)
  {
    var cap := Max(1, packing);
    result := 1;
    for k := 0 to |requirements|
      invariant result >= 1
      invariant forall j :: 0 <= j < k ==> Effective(requirements[j], cap) <= result
      invariant result == 1 || exists j :: 0 <= j < k && Effective(requirements[j], cap) == result
    {
      result := Max(result, Effective(requirements[k], cap));
    }
  }

  // The strictest alignment that the packing leaves any field, and at least 1.
  ghost predicate IsEffectiveAlignment(requirements: seq<Requirement>, packing: uint32, e: uint32) {
    var cap := Max(1, packing);
    && e >= 1
    && (forall j :: 0 <= j < |requirements| ==> Effective(requirements[j], cap) <= e)
    && (e == 1 || exists j :: 0 <= j < |requirements| && Effective(requirements[j], cap) == e)
  }

  lemma EffectiveIsPowerOfTwo(requirement: Requirement, packing: uint32)
    requires IsPowerOfTwo(Max(1, requirement.naturalAlignment)) && IsPowerOfTwo(packing)
    ensures IsPowerOfTwo(Effective(requirement, packing))
  {
  }

  // With power-of-two alignments, whatever a cap aligns a smaller one aligns too.
  lemma FeasibilityIsDownwardClosed(requirements: seq<Requirement>, p: uint32, q: uint32)
    requires PowersOfTwo(requirements) && IsPowerOfTwo(p) && IsPowerOfTwo(q) && 0 < q <= p
    requires AlignsAll(requirements, p)
    ensures AlignsAll(requirements, q)
  {
    forall k | 0 <= k < |requirements| ensures requirements[k].offset % Effective(requirements[k], q) == 0 {
      var big, small := Effective(requirements[k], p), Effective(requirements[k], q);
      SmallerPowerDivides(small, big);
      DividesThrough(requirements[k].offset, big, small);
    }
  }

  // A smaller cap aligns the field wherever the larger one does.
  ghost predicate StaysAligned(offset: int64, natural: uint32, p: uint32, q: uint32) {
    IsPowerOfTwo(p) && IsPowerOfTwo(q) && 0 < q <= p && AlignsAll([Requirement(offset, natural)], p) ==>
      AlignsAll([Requirement(offset, natural)], q)
  }

  ghost predicate IsDownwardClosed(natural: uint32) {
    forall offset: int64, p: uint32, q: uint32 :: StaysAligned(offset, natural, p, q)
  }

  // Some n between two powers.
  lemma {:induction false} PowersAround(n: nat) returns (k: nat)
    requires n > 0 && !IsPowerOfTwo(n)
    ensures Pow2(k) < n < 2 * Pow2(k)
  {
    assert Pow2(0) == 1 && Pow2(1) == 2;
    if n <= 3 {
      k := 1;
    } else {
      if IsPowerOfTwo(n / 2) {
        k :| n / 2 == Pow2(k);
        assert Pow2(k + 1) == 2 * Pow2(k);
      } else {
        k := PowersAround(n / 2);
      }
      k := k + 1;
    }
  }

  lemma OneField(offset: int64, natural: uint32, packing: uint32)
    requires packing > 0
    ensures AlignsAll([Requirement(offset, natural)], packing) <==>
            offset % Min(Max(1, natural), packing) == 0
  {
    assert [Requirement(offset, natural)][0] == Requirement(offset, natural);
  }

  // A field at an offset equal to its odd alignment fits the power above it and
  // not the power below it.
  lemma OddAlignmentIsNotDownwardClosed(n: uint32) returns (p: uint32, q: uint32)
    requires 0 < n < 0x8000_0000 && !IsPowerOfTwo(n)
    ensures IsPowerOfTwo(p) && IsPowerOfTwo(q) && 0 < q <= p
    ensures AlignsAll([Requirement(n, n)], p) && !AlignsAll([Requirement(n, n)], q)
  {
    var k := PowersAround(n);
    q := Pow2(k);
    p := 2 * q;
    assert p == Pow2(k + 1) && IsPowerOfTwo(p) && IsPowerOfTwo(q) by { PowersAreRelated(k); }
    ModUnique(n, q, 1, n - q);
    ModUnique(n, n, 1, 0);
    OneField(n, n, p);
    OneField(n, n, q);
  }

  lemma PowersAreRelated(k: nat)
    ensures 2 * Pow2(k) == Pow2(k + 1)
  {
  }

  // The largest power of two that a cap can be is 2^31.
  lemma CapBound(p: uint32)
    requires IsPowerOfTwo(p)
    ensures p <= 0x8000_0000
  {
    Pow2_32();
    assert Pow2(31) == 0x8000_0000;
    var k: nat :| p == Pow2(k);
    if k > 31 { Pow2Monotone(32, k); } else { Pow2Monotone(k, 31); }
  }

  lemma PowersStayAligned(offset: int64, natural: uint32, p: uint32, q: uint32)
    requires IsPowerOfTwo(Max(1, natural))
    ensures StaysAligned(offset, natural, p, q)
  {
    if IsPowerOfTwo(p) && IsPowerOfTwo(q) && 0 < q <= p && AlignsAll([Requirement(offset, natural)], p) {
      FeasibilityIsDownwardClosed([Requirement(offset, natural)], p, q);
    }
  }

  lemma OutOfReachStaysAligned(offset: int64, natural: uint32, p: uint32, q: uint32)
    requires natural > 0x8000_0000
    ensures StaysAligned(offset, natural, p, q)
  {
    if IsPowerOfTwo(p) && IsPowerOfTwo(q) && 0 < q <= p && AlignsAll([Requirement(offset, natural)], p) {
      CapBound(p);
      OneField(offset, natural, p);
      OneField(offset, natural, q);
      SmallerPowerDivides(q, p);
      DividesThrough(offset, p, q);
    }
  }

  lemma SmallPowers()
    ensures IsPowerOfTwo(1) && IsPowerOfTwo(0x8000_0000)
  {
    Pow2_32();
    assert Pow2(0) == 1 && Pow2(31) == 0x8000_0000;
  }

  // Feasibility is downward closed for exactly these alignments: powers of two,
  // and those above every cap.
  lemma DownwardClosedAlignments(natural: uint32)
    ensures IsDownwardClosed(natural) <==> IsPowerOfTwo(Max(1, natural)) || natural > 0x8000_0000
  {
    if IsPowerOfTwo(Max(1, natural)) {
      forall offset: int64, p: uint32, q: uint32 ensures StaysAligned(offset, natural, p, q) {
        PowersStayAligned(offset, natural, p, q);
      }
    } else if natural > 0x8000_0000 {
      forall offset: int64, p: uint32, q: uint32 ensures StaysAligned(offset, natural, p, q) {
        OutOfReachStaysAligned(offset, natural, p, q);
      }
    } else {
      SmallPowers();
      var p, q := OddAlignmentIsNotDownwardClosed(natural);
      assert !StaysAligned(natural, natural, p, q);
    }
  }

  // The canonical cap is a threshold: an admissible cap aligns every field exactly
  // when it is no larger.
  lemma CapIsThreshold(requirements: seq<Requirement>, options: seq<uint32>, cap: uint32, r: Option<uint32>, q: uint32)
    requires PowersOfTwo(requirements) && IsCanonicalCap(requirements, options, cap, r)
    requires q > 0 && Admissible(options, cap, q)
    ensures AlignsAll(requirements, q) <==> r.Some? && q <= r.value
  {
    if r.Some? && q <= r.value {
      FeasibilityIsDownwardClosed(requirements, r.value, q);
    }
  }

  // A structure whose size is rounded up to its effective alignment keeps every
  // field aligned in every element of an array of it.
  lemma ArrayElementsStayAligned(requirements: seq<Requirement>, packing: uint32, e: uint32, extent: int64, i: nat,
      k: nat)
    requires PowersOfTwo(requirements) && IsPowerOfTwo(packing) && packing > 0 && AlignsAll(requirements, packing)
    requires IsEffectiveAlignment(requirements, packing, e) && extent + e - 1 <= INT64_MAX && k < |requirements|
    ensures extent <= AlignOffset(extent, e)
    ensures (i * AlignOffset(extent, e) + requirements[k].offset) % Effective(requirements[k], packing) == 0
  {
    assert Pow2(0) == 1;
    var size := AlignOffset(extent, e);
    var m := Effective(requirements[k], packing);
    assert IsPowerOfTwo(e) by {
      if e != 1 {
        var j :| 0 <= j < |requirements| && Effective(requirements[j], Max(1, packing)) == e;
        EffectiveIsPowerOfTwo(requirements[j], packing);
      }
    }
    AlignOffsetRoundsUp(extent, e);
    EffectiveIsPowerOfTwo(requirements[k], packing);
    SmallerPowerDivides(m, e);
    DividesThrough(size, e, m);
    DividesSum(i, size, requirements[k].offset, m);
  }

  // ---- Checked arithmetic -----------------------------------------------------------------

  function CheckedIntervalEnd(offset: int64, size: uint32): (r: Option<int64>)
    ensures r.Some? <==> offset + size <= INT64_MAX
    ensures r.Some? ==> r.value == offset + size
  {
    if offset > INT64_MAX - size then None else Some(offset + size)
  }

  // The unsigned subtraction wraps, and is still the exact distance.
  function CheckedIntervalSpan(begin: int64, end: int64): (r: Option<uint64>)
    ensures r.Some? <==> begin <= end
    ensures r.Some? ==> r.value == end - begin
  {
    if end < begin then None else Some((ToBits(end) - ToBits(begin)) % 0x1_0000_0000_0000_0000)
  }

  predicate CheckedIntervalsOverlap(lhs: int64, lhsSize: uint32, rhs: int64, rhsSize: uint32) {
    if lhsSize == 0 || rhsSize == 0 then false
    else
      var lhsEnd := CheckedIntervalEnd(lhs, lhsSize);
      var rhsEnd := CheckedIntervalEnd(rhs, rhsSize);
      lhsEnd.Some? && rhsEnd.Some? && lhs < rhsEnd.value && rhs < lhsEnd.value
  }

  ghost predicate HasByte(offset: int, size: int, b: int) {
    offset <= b < offset + size
  }

  // Overlap means a common byte, and that both ends are representable.
  lemma OverlapIsACommonByte(lhs: int64, lhsSize: uint32, rhs: int64, rhsSize: uint32)
    ensures CheckedIntervalsOverlap(lhs, lhsSize, rhs, rhsSize) <==>
              && lhs + lhsSize <= INT64_MAX && rhs + rhsSize <= INT64_MAX
              && exists b: int :: HasByte(lhs, lhsSize, b) && HasByte(rhs, rhsSize, b)
  {
    if CheckedIntervalsOverlap(lhs, lhsSize, rhs, rhsSize) {
      var b := Max(lhs, rhs);
      assert HasByte(lhs, lhsSize, b) && HasByte(rhs, rhsSize, b);
    }
  }

  predicate CheckedIntervalContains(outer: int64, outerSize: uint32, inner: int64, innerSize: uint32) {
    var outerEnd := CheckedIntervalEnd(outer, outerSize);
    var innerEnd := CheckedIntervalEnd(inner, innerSize);
    outerEnd.Some? && innerEnd.Some? && outer <= inner && outerEnd.value >= innerEnd.value
  }

  lemma ContainmentIsByByte(outer: int64, outerSize: uint32, inner: int64, innerSize: uint32)
    requires innerSize > 0 && outer + outerSize <= INT64_MAX && inner + innerSize <= INT64_MAX
    ensures CheckedIntervalContains(outer, outerSize, inner, innerSize) <==>
              forall b: int :: HasByte(inner, innerSize, b) ==> HasByte(outer, outerSize, b)
  {
    if forall b: int :: HasByte(inner, innerSize, b) ==> HasByte(outer, outerSize, b) {
      assert HasByte(inner, innerSize, inner) && HasByte(inner, innerSize, inner + innerSize - 1);
    }
  }

  function CheckedU32Product(lhs: uint32, rhs: uint32): (r: Option<uint32>)
    ensures r == if lhs * rhs <= UINT32_MAX then Some(lhs * rhs) else None
  {
    QuotientTest(lhs, rhs, UINT32_MAX);
    if lhs != 0 && rhs > UINT32_MAX / lhs then None else Some((lhs * rhs) % 0x1_0000_0000)
  }

  function CheckedSvalAdd(lhs: int64, rhs: int64): (r: Option<int64>)
    ensures r == if INT64_MIN <= lhs + rhs <= INT64_MAX then Some(lhs + rhs) else None
  {
    if (rhs > 0 && lhs > INT64_MAX - rhs) || (rhs < 0 && lhs < INT64_MIN - rhs) then None else Some(lhs + rhs)
  }

  function CheckedSvalSub(lhs: int64, rhs: int64): (r: Option<int64>)
    ensures r == if INT64_MIN <= lhs - rhs <= INT64_MAX then Some(lhs - rhs) else None
  {
    if (rhs > 0 && lhs < INT64_MIN + rhs) || (rhs < 0 && lhs > INT64_MAX + rhs) then None else Some(lhs - rhs)
  }

  // A product exceeds a limit exactly when one factor exceeds the quotient by the other.
  lemma QuotientTest(a: nat, b: nat, limit: nat)
    ensures a != 0 && b > limit / a <==> a * b > limit
  {
    if a != 0 {
      var q, r := limit / a, limit % a;
      assert limit == a * q + r;
      if b > q { Scaled(a, q + 1, b); } else { Scaled(a, b, q); }
    }
  }

  lemma Scaled(a: nat, b: int, c: int)
    requires b <= c
    ensures a * b <= a * c
  {
    assert a * c == a * b + a * (c - b);
  }

  function Abs(x: int): nat { if x < 0 then -x else x }

  function Magnitude(x: int64): (m: uint64)
    ensures m == Abs(x)
  {
    if x < 0 then (0 - ToBits(x)) % 0x1_0000_0000_0000_0000 else ToBits(x)
  }

  function ProductWithin(a: uint64, b: uint64, limit: uint64): (r: Option<uint64>)
    ensures r == if a * b <= limit then Some(a * b) else None
  {
    QuotientTest(a, b, limit);
    if a != 0 && b > limit / a then None else Some((a * b) % 0x1_0000_0000_0000_0000)
  }

  function WithSign(negative: bool, magnitude: uint64): (r: int64)
    requires magnitude <= if negative then INT64_MAX + 1 else INT64_MAX
    ensures r == if negative then 0 - magnitude else magnitude
  {
    if !negative then magnitude
    else if magnitude == INT64_MAX + 1 then INT64_MIN
    else 0 - magnitude
  }

  // Multiplies unsigned magnitudes under a limit that depends on the sign.
  function CheckedSvalMul(lhs: int64, rhs: int64): (r: Option<int64>)
    ensures r == if INT64_MIN <= lhs * rhs <= INT64_MAX then Some(lhs * rhs) else None
  {
    var negative := (lhs < 0) != (rhs < 0);
    SignedProduct(lhs, rhs);
    match ProductWithin(Magnitude(lhs), Magnitude(rhs), if negative then INT64_MAX + 1 else INT64_MAX)
    case None => None
    case Some(magnitude) => Some(WithSign(negative, magnitude))
  }

  lemma SignedProduct(lhs: int, rhs: int)
    ensures Abs(lhs) * Abs(rhs) == if (lhs < 0) != (rhs < 0) then -(lhs * rhs) else lhs * rhs
  {
    assert (-lhs) * (-rhs) == lhs * rhs && (-lhs) * rhs == -(lhs * rhs) && lhs * (-rhs) == -(lhs * rhs);
  }
}
