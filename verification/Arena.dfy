// The bump-pointer arena. An address is an offset into a block; blocks obtained
// from the system are distinct and aligned to a cache line.
module Arena {
  import opened Machine
  import opened Bits

  // No object is larger than half the address space, so no allocation of more
  // succeeds.
  const LARGEST_OBJECT: int := INT64_MAX

  datatype Region = Block(index: nat) | Large(id: nat)

  datatype Allocation = Allocation(region: Region, offset: uint64, size: uint64)

  // (value + 15) & ~15 on size_t.
  function AlignUp16(value: uint64): uint64 {
    var sum := (value + 15) % 0x1_0000_0000_0000_0000;
    MaskedIsSmaller(sum, UINT64_MAX - 15);
    BitAnd(sum, UINT64_MAX - 15)
  }

  lemma MaskRoundsTo16(sum: uint64)
    ensures BitAnd(sum, UINT64_MAX - 15) == sum - sum % 16
  {
    Pow2_64();
    assert Pow2(4) == 16;
    ClearLowBits(sum, 4, 64);
  }

  // The least multiple of 16 not below the value.
  function RoundUp16(value: int): int {
    value + 15 - (value + 15) % 16
  }

  lemma AlignUp16RoundsUp(value: uint64)
    requires value <= LARGEST_OBJECT
    ensures AlignUp16(value) == RoundUp16(value)
  {
    MaskRoundsTo16(value + 15);
  }

  ghost predicate Disjoint(a: Allocation, b: Allocation) {
    a.region == b.region ==> a.offset + a.size <= b.offset || b.offset + b.size <= a.offset
  }

  ghost predicate PairwiseDisjoint(live: seq<Allocation>) {
    forall i, j :: 0 <= i < j < |live| ==> Disjoint(live[i], live[j])
  }

  // Inside its block, at a multiple of 16.
  ghost predicate Placed(a: Allocation, blockSize: uint64, blocks: nat, large: seq<uint64>) {
    && a.offset % 16 == 0
    && match a.region
       case Block(index) => index < blocks && a.offset + a.size <= blockSize
       case Large(id) => id < |large| && a.offset + a.size <= large[id]
  }

  // Nothing live lies behind the current position, or in a large block to come.
  ghost predicate Behind(a: Allocation, current: nat, position: uint64, large: nat) {
    match a.region
    case Block(index) => index == current ==> a.offset + a.size <= position
    case Large(id) => id < large
  }

  // Bytes of the live allocations that share blocks.
  ghost function BlockBytes(live: seq<Allocation>): nat {
    if live == [] then 0
    else BlockBytes(live[..|live| - 1]) + if live[|live| - 1].region.Block? then live[|live| - 1].size else 0
  }

  lemma OneMoreInBlock(live: seq<Allocation>, a: Allocation, blockSize: uint64, blocks: nat, large: seq<uint64>,
      current: nat, position: uint64)
    requires PairwiseDisjoint(live) && a.region == Block(current) && position <= a.offset
        && Placed(a, blockSize, blocks, large)
    requires forall i :: 0 <= i < |live| ==> Placed(live[i], blockSize, blocks, large)
    requires forall i :: 0 <= i < |live| ==> Behind(live[i], current, position, |large|)
    ensures PairwiseDisjoint(live + [a])
    ensures forall i :: 0 <= i < |live + [a]| ==> Placed((live + [a])[i], blockSize, blocks, large)
    ensures forall p: uint64, i :: a.offset + a.size <= p && 0 <= i < |live + [a]| ==>
        Behind((live + [a])[i], current, p, |large|)
  {
    forall i | 0 <= i < |live| ensures Disjoint(live[i], a) {
      assert Behind(live[i], current, position, |large|);
    }
    OneMore(live, a, blockSize, blocks, large);
    forall p: uint64, i | a.offset + a.size <= p && 0 <= i < |live + [a]|
        ensures Behind((live + [a])[i], current, p, |large|) {
      if i < |live| { assert Behind(live[i], current, position, |large|); }
    }
  }

  lemma OneMoreLarge(live: seq<Allocation>, a: Allocation, blockSize: uint64, blocks: nat, large: seq<uint64>,
      current: nat, position: uint64)
    requires PairwiseDisjoint(live) && a == Allocation(Large(|large|), 0, a.size)
    requires forall i :: 0 <= i < |live| ==> Placed(live[i], blockSize, blocks, large)
    requires forall i :: 0 <= i < |live| ==> Behind(live[i], current, position, |large|)
    ensures PairwiseDisjoint(live + [a]) && BlockBytes(live + [a]) == BlockBytes(live)
    ensures forall i :: 0 <= i < |live + [a]| ==> Placed((live + [a])[i], blockSize, blocks, large + [a.size])
    ensures forall i :: 0 <= i < |live + [a]| ==> Behind((live + [a])[i], current, position, |large| + 1)
  {
    assert (live + [a])[..|live|] == live;
    forall i | 0 <= i < |live| ensures Disjoint(live[i], a) && Placed(live[i], blockSize, blocks, large + [a.size]) {
      assert Behind(live[i], current, position, |large|);
    }
    OneMore(live, a, blockSize, blocks, large + [a.size]);
    forall i | 0 <= i < |live + [a]| ensures Behind((live + [a])[i], current, position, |large| + 1) {
      if i < |live| { assert Behind(live[i], current, position, |large|); }
    }
  }

  lemma WrappedSum(a: uint64, b: uint64)
    ensures (a + b) % 0x1_0000_0000_0000_0000 == if a + b <= UINT64_MAX then a + b else a + b - 0x1_0000_0000_0000_0000
  {
  }

  lemma BytesAddUp(live: seq<Allocation>, a: Allocation, bytes: uint64)
    requires a.region.Block? && bytes == BlockBytes(live) % 0x1_0000_0000_0000_0000
    ensures (bytes + a.size) % 0x1_0000_0000_0000_0000 == BlockBytes(live + [a]) % 0x1_0000_0000_0000_0000
  {
    assert (live + [a])[..|live|] == live;
  }

  lemma OneMore(live: seq<Allocation>, a: Allocation, blockSize: uint64, blocks: nat, large: seq<uint64>)
    requires PairwiseDisjoint(live)
    requires forall i :: 0 <= i < |live| ==> Placed(live[i], blockSize, blocks, large) && Disjoint(live[i], a)
    requires Placed(a, blockSize, blocks, large)
    ensures PairwiseDisjoint(live + [a]) && forall i :: 0 <= i < |live + [a]| ==>
        Placed((live + [a])[i], blockSize, blocks, large)
  {
  }

  class Arena {
    const blockSize: uint64
    var blocks: nat
    var current: nat
    var position: uint64
    var end: uint64
    var bytesAllocated: uint64
    // Sizes of the large blocks.
    var large: seq<uint64>
    // What was handed out since the last reset.
    ghost var live: seq<Allocation>

    ghost predicate Valid()
      reads this
    {
      && current < blocks && position <= end == blockSize <= LARGEST_OBJECT
      && PairwiseDisjoint(live)
      && (forall i :: 0 <= i < |live| ==> Placed(live[i], blockSize, blocks, large))
      && (forall i :: 0 <= i < |live| ==> Behind(live[i], current, position, |large|))
      && bytesAllocated == BlockBytes(live) % 0x1_0000_0000_0000_0000
    }

    // A block size that cannot be allocated raises an exception instead.
    constructor (blockSize: uint64)
      requires blockSize <= LARGEST_OBJECT
      ensures Valid() && this.blockSize == blockSize && live == [] && current == 0 && position == 0
    {
      this.blockSize := blockSize;
      blocks, current, position, end, bytesAllocated := 1, 0, 0, blockSize, 0;
      large, live := [], [];
    }

    ghost predicate SeemsToFit(size: uint64)
      reads this
    {
      (RoundUp16(position) + size) % 0x1_0000_0000_0000_0000 <= end
    }

    // The sum of the aligned position and the size wraps round to something that
    // looks as if it fitted.
    ghost predicate WrapsIntoBlock(size: uint64)
      reads this
    {
      0x1_0000_0000_0000_0000 <= RoundUp16(position) + size <= 0x1_0000_0000_0000_0000 + end
    }

    // `available`: the system has memory.
    method AlignedAlloc(size: uint64, available: bool) returns (ok: bool)
      ensures ok <==> available && size <= LARGEST_OBJECT
    {
      ok := available && size <= LARGEST_OBJECT;
    }

    method AllocateBlock(available: bool) returns (ok: bool)
      requires Valid()
      modifies this
      ensures ok == available && live == old(live) && large == old(large)
      ensures ok ==> Valid() && blocks == old(blocks) + 1 && current == old(blocks) && position == 0
      ensures !ok ==> Valid() && blocks == old(blocks) && current == old(current) && position == old(position)
      ensures bytesAllocated == old(bytesAllocated) && end == blockSize
    {
      ok := AlignedAlloc(blockSize, available);
      if ok {
        current, blocks, position, end := blocks, blocks + 1, 0, blockSize;
      }
    }

    // Large allocation: a block of its own.
    method AllocateLarge(size: uint64, available: bool) returns (r: Option<Allocation>)
      requires Valid()
      modifies this
      ensures r.Some? <==> available && size <= LARGEST_OBJECT
      ensures large == old(large) + if r.Some? then [size] else []
      ensures Valid() && blocks == old(blocks) && current == old(current) && position == old(position)
      ensures r.None? ==> live == old(live)
      ensures r.Some? ==> live == old(live) + [r.value] && r.value == Allocation(Large(|old(large)|), 0, size)
    {
      var ok := AlignedAlloc(size, available);
      if !ok {
        return None;
      }
      r := Some(Allocation(Large(|large|), 0, size));
      OneMoreLarge(live, r.value, blockSize, blocks, large, current, position);
      large := large + [size];
      live := live + [r.value];
    }

    // Bumps the position past the allocation.
    method TakeFromBlock(aligned: uint64, size: uint64) returns (a: Allocation)
      requires Valid() && aligned % 16 == 0 && position <= aligned
      requires (aligned + size) % 0x1_0000_0000_0000_0000 <= end
      modifies this
      ensures blocks == old(blocks) && current == old(current) && large == old(large)
      ensures position == (aligned + size) % 0x1_0000_0000_0000_0000
      ensures a == Allocation(Block(current), aligned, size) && live == old(live) + [a]
      ensures Valid() <==> aligned + size <= UINT64_MAX
      ensures aligned + size > UINT64_MAX ==> aligned + size > blockSize
    {
      a := Allocation(Block(current), aligned, size);
      WrappedSum(aligned, size);
      if aligned + size <= UINT64_MAX {
        OneMoreInBlock(live, a, blockSize, blocks, large, current, position);
      }
      BytesAddUp(live, a, bytesAllocated);
      position := (aligned + size) % 0x1_0000_0000_0000_0000;
      bytesAllocated := (bytesAllocated + size) % 0x1_0000_0000_0000_0000;
      live := live + [a];
      assert live[|live| - 1] == a;
    }

    method AlignedPosition() returns (aligned: uint64)
      requires Valid()
      ensures aligned == RoundUp16(position)
    {
      AlignUp16RoundsUp(position);
      aligned := AlignUp16(position);
    }

    method TakeFromNewBlock(size: uint64, available: bool) returns (r: Option<Allocation>)
      requires Valid() && size <= blockSize
      modifies this
      ensures Valid() && r.Some? == available && large == old(large)
      ensures r.None? ==> live == old(live) && current == old(current) && position == old(position)
      ensures r.Some? ==>
          && r.value == Allocation(Block(old(blocks)), 0, size)
          && live == old(live) + [r.value]
          && blocks == old(blocks) + 1 && current == old(blocks) && position == size
    {
      var ok := AllocateBlock(available);
      if !ok {
        return None;
      }
      var a := TakeFromBlock(0, size);
      r := Some(a);
    }

    // A new allocation lies inside its block, at a multiple of 16, disjoint from
    // every live one, unless its size wraps the sum round; then it does not. It fails
    // exactly if it does not fit and the system has no memory for it.
    method Allocate(size: uint64, available: bool) returns (r: Option<Allocation>)
      requires Valid()
      modifies this
      ensures r.Some? <==> old(SeemsToFit(size)) || (available && (size > blockSize / 2 ==> size <= LARGEST_OBJECT))
      ensures large == old(large) + if r.Some? && r.value.region.Large? then [size] else []
      ensures r.None? ==>
          Valid() && live == old(live) && current == old(current) && position == old(position) && !old(SeemsToFit(size))
      ensures r.Some? ==> live == old(live) + [r.value] && r.value.size == size
      ensures old(SeemsToFit(size)) ==>
          && r == Some(Allocation(Block(old(current)), RoundUp16(old(position)), size))
          && current == old(current) && position == (r.value.offset + size) % 0x1_0000_0000_0000_0000
      ensures r.Some? && !old(SeemsToFit(size)) && size <= blockSize / 2 ==>
          r.value == Allocation(Block(old(blocks)), 0, size) && current == old(blocks) && position == size
      ensures r.Some? && !old(SeemsToFit(size)) && size > blockSize / 2 ==>
          && r.value == Allocation(Large(|old(large)|), 0, size)
          && current == old(current) && position == old(position)
      ensures r.Some? ==> (r.value.region.Large? <==> !old(SeemsToFit(size)) && size > blockSize / 2)
      ensures r.Some? && !r.value.region.Large? ==> blocks == old(blocks) + if old(SeemsToFit(size)) then 0 else 1
      ensures r.Some? ==> (Valid() <==> !old(WrapsIntoBlock(size)))
      ensures r.Some? && old(WrapsIntoBlock(size)) ==> r.value.offset + size > blockSize
    {
      var aligned := AlignedPosition();
      if (aligned + size) % 0x1_0000_0000_0000_0000 > end {
        if size > blockSize / 2 {
          r := AllocateLarge(size, available);
        } else {
          r := TakeFromNewBlock(size, available);
        }
        return;
      }
      var a := TakeFromBlock(aligned, size);
      r := Some(a);
    }

    // Large blocks are freed; of the others the first is used again.
    method Reset()
      requires Valid()
      modifies this
      ensures Valid() && live == [] && large == [] && bytesAllocated == 0
      ensures blocks == old(blocks) && current == 0 && position == 0
    {
      live := [];
      large := [];
      current, position, end := 0, 0, blockSize;
      bytesAllocated := 0;
    }
  }

  // Bytes of the live allocations that have blocks of their own.
  ghost function LargeBytes(live: seq<Allocation>): nat {
    if live == [] then 0
    else LargeBytes(live[..|live| - 1]) + if live[|live| - 1].region.Large? then live[|live| - 1].size else 0
  }

  ghost function TotalBytes(live: seq<Allocation>): nat {
    if live == [] then 0 else TotalBytes(live[..|live| - 1]) + live[|live| - 1].size
  }

  lemma {:induction false} TotalIsBoth(live: seq<Allocation>)
    ensures TotalBytes(live) == BlockBytes(live) + LargeBytes(live)
  {
    if live != [] { TotalIsBoth(live[..|live| - 1]); }
  }

  // The byte counter leaves out the large allocations: modulo 2^64 it is the total
  // exactly if they add up to nothing.
  lemma BytesAllocatedLeavesOutLarge(arena: Arena)
    requires arena.Valid()
    ensures arena.bytesAllocated == TotalBytes(arena.live) % 0x1_0000_0000_0000_0000 <==>
            LargeBytes(arena.live) % 0x1_0000_0000_0000_0000 == 0
  {
    TotalIsBoth(arena.live);
  }

  // A size that wraps exists as soon as anything was taken from the current block.
  lemma WrappingSizeExists(arena: Arena)
    requires arena.Valid()
    ensures (exists size: uint64 :: arena.WrapsIntoBlock(size)) <==> arena.position > 0
  {
    if arena.position > 0 {
      assert arena.WrapsIntoBlock(0x1_0000_0000_0000_0000 - RoundUp16(arena.position));
    }
  }

  // Sixteen bytes, and then all but sixteen of the address space: the second
  // request succeeds in the same block, and the arena forgets the first.
  method WrapAround(available: bool) returns (arena: Arena, first: Allocation, second: Allocation)
    ensures fresh(arena) && arena.live == [first, second]
    ensures first == Allocation(Block(0), 0, 16) && second == Allocation(Block(0), 16, UINT64_MAX - 15)
    ensures second.offset + second.size > arena.blockSize && arena.position == 0 && !arena.Valid()
  {
    arena := new Arena(1024);
    var r := arena.Allocate(16, available);
    first := r.value;
    assert arena.WrapsIntoBlock(UINT64_MAX - 15) && arena.SeemsToFit(UINT64_MAX - 15);
    r := arena.Allocate(UINT64_MAX - 15, available);
    second := r.value;
  }

  lemma SmallPowersDivide16(k: nat, value: int)
    requires Pow2(k) <= 16 && value % 16 == 0
    ensures value % Pow2(k) == 0
  {
    assert Pow2(4) == 16 && k <= 4;
    Pow2Divides(k, 4);
    DividesThrough(value, 16, Pow2(k));
  }

  predicate IsMet(position: uint64, alignment: nat)
    requires alignment > 0
  {
    AlignUp16(position) % alignment == 0
  }

  lemma RoundedUpIsMultiple(value: nat)
    ensures RoundUp16(value) % 16 == 0
  {
  }

  lemma SmallIsMet(k: nat, position: uint64)
    requires Pow2(k) <= 16 && position <= LARGEST_OBJECT
    ensures IsMet(position, Pow2(k))
  {
    AlignUp16RoundsUp(position);
    RoundedUpIsMultiple(position);
    var aligned: int := AlignUp16(position);
    SmallPowersDivide16(k, aligned);
  }

  lemma BigIsNotMet(k: nat)
    requires Pow2(k) > 16
    ensures !IsMet(1, Pow2(k))
  {
    AlignUp16RoundsUp(1);
    ModUnique(16, Pow2(k), 0, 16);
  }

  // The alignment parameter of an allocation is not used: an alignment that is a
  // power of two is met wherever the arena stands exactly if it is at most 16.
  lemma AlignmentIsMetUpTo16(k: nat)
    ensures (forall position: uint64 :: position <= LARGEST_OBJECT ==> IsMet(position, Pow2(k))) <==> Pow2(k) <= 16
  {
    if Pow2(k) <= 16 {
      forall position: uint64 | position <= LARGEST_OBJECT ensures IsMet(position, Pow2(k)) {
        SmallIsMet(k, position);
      }
    } else {
      BigIsNotMet(k);
    }
  }
}
