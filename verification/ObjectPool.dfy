// The object pool: a free list threaded through the slots of the blocks grown so
// far. A slot that is handed out holds an object, so its link is whatever the
// object's bytes make of it.
module ObjectPool {
  import opened Machine

  type Slot = nat

  // The free list starts at `head` and visits the slots of `free` in order.
  ghost predicate IsChain(next: seq<Option<Slot>>, head: Option<Slot>, free: seq<Slot>) {
    && (forall i :: 0 <= i < |free| ==> free[i] < |next|)
    && head == At(free, 0)
    && forall i, j :: 0 <= i < |free| && j == i + 1 ==> next[free[i]] == At(free, j)
  }

  ghost function At(free: seq<Slot>, i: nat): Option<Slot> {
    if i < |free| then Some(free[i]) else None
  }

  // Every slot ever grown is either free or live; none is twice in the list, so
  // following the links ends.
  ghost predicate IsPartition(free: seq<Slot>, live: set<Slot>, slots: nat) {
    && Distinct(free)
    && (forall s: Slot :: s in free ==> s !in live)
    && (forall s: Slot :: s in free || s in live <==> s < slots)
  }

  lemma PopChain(next: seq<Option<Slot>>, free: seq<Slot>, live: set<Slot>)
    requires free != [] && IsChain(next, Some(free[0]), free) && IsPartition(free, live, |next|)
    ensures IsChain(next, next[free[0]], free[1..]) && IsPartition(free[1..], live + {free[0]}, |next|)
  {
    var rest := free[1..];
    forall i, j | 0 <= i < |rest| && j == i + 1 ensures next[rest[i]] == At(rest, j) {
      assert next[free[i + 1]] == At(free, j + 1);
    }
    assert next[free[0]] == At(free, 1);
    assert free == [free[0]] + rest;
    forall s: Slot ensures s in rest || s in live + {free[0]} <==> s < |next| {
      assert s in free <==> s == free[0] || s in rest;
    }
    forall s: Slot | s in rest ensures s !in live + {free[0]} {
      var i :| 0 <= i < |rest| && rest[i] == s;
      assert free[i + 1] == s;
    }
  }

  lemma PushChain(next: seq<Option<Slot>>, head: Option<Slot>, free: seq<Slot>, live: set<Slot>, slot: Slot)
    requires IsChain(next, head, free) && IsPartition(free, live, |next|) && slot in live && slot < |next|
    ensures IsChain(next[slot := head], Some(slot), [slot] + free) && IsPartition([slot] + free, live - {slot}, |next|)
  {
    var more := [slot] + free;
    var next' := next[slot := head];
    assert slot !in free;
    forall i, j | 0 <= i < |more| && j == i + 1 ensures next'[more[i]] == At(more, j) {
      if i > 0 {
        assert free[i - 1] in free;
        assert next[free[i - 1]] == At(free, i);
      }
    }
    forall s: Slot ensures s in more <==> s == slot || s in free {}
  }

  // Writing to a live slot does not touch the list.
  lemma LiveWritesKeepChain(next: seq<Option<Slot>>, head: Option<Slot>, free: seq<Slot>, live: set<Slot>, slot: Slot,
      bytes: Option<Slot>)
    requires IsChain(next, head, free) && IsPartition(free, live, |next|) && slot in live && slot < |next|
    ensures IsChain(next[slot := bytes], head, free)
  {
    forall i | 0 <= i < |free| ensures free[i] != slot { assert free[i] in free; }
  }

  // The slots lo, lo + 1, ..., hi - 1.
  ghost function Range(lo: nat, hi: nat): (r: seq<Slot>)
    requires lo <= hi
    ensures |r| == hi - lo && forall i :: 0 <= i < |r| ==> r[i] == lo + i
  {
    if lo == hi then [] else Range(lo, hi - 1) + [hi - 1]
  }

  lemma GrowChain(next: seq<Option<Slot>>, next': seq<Option<Slot>>, head: Option<Slot>, free: seq<Slot>,
      live: set<Slot>, k: nat)
    requires IsChain(next, head, free) && IsPartition(free, live, |next|) && k > 0 && |next'| == |next| + k
    requires forall s :: 0 <= s < |next| ==> next'[s] == next[s]
    requires forall s, t :: |next| <= s && t == s + 1 < |next| + k ==> next'[s] == Some(t)
    requires next'[|next| + k - 1] == head
    ensures var grown := Range(|next|, |next| + k) + free;
            IsChain(next', Some(|next|), grown) && IsPartition(grown, live, |next'|)
  {
    var added := Range(|next|, |next| + k);
    var grown := added + free;
    forall i, j | 0 <= i < |grown| && j == i + 1 ensures next'[grown[i]] == At(grown, j) {
      if i < k - 1 {
        assert grown[i] == |next| + i && grown[j] == |next| + j;
      } else if i >= k {
        assert grown[i] == free[i - k] && next[free[i - k]] == At(free, j - k);
      }
    }
    forall s: Slot ensures s in grown <==> s in free || |next| <= s < |next| + k {
      if |next| <= s < |next| + k { assert grown[s - |next|] == s; }
      if s in free { var i :| 0 <= i < |free| && free[i] == s; assert grown[k + i] == s; }
    }
    forall i, j | 0 <= i < j < |grown| ensures grown[i] != grown[j] {
      if j >= k { assert free[j - k] in free && free[j - k] < |next|; }
    }
  }

  class ObjectPool {
    const slotsPerBlock: nat
    var next: seq<Option<Slot>>
    var freeList: Option<Slot>
    var blocks: nat
    ghost var free: seq<Slot>
    ghost var live: set<Slot>

    ghost predicate Valid()
      reads this
    {
      && slotsPerBlock > 0 && |next| == blocks * slotsPerBlock
      && IsChain(next, freeList, free)
      && IsPartition(free, live, |next|)
    }

    constructor (slotsPerBlock: nat)
      requires slotsPerBlock > 0
      ensures Valid() && this.slotsPerBlock == slotsPerBlock && live == {} && free == []
    {
      this.slotsPerBlock := slotsPerBlock;
      next, freeList, blocks, free, live := [], None, 0, [], {};
    }

    // Links the slots of a new block in front of the list, if the system has memory.
    method Grow(available: bool) returns (ok: bool)
      requires Valid()
      modifies this
      ensures Valid() && live == old(live) && ok == available
      ensures ok ==> blocks == old(blocks) + 1 && free == Range(|old(next)|, |old(next)| + slotsPerBlock) + old(free)
      ensures !ok ==> blocks == old(blocks) && free == old(free) && freeList == old(freeList)
    {
      ok := available;
      if !ok {
        return;
      }
      var base := |next|;
      ghost var before := next;
      next := next + seq(slotsPerBlock, _ => None);
      for i := 0 to slotsPerBlock - 1
        invariant |next| == base + slotsPerBlock && freeList == old(freeList)
        invariant forall s :: 0 <= s < base ==> next[s] == before[s]
        invariant forall s, t :: base <= s && t == s + 1 <= base + i ==> next[s] == Some(t)
        invariant live == old(live) && free == old(free) && blocks == old(blocks)
      {
        next := next[base + i := Some(base + i + 1)];
      }
      next := next[base + slotsPerBlock - 1 := freeList];
      GrowChain(before, next, freeList, free, live, slotsPerBlock);
      freeList := Some(base);
      free := Range(base, base + slotsPerBlock) + free;
      blocks := blocks + 1;
    }

    // Hands out a slot that was not live: the head of the list, of a new block if the
    // list was empty. Fails exactly if the list was empty and the system has no memory.
    method Allocate(available: bool) returns (slot: Option<Slot>)
      requires Valid()
      modifies this
      ensures Valid() && (slot.Some? <==> old(free) != [] || available)
      ensures slot.None? ==> live == old(live) && free == old(free) == []
      ensures slot.Some? ==> slot.value !in old(live) && live == old(live) + {slot.value}
      ensures slot.Some? && old(free) != [] ==>
          && slot.value == old(free)[0]
          && free == old(free)[1..]
          && blocks == old(blocks)
      ensures slot.Some? && old(free) == [] ==>
          slot.value == |old(next)| && blocks == old(blocks) + 1 && |free| == slotsPerBlock - 1
    {
      if freeList.None? {
        var ok := Grow(available);
        if !ok {
          return None;
        }
      }
      slot := freeList;
      PopChain(next, free, live);
      assert slot.value in free;
      freeList := next[slot.value];
      free, live := free[1..], live + {slot.value};
    }

    // Returns a live slot to the front of the list; a null pointer is ignored.
    method Deallocate(slot: Option<Slot>)
      requires Valid() && (slot.Some? ==> slot.value in live)
      modifies this
      ensures Valid()
      ensures slot.None? ==> live == old(live) && free == old(free)
      ensures slot.Some? ==> live == old(live) - {slot.value} && free == [slot.value] + old(free)
    {
      if slot.None? {
        return;
      }
      PushChain(next, freeList, free, live, slot.value);
      next := next[slot.value := freeList];
      freeList := slot;
      free, live := [slot.value] + free, live - {slot.value};
    }

    // The user of a live slot writes its bytes.
    method Write(slot: Slot, bytes: Option<Slot>)
      requires Valid() && slot in live
      modifies this`next
      ensures Valid() && next == old(next)[slot := bytes]
    {
      LiveWritesKeepChain(next, freeList, free, live, slot, bytes);
      next := next[slot := bytes];
    }
  }
}
