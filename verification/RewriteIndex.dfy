// The index of global rewrite registrations: three lookup maps that have to
// agree with the log of all registrations since the last clear.
module RewriteIndex {
  import opened Machine

  type Address = uint64

  datatype Registration = Registration(root: Address, head: Option<Address>, aliases: seq<Address>)

  datatype Update = Update(index: nat, replaced: bool)

  type Log = seq<Registration>

  // ---- What the log determines ------------------------------------------------------

  // The canonical roots in order of first registration: a root's position is its slot.
  ghost function Roots(log: Log): seq<Address> {
    if log == [] then []
    else
      var earlier := Roots(log[..|log| - 1]);
      if log[|log| - 1].root in earlier then earlier else earlier + [log[|log| - 1].root]
  }

  ghost function Slot(roots: seq<Address>, root: Address): (slot: nat)
    requires root in roots
    ensures slot < |roots| && roots[slot] == root
  {
    if roots[|roots| - 1] == root then |roots| - 1 else Slot(roots[..|roots| - 1], root)
  }

  // Registration k is the latest one of its root.
  ghost predicate IsLatest(log: Log, k: nat) {
    k < |log| && forall j :: k < j < |log| ==> log[j].root != log[k].root
  }

  // The item head that a root's latest registration gave.
  ghost function HeadOf(log: Log, root: Address): Option<Address> {
    if log == [] then None
    else if log[|log| - 1].root == root then log[|log| - 1].head
    else HeadOf(log[..|log| - 1], root)
  }

  // The root whose slot the alias currently leads to.
  ghost function AliasRoot(log: Log, alias: Address): Option<Address> {
    if log == [] then None
    else
      var last := log[|log| - 1];
      var earlier := AliasRoot(log[..|log| - 1], alias);
      if alias in last.aliases then Some(last.root)
      else if earlier == Some(last.root) then None
      else earlier
  }

  // Registration k is the last to list the alias, and its root has not been
  // registered again since.
  ghost predicate IsLive(log: Log, alias: Address, k: nat) {
    && k < |log| && alias in log[k].aliases
    && forall j :: k < j < |log| ==> alias !in log[j].aliases && log[j].root != log[k].root
  }

  // Slot s is the only one whose current head is this address.
  ghost predicate OnlyHead(heads: seq<Option<Address>>, head: Address, s: nat) {
    && s < |heads| && heads[s] == Some(head)
    && forall t :: 0 <= t < |heads| && heads[t] == Some(head) ==> t == s
  }

  lemma {:induction false} RootsOf(log: Log)
    ensures Distinct(Roots(log))
    ensures forall r :: r in Roots(log) <==> exists k :: 0 <= k < |log| && log[k].root == r
  {
    if log != [] {
      var n := |log| - 1;
      RootsOf(log[..n]);
      forall r ensures r in Roots(log) <==> exists k :: 0 <= k < |log| && log[k].root == r {
        if r in Roots(log) {
          if r in Roots(log[..n]) {
            var k :| 0 <= k < n && log[..n][k].root == r;
            assert log[k].root == r;
          } else {
            assert log[n].root == r;
          }
        }
        if k :| 0 <= k < |log| && log[k].root == r {
          if k < n { assert log[..n][k].root == r; }
        }
      }
    }
  }

  // The latest registration of a root decides its head.
  lemma {:induction false} HeadOfLatest(log: Log, k: nat)
    requires IsLatest(log, k)
    ensures HeadOf(log, log[k].root) == log[k].head
  {
    var n := |log| - 1;
    if k < n {
      assert log[n].root != log[k].root;
      assert IsLatest(log[..n], k) by {
        forall j | k < j < n ensures log[..n][j].root != log[..n][k].root { assert log[j].root != log[k].root; }
      }
      HeadOfLatest(log[..n], k);
    }
  }

  lemma {:induction false} AliasRootIsLive(log: Log, alias: Address)
    ensures AliasRoot(log, alias).None? ==> forall k: nat :: !IsLive(log, alias, k)
    ensures AliasRoot(log, alias).Some? ==>
              exists k: nat :: IsLive(log, alias, k) && log[k].root == AliasRoot(log, alias).value
    ensures AliasRoot(log, alias).Some? ==> AliasRoot(log, alias).value in Roots(log)
  {
    if log != [] {
      var n := |log| - 1;
      AliasRootIsLive(log[..n], alias);
      forall k: nat | k != n
          ensures IsLive(log, alias, k) <==>
                  (IsLive(log[..n], alias, k) && alias !in log[n].aliases && log[k].root != log[n].root)
      {
        LiveBefore(log, alias, k);
      }
      if alias in log[n].aliases {
        assert IsLive(log, alias, n);
      } else if AliasRoot(log, alias).Some? {
        var k: nat :| IsLive(log[..n], alias, k) && log[..n][k].root == AliasRoot(log[..n], alias).value;
        assert IsLive(log, alias, k);
      } else if k: nat :| IsLive(log, alias, k) {
        assert IsLive(log[..n], alias, k);
        var j: nat :| IsLive(log[..n], alias, j) && log[..n][j].root == log[n].root;
        LiveIsUnique(log[..n], alias, j, k);
      }
    }
  }

  lemma LiveBefore(log: Log, alias: Address, k: nat)
    requires log != [] && k != |log| - 1
    ensures IsLive(log, alias, k) <==>
              IsLive(log[..|log| - 1], alias, k) && alias !in log[|log| - 1].aliases
                  && log[k].root != log[|log| - 1].root
  {
    var before := log[..|log| - 1];
    if IsLive(log, alias, k) {
      forall j | k < j < |before| ensures alias !in before[j].aliases && before[j].root != before[k].root {
        assert log[j] == before[j];
      }
    }
  }

  lemma LiveIsUnique(log: Log, a: Address, k: nat, j: nat)
    requires IsLive(log, a, k) && IsLive(log, a, j)
    ensures k == j
  {
  }

  lemma {:induction false} SlotUnique(roots: seq<Address>, i: nat)
    requires Distinct(roots) && i < |roots|
    ensures Slot(roots, roots[i]) == i
  {
  }

  // A registered root keeps its slot for ever.
  lemma SlotIsStable(log: Log, r: Registration, root: Address)
    requires root in Roots(log)
    ensures root in Roots(log + [r]) && Slot(Roots(log + [r]), root) == Slot(Roots(log), root)
  {
    RootsOf(log);
    RootsOf(log + [r]);
    assert (log + [r])[..|log|] == log;
    SlotUnique(Roots(log + [r]), Slot(Roots(log), root));
  }

  // ---- The state ------------------------------------------------------------------------

  ghost predicate RootsAgree(log: Log, canonical: map<Address, nat>, next: nat) {
    var roots := Roots(log);
    && next == |roots|
    && (forall r :: r in canonical <==> r in roots)
    && (forall r {:trigger canonical[r]} :: r in canonical ==> canonical[r] == Slot(roots, r))
  }

  ghost predicate HeadsAgree(log: Log, heads: seq<Option<Address>>) {
    var roots := Roots(log);
    |heads| == |roots| && forall s :: 0 <= s < |heads| ==> heads[s] == HeadOf(log, roots[s])
  }

  ghost predicate HeadIndexAgrees(heads: seq<Option<Address>>, index: map<Address, nat>) {
    && (forall h :: h in index ==> OnlyHead(heads, h, index[h]))
    && (forall h, s: nat :: OnlyHead(heads, h, s) ==> h in index)
  }

  ghost predicate AliasesAgree(log: Log, index: map<Address, nat>) {
    && (forall a :: a in index <==> AliasRoot(log, a).Some?)
    && (forall a {:trigger index[a]} :: a in index ==> IsSlotOf(log, AliasRoot(log, a).value, index[a]))
  }

  ghost predicate IsSlotOf(log: Log, root: Address, slot: nat) {
    root in Roots(log) && slot == Slot(Roots(log), root)
  }

  // ---- How a registration changes it -------------------------------------------------------

  lemma RootsAfter(log: Log, r: Registration, canonical: map<Address, nat>, next: nat)
    requires RootsAgree(log, canonical, next)
    ensures var index := if r.root in canonical then canonical[r.root] else next;
            && RootsAgree(log + [r], canonical[r.root := index], if r.root in canonical then next else next + 1)
            && r.root in Roots(log + [r]) && index == Slot(Roots(log + [r]), r.root)
  {
    assert (log + [r])[..|log|] == log;
    RootsOf(log + [r]);
    forall q | q in Roots(log) { SlotIsStable(log, r, q); }
    if r.root !in canonical { SlotUnique(Roots(log + [r]), |Roots(log)|); }
  }

  lemma HeadsAfter(log: Log, r: Registration, heads: seq<Option<Address>>, grown: seq<Option<Address>>, slot: nat)
    requires HeadsAgree(log, heads) && r.root in Roots(log + [r]) && slot == Slot(Roots(log + [r]), r.root)
    requires grown == if slot < |heads| then heads else heads + [None]
    ensures slot < |grown| && HeadsAgree(log + [r], grown[slot := r.head])
  {
    var log' := log + [r];
    assert log'[..|log|] == log;
    RootsOf(log);
    RootsOf(log');
    forall s | 0 <= s < |Roots(log')| && s != slot
        ensures HeadOf(log', Roots(log')[s]) == HeadOf(log, Roots(log)[s]) && s < |Roots(log)| {
      assert Roots(log')[s] != r.root;
    }
  }

  // `kept` is the map without the keys of one slot.
  ghost predicate Erased(index: map<Address, nat>, slot: nat, kept: map<Address, nat>) {
    && (forall a :: a in kept <==> a in index && index[a] != slot)
    && (forall a :: a in kept ==> kept[a] == index[a])
  }

  // `listed` is the map with the aliases leading to the slot.
  ghost predicate Listed(index: map<Address, nat>, aliases: seq<Address>, slot: nat, listed: map<Address, nat>) {
    && (forall a :: a in listed <==> a in index || a in aliases)
    && (forall a :: a in listed ==> listed[a] == if a in aliases then slot else index[a])
  }

  // Erasing the slot and adding the listed aliases keeps the alias map in step.
  lemma AliasesAfter(log: Log, r: Registration, index: map<Address, nat>, kept: map<Address, nat>,
      index': map<Address, nat>)
    requires AliasesAgree(log, index) && r.root in Roots(log + [r])
    requires Erased(index, Slot(Roots(log + [r]), r.root), kept)
    requires Listed(kept, r.aliases, Slot(Roots(log + [r]), r.root), index')
    ensures AliasesAgree(log + [r], index')
  {
    forall a ensures a in index' <==> AliasRoot(log + [r], a).Some?
      ensures a in index' ==> IsSlotOf(log + [r], AliasRoot(log + [r], a).value, index'[a])
    {
      assert (log + [r])[..|log|] == log;
      if a in index {
        SlotIsStable(log, r, AliasRoot(log, a).value);
      }
    }
  }

  // A slot holds one root, so erasing it and inserting the root again changes nothing.
  lemma Reinserted(log: Log, canonical: map<Address, nat>, next: nat, root: Address, kept: map<Address, nat>)
    requires RootsAgree(log, canonical, next) && root in canonical && Erased(canonical, canonical[root], kept)
    ensures kept[root := canonical[root]] == canonical
  {
  }

  lemma NewSlotHasNoAliases(log: Log, index: map<Address, nat>, slot: nat)
    requires AliasesAgree(log, index) && slot == |Roots(log)|
    ensures Erased(index, slot, index)
  {
    forall a | a in index ensures index[a] != slot {
      assert IsSlotOf(log, AliasRoot(log, a).value, index[a]);
    }
  }

  // ---- The class ------------------------------------------------------------------------------

  class GlobalRewriteIndex {
    var canonicalRootIndex: map<Address, nat>
    var headIndex: map<Address, nat>
    var aliasIndex: map<Address, nat>
    var slotHeads: seq<Option<Address>>
    var nextIndex: nat
    // Every registration since the last clear.
    ghost var log: Log

    ghost predicate Valid()
      reads this
    {
      && RootsAgree(log, canonicalRootIndex, nextIndex)
      && HeadsAgree(log, slotHeads)
      && HeadIndexAgrees(slotHeads, headIndex)
      && AliasesAgree(log, aliasIndex)
    }

    constructor ()
      ensures Valid() && log == []
    {
      canonicalRootIndex, headIndex, aliasIndex := map[], map[], map[];
      slotHeads, nextIndex, log := [], 0, [];
    }

    method Clear()
      modifies this
      ensures Valid() && log == []
    {
      canonicalRootIndex, headIndex, aliasIndex := map[], map[], map[];
      slotHeads, nextIndex, log := [], 0, [];
    }

    method Upsert(root: Address, head: Option<Address>, aliases: seq<Address>) returns (update: Update)
      requires Valid()
      modifies this
      ensures Valid() && log == old(log) + [Registration(root, head, aliases)]
      ensures root in Roots(log) && update.index == Slot(Roots(log), root)
      ensures update.replaced <==> root in Roots(old(log))
    {
      ghost var r, known := Registration(root, head, aliases), aliasIndex;
      ghost var before := log;
      var index, existing := TakeSlot(root, head, r);
      ghost var kept := aliasIndex;
      aliasIndex := AddAliases(aliasIndex, aliases, index);
      AliasesAfter(before, r, known, kept, aliasIndex);
      ghost var after := before + [r];
      assert RootsAgree(after, canonicalRootIndex, nextIndex);
      assert HeadsAgree(after, slotHeads);
      log := after;
      update := Update(index, existing);
    }

    // The part of a registration before its aliases: find or open the slot, drop
    // its old lookup keys, set its head.
    method TakeSlot(root: Address, head: Option<Address>, ghost r: Registration) returns (index: nat, existing: bool)
      requires Valid() && r.root == root && r.head == head
      modifies `canonicalRootIndex, `headIndex, `aliasIndex, `slotHeads, `nextIndex
      ensures RootsAgree(log + [r], canonicalRootIndex, nextIndex) && HeadsAgree(log + [r], slotHeads)
      ensures HeadIndexAgrees(slotHeads, headIndex) && Erased(old(aliasIndex), index, aliasIndex)
      ensures root in Roots(log + [r]) && index == Slot(Roots(log + [r]), root)
      ensures existing <==> root in Roots(log)
    {
      index, existing := OpenSlot(root, r);
      slotHeads := slotHeads[index := head];
      headIndex := RebuildHeadIndex(slotHeads);
    }

    // The slot of a root, emptied of its old lookup keys, or a new one.
    method OpenSlot(root: Address, ghost r: Registration) returns (index: nat, existing: bool)
      requires Valid() && r.root == root
      modifies `canonicalRootIndex, `aliasIndex, `slotHeads, `nextIndex
      ensures RootsAgree(log + [r], canonicalRootIndex, nextIndex) && Erased(old(aliasIndex), index, aliasIndex)
      ensures index < |slotHeads| && HeadsAgree(log + [r], slotHeads[index := r.head])
      ensures root in Roots(log + [r]) && index == Slot(Roots(log + [r]), root)
      ensures existing <==> root in Roots(log)
    {
      ghost var canonical, heads := canonicalRootIndex, slotHeads;
      RootsAfter(log, r, canonical, nextIndex);
      existing := root in canonicalRootIndex;
      index := if existing then canonicalRootIndex[root] else nextIndex;
      if existing {
        canonicalRootIndex := EraseSlot(canonicalRootIndex, index);
        aliasIndex := EraseSlot(aliasIndex, index);
        Reinserted(log, canonical, nextIndex, root, canonicalRootIndex);
      } else {
        nextIndex := nextIndex + 1;
        slotHeads := slotHeads + [None];
        NewSlotHasNoAliases(log, aliasIndex, index);
      }
      canonicalRootIndex := canonicalRootIndex[root := index];
      HeadsAfter(log, r, heads, slotHeads, index);
    }

    // The slot of a canonical root; failing that, of the only slot whose item
    // head is this address.
    method FindRoot(address: Address) returns (slot: Option<nat>)
      requires Valid()
      ensures address in Roots(log) ==> slot == Some(Slot(Roots(log), address))
      ensures address !in Roots(log) ==>
                forall s: nat :: slot == Some(s) <==> OnlyHead(slotHeads, address, s)
      ensures HeadsAgree(log, slotHeads)
    {
      if address in canonicalRootIndex {
        return Some(canonicalRootIndex[address]);
      }
      if address in headIndex {
        return Some(headIndex[address]);
      }
      slot := None;
    }

    // The slot of the last registration listing the alias, unless that slot has
    // been registered again since.
    method FindAlias(address: Address) returns (slot: Option<nat>)
      requires Valid()
      ensures slot.Some? ==> exists k: nat :: IsLive(log, address, k) && IsSlotOf(log, log[k].root, slot.value)
      ensures slot.None? ==> forall k: nat :: !IsLive(log, address, k)
    {
      AliasRootIsLive(log, address);
      slot := if address in aliasIndex then Some(aliasIndex[address]) else None;
    }

    method SlotCount() returns (n: nat)
      requires Valid()
      ensures n == |Roots(log)|
    {
      n := nextIndex;
    }
  }

  // Removes every key of one slot.
  method EraseSlot(index: map<Address, nat>, slot: nat) returns (r: map<Address, nat>)
    ensures Erased(index, slot, r)
  {
    r := index;
    var pending := index.Keys;
    while pending != {}
      invariant pending <= index.Keys
      invariant forall a :: a in r <==> a in index && (a in pending || index[a] != slot)
      invariant forall a :: a in r ==> r[a] == index[a]
      decreases |pending|
    {
      var a :| a in pending;
      pending := pending - {a};
      if r[a] == slot {
        r := r - {a};
      }
    }
  }

  method AddAliases(index: map<Address, nat>, aliases: seq<Address>, slot: nat) returns (r: map<Address, nat>)
    ensures Listed(index, aliases, slot, r)
  {
    r := index;
    for i := 0 to |aliases|
      invariant Listed(index, aliases[..i], slot, r)
    {
      assert aliases[..i + 1] == aliases[..i] + [aliases[i]];
      r := r[aliases[i] := slot];
    }
    assert aliases[..|aliases|] == aliases;
  }

  // Heads that occur in one slot only.
  ghost function CountHead(heads: seq<Option<Address>>, head: Address): nat {
    if heads == [] then 0
    else CountHead(heads[..|heads| - 1], head) + if heads[|heads| - 1] == Some(head) then 1 else 0
  }

  lemma {:induction false} CountZero(heads: seq<Option<Address>>, head: Address)
    ensures CountHead(heads, head) == 0 <==> forall t :: 0 <= t < |heads| ==> heads[t] != Some(head)
  {
    if heads != [] {
      var n := |heads| - 1;
      CountZero(heads[..n], head);
      assert forall t :: 0 <= t < n ==> heads[..n][t] == heads[t];
    }
  }

  lemma {:induction false} CountOne(heads: seq<Option<Address>>, head: Address)
    ensures CountHead(heads, head) == 1 <==> exists s: nat :: OnlyHead(heads, head, s)
  {
    if heads != [] {
      var n := |heads| - 1;
      CountOne(heads[..n], head);
      CountZero(heads[..n], head);
      assert forall t :: 0 <= t < n ==> heads[..n][t] == heads[t];
      if CountHead(heads, head) == 1 {
        if heads[n] == Some(head) {
          assert OnlyHead(heads, head, n);
        } else {
          var s: nat :| OnlyHead(heads[..n], head, s);
          assert OnlyHead(heads, head, s);
        }
      }
      if s: nat :| OnlyHead(heads, head, s) {
        if heads[n] != Some(head) { assert OnlyHead(heads[..n], head, s); }
      }
    }
  }

  method RebuildHeadIndex(heads: seq<Option<Address>>) returns (index: map<Address, nat>)
    ensures HeadIndexAgrees(heads, index)
  {
    index := map[];
    var counts: map<Address, nat> := map[];
    for slot := 0 to |heads|
      invariant forall h :: CountHead(heads[..slot], h) == if h in counts then counts[h] else 0
      invariant HeadIndexAgrees(heads[..slot], index)
    {
      ghost var before := heads[..slot];
      assert heads[..slot + 1] == before + [heads[slot]];
      assert heads[..slot + 1][..slot] == before;
      if heads[slot].None? {
        NoHeadAdded(before, index);
        continue;
      }
      var head := heads[slot].value;
      var count := (if head in counts then counts[head] else 0) + 1;
      counts := counts[head := count];
      HeadAdded(before, head, index);
      if count == 1 {
        index := index[head := slot];
      } else {
        index := index - {head};
      }
    }
    assert heads[..|heads|] == heads;
  }

  lemma NoHeadAdded(heads: seq<Option<Address>>, index: map<Address, nat>)
    requires HeadIndexAgrees(heads, index)
    ensures HeadIndexAgrees(heads + [None], index)
  {
    forall h: Address, s: nat | OnlyHead(heads + [None], h, s) ensures OnlyHead(heads, h, s) {
      forall t | 0 <= t < |heads| && heads[t] == Some(h) ensures t == s { assert (heads + [None])[t] == Some(h); }
    }
  }

  lemma HeadAdded(heads: seq<Option<Address>>, head: Address, index: map<Address, nat>)
    requires HeadIndexAgrees(heads, index)
    ensures CountHead(heads, head) == 0 ==> HeadIndexAgrees(heads + [Some(head)], index[head := |heads|])
    ensures CountHead(heads, head) != 0 ==> HeadIndexAgrees(heads + [Some(head)], index - {head})
  {
    var heads' := heads + [Some(head)];
    CountZero(heads, head);
    forall h: Address, s: nat | h != head ensures OnlyHead(heads', h, s) <==> OnlyHead(heads, h, s) {
      if OnlyHead(heads', h, s) {
        forall t | 0 <= t < |heads| && heads[t] == Some(h) ensures t == s { assert heads'[t] == Some(h); }
      }
    }
    if CountHead(heads, head) != 0 {
      var t :| 0 <= t < |heads| && heads[t] == Some(head);
      assert heads'[t] == Some(head) && heads'[|heads|] == Some(head);
    }
  }
}
