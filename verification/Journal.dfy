// The first-touch journal of named-type writes, and what undoing along its
// rollback order does to a store.
module Journal {
  import opened Machine

  // The first observed state of a name; later writes update only the identity.
  datatype Entry = Entry(
    name: string,
    existedBefore: bool,
    originalIdentity: uint64,
    currentIdentity: uint64,
    mutated: bool)

  // ---- Entries as a value -----------------------------------------------------------

  // The entry of a name.
  ghost function Position(entries: seq<Entry>, name: string): (i: Option<nat>)
    ensures i.Some? ==> i.value < |entries| && entries[i.value].name == name
    ensures i.None? ==> forall k :: 0 <= k < |entries| ==> entries[k].name != name
  {
    if entries == [] then None
    else if entries[|entries| - 1].name == name then Some(|entries| - 1)
    else Position(entries[..|entries| - 1], name)
  }

  // No two entries share a name, and no entry is nameless.
  ghost predicate OnePerName(entries: seq<Entry>) {
    forall i: nat :: i < |entries| ==> entries[i].name != "" && Position(entries, entries[i].name) == Some(i)
  }

  function Staged(entries: seq<Entry>, name: string, existed: bool, identity: uint64): seq<Entry> {
    entries + [Entry(name, existed, identity, 0, false)]
  }

  function Marked(entries: seq<Entry>, index: nat, identity: uint64): seq<Entry>
    requires index < |entries|
  {
    entries[index := entries[index].(currentIdentity := identity, mutated := true)]
  }

  lemma StagedPosition(entries: seq<Entry>, name: string, existed: bool, identity: uint64, n: string)
    ensures Position(Staged(entries, name, existed, identity), n) ==
            if n == name then Some(|entries|) else Position(entries, n)
  {
    assert Staged(entries, name, existed, identity)[..|entries|] == entries;
  }

  lemma {:induction false} MarkedPosition(entries: seq<Entry>, index: nat, identity: uint64, n: string)
    requires index < |entries|
    ensures Position(Marked(entries, index, identity), n) == Position(entries, n)
  {
    var k := |entries| - 1;
    if index < k {
      assert Marked(entries, index, identity)[..k] == Marked(entries[..k], index, identity);
      MarkedPosition(entries[..k], index, identity, n);
    } else {
      assert Marked(entries, index, identity)[..k] == entries[..k];
    }
  }

  lemma StagingKeepsOnePerName(entries: seq<Entry>, name: string, existed: bool, identity: uint64)
    requires OnePerName(entries) && name != "" && Position(entries, name).None?
    ensures OnePerName(Staged(entries, name, existed, identity))
  {
    var after := Staged(entries, name, existed, identity);
    forall i: nat | i < |after| ensures after[i].name != "" && Position(after, after[i].name) == Some(i) {
      StagedPosition(entries, name, existed, identity, after[i].name);
      if i < |entries| { assert after[i] == entries[i]; }
    }
  }

  lemma MarkingKeepsOnePerName(entries: seq<Entry>, index: nat, identity: uint64)
    requires OnePerName(entries) && index < |entries|
    ensures OnePerName(Marked(entries, index, identity))
  {
    var after := Marked(entries, index, identity);
    forall i: nat | i < |after| ensures after[i].name != "" && Position(after, after[i].name) == Some(i) {
      MarkedPosition(entries, index, identity, after[i].name);
      assert after[i].name == entries[i].name;
    }
  }

  // The mutated entries, latest first touch first.
  ghost function RollbackOrderOf(entries: seq<Entry>): seq<nat> {
    if entries == [] then []
    else
      var n := |entries| - 1;
      (if entries[n].mutated then [n] else []) + RollbackOrderOf(entries[..n])
  }

  ghost predicate Within(order: seq<nat>, size: nat) {
    forall k :: 0 <= k < |order| ==> order[k] < size
  }

  lemma OrderStep(entries: seq<Entry>, i: nat, order: seq<nat>)
    requires 0 < i <= |entries|
    ensures order + RollbackOrderOf(entries[..i]) ==
            (if entries[i - 1].mutated then order + [i - 1] else order) + RollbackOrderOf(entries[..i - 1])
  {
    var first: seq<nat> := if entries[i - 1].mutated then [i - 1] else [];
    assert entries[..i][..i - 1] == entries[..i - 1];
    assert RollbackOrderOf(entries[..i]) == first + RollbackOrderOf(entries[..i - 1]);
  }

  ghost predicate StrictlyDecreasing(order: seq<nat>) {
    forall a, b :: 0 <= a < b < |order| ==> order[b] < order[a]
  }

  lemma {:induction false} OrderIsWithin(entries: seq<Entry>)
    ensures Within(RollbackOrderOf(entries), |entries|)
  {
    if entries != [] { OrderIsWithin(entries[..|entries| - 1]); }
  }

  // Mutated entries are visited in decreasing order of first touch, hence once.
  lemma {:induction false} OrderDecreases(entries: seq<Entry>)
    ensures StrictlyDecreasing(RollbackOrderOf(entries))
  {
    if entries != [] {
      var n := |entries| - 1;
      OrderDecreases(entries[..n]);
      OrderIsWithin(entries[..n]);
    }
  }

  lemma {:induction false} OrderIsTheMutated(entries: seq<Entry>, i: nat)
    ensures i in RollbackOrderOf(entries) <==> i < |entries| && entries[i].mutated
  {
    if entries != [] {
      var n := |entries| - 1;
      OrderIsTheMutated(entries[..n], i);
      OrderIsWithin(entries[..n]);
    }
  }

  // ---- The class -------------------------------------------------------------------------

  class PersistenceTransactionJournal {
    var entries: seq<Entry>
    var indices: map<string, nat>

    ghost predicate Valid()
      reads this
    {
      && OnePerName(entries)
      && forall n :: (if n in indices then Some(indices[n]) else None) == Position(entries, n)
    }

    constructor ()
      ensures Valid() && entries == []
    {
      entries, indices := [], map[];
    }

    // An empty name is refused; a name already staged keeps its first entry.
    method Stage(name: string, existedBefore: bool, originalIdentity: uint64) returns (index: Option<nat>)
      requires Valid()
      modifies this
      ensures Valid()
      ensures name == "" ==> index.None? && entries == old(entries)
      ensures name != "" && Position(old(entries), name).Some? ==>
                index == Position(old(entries), name) && entries == old(entries)
      ensures name != "" && Position(old(entries), name).None? ==>
                index == Some(|old(entries)|) && entries == Staged(old(entries), name, existedBefore, originalIdentity)
    {
      if name == "" {
        return None;
      }
      assert Position(entries, name) == if name in indices then Some(indices[name]) else None;
      if name in indices {
        return Some(indices[name]);
      }
      StagingKeepsOnePerName(entries, name, existedBefore, originalIdentity);
      forall n { StagedPosition(entries, name, existedBefore, originalIdentity, n); }
      index := Some(|entries|);
      entries := entries + [Entry(name, existedBefore, originalIdentity, 0, false)];
      indices := indices[name := index.value];
    }

    method Find(name: string) returns (index: Option<nat>)
      requires Valid()
      ensures index == Position(entries, name)
    {
      index := if name in indices then Some(indices[name]) else None;
    }

    // Identity 0 is no identity and is refused.
    method MarkMutated(index: nat, currentIdentity: uint64) returns (ok: bool)
      requires Valid()
      modifies this
      ensures Valid()
      ensures ok <==> index < |old(entries)| && currentIdentity != 0
      ensures entries == if ok then Marked(old(entries), index, currentIdentity) else old(entries)
    {
      if index >= |entries| || currentIdentity == 0 {
        return false;
      }
      MarkingKeepsOnePerName(entries, index, currentIdentity);
      forall n ensures Position(Marked(entries, index, currentIdentity), n) == Position(entries, n) {
        MarkedPosition(entries, index, currentIdentity, n);
      }
      entries := entries[index := entries[index].(currentIdentity := currentIdentity, mutated := true)];
      ok := true;
    }

    method RollbackOrder() returns (order: seq<nat>)
      ensures order == RollbackOrderOf(entries)
    {
      order := [];
      var i := |entries|;
      assert entries[..i] == entries;
      while i > 0
        invariant 0 <= i <= |entries|
        invariant order + RollbackOrderOf(entries[..i]) == RollbackOrderOf(entries)
      {
        OrderStep(entries, i, order);
        if entries[i - 1].mutated {
          order := order + [i - 1];
        }
        i := i - 1;
      }
    }

    method Clear()
      modifies this
      ensures Valid() && entries == []
    {
      entries, indices := [], map[];
    }
  }

  // ---- Undoing restores the start -------------------------------------------------------

  // A write leaves a value under the name or removes it, and is then marked with
  // the identity the caller observed; every name is staged before its write.
  datatype Write<V> = Write(name: string, value: Option<V>, identity: uint64)

  // The store, the journal and the snapshot taken beside each entry.
  datatype State<V> = State(store: map<string, V>, entries: seq<Entry>, snapshots: seq<Option<V>>)

  ghost function Begin<V>(start: map<string, V>): State<V> {
    State(start, [], [])
  }

  ghost function AfterStage<V>(s: State<V>, name: string): State<V> {
    if Position(s.entries, name).Some? then s
    else s.(entries := Staged(s.entries, name, name in s.store, 0), snapshots := s.snapshots + [Lookup(s.store, name)])
  }

  ghost function AfterWrite<V>(s: State<V>, w: Write<V>): State<V> {
    var staged := AfterStage(s, w.name);
    var index := Position(staged.entries, w.name);
    staged.(
      store := Put(s.store, w.name, w.value),
      entries :=
        if w.identity != 0 && index.Some? then Marked(staged.entries, index.value, w.identity)
        else staged.entries)
  }

  ghost function AfterWrites<V>(start: map<string, V>, writes: seq<Write<V>>): State<V> {
    if writes == [] then Begin(start)
    else AfterWrite(AfterWrites(start, writes[..|writes| - 1]), writes[|writes| - 1])
  }

  // Along the order: restore the snapshot of a name that existed, remove the others.
  ghost function Undo<V>(s: State<V>, order: seq<nat>): map<string, V>
    requires |s.snapshots| == |s.entries| && Within(order, |s.entries|)
  {
    if order == [] then s.store
    else
      var before := Undo(s, order[..|order| - 1]);
      var i := order[|order| - 1];
      Put(before, s.entries[i].name, if s.entries[i].existedBefore then s.snapshots[i] else None)
  }

  ghost predicate IsMarked<V>(writes: seq<Write<V>>, name: string) {
    exists k :: 0 <= k < |writes| && writes[k].name == name && writes[k].identity != 0
  }

  // What the journal knows of one name; `marked` says whether a write of it was.
  ghost predicate Remembers<V>(start: map<string, V>, s: State<V>, marked: bool, name: string) {
    match Position(s.entries, name)
    case None => Lookup(s.store, name) == Lookup(start, name) && !marked
    case Some(i) =>
      && i < |s.snapshots| && s.snapshots[i] == Lookup(start, name)
      && s.entries[i].existedBefore == (name in start)
      && s.entries[i].mutated == marked
  }

  lemma {:induction false} WritesAreRemembered<V>(start: map<string, V>, writes: seq<Write<V>>)
    requires forall k :: 0 <= k < |writes| ==> writes[k].name != ""
    ensures var s := AfterWrites(start, writes);
            && OnePerName(s.entries) && |s.snapshots| == |s.entries|
            && forall name :: Remembers(start, s, IsMarked(writes, name), name)
  {
    if writes != [] {
      var n := |writes| - 1;
      var before := AfterWrites(start, writes[..n]);
      WritesAreRemembered(start, writes[..n]);
      WriteKeepsOnePerName(before, writes[n]);
      forall name ensures Remembers(start, AfterWrites(start, writes), IsMarked(writes, name), name) {
        OneMoreMark(writes, name);
        OneMoreWrite(start, before, IsMarked(writes[..n], name), writes[n], name);
      }
    }
  }

  lemma StagedIsThere<V>(s: State<V>, name: string)
    ensures Position(AfterStage(s, name).entries, name).Some? && AfterStage(s, name).store == s.store
  {
    if Position(s.entries, name).None? { StagedPosition(s.entries, name, name in s.store, 0, name); }
  }

  lemma WriteKeepsOnePerName<V>(s: State<V>, w: Write<V>)
    requires OnePerName(s.entries) && |s.snapshots| == |s.entries| && w.name != ""
    ensures OnePerName(AfterWrite(s, w).entries) && |AfterWrite(s, w).snapshots| == |AfterWrite(s, w).entries|
  {
    StagedIsThere(s, w.name);
    if Position(s.entries, w.name).None? { StagingKeepsOnePerName(s.entries, w.name, w.name in s.store, 0); }
    var staged := AfterStage(s, w.name);
    if w.identity != 0 { MarkingKeepsOnePerName(staged.entries, Position(staged.entries, w.name).value, w.identity); }
  }

  lemma OneMoreMark<V>(writes: seq<Write<V>>, name: string)
    requires writes != []
    ensures var w := writes[|writes| - 1];
            IsMarked(writes, name) <==> IsMarked(writes[..|writes| - 1], name) || (w.name == name && w.identity != 0)
  {
    var n := |writes| - 1;
    if k :| 0 <= k < n && writes[..n][k].name == name && writes[..n][k].identity != 0 { assert writes[k].name == name; }
    if k :| 0 <= k < n && writes[k].name == name && writes[k].identity != 0 { assert writes[..n][k].name == name; }
  }

  lemma StagingRemembers<V>(start: map<string, V>, s: State<V>, marked: bool, staged: string, name: string)
    requires |s.snapshots| == |s.entries| && Remembers(start, s, marked, name)
    ensures Remembers(start, AfterStage(s, staged), marked, name)
  {
    if Position(s.entries, staged).None? {
      StagedPosition(s.entries, staged, staged in s.store, 0, name);
    }
  }

  lemma OneMoreWrite<V>(start: map<string, V>, before: State<V>, marked: bool, w: Write<V>, name: string)
    requires |before.snapshots| == |before.entries| && Remembers(start, before, marked, name)
    ensures Remembers(start, AfterWrite(before, w), marked || (w.name == name && w.identity != 0), name)
  {
    StagingRemembers(start, before, marked, w.name, name);
    StagedIsThere(before, w.name);
    var staged := AfterStage(before, w.name);
    if w.identity != 0 { MarkedPosition(staged.entries, Position(staged.entries, w.name).value, w.identity, name); }
  }

  lemma {:induction false} UndoEffect<V>(s: State<V>, order: seq<nat>, name: string)
    requires OnePerName(s.entries) && |s.snapshots| == |s.entries| && Within(order, |s.entries|)
    ensures Lookup(Undo(s, order), name) ==
            match Position(s.entries, name)
            case None => Lookup(s.store, name)
            case Some(i) =>
              if i !in order then Lookup(s.store, name)
              else if s.entries[i].existedBefore then s.snapshots[i] else None
  {
    if order != [] {
      var n := |order| - 1;
      UndoEffect(s, order[..n], name);
      assert order == order[..n] + [order[n]];
      assert Position(s.entries, s.entries[order[n]].name) == Some(order[n]);
    }
  }

  // Undoing gives every name that was ever marked its value at the start, and
  // leaves every other name alone.
  lemma UndoRestoresMarkedNames<V>(start: map<string, V>, writes: seq<Write<V>>, name: string)
    requires forall k :: 0 <= k < |writes| ==> writes[k].name != ""
    ensures var s := AfterWrites(start, writes);
            && |s.snapshots| == |s.entries|
            && Within(RollbackOrderOf(s.entries), |s.entries|)
            && Lookup(Undo(s, RollbackOrderOf(s.entries)), name) ==
               Lookup(if IsMarked(writes, name) then start else s.store, name)
  {
    var s := AfterWrites(start, writes);
    WritesAreRemembered(start, writes);
    OrderIsWithin(s.entries);
    if Position(s.entries, name).Some? { OrderIsTheMutated(s.entries, Position(s.entries, name).value); }
    UndoEffect(s, RollbackOrderOf(s.entries), name);
    assert Remembers(start, s, IsMarked(writes, name), name);
  }

  // The store is back at the start exactly when every name that now differs from
  // the start was marked at least once.
  lemma UndoRestoresStart<V>(start: map<string, V>, writes: seq<Write<V>>)
    requires forall k :: 0 <= k < |writes| ==> writes[k].name != ""
    ensures var s := AfterWrites(start, writes);
            && |s.snapshots| == |s.entries|
            && Within(RollbackOrderOf(s.entries), |s.entries|)
            && (Undo(s, RollbackOrderOf(s.entries)) == start <==>
                forall name :: Lookup(s.store, name) == Lookup(start, name) || IsMarked(writes, name))
  {
    var s := AfterWrites(start, writes);
    UndoRestoresMarkedNames(start, writes, "");
    var undone := Undo(s, RollbackOrderOf(s.entries));
    forall name ensures Lookup(undone, name) == Lookup(if IsMarked(writes, name) then start else s.store, name) {
      UndoRestoresMarkedNames(start, writes, name);
    }
    if forall name :: Lookup(s.store, name) == Lookup(start, name) || IsMarked(writes, name) {
      forall name ensures Lookup(undone, name) == Lookup(start, name) {}
      SameLookups(undone, start);
    }
  }

  lemma SameLookups<V>(a: map<string, V>, b: map<string, V>)
    requires forall name :: Lookup(a, name) == Lookup(b, name)
    ensures a == b
  {
    forall name ensures name in a <==> name in b { assert Lookup(a, name) == Lookup(b, name); }
    forall name | name in a ensures a[name] == b[name] { assert Lookup(a, name) == Lookup(b, name); }
  }
}
