// The transaction of the structure store as functions of what the database makes
// of each write: the journaled write, the undo of one entry, the rollback. Every
// effect is an argument, so that what holds for all effects and what some effects
// bring about are both statements about these functions.
module Rollback {
  import opened Machine
  import opened Journal
  import opened Database

  // What rollback needs to recreate a type that existed.
  datatype Snapshot = Snapshot(originalTid: Tid, definition: Definition)

  // The store and the state of the open transaction. `unseen` holds the names whose
  // identity could not be read after a write.
  datatype Txn = Txn(
    types: Types,
    entries: seq<Entry>,
    snapshots: seq<Option<Snapshot>>,
    unseen: set<string>,
    poisoned: bool)

  function Opened(start: Types): Txn {
    Txn(start, [], [], {}, false)
  }

  // ---- A transactional write ---------------------------------------------------------

  // No empty name; and before a name is first touched its type must be ours and readable.
  ghost predicate Refuses(t: Txn, name: string, readable: bool) {
    name == "" || (Position(t.entries, name).None? && name in t.types && (!t.types[name].owned || !readable))
  }

  function IdentityOf(types: Types, name: string): uint64 {
    if name in types then types[name].tid else 0
  }

  function SnapshotOf(types: Types, name: string): Option<Snapshot> {
    if name in types then Some(Snapshot(types[name].tid, types[name].definition)) else None
  }

  // The name is in the journal, with the state it had when it was first touched.
  ghost function Journaled(t: Txn, name: string): Txn {
    if Position(t.entries, name).Some? then t
    else
      t.(entries := Staged(t.entries, name, name in t.types, IdentityOf(t.types, name)),
         snapshots := t.snapshots + [SnapshotOf(t.types, name)])
  }

  // What the entry is marked with: the identity that was read; without one, an
  // entry of a name that existed is marked with its original identity, once.
  function Token(e: Entry, current: Option<Tid>): Option<uint64> {
    if current.Some? then Some(current.value)
    else if e.mutated || !e.existedBefore || e.originalIdentity == 0 then None
    else Some(e.originalIdentity)
  }

  function MarkedWith(entries: seq<Entry>, index: nat, current: Option<Tid>): seq<Entry>
    requires index < |entries|
  {
    var token := Token(entries[index], current);
    if token.Some? then Marked(entries, index, token.value) else entries
  }

  lemma MarkedWithPosition(entries: seq<Entry>, index: nat, current: Option<Tid>, n: string)
    requires index < |entries|
    ensures Position(MarkedWith(entries, index, current), n) == Position(entries, n)
  {
    var token := Token(entries[index], current);
    if token.Some? { MarkedPosition(entries, index, token.value, n); }
  }

  // The identity read after a write.
  function SeenAfter(effect: Effect): Option<Tid> {
    if effect.raisesAfter || effect.left.None? then None else Some(effect.left.value.tid)
  }

  // The read after a write that did not raise has no handler: its exception leaves
  // the write before the entry is marked.
  predicate Escapes(effect: Effect) {
    !effect.outcome.Raised? && effect.raisesAfter
  }

  predicate IsSaved(effect: Effect) {
    effect.outcome.Saved? && effect.left.Some? && !effect.raisesAfter
  }

  ghost function Written(t: Txn, name: string, effect: Effect): Txn
    requires Position(t.entries, name).Some?
  {
    WrittenAt(t, Position(t.entries, name).value, name, effect)
  }

  // The write of a name whose entry is at the index.
  ghost function WrittenAt(t: Txn, index: nat, name: string, effect: Effect): Txn
    requires index < |t.entries|
  {
    t.(types := Put(t.types, name, effect.left),
       entries := if Escapes(effect) then t.entries else MarkedWith(t.entries, index, SeenAfter(effect)),
       unseen := if effect.raisesAfter then t.unseen + {name} else t.unseen,
       poisoned := t.poisoned || !IsSaved(effect))
  }

  lemma JournaledHasEntry(t: Txn, name: string)
    ensures Position(Journaled(t, name).entries, name).Some?
  {
    StagedPosition(t.entries, name, name in t.types, IdentityOf(t.types, name), name);
  }

  // The exception of a read before a name is journaled ends the write.
  ghost predicate FailsBefore(t: Txn, name: string, effect: Effect) {
    name != "" && Position(t.entries, name).None? && effect.raisesBefore
  }

  ghost function TransactionalWrite(t: Txn, name: string, readable: bool, effect: Effect): Txn {
    if FailsBefore(t, name, effect) then t.(poisoned := true)
    else if Refuses(t, name, readable) then t
    else
      JournaledHasEntry(t, name);
      Written(Journaled(t, name), name, effect)
  }

  // ---- What the journal knows of the store ---------------------------------------------

  // Entry i was staged with the state its name had at the start.
  ghost predicate StagedFaithfully(start: Types, entries: seq<Entry>, snapshots: seq<Option<Snapshot>>, i: nat)
    requires i < |entries|
  {
    var e := entries[i];
    && e.existedBefore == (e.name in start)
    && (e.existedBefore ==>
          && e.originalIdentity == start[e.name].tid
          && i < |snapshots| && snapshots[i] == Some(Snapshot(start[e.name].tid, start[e.name].definition)))
  }

  // A name differs from the start only if its entry is marked or its identity went
  // unseen. A type that is not ours is not in the journal at all.
  ghost predicate Tracked(start: Types, t: Txn, n: string) {
    match Position(t.entries, n)
    case None => Lookup(t.types, n) == Lookup(start, n)
    case Some(i) =>
      && (n in start ==> start[n].owned)
      && StagedFaithfully(start, t.entries, t.snapshots, i)
      && (t.entries[i].mutated || n in t.unseen || Lookup(t.types, n) == Lookup(start, n))
      && (t.entries[i].mutated && n !in t.unseen && n in t.types ==> t.types[n].tid == t.entries[i].currentIdentity)
  }

  ghost predicate Consistent(start: Types, t: Txn) {
    && OnePerName(t.entries) && |t.snapshots| == |t.entries|
    && forall n :: Tracked(start, t, n)
  }

  lemma OpenedIsConsistent(start: Types)
    ensures Consistent(start, Opened(start))
  {
  }

  lemma JournalingTracks(start: Types, t: Txn, name: string, n: string)
    requires |t.snapshots| == |t.entries| && Tracked(start, t, name) && Tracked(start, t, n)
    requires Position(t.entries, name).None? ==> (name in t.types ==> t.types[name].owned)
    ensures Tracked(start, Journaled(t, name), n)
  {
    if Position(t.entries, name).None? {
      StagedPosition(t.entries, name, name in t.types, IdentityOf(t.types, name), n);
    }
  }

  // A write to a journaled name, whatever it leaves there.
  lemma WritingTracks(start: Types, t: Txn, name: string, effect: Effect, n: string)
    requires Position(t.entries, name).Some? && Tracked(start, t, name) && Tracked(start, t, n)
    ensures Tracked(start, Written(t, name, effect), n)
  {
    if !Escapes(effect) { MarkedWithPosition(t.entries, Position(t.entries, name).value, SeenAfter(effect), n); }
    assert n != name ==> Lookup(Put(t.types, name, effect.left), n) == Lookup(t.types, n);
  }

  lemma JournalingIsConsistent(start: Types, t: Txn, name: string)
    requires Consistent(start, t) && !Refuses(t, name, true)
    ensures Consistent(start, Journaled(t, name))
  {
    forall n ensures Tracked(start, Journaled(t, name), n) {
      assert Tracked(start, t, name) && Tracked(start, t, n);
      JournalingTracks(start, t, name, n);
    }
    if Position(t.entries, name).None? {
      StagingKeepsOnePerName(t.entries, name, name in t.types, IdentityOf(t.types, name));
    }
  }

  lemma FirstTouch(start: Types, t: Txn, name: string)
    requires Consistent(start, t) && !Refuses(t, name, true) && Position(t.entries, name).None?
    ensures var t' := t.(entries := Staged(t.entries, name, name in t.types, IdentityOf(t.types, name)),
                         snapshots := t.snapshots + [SnapshotOf(t.types, name)]);
            t' == Journaled(t, name) && Consistent(start, t') && Position(t'.entries, name) == Some(|t.entries|)
  {
    JournalingIsConsistent(start, t, name);
    StagedPosition(t.entries, name, name in t.types, IdentityOf(t.types, name), name);
  }

  lemma WritingIsConsistent(start: Types, t: Txn, name: string, effect: Effect)
    requires Consistent(start, t) && Position(t.entries, name).Some?
    ensures Consistent(start, Written(t, name, effect))
  {
    var i := Position(t.entries, name).value;
    forall n ensures Tracked(start, Written(t, name, effect), n) {
      assert Tracked(start, t, name) && Tracked(start, t, n);
      WritingTracks(start, t, name, effect, n);
    }
    var token := Token(t.entries[i], SeenAfter(effect));
    if !Escapes(effect) && token.Some? { MarkingKeepsOnePerName(t.entries, i, token.value); }
  }

  lemma PoisonIsConsistent(start: Types, t: Txn)
    requires Consistent(start, t)
    ensures Consistent(start, t.(poisoned := true))
  {
    forall n ensures Tracked(start, t.(poisoned := true), n) { assert Tracked(start, t, n); }
  }

  // Whatever the database does, every name stays tracked.
  lemma TransactionalWriteIsConsistent(start: Types, t: Txn, name: string, readable: bool, effect: Effect)
    requires Consistent(start, t)
    ensures Consistent(start, TransactionalWrite(t, name, readable, effect))
  {
    if FailsBefore(t, name, effect) {
      PoisonIsConsistent(start, t);
    } else if !Refuses(t, name, readable) {
      JournaledHasEntry(t, name);
      JournalingIsConsistent(start, t, name);
      WritingIsConsistent(start, Journaled(t, name), name, effect);
    }
  }

  // Only the written name can change, and only it can enter the journal.
  lemma TransactionalWriteTouchesOne(t: Txn, name: string, readable: bool, effect: Effect, n: string)
    requires n != name
    ensures var t' := TransactionalWrite(t, name, readable, effect);
            Lookup(t'.types, n) == Lookup(t.types, n) && Position(t'.entries, n) == Position(t.entries, n)
  {
    if !FailsBefore(t, name, effect) && !Refuses(t, name, readable) {
      JournaledHasEntry(t, name);
      JournaledTouchesOne(t, name, n);
      WrittenTouchesOne(Journaled(t, name), name, effect, n);
    }
  }

  lemma JournaledTouchesOne(t: Txn, name: string, n: string)
    requires n != name
    ensures Journaled(t, name).types == t.types && Position(Journaled(t, name).entries, n) == Position(t.entries, n)
  {
    StagedPosition(t.entries, name, name in t.types, IdentityOf(t.types, name), n);
  }

  lemma WrittenTouchesOne(t: Txn, name: string, effect: Effect, n: string)
    requires n != name && Position(t.entries, name).Some?
    ensures var t' := Written(t, name, effect);
            Lookup(t'.types, n) == Lookup(t.types, n) && Position(t'.entries, n) == Position(t.entries, n)
  {
    if !Escapes(effect) { MarkedWithPosition(t.entries, Position(t.entries, name).value, SeenAfter(effect), n); }
  }

  lemma WrittenKeepsEntry(t: Txn, name: string, effect: Effect)
    requires Position(t.entries, name).Some?
    ensures var t' := Written(t, name, effect);
            && Position(t'.entries, name) == Position(t.entries, name) && t'.types == Put(t.types, name, effect.left)
            && t'.poisoned == (t.poisoned || !IsSaved(effect))
            && t'.unseen == if effect.raisesAfter then t.unseen + {name} else t.unseen
  {
    if !Escapes(effect) { MarkedWithPosition(t.entries, Position(t.entries, name).value, SeenAfter(effect), name); }
  }

  lemma TransactionalWriteHasEntry(t: Txn, name: string, readable: bool, effect: Effect)
    requires !FailsBefore(t, name, effect) && !Refuses(t, name, readable)
    ensures var t' := TransactionalWrite(t, name, readable, effect);
            && Position(t'.entries, name).Some? && t'.types == Put(t.types, name, effect.left)
            && t'.poisoned == (t.poisoned || !IsSaved(effect))
            && t'.unseen == if effect.raisesAfter then t.unseen + {name} else t.unseen
  {
    JournaledHasEntry(t, name);
    var u := Journaled(t, name);
    JournalingKeepsStore(t, name);
    WrittenKeepsEntry(u, name, effect);
    assert TransactionalWrite(t, name, readable, effect) == Written(u, name, effect);
  }

  lemma JournalingKeepsStore(t: Txn, name: string)
    ensures var u := Journaled(t, name);
            u.types == t.types && u.unseen == t.unseen && u.poisoned == t.poisoned
  {
  }

  // A type that is not ours is as it was when the transaction was opened.
  lemma ForeignTypesAreNotJournaled(start: Types, t: Txn, n: string)
    requires Consistent(start, t) && n in start && !start[n].owned
    ensures Position(t.entries, n).None? && Lookup(t.types, n) == Lookup(start, n)
  {
    assert Tracked(start, t, n);
  }

  // ---- Rolling back ----------------------------------------------------------------------

  // The effect of the k-th step of a rollback.
  type Effects = nat -> Effect

  // `stopped`: a read or write raised an exception, which ends the rollback.
  datatype Undo = Undo(types: Types, ok: bool, stopped: bool)

  function SnapshotAt(snapshots: seq<Option<Snapshot>>, i: nat): Option<Snapshot> {
    if i < |snapshots| then snapshots[i] else None
  }

  // The name is gone or has the identity the journal last saw.
  predicate IsIdentified(now: Types, entry: Entry) {
    entry.name in now ==> now[entry.name].tid == entry.currentIdentity
  }

  // Undoing one entry: refused if the name has an identity the journal does not
  // know; a deletion is believed, a restored definition is read back.
  function Undone(now: Types, entry: Entry, snapshot: Option<Snapshot>, effect: Effect): Undo {
    if effect.raisesBefore then Undo(now, false, true)
    else if !IsIdentified(now, entry) then Undo(now, false, false)
    else if !entry.existedBefore then
      if entry.name !in now then Undo(now, !effect.raisesAfter, effect.raisesAfter)
      else Undo(Put(now, entry.name, effect.left), effect.outcome.Saved? && !effect.raisesAfter, Stops(effect))
    else if snapshot.None? then Undo(now, false, false)
    else Undo(Put(now, entry.name, effect.left), IsRestored(snapshot.value, effect), Stops(effect))
  }

  // The write raised, or it was reported done and what follows raised.
  predicate Stops(effect: Effect) {
    effect.outcome.Raised? || (effect.outcome.Saved? && effect.raisesAfter)
  }

  predicate IsRestored(snapshot: Snapshot, effect: Effect) {
    IsSaved(effect) && effect.left.value.definition == snapshot.definition && effect.metadataReadsBack
  }

  // One step along the order, unless the rollback has stopped.
  function UndoneNext(was: Undo, entry: Entry, snapshot: Option<Snapshot>, effect: Effect): Undo {
    if was.stopped then was.(ok := false)
    else
      var last := Undone(was.types, entry, snapshot, effect);
      last.(ok := was.ok && last.ok)
  }

  // The first k entries of the order, up to the first exception.
  function RolledBack(now: Types, entries: seq<Entry>, snapshots: seq<Option<Snapshot>>, order: seq<nat>,
      k: nat, effects: Effects): Undo
    requires Within(order, |entries|) && k <= |order|
  {
    if k == 0 then Undo(now, true, false)
    else
      var before := RolledBack(now, entries, snapshots, order, k - 1, effects);
      UndoneNext(before, entries[order[k - 1]], SnapshotAt(snapshots, order[k - 1]), effects(k - 1))
  }

  // A deletion that was reported although it left something under the name.
  predicate IsLie(now: Types, entry: Entry, effect: Effect) {
    && !effect.raisesBefore && IsIdentified(now, entry) && !entry.existedBefore && entry.name in now
    && effect.outcome.Saved? && effect.left.Some?
  }

  predicate AllTruthful(now: Types, entries: seq<Entry>, snapshots: seq<Option<Snapshot>>, order: seq<nat>,
      k: nat, effects: Effects)
    requires Within(order, |entries|) && k <= |order|
  {
    k > 0 ==>
      && AllTruthful(now, entries, snapshots, order, k - 1, effects)
      && !IsLie(RolledBack(now, entries, snapshots, order, k - 1, effects).types, entries[order[k - 1]],
                effects(k - 1))
  }

  // The reads and the write of an undo step did as asked.
  predicate DoesAsAsked(entry: Entry, snapshot: Option<Snapshot>, effect: Effect) {
    && !effect.raisesBefore
    && if entry.existedBefore then snapshot.Some? ==> IsRestored(snapshot.value, effect)
       else effect.outcome.Saved? && !effect.raisesAfter
  }

  predicate AllDoAsAsked(entries: seq<Entry>, snapshots: seq<Option<Snapshot>>, order: seq<nat>, effects: Effects)
    requires Within(order, |entries|)
  {
    forall k :: 0 <= k < |order| ==> DoesAsAsked(entries[order[k]], SnapshotAt(snapshots, order[k]), effects(k))
  }

  // Part of a rollback is done: the entries of `done` are undone, the rest untouched.
  ghost predicate Progress(start: Types, before: Types, r: Undo, entries: seq<Entry>, done: seq<nat>, truthful: bool,
      n: string) {
    match Position(entries, n)
    case None => Lookup(r.types, n) == Lookup(before, n)
    case Some(i) =>
      if i in done then r.ok && (n in start || truthful) ==> SameDefinition(start, r.types, n)
      else Lookup(r.types, n) == Lookup(before, n)
  }

  ghost predicate UndoneSoFar(start: Types, before: Types, r: Undo, entries: seq<Entry>, done: seq<nat>,
      truthful: bool) {
    forall n :: Progress(start, before, r, entries, done, truthful, n)
  }

  // Entry i was reported deleted and its name is still there.
  ghost predicate LeftBehind(start: Types, now: Types, entries: seq<Entry>, done: seq<nat>, i: nat) {
    i in done && i < |entries| && entries[i].name !in start && entries[i].name in now
  }

  // One more entry undone.
  lemma OneMoreUndone(start: Types, t: Txn, was: Undo, now: Undo, done: seq<nat>, truthful: bool, truthful': bool,
      i: nat, n: string)
    requires OnePerName(t.entries) && i < |t.entries| && i !in done
    requires SameExcept(was.types, now.types, t.entries[i].name)
    requires Progress(start, t.types, was, t.entries, done, truthful, n)
    requires (now.ok ==> was.ok) && (truthful' ==> truthful)
    requires now.ok && (t.entries[i].name in start || truthful') ==> SameDefinition(start, now.types, t.entries[i].name)
    ensures Progress(start, t.types, now, t.entries, done + [i], truthful', n)
  {
    var name := t.entries[i].name;
    assert Position(t.entries, name) == Some(i);
    if n != name {
      assert Lookup(now.types, n) == Lookup(was.types, n);
      assert (n in now.types <==> n in was.types) && (n in now.types ==> now.types[n] == was.types[n]);
    }
  }

  // The next entry to undo was staged faithfully and its name is untouched so far.
  lemma Outstanding(start: Types, t: Txn, was: Undo, k: nat, truthful: bool)
    requires Consistent(start, t) && k < |RollbackOrderOf(t.entries)|
    requires UndoneSoFar(start, t.types, was, t.entries, RollbackOrderOf(t.entries)[..k], truthful)
    ensures var i := RollbackOrderOf(t.entries)[k];
            && i < |t.entries| && i !in RollbackOrderOf(t.entries)[..k]
            && StagedFaithfully(start, t.entries, t.snapshots, i)
            && (t.unseen == {} ==> IsIdentified(was.types, t.entries[i]))
  {
    OrderIsWithin(t.entries);
    OrderDecreases(t.entries);
    var order := RollbackOrderOf(t.entries);
    OrderIsTheMutated(t.entries, order[k]);
    var name := t.entries[order[k]].name;
    assert Position(t.entries, name) == Some(order[k]);
    assert Tracked(start, t, name);
    assert Progress(start, t.types, was, t.entries, order[..k], truthful, name);
    assert Lookup(was.types, name) == Lookup(t.types, name);
  }

  lemma UndoneTouchesOne(now: Types, entry: Entry, snapshot: Option<Snapshot>, effect: Effect)
    ensures SameExcept(now, Undone(now, entry, snapshot, effect).types, entry.name)
  {
  }

  lemma StepDone(start: Types, t: Txn, was: Undo, done: seq<nat>, truthful: bool, i: nat, effect: Effect)
    requires OnePerName(t.entries) && i < |t.entries| && i !in done
    requires StagedFaithfully(start, t.entries, t.snapshots, i)
    requires UndoneSoFar(start, t.types, was, t.entries, done, truthful)
    ensures UndoneSoFar(start, t.types, UndoneNext(was, t.entries[i], SnapshotAt(t.snapshots, i), effect), t.entries,
                        done + [i], truthful && !IsLie(was.types, t.entries[i], effect))
  {
    var now := UndoneNext(was, t.entries[i], SnapshotAt(t.snapshots, i), effect);
    UndoneTouchesOne(was.types, t.entries[i], SnapshotAt(t.snapshots, i), effect);
    var truthful' := truthful && !IsLie(was.types, t.entries[i], effect);
    forall n ensures Progress(start, t.types, now, t.entries, done + [i], truthful', n) {
      assert Progress(start, t.types, was, t.entries, done, truthful, n);
      OneMoreUndone(start, t, was, now, done, truthful, truthful', i, n);
    }
  }

  // A lie leaves its name behind, and what was left behind stays.
  lemma LieStays(start: Types, t: Txn, was: Undo, done: seq<nat>, truthful: bool, liar: nat, i: nat, effect: Effect)
    requires OnePerName(t.entries) && i < |t.entries| && i !in done
    requires StagedFaithfully(start, t.entries, t.snapshots, i)
    requires was.ok && !truthful ==> LeftBehind(start, was.types, t.entries, done, liar)
    ensures var now := UndoneNext(was, t.entries[i], SnapshotAt(t.snapshots, i), effect);
            now.ok && !(truthful && !IsLie(was.types, t.entries[i], effect)) ==>
              LeftBehind(start, now.types, t.entries, done + [i], if truthful then i else liar)
  {
    var now := UndoneNext(was, t.entries[i], SnapshotAt(t.snapshots, i), effect);
    UndoneTouchesOne(was.types, t.entries[i], SnapshotAt(t.snapshots, i), effect);
    if now.ok && !truthful {
      var name := t.entries[liar].name;
      assert Position(t.entries, t.entries[i].name) == Some(i) && Position(t.entries, name) == Some(liar);
      assert Lookup(now.types, name) == Lookup(was.types, name);
    }
  }

  // Along `done` the names are as at the start, and a deletion that lied left its
  // name behind.
  ghost predicate SoFar(start: Types, t: Txn, r: Undo, done: seq<nat>, truthful: bool, liar: nat) {
    && UndoneSoFar(start, t.types, r, t.entries, done, truthful)
    && (r.ok && !truthful ==> LeftBehind(start, r.types, t.entries, done, liar))
  }

  lemma OneMore(start: Types, t: Txn, was: Undo, k: nat, truthful: bool, liar: nat, effect: Effect)
    requires Consistent(start, t) && k < |RollbackOrderOf(t.entries)|
    requires SoFar(start, t, was, RollbackOrderOf(t.entries)[..k], truthful, liar)
    ensures var i := RollbackOrderOf(t.entries)[k];
            && i < |t.entries|
            && SoFar(start, t, UndoneNext(was, t.entries[i], SnapshotAt(t.snapshots, i), effect),
                     RollbackOrderOf(t.entries)[..k + 1], truthful && !IsLie(was.types, t.entries[i], effect),
                     if truthful then i else liar)
  {
    var done := RollbackOrderOf(t.entries)[..k];
    var i := RollbackOrderOf(t.entries)[k];
    Outstanding(start, t, was, k, truthful);
    StepDone(start, t, was, done, truthful, i, effect);
    LieStays(start, t, was, done, truthful, liar, i, effect);
    assert RollbackOrderOf(t.entries)[..k + 1] == done + [i];
  }

  lemma {:induction false} RolledBackSoFar(start: Types, t: Txn, order: seq<nat>, k: nat, effects: Effects)
    returns (liar: nat)
    requires Consistent(start, t) && order == RollbackOrderOf(t.entries) && Within(order, |t.entries|) && k <= |order|
    ensures SoFar(start, t, RolledBack(t.types, t.entries, t.snapshots, order, k, effects), order[..k],
                  AllTruthful(t.types, t.entries, t.snapshots, order, k, effects), liar)
  {
    if k == 0 {
      liar := 0;
    } else {
      liar := RolledBackSoFar(start, t, order, k - 1, effects);
      var was := RolledBack(t.types, t.entries, t.snapshots, order, k - 1, effects);
      var truthful := AllTruthful(t.types, t.entries, t.snapshots, order, k - 1, effects);
      OneMore(start, t, was, k - 1, truthful, liar, effects(k - 1));
      liar := if truthful then order[k - 1] else liar;
    }
  }

  // ---- A whole rollback ------------------------------------------------------------------

  ghost function RollBackAll(t: Txn, effects: Effects): Undo {
    OrderIsWithin(t.entries);
    RolledBack(t.types, t.entries, t.snapshots, RollbackOrderOf(t.entries), |RollbackOrderOf(t.entries)|, effects)
  }

  // No deletion of the rollback was reported without being done.
  ghost predicate Truthful(t: Txn, effects: Effects) {
    OrderIsWithin(t.entries);
    AllTruthful(t.types, t.entries, t.snapshots, RollbackOrderOf(t.entries), |RollbackOrderOf(t.entries)|, effects)
  }

  // Every write of the rollback did as asked.
  ghost predicate Obedient(t: Txn, effects: Effects) {
    OrderIsWithin(t.entries);
    AllDoAsAsked(t.entries, t.snapshots, RollbackOrderOf(t.entries), effects)
  }

  ghost predicate BackAtStart(start: Types, now: Types) {
    forall n :: SameDefinition(start, now, n)
  }

  // A name whose identity went unseen differs from the start, and its entry is not
  // marked: the rollback will pass over it.
  ghost predicate Escaped(start: Types, t: Txn, n: string) {
    && n in t.unseen && !SameDefinition(start, t.types, n)
    && (Position(t.entries, n).Some? ==> !t.entries[Position(t.entries, n).value].mutated)
  }

  ghost predicate NothingEscaped(start: Types, t: Txn) {
    forall n :: !Escaped(start, t, n)
  }

  // Every name that did not escape has its definition again, a new one if no
  // deletion lied.
  ghost predicate Restored(start: Types, t: Txn, now: Types, truthful: bool, n: string) {
    (n in start || truthful) && !Escaped(start, t, n) ==> SameDefinition(start, now, n)
  }

  lemma WholeRollback(start: Types, t: Txn, effects: Effects) returns (liar: nat)
    requires Consistent(start, t)
    ensures SoFar(start, t, RollBackAll(t, effects), RollbackOrderOf(t.entries), Truthful(t, effects), liar)
  {
    var order := RollbackOrderOf(t.entries);
    OrderIsWithin(t.entries);
    liar := RolledBackSoFar(start, t, order, |order|, effects);
    assert order[..|order|] == order;
  }

  // What a successful rollback makes of one name.
  lemma NameAfterRollback(start: Types, t: Txn, r: Undo, truthful: bool, n: string)
    requires Consistent(start, t) && r.ok
    requires UndoneSoFar(start, t.types, r, t.entries, RollbackOrderOf(t.entries), truthful)
    ensures Restored(start, t, r.types, truthful, n)
    ensures Escaped(start, t, n) ==> Lookup(r.types, n) == Lookup(t.types, n) && !SameDefinition(start, r.types, n)
  {
    assert Tracked(start, t, n);
    assert Progress(start, t.types, r, t.entries, RollbackOrderOf(t.entries), truthful, n);
    match Position(t.entries, n)
    case None =>
      SameTypeSameDefinition(start, r.types, n);
    case Some(i) =>
      OrderIsTheMutated(t.entries, i);
      if !t.entries[i].mutated { SameTypeSameDefinition(t.types, r.types, n); }
      if Lookup(t.types, n) == Lookup(start, n) { SameTypeSameDefinition(start, t.types, n); }
  }

  lemma SameTypeSameDefinition(a: Types, b: Types, n: string)
    requires Lookup(a, n) == Lookup(b, n)
    ensures SameDefinition(a, b, n)
  {
    assert n in a && n in b ==> a[n] == b[n];
  }

  lemma RollbackRestores(start: Types, t: Txn, effects: Effects, n: string)
    requires Consistent(start, t) && RollBackAll(t, effects).ok
    ensures Restored(start, t, RollBackAll(t, effects).types, Truthful(t, effects), n)
    ensures Escaped(start, t, n) ==> Lookup(RollBackAll(t, effects).types, n) == Lookup(t.types, n)
  {
    var _ := WholeRollback(start, t, effects);
    NameAfterRollback(start, t, RollBackAll(t, effects), Truthful(t, effects), n);
  }

  // A rollback that reports success leaves the store as at the start exactly if no
  // deletion lied and no name escaped.
  lemma RollbackIsExact(start: Types, t: Txn, effects: Effects)
    requires Consistent(start, t) && RollBackAll(t, effects).ok
    ensures BackAtStart(start, RollBackAll(t, effects).types) <==> Truthful(t, effects) && NothingEscaped(start, t)
  {
    var r := RollBackAll(t, effects);
    var liar := WholeRollback(start, t, effects);
    forall n
      ensures Restored(start, t, r.types, Truthful(t, effects), n)
      ensures Escaped(start, t, n) ==> !SameDefinition(start, r.types, n)
    {
      NameAfterRollback(start, t, r, Truthful(t, effects), n);
    }
    if !Truthful(t, effects) {
      assert LeftBehind(start, r.types, t.entries, RollbackOrderOf(t.entries), liar);
      assert !SameDefinition(start, r.types, t.entries[liar].name);
    }
  }

  // Successful or not, a rollback changes no name that is not in the journal.
  lemma RollbackLeavesOthers(start: Types, t: Txn, effects: Effects, n: string)
    requires Consistent(start, t) && Position(t.entries, n).None?
    ensures Lookup(RollBackAll(t, effects).types, n) == Lookup(t.types, n)
  {
    var _ := WholeRollback(start, t, effects);
    var order := RollbackOrderOf(t.entries);
    assert Progress(start, t.types, RollBackAll(t, effects), t.entries, order, Truthful(t, effects), n);
  }

  // A type that is not ours is never touched, whatever the database does and even
  // if the rollback fails.
  lemma ForeignTypesUntouched(start: Types, t: Txn, effects: Effects, n: string)
    requires Consistent(start, t) && n in start && !start[n].owned
    ensures Lookup(RollBackAll(t, effects).types, n) == Lookup(start, n)
  {
    ForeignTypesAreNotJournaled(start, t, n);
    RollbackLeavesOthers(start, t, effects, n);
  }

  lemma ObedientStep(start: Types, t: Txn, was: Undo, k: nat, truthful: bool, effect: Effect)
    requires Consistent(start, t) && t.unseen == {} && k < |RollbackOrderOf(t.entries)|
    requires UndoneSoFar(start, t.types, was, t.entries, RollbackOrderOf(t.entries)[..k], truthful)
    requires was.ok && !was.stopped
    ensures var i := RollbackOrderOf(t.entries)[k];
            && i < |t.entries|
            && (DoesAsAsked(t.entries[i], SnapshotAt(t.snapshots, i), effect) ==>
                  var now := UndoneNext(was, t.entries[i], SnapshotAt(t.snapshots, i), effect);
                  now.ok && !now.stopped)
  {
    Outstanding(start, t, was, k, truthful);
  }

  // With every identity read, a rollback whose writes do as asked succeeds.
  lemma {:induction false} ObedientSucceedsSoFar(start: Types, t: Txn, order: seq<nat>, k: nat, effects: Effects)
    requires Consistent(start, t) && order == RollbackOrderOf(t.entries) && Within(order, |t.entries|) && k <= |order|
    requires t.unseen == {} && AllDoAsAsked(t.entries, t.snapshots, order, effects)
    ensures var r := RolledBack(t.types, t.entries, t.snapshots, order, k, effects);
            r.ok && !r.stopped
  {
    if k > 0 {
      ObedientSucceedsSoFar(start, t, order, k - 1, effects);
      var _ := RolledBackSoFar(start, t, order, k - 1, effects);
      var was := RolledBack(t.types, t.entries, t.snapshots, order, k - 1, effects);
      var truthful := AllTruthful(t.types, t.entries, t.snapshots, order, k - 1, effects);
      ObedientStep(start, t, was, k - 1, truthful, effects(k - 1));
    }
  }

  lemma ObedientSucceeds(start: Types, t: Txn, effects: Effects)
    requires Consistent(start, t) && t.unseen == {} && Obedient(t, effects)
    ensures RollBackAll(t, effects).ok
  {
    var order := RollbackOrderOf(t.entries);
    OrderIsWithin(t.entries);
    ObedientSucceedsSoFar(start, t, order, |order|, effects);
  }

  // Once a rollback has stopped, the rest of the order changes nothing.
  lemma {:induction false} StoppedStays(now: Types, entries: seq<Entry>, snapshots: seq<Option<Snapshot>>,
      order: seq<nat>, k: nat, m: nat, effects: Effects)
    requires Within(order, |entries|) && k <= m <= |order|
    requires RolledBack(now, entries, snapshots, order, k, effects).stopped
    requires !RolledBack(now, entries, snapshots, order, k, effects).ok
    ensures RolledBack(now, entries, snapshots, order, m, effects) ==
            RolledBack(now, entries, snapshots, order, k, effects)
  {
    if k < m { StoppedStays(now, entries, snapshots, order, k, m - 1, effects); }
  }

  // ---- A rollback whose database does as asked ---------------------------------------------

  // What undoing an entry asks for.
  function AskFor(entry: Entry, snapshot: Option<Snapshot>): Ask {
    if entry.existedBefore && snapshot.Some? then Store(snapshot.value.definition) else Remove
  }

  type Answers = nat -> Answer

  // The effects along the order: the k-th answer to what the k-th step asks for.
  function Answered(entries: seq<Entry>, snapshots: seq<Option<Snapshot>>, order: seq<nat>, answers: Answers): Effects
    requires Within(order, |entries|)
  {
    (k: nat) => answers(k)(if k < |order| then AskFor(entries[order[k]], SnapshotAt(snapshots, order[k])) else Remove)
  }

  ghost function EffectsOf(t: Txn, answers: Answers): Effects {
    OrderIsWithin(t.entries);
    Answered(t.entries, t.snapshots, RollbackOrderOf(t.entries), answers)
  }

  // Every write leaves what was asked and says so, and no read raises.
  ghost predicate Obeys(answer: Answer) {
    && (forall d: Definition :: LeavesAsAsked(answer(Store(d)), d))
    && !answer(Remove).raisesBefore && answer(Remove).outcome.Saved? && answer(Remove).left.None?
    && !answer(Remove).raisesAfter
  }

  predicate LeavesAsAsked(effect: Effect, definition: Definition) {
    && !effect.raisesBefore && IsSaved(effect) && effect.metadataReadsBack
    && effect.left.value.definition == definition && effect.left.value.owned
  }

  lemma {:induction false} ObeyingTellsNoLie(now: Types, entries: seq<Entry>, snapshots: seq<Option<Snapshot>>,
      order: seq<nat>, k: nat, answers: Answers)
    requires Within(order, |entries|) && k <= |order| && forall j: nat :: Obeys(answers(j))
    ensures AllTruthful(now, entries, snapshots, order, k, Answered(entries, snapshots, order, answers))
  {
    if k > 0 {
      ObeyingTellsNoLie(now, entries, snapshots, order, k - 1, answers);
      assert Obeys(answers(k - 1));
    }
  }

  lemma ObeyingDoesAsAsked(entries: seq<Entry>, snapshots: seq<Option<Snapshot>>, order: seq<nat>, answers: Answers)
    requires Within(order, |entries|) && forall j: nat :: Obeys(answers(j))
    ensures AllDoAsAsked(entries, snapshots, order, Answered(entries, snapshots, order, answers))
  {
    forall k | 0 <= k < |order|
      ensures DoesAsAsked(entries[order[k]], SnapshotAt(snapshots, order[k]),
                          Answered(entries, snapshots, order, answers)(k))
    {
      assert Obeys(answers(k));
      if entries[order[k]].existedBefore && SnapshotAt(snapshots, order[k]).Some? {
        assert LeavesAsAsked(answers(k)(Store(SnapshotAt(snapshots, order[k]).value.definition)),
                             SnapshotAt(snapshots, order[k]).value.definition);
      }
    }
  }

  lemma ObeyingEffects(t: Txn, answers: Answers)
    requires forall j: nat :: Obeys(answers(j))
    ensures Obedient(t, EffectsOf(t, answers)) && Truthful(t, EffectsOf(t, answers))
  {
    var order := RollbackOrderOf(t.entries);
    OrderIsWithin(t.entries);
    ObeyingDoesAsAsked(t.entries, t.snapshots, order, answers);
    ObeyingTellsNoLie(t.types, t.entries, t.snapshots, order, |order|, answers);
  }

  lemma TruthfulRestoresStart(start: Types, t: Txn, effects: Effects)
    requires Consistent(start, t) && t.unseen == {} && Obedient(t, effects) && Truthful(t, effects)
    ensures RollBackAll(t, effects).ok && BackAtStart(start, RollBackAll(t, effects).types)
  {
    ObedientSucceeds(start, t, effects);
    RollbackIsExact(start, t, effects);
  }

  // With every identity read, a rollback whose database does as asked succeeds and
  // leaves the store as at the start.
  lemma ObeyingRollbackRestoresStart(start: Types, t: Txn, answers: Answers)
    requires Consistent(start, t) && t.unseen == {} && forall j: nat :: Obeys(answers(j))
    ensures var r := RollBackAll(t, EffectsOf(t, answers));
            r.ok && BackAtStart(start, r.types)
  {
    ObeyingEffects(t, answers);
    TruthfulRestoresStart(start, t, EffectsOf(t, answers));
  }

  // ---- Every run ---------------------------------------------------------------------------

  datatype Call = Call(name: string, readable: bool, effect: Effect)

  // The transaction after some writes.
  ghost function AfterCalls(t: Txn, calls: seq<Call>): Txn {
    if calls == [] then t
    else
      var c := calls[|calls| - 1];
      TransactionalWrite(AfterCalls(t, calls[..|calls| - 1]), c.name, c.readable, c.effect)
  }

  lemma {:induction false} EveryRunIsConsistent(start: Types, calls: seq<Call>)
    ensures Consistent(start, AfterCalls(Opened(start), calls))
  {
    if calls == [] {
      OpenedIsConsistent(start);
    } else {
      var k := |calls| - 1;
      EveryRunIsConsistent(start, calls[..k]);
      var c := calls[k];
      TransactionalWriteIsConsistent(start, AfterCalls(Opened(start), calls[..k]), c.name, c.readable, c.effect);
    }
  }

  // The write is not refused, and something about it failed or could not be read.
  ghost predicate IsDoubtful(t: Txn, call: Call) {
    || FailsBefore(t, call.name, call.effect)
    || (!Refuses(t, call.name, call.readable) && !IsSaved(call.effect))
  }

  ghost predicate IsDoubted(t: Txn, calls: seq<Call>, k: nat) {
    k < |calls| && IsDoubtful(AfterCalls(t, calls[..k]), calls[k])
  }

  lemma DoubtedBefore(t: Txn, calls: seq<Call>, k: nat)
    requires calls != [] && k < |calls| - 1
    ensures IsDoubted(t, calls[..|calls| - 1], k) <==> IsDoubted(t, calls, k)
  {
    assert calls[..|calls| - 1][..k] == calls[..k];
  }

  lemma {:induction false} PoisonHasCause(t: Txn, calls: seq<Call>) returns (k: nat)
    requires AfterCalls(t, calls).poisoned && !t.poisoned
    ensures IsDoubted(t, calls, k)
  {
    var n := |calls| - 1;
    OneWritePoisons(AfterCalls(t, calls[..n]), calls[n]);
    if AfterCalls(t, calls[..n]).poisoned {
      k := PoisonHasCause(t, calls[..n]);
      DoubtedBefore(t, calls, k);
    } else {
      k := n;
    }
  }

  lemma {:induction false} DoubtPoisons(t: Txn, calls: seq<Call>, k: nat)
    requires t.poisoned || IsDoubted(t, calls, k)
    ensures AfterCalls(t, calls).poisoned
  {
    if calls != [] {
      var n := |calls| - 1;
      OneWritePoisons(AfterCalls(t, calls[..n]), calls[n]);
      if t.poisoned || k < n {
        if k < n { DoubtedBefore(t, calls, k); }
        DoubtPoisons(t, calls[..n], k);
      }
    }
  }

  // The transaction is poisoned exactly by the doubtful writes.
  lemma PoisonedExactly(t: Txn, calls: seq<Call>)
    ensures AfterCalls(t, calls).poisoned <==> t.poisoned || exists k: nat :: IsDoubted(t, calls, k)
  {
    if AfterCalls(t, calls).poisoned && !t.poisoned { var k := PoisonHasCause(t, calls); }
    if t.poisoned { DoubtPoisons(t, calls, 0); }
    if k: nat :| IsDoubted(t, calls, k) { DoubtPoisons(t, calls, k); }
  }

  lemma OneWritePoisons(t: Txn, call: Call)
    ensures TransactionalWrite(t, call.name, call.readable, call.effect).poisoned <==> t.poisoned || IsDoubtful(t, call)
  {
    if !FailsBefore(t, call.name, call.effect) && !Refuses(t, call.name, call.readable) {
      TransactionalWriteHasEntry(t, call.name, call.readable, call.effect);
    }
  }

  // A write to the empty name is refused, so that name is never written.
  lemma {:induction false} OnlyCalledNames(t: Txn, calls: seq<Call>, n: string)
    requires n == "" || forall c :: c in calls ==> c.name != n
    ensures var t' := AfterCalls(t, calls);
            Lookup(t'.types, n) == Lookup(t.types, n) && Position(t'.entries, n) == Position(t.entries, n)
  {
    if calls != [] {
      var k := |calls| - 1;
      OnlyCalledNames(t, calls[..k], n);
      if calls[k].name != n {
        TransactionalWriteTouchesOne(AfterCalls(t, calls[..k]), calls[k].name, calls[k].readable, calls[k].effect, n);
      }
    }
  }

  // Any writes and a rollback, whatever the database does: a name that was not
  // written and a type that is not ours are unchanged; and reported success means
  // the store is as at the start exactly if no deletion lied and no name escaped.
  lemma RollbackOfEveryRun(start: Types, calls: seq<Call>, effects: Effects)
    ensures var t := AfterCalls(Opened(start), calls);
            var r := RollBackAll(t, effects);
            && (forall n :: (forall c :: c in calls ==> c.name != n) ==> Lookup(r.types, n) == Lookup(start, n))
            && (forall n :: n in start && !start[n].owned ==> Lookup(r.types, n) == Lookup(start, n))
            && (r.ok ==> (BackAtStart(start, r.types) <==> Truthful(t, effects) && NothingEscaped(start, t)))
  {
    var t := AfterCalls(Opened(start), calls);
    var r := RollBackAll(t, effects);
    EveryRunIsConsistent(start, calls);
    forall n | forall c :: c in calls ==> c.name != n ensures Lookup(r.types, n) == Lookup(start, n) {
      OnlyCalledNames(Opened(start), calls, n);
      RollbackLeavesOthers(start, t, effects, n);
    }
    forall n | n in start && !start[n].owned ensures Lookup(r.types, n) == Lookup(start, n) {
      ForeignTypesUntouched(start, t, effects, n);
    }
    if r.ok { RollbackIsExact(start, t, effects); }
  }

  // ---- What can go wrong -------------------------------------------------------------------

  // The name's identity is read, it is ours if it is there, and it is not empty.
  predicate IsWritable(start: Types, name: string, write: Effect) {
    name != "" && !write.raisesBefore && (name in start ==> start[name].owned)
  }

  ghost function AfterOneWrite(start: Types, name: string, write: Effect): Txn {
    TransactionalWrite(Opened(start), name, true, write)
  }

  lemma OneEntry(start: Types, name: string, write: Effect)
    requires IsWritable(start, name, write)
    ensures var t := AfterOneWrite(start, name, write);
            var entry := Entry(name, name in start, IdentityOf(start, name), 0, false);
            && Consistent(start, t)
            && t.types == Put(start, name, write.left) && t.snapshots == [SnapshotOf(start, name)]
            && t.entries == if Escapes(write) then [entry] else MarkedWith([entry], 0, SeenAfter(write))
  {
    OpenedIsConsistent(start);
    TransactionalWriteIsConsistent(start, Opened(start), name, true, write);
    StagedPosition([], name, name in start, IdentityOf(start, name), name);
    assert Opened(start).entries + [Entry(name, name in start, IdentityOf(start, name), 0, false)] ==
           [Entry(name, name in start, IdentityOf(start, name), 0, false)];
  }

  // What a rollback makes of a journal with one entry.
  lemma RollbackOfOneEntry(t: Txn, effects: Effects)
    requires |t.entries| == 1
    ensures RollBackAll(t, effects) ==
            if t.entries[0].mutated then Undone(t.types, t.entries[0], SnapshotAt(t.snapshots, 0), effects(0))
            else Undo(t.types, true, false)
  {
    assert RollbackOrderOf(t.entries[..0]) == [];
    if t.entries[0].mutated {
      assert RollbackOrderOf(t.entries) == [0];
      assert RolledBack(t.types, t.entries, t.snapshots, [0], 0, effects) == Undo(t.types, true, false);
    } else {
      assert RollbackOrderOf(t.entries) == [];
    }
  }

  // A saved type whose deletion is reported but not done: the rollback succeeds and
  // the type is still there.
  lemma BelievedDeletionLeavesName(start: Types, name: string, write: Effect, left: NamedType, effects: Effects)
    requires IsWritable(start, name, write) && name !in start && IsSaved(write)
    requires !effects(0).raisesBefore && effects(0).outcome == Saved && effects(0).left == Some(left) &&
        !effects(0).raisesAfter
    ensures var r := RollBackAll(AfterOneWrite(start, name, write), effects);
            r.ok && r.types == start[name := left] && !BackAtStart(start, r.types)
  {
    OneEntry(start, name, write);
    RollbackOfOneEntry(AfterOneWrite(start, name, write), effects);
    assert !SameDefinition(start, start[name := left], name);
  }

  // A new name whose write raised an exception, or any name of ours whose write did
  // not raise, and whose identity could not be read afterwards: the entry is not
  // marked, and the rollback succeeds without a look at the name. What the write left
  // there stays, and a type of the start that it took away stays lost.
  lemma UnseenWriteStays(start: Types, name: string, write: Effect, effects: Effects)
    requires IsWritable(start, name, write) && write.raisesAfter && (write.outcome.Raised? ==> name !in start)
    ensures var t := AfterOneWrite(start, name, write);
            var r := RollBackAll(t, effects);
            && t.poisoned && r.ok && Truthful(t, effects)
            && r.types == Put(start, name, write.left)
            && (BackAtStart(start, r.types) <==> SameDefinition(start, Put(start, name, write.left), name))
  {
    OneEntry(start, name, write);
    var t := AfterOneWrite(start, name, write);
    RollbackOfOneEntry(t, effects);
    RollbackOrderIsEmpty(t.entries);
    forall n | n != name ensures SameDefinition(start, t.types, n) {}
  }

  lemma RollbackOrderIsEmpty(entries: seq<Entry>)
    requires |entries| == 1 && !entries[0].mutated
    ensures RollbackOrderOf(entries) == []
  {
    assert RollbackOrderOf(entries[..0]) == [];
  }

  // A write that fails and takes the type away, and a rollback that fails too.
  function Loses(): Effect {
    Effect(false, NotSaved, None, false, false)
  }

  // Any type of ours can be lost, and nothing else with it.
  lemma FailedRollbackLosesType(start: Types, name: string, effects: Effects)
    requires name != "" && name in start && start[name].owned && effects(0) == Loses()
    ensures var r := RollBackAll(AfterOneWrite(start, name, Loses()), effects);
            !r.ok && r.types == start - {name}
  {
    OneEntry(start, name, Loses());
    RollbackOfOneEntry(AfterOneWrite(start, name, Loses()), effects);
  }

  lemma OneCall(t: Txn, call: Call)
    ensures AfterCalls(t, [call]) == TransactionalWrite(t, call.name, call.readable, call.effect)
  {
    assert [call][..0] == [] && AfterCalls(t, []) == t;
  }

  // The name is gone after some writes to it and a rollback.
  ghost predicate IsLostBy(start: Types, name: string, calls: seq<Call>, effects: Effects) {
    && (forall c :: c in calls ==> c.name == name)
    && name !in RollBackAll(AfterCalls(Opened(start), calls), effects).types
  }

  lemma OursAreLostBy(start: Types, name: string, effects: Effects)
    requires name != "" && name in start && start[name].owned && effects(0) == Loses()
    ensures IsLostBy(start, name, [Call(name, true, Loses())], effects)
  {
    FailedRollbackLosesType(start, name, effects);
    OneCall(Opened(start), Call(name, true, Loses()));
  }

  lemma OthersAreNotLost(start: Types, name: string, calls: seq<Call>, effects: Effects)
    requires name in start && !start[name].owned
    ensures !IsLostBy(start, name, calls, effects)
  {
    EveryRunIsConsistent(start, calls);
    ForeignTypesUntouched(start, AfterCalls(Opened(start), calls), effects, name);
  }

  // Exactly the types of ours can be lost.
  lemma OnlyOursCanBeLost(start: Types, name: string)
    requires name != "" && name in start
    ensures (exists calls: seq<Call>, effects: Effects :: IsLostBy(start, name, calls, effects)) <==> start[name].owned
  {
    if start[name].owned {
      OursAreLostBy(start, name, k => Loses());
    } else {
      forall calls: seq<Call>, effects: Effects ensures !IsLostBy(start, name, calls, effects) {
        OthersAreNotLost(start, name, calls, effects);
      }
    }
  }
}
