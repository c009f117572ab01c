// The transaction of the structure store: every named-type write is journaled
// before it happens, a doubtful write poisons the transaction, and rollback
// verifies what it restores. The methods refine the functions of Rollback and
// Creations; what the database answers, and every other circumstance, is an argument.
module Persistence {
  import opened Machine
  import opened Journal
  import opened Database
  import opened Rollback
  import opened Creations

  // `raised`: a read raised an exception before the name was journaled.
  datatype Prepared = Prepared(allowed: bool, index: Option<nat>, raised: bool)

  class TransactionState {
    const journal: PersistenceTransactionJournal
    var snapshots: seq<Option<Snapshot>>
    var poisoned: bool
    ghost const start: Types
    ghost var unseen: set<string>

    constructor (ghost start: Types)
      ensures fresh(journal) && Valid(start) && View(start) == Opened(start) && this.start == start
    {
      journal := new PersistenceTransactionJournal();
      snapshots, poisoned, unseen := [], false, {};
      this.start := start;
      new;
      OpenedIsConsistent(start);
    }

    ghost function View(now: Types): Txn
      reads this, journal
    {
      Txn(now, journal.entries, snapshots, unseen, poisoned)
    }

    ghost predicate Valid(now: Types)
      reads this, journal
    {
      journal.Valid() && Consistent(start, View(now))
    }
  }

  class StructurePersistence {
    const db: IDB
    var state: TransactionState?

    constructor (db: IDB)
      ensures this.db == db && state == null
    {
      this.db := db;
      state := null;
    }

    ghost function Footprint(): set<object>
      reads this
    {
      if state == null then {} else {state, state.journal}
    }

    ghost predicate Valid()
      reads this, db, Footprint()
    {
      state != null ==> state.Valid(db.types)
    }

    ghost function View(): Txn
      reads this, db, Footprint()
      requires state != null
    {
      state.View(db.types)
    }

    // A nested transaction is refused.
    method BeginTransaction() returns (ok: bool)
      requires Valid()
      modifies this
      ensures Valid() && ok == (old(state) == null)
      ensures !ok ==> state == old(state)
      ensures ok ==> state != null && fresh(Footprint()) && state.start == db.types && View() == Opened(db.types)
    {
      if state != null {
        return false;
      }
      state := new TransactionState(db.types);
      ok := true;
    }

    method PoisonTransaction()
      requires Valid()
      modifies if state == null then {} else {state}
      ensures Valid() && (state != null ==> View() == old(View()).(poisoned := true))
    {
      if state != null {
        state.poisoned := true;
        PoisonIsConsistent(state.start, old(View()));
      }
    }

    // Refuses an empty name, and a name whose present type is not ours or cannot
    // be read; otherwise the name is in the journal before it is written.
    method PrepareNamedTypeWrite(name: string, readable: bool, effect: Effect) returns (prepared: Prepared)
      requires Valid()
      modifies Footprint()
      ensures Valid() && Footprint() == old(Footprint())
      ensures state == null ==> prepared == Prepared(true, None, false)
      ensures state != null ==> (prepared.raised <==> FailsBefore(old(View()), name, effect))
      ensures state != null ==> (prepared.allowed <==> !prepared.raised && !Refuses(old(View()), name, readable))
      ensures state != null ==> View() == if prepared.allowed then Journaled(old(View()), name) else old(View())
      ensures state != null && prepared.allowed ==>
          prepared.index.Some? && prepared.index == Position(state.journal.entries, name)
    {
      if state == null {
        return Prepared(true, None, false);
      }
      if name == "" {
        return Prepared(false, None, false);
      }
      var existing := state.journal.Find(name);
      if existing.Some? {
        return Prepared(true, existing, false);
      }
      if effect.raisesBefore {
        return Prepared(false, None, true);
      }
      var priorTid := db.TidOf(name);
      var snapshot: Option<Snapshot> := None;
      if priorTid.Some? {
        if !db.types[name].owned || !readable {
          return Prepared(false, None, false);
        }
        snapshot := Some(Snapshot(priorTid.value, db.types[name].definition));
      }
      var index := StageFirst(name, priorTid, snapshot);
      prepared := Prepared(true, index, false);
    }

    // The entry of a name that is touched for the first time, with its snapshot.
    method StageFirst(name: string, priorTid: Option<Tid>, snapshot: Option<Snapshot>) returns (index: Option<nat>)
      requires Valid() && state != null && name != "" && Position(state.journal.entries, name).None?
      requires name in db.types ==> db.types[name].owned && priorTid == Some(db.types[name].tid)
      requires name !in db.types ==> priorTid == None
      requires snapshot == SnapshotOf(db.types, name)
      modifies Footprint()
      ensures Valid() && Footprint() == old(Footprint()) && View() == Journaled(old(View()), name)
      ensures index.Some? && index == Position(state.journal.entries, name)
    {
      FirstTouch(state.start, View(), name);
      index := state.journal.Stage(name, priorTid.Some?, if priorTid.Some? then priorTid.value else 0);
      state.snapshots := state.snapshots + [snapshot];
    }

    // Marks the entry with the identity that was read; if there is none, an entry of
    // a name that existed is marked with its original identity.
    method MarkNamedTypeWritten(prepared: Prepared, current: Option<Tid>)
      requires state != null && state.journal.Valid()
      requires prepared.index.Some? && prepared.index.value < |state.journal.entries|
      modifies state.journal
      ensures state.journal.Valid()
      ensures state.journal.entries == MarkedWith(old(state.journal.entries), prepared.index.value, current)
    {
      var index := prepared.index.value;
      var entry := state.journal.entries[index];
      if current.None? && (entry.mutated || !entry.existedBefore || entry.originalIdentity == 0) {
        return;
      }
      var identity: uint64 := if current.Some? then current.value else entry.originalIdentity;
      var marked := state.journal.MarkMutated(index, identity);
    }

    // The write itself, and the read of the identity after it. If the write raised,
    // a read that raises too is handled; otherwise its exception escapes, the entry
    // stays as it is, and the public function around the write poisons the
    // transaction.
    method WriteAndMark(prepared: Prepared, name: string, definition: Definition, answer: Answer)
        returns (saved: bool)
      requires state != null && state.journal.Valid()
      requires prepared.index.Some? && prepared.index.value < |state.journal.entries|
      modifies state`unseen, state`poisoned, state.journal, db`types
      ensures state.journal.Valid()
      ensures var effect := answer(Store(definition));
              && saved == IsSaved(effect)
              && db.types == Put(old(db.types), name, effect.left)
              && state.journal.entries ==
                 (if Escapes(effect) then old(state.journal.entries)
                  else MarkedWith(old(state.journal.entries), prepared.index.value, SeenAfter(effect)))
              && state.unseen == (if effect.raisesAfter then old(state.unseen) + {name} else old(state.unseen))
              && state.poisoned == (old(state.poisoned) || !IsSaved(effect))
    {
      var outcome := db.SetNamedType(name, definition, answer);
      var tid := db.TidOf(name);
      if answer(Store(definition)).raisesAfter {
        tid := None;
        state.unseen := state.unseen + {name};
      }
      saved := outcome.Saved? && tid.Some?;
      if !saved {
        state.poisoned := true;
      }
      if !Escapes(answer(Store(definition))) {
        MarkNamedTypeWritten(prepared, tid);
      }
    }

    // In a transaction the write is journaled, refused if the type is not ours, and
    // poisons the transaction if it fails, vanishes or an exception is raised; the
    // handler of an exception that escapes is that of the public function around
    // it. Outside of a transaction the write is only made.
    method SetNamedTypeTransactional(name: string, definition: Definition, readable: bool, answer: Answer)
      returns (saved: bool)
      requires Valid()
      modifies Footprint(), db`types
      ensures Valid() && Footprint() == old(Footprint())
      ensures state == null ==>
          && db.types == Put(old(db.types), name, answer(Store(definition)).left)
          && saved == IsSaved(answer(Store(definition)))
      ensures state != null ==>
          var call := Call(name, readable, answer(Store(definition)));
          && state.start == old(state.start)
          && View() == TransactionalWrite(old(View()), name, readable, call.effect)
          && saved == IsMade(old(View()), call)
    {
      var prepared := PrepareNamedTypeWrite(name, readable, answer(Store(definition)));
      if !prepared.allowed {
        if prepared.raised { PoisonTransaction(); }
        return false;
      }
      if state == null {
        var outcome := db.SetNamedType(name, definition, answer);
        return outcome.Saved? && name in db.types && !answer(Store(definition)).raisesAfter;
      }
      JournaledHasEntry(old(View()), name);
      saved := WritePrepared(prepared, name, definition, answer);
    }

    // The write of a name that is in the journal.
    method WritePrepared(prepared: Prepared, name: string, definition: Definition, answer: Answer)
      returns (saved: bool)
      requires Valid() && state != null
      requires prepared.index.Some? && prepared.index == Position(state.journal.entries, name)
      modifies Footprint(), db`types
      ensures Valid() && Footprint() == old(Footprint()) && state.start == old(state.start)
      ensures View() == Written(old(View()), name, answer(Store(definition)))
      ensures saved == IsSaved(answer(Store(definition)))
    {
      WritingIsConsistent(state.start, View(), name, answer(Store(definition)));
      saved := WriteAndMark(prepared, name, definition, answer);
    }

    // Undoes one entry. Refused if the name has an identity the journal does not
    // know; a restored definition is read back.
    method UndoEntry(entry: Entry, snapshot: Option<Snapshot>, answer: Answer) returns (ok: bool, stopped: bool)
      modifies db`types
      ensures Undo(db.types, ok, stopped) == Undone(old(db.types), entry, snapshot, answer(AskFor(entry, snapshot)))
      ensures !old(IsIdentified(db.types, entry)) ==> !ok && db.types == old(db.types)
      ensures ok && entry.existedBefore ==>
          && snapshot.Some?
          && entry.name in db.types
          && db.types[entry.name].definition == snapshot.value.definition
      ensures ok && !entry.existedBefore && !old(IsLie(db.types, entry, answer(Remove))) ==> entry.name !in db.types
    {
      var effect := answer(AskFor(entry, snapshot));
      if effect.raisesBefore {
        return false, true;
      }
      var current := db.TidOf(entry.name);
      if current.Some? && current.value != entry.currentIdentity {
        return false, false;
      }
      if !entry.existedBefore {
        if current.None? {
          return !effect.raisesAfter, effect.raisesAfter;
        }
        var reported := db.DeleteNamedType(entry.name, answer);
        return reported && !effect.raisesAfter, Stops(effect);
      }
      if snapshot.None? {
        return false, false;
      }
      var outcome := db.SetNamedType(entry.name, snapshot.value.definition, answer);
      if outcome.Raised? || (outcome.Saved? && effect.raisesAfter) {
        return false, true;
      }
      var restored := db.TidOf(entry.name);
      ok := outcome.Saved? && restored.Some? && db.types[entry.name].definition == snapshot.value.definition
          && effect.metadataReadsBack;
      stopped := false;
    }

    // The entries are undone along the order until one raises an exception. If
    // rollback reports success, every name of the start has its definition again,
    // unless the name escaped, and the store is as at the start exactly if no
    // deletion lied and no name escaped. If every write of the rollback leaves what
    // was asked and no identity went unseen, it reports success and the store is as
    // at the start. A name that is not in the journal is unchanged in any case, and
    // so is every type that is not ours.
    method RollbackTransaction(answers: Answers) returns (ok: bool)
      requires Valid()
      modifies this, db`types
      ensures Valid() && state == null
      ensures old(state) == null ==> ok && db.types == old(db.types)
      ensures old(state) != null ==>
          var r := RollBackAll(old(View()), EffectsOf(old(View()), answers));
          ok == r.ok && db.types == r.types
      ensures old(state) != null && ok ==>
          var truthful := Truthful(old(View()), EffectsOf(old(View()), answers));
          && (forall n :: Restored(old(state.start), old(View()), db.types, truthful, n))
          && (BackAtStart(old(state.start), db.types) <==> truthful && NothingEscaped(old(state.start), old(View())))
      ensures old(state) != null && old(state.unseen) == {} && (forall k: nat :: Obeys(answers(k))) ==>
          ok && BackAtStart(old(state.start), db.types)
      ensures old(state) != null ==>
          && (forall n :: Position(old(state.journal.entries), n).None? ==>
                Lookup(db.types, n) == Lookup(old(db.types), n))
          && ForeignTypesStay(old(state.start), db.types)
    {
      ok := true;
      if state == null {
        return;
      }
      ghost var start, t := state.start, View();
      var entries, snapshots := state.journal.entries, state.snapshots;
      var order := state.journal.RollbackOrder();
      OrderIsWithin(entries);
      state := null;
      ok := UndoAlong(entries, snapshots, order, answers);
      AfterRollback(start, t, EffectsOf(t, answers));
      if t.unseen == {} && forall k: nat :: Obeys(answers(k)) { ObeyingRollbackRestoresStart(start, t, answers); }
    }

    method UndoAlong(entries: seq<Entry>, snapshots: seq<Option<Snapshot>>, order: seq<nat>, answers: Answers)
      returns (ok: bool)
      requires Within(order, |entries|)
      modifies db`types
      ensures var r := RolledBack(old(db.types), entries, snapshots, order, |order|,
                                  Answered(entries, snapshots, order, answers));
              ok == r.ok && db.types == r.types
    {
      ghost var effects := Answered(entries, snapshots, order, answers);
      var k, stopped := 0, false;
      ok := true;
      while k < |order| && !stopped
        invariant 0 <= k <= |order| && (stopped ==> !ok)
        invariant Undo(db.types, ok, stopped) == RolledBack(old(db.types), entries, snapshots, order, k, effects)
      {
        var undone;
        undone, stopped := UndoEntry(entries[order[k]], SnapshotAt(snapshots, order[k]), answers(k));
        ok := ok && undone;
        k := k + 1;
      }
      if stopped {
        StoppedStays(old(db.types), entries, snapshots, order, k, |order|, effects);
      }
    }

    // A poisoned transaction is rolled back instead.
    method CommitTransaction(answers: Answers) returns (ok: bool)
      requires Valid()
      modifies this, db`types
      ensures Valid() && state == null
      ensures ok <==> old(state) == null || !old(state.poisoned)
      ensures ok ==> db.types == old(db.types)
      ensures old(state) != null && !ok ==>
          && (forall n :: Position(old(state.journal.entries), n).None? ==>
                Lookup(db.types, n) == Lookup(old(db.types), n))
          && ForeignTypesStay(old(state.start), db.types)
    {
      if state == null {
        return true;
      }
      if state.poisoned {
        var rolledBack := RollbackTransaction(answers);
        return false;
      }
      state := null;
      ok := true;
    }

    // Every write goes through the journal. A companion that could not be written is
    // tolerated or ends the creation.
    method CreateStructImpl(creation: Creation, script: Script) returns (tid: Option<Tid>)
      requires Valid() && state != null
      modifies Footprint(), db`types
      ensures Valid() && Footprint() == old(Footprint()) && state.start == old(state.start)
      ensures Created(View(), tid) == CreatedBy(old(View()), creation, script)
    {
      if !script.canRead {
        return None;
      }
      var existing := db.TidOf(Target(creation));
      if creation.Reuse? {
        return existing;
      }
      for i := 0 to |creation.companions|
        invariant Valid() && Footprint() == old(Footprint()) && state.start == old(state.start)
        invariant Stage(View(), true) == AfterCompanions(old(View()), creation, script, i)
      {
        var going := CreateCompanion(creation, script, i);
        if !going {
          EndedStays(old(View()), creation, script, i + 1, |creation.companions|);
          return None;
        }
      }
      var k := |creation.companions|;
      assert AllWrites(creation)[k] == creation.root;
      var saved := SetNamedTypeTransactional(creation.root.name, creation.root.definition, script.readable(k),
          script.answers(k));
      if !saved || !script.verified(k) {
        return None;
      }
      var stored := db.TidOf(creation.root.name);
      tid := if creation.updating then existing else stored;
    }

    method CreateCompanion(creation: Creation, script: Script, i: nat) returns (going: bool)
      requires Valid() && state != null && creation.Create? && i < |creation.companions|
      modifies Footprint(), db`types
      ensures Valid() && Footprint() == old(Footprint()) && state.start == old(state.start)
      ensures Stage(View(), going) == AfterCompanion(Stage(old(View()), true), creation, script, i)
    {
      var w := creation.companions[i];
      assert w == AllWrites(creation)[i];
      var written := SetNamedTypeTransactional(w.name, w.definition, script.readable(i), script.answers(i));
      if written && !script.verified(i) {
        PoisonTransaction();
      }
      going := (written && script.verified(i)) || script.tolerated(i);
    }

    // An identity is returned only from a transaction that is not poisoned.
    method CreateInTransaction(creation: Creation, script: Script) returns (tid: Option<Tid>)
      requires Valid() && state != null
      modifies Footprint(), db`types
      ensures Valid() && Footprint() == old(Footprint()) && state.start == old(state.start)
      ensures Created(View(), tid) == Concluded(CreatedBy(old(View()), creation, script))
    {
      tid := CreateStructImpl(creation, script);
      if tid.None? {
        PoisonTransaction();
      }
      if state.poisoned {
        tid := None;
      }
    }

    // Outside a transaction the creation runs in one of its own. Names the creation
    // does not write and types that are not ours are then unchanged in any case. With
    // a database that does as asked an identity is returned, and every written name
    // has the definition of its last write.
    method CreateStruct(creation: Creation, script: Script, undo: Answers) returns (tid: Option<Tid>)
      requires Valid()
      modifies this, Footprint(), db`types
      ensures Valid() && state == old(state) && Footprint() == old(Footprint())
      ensures state != null ==>
          && state.start == old(state.start)
          && Created(View(), tid) == Concluded(CreatedBy(old(View()), creation, script))
          && MeansCreated(old(View()), creation, Created(View(), tid))
          && state.poisoned == tid.None?
      ensures state == null ==>
          var c := Concluded(CreatedBy(Opened(old(db.types)), creation, script));
          && tid == c.tid && MeansCreated(Opened(old(db.types)), creation, c)
          && db.types == (if tid.Some? then c.t.types else RollBackAll(c.t, EffectsOf(c.t, undo)).types)
          && OthersStay(creation, old(db.types), db.types)
      ensures state == null && Obliging(Opened(old(db.types)), creation, script) ==>
          tid.Some? && IsWritten(old(db.types), db.types, AllWrites(creation))
    {
      if state != null {
        ghost var before, start := View(), state.start;
        tid := CreateInTransaction(creation, script);
        ghost var calls := ConcludedFacts(start, before, creation, script);
        return;
      }
      ghost var start := db.types;
      OpenedIsConsistent(start);
      ghost var calls := ConcludedFacts(start, Opened(start), creation, script);
      ghost var t := Concluded(CreatedBy(Opened(start), creation, script)).t;
      CreatedLeavesOthers(creation, start, calls, t, EffectsOf(t, undo));
      if Obliging(Opened(start), creation, script) { ObligingConclusion(Opened(start), creation, script); }
      var begun := BeginTransaction();
      tid := CreateInTransaction(creation, script);
      if tid.Some? {
        var committed := CommitTransaction(undo);
      } else {
        var rolledBack := RollbackTransaction(undo);
      }
    }
  }

  // The handle of a transaction; only its first commit or rollback does anything.
  class Transaction {
    const owner: StructurePersistence
    var unresolved: bool

    constructor (owner: StructurePersistence)
      ensures this.owner == owner && unresolved
    {
      this.owner := owner;
      unresolved := true;
    }

    method Commit(answers: Answers) returns (ok: bool)
      requires owner.Valid()
      modifies this, owner, owner.db`types
      ensures owner.Valid() && !unresolved
      ensures !old(unresolved) ==> ok && owner.state == old(owner.state) && owner.db.types == old(owner.db.types)
      ensures old(unresolved) ==>
          owner.state == null && (ok <==> old(owner.state) == null || !old(owner.state.poisoned))
      ensures ok ==> owner.db.types == old(owner.db.types)
    {
      if !unresolved {
        return true;
      }
      unresolved := false;
      ok := owner.CommitTransaction(answers);
    }

    method Rollback(answers: Answers) returns (ok: bool)
      requires owner.Valid()
      modifies this, owner, owner.db`types
      ensures owner.Valid() && !unresolved
      ensures !old(unresolved) ==> ok && owner.state == old(owner.state) && owner.db.types == old(owner.db.types)
      ensures old(unresolved) ==> owner.state == null
      ensures old(owner.state) == null ==> ok && owner.db.types == old(owner.db.types)
      ensures old(unresolved) && old(owner.state) != null ==>
          var r := RollBackAll(old(owner.View()), EffectsOf(old(owner.View()), answers));
          ok == r.ok && owner.db.types == r.types
    {
      if !unresolved {
        return true;
      }
      unresolved := false;
      ok := owner.RollbackTransaction(answers);
    }
  }

  // The created types, and what any rollback makes of them, leave the others alone.
  lemma CreatedLeavesOthers(creation: Creation, start: Types, calls: seq<Call>, t: Txn, effects: Effects)
    requires Consistent(start, t) && IsRunOf(creation, calls) && IsAfter(Opened(start), calls, t)
    ensures OthersStay(creation, start, t.types) && OthersStay(creation, start, RollBackAll(t, effects).types)
  {
    ForeignTypesAreThere(start, t);
    AfterRollback(start, t, effects);
    RunWritesOnly(creation, Opened(start), calls, t);
    var r := RollBackAll(t, effects);
    forall n | !Writes(creation, n)
      ensures Lookup(t.types, n) == Lookup(start, n) && Lookup(r.types, n) == Lookup(start, n)
    {
      assert Position(t.entries, n) == Position(Opened(start).entries, n);
      assert Lookup(t.types, n) == Lookup(Opened(start).types, n);
    }
  }

  lemma ForeignTypesAreThere(start: Types, t: Txn)
    requires Consistent(start, t)
    ensures ForeignTypesStay(start, t.types)
  {
    forall n | n in start && !start[n].owned ensures Lookup(t.types, n) == Lookup(start, n) {
      ForeignTypesAreNotJournaled(start, t, n);
    }
  }

  // Everything a rollback guarantees.
  lemma AfterRollback(start: Types, t: Txn, effects: Effects)
    requires Consistent(start, t)
    ensures var r := RollBackAll(t, effects);
            && (r.ok ==>
                  && (forall n :: Restored(start, t, r.types, Truthful(t, effects), n))
                  && (BackAtStart(start, r.types) <==> Truthful(t, effects) && NothingEscaped(start, t)))
            && (t.unseen == {} && Obedient(t, effects) ==> r.ok)
            && (forall n :: Position(t.entries, n).None? ==> Lookup(r.types, n) == Lookup(t.types, n))
            && ForeignTypesStay(start, r.types)
  {
    var r := RollBackAll(t, effects);
    if r.ok {
      forall n ensures Restored(start, t, r.types, Truthful(t, effects), n) {
        RollbackRestores(start, t, effects, n);
      }
      RollbackIsExact(start, t, effects);
    }
    if t.unseen == {} && Obedient(t, effects) { ObedientSucceeds(start, t, effects); }
    forall n | Position(t.entries, n).None? ensures Lookup(r.types, n) == Lookup(t.types, n) {
      RollbackLeavesOthers(start, t, effects, n);
    }
    forall n | n in start && !start[n].owned ensures Lookup(r.types, n) == Lookup(start, n) {
      ForeignTypesUntouched(start, t, effects, n);
    }
  }
}
