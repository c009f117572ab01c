// Global synthesis from the start of its persistence transaction to its commit
// point: create the types, apply the result to the address, then commit, roll
// back, or keep the types because the address could not be restored.
module GlobalSynthesis {
  import opened Machine
  import opened Journal
  import opened Database
  import opened Rollback
  import opened Creations
  import opened Persistence
  import opened GlobalTinfo

  datatype Mode = Persist | Apply

  datatype SynthError = Success | InternalError | TypeCreationFailed | PropagationFailed

  datatype Message =
    | Done
    | CannotBegin
    | CreationFailed(rolledBack: bool)
    | LoadFailed(rolledBack: bool)
    | ApplicationFailed(rolledBack: bool)
    | TypesRetained
    | TypesNotRetained
    | CommitRejected

  datatype Result = Result(error: SynthError, message: Message, structTid: Option<Tid>, failedSite: bool)

  // The message says that the named types were rolled back.
  predicate ReportsRollback(m: Message) {
    match m
    case CreationFailed(rolledBack) => rolledBack
    case LoadFailed(rolledBack) => rolledBack
    case ApplicationFailed(rolledBack) => rolledBack
    case _ => false
  }

  predicate ReportsFailedRollback(m: Message) {
    match m
    case CreationFailed(rolledBack) => !rolledBack
    case LoadFailed(rolledBack) => !rolledBack
    case ApplicationFailed(rolledBack) => !rolledBack
    case _ => false
  }

  ghost predicate NamesType(types: Types, info: TypeInfo, tid: Tid) {
    info.Reference? && info.name in types && types[info.name].tid == tid
  }

  // The type with this identity, if the store has one and it can be loaded.
  ghost predicate IsLoaded(types: Types, tid: Tid, canLoad: bool, info: Option<TypeInfo>) {
    && (info.Some? <==> canLoad && exists n :: n in types && types[n].tid == tid)
    && (info.Some? ==> NamesType(types, info.value, tid))
  }

  method LoadType(db: IDB, tid: Tid, canLoad: bool) returns (info: Option<TypeInfo>)
    ensures IsLoaded(db.types, tid, canLoad, info)
  {
    if !canLoad {
      return None;
    }
    var pending := db.types.Keys;
    while pending != {}
      invariant pending <= db.types.Keys
      invariant forall n :: n in db.types && n !in pending ==> db.types[n].tid != tid
      decreases |pending|
    {
      var name :| name in pending;
      if db.types[name].tid == tid {
        return Some(Reference(name));
      }
      pending := pending - {name};
    }
    info := None;
  }

  // Except for names that escaped, the names of the start have their definitions
  // again, and the store is as at the start exactly if no deletion lied and no name
  // escaped.
  ghost predicate TypesRolledBack(start: Types, t: Txn, effects: Effects, types: Types) {
    && (forall n :: Restored(start, t, types, Truthful(t, effects), n))
    && (forall n :: Escaped(start, t, n) ==> Lookup(types, n) == Lookup(t.types, n))
    && (BackAtStart(start, types) <==> Truthful(t, effects) && NothingEscaped(start, t))
  }

  // What a run leaves behind, by what it reports. `t` is the transaction after the
  // types were created, and `effects` what the database makes of a rollback.
  ghost predicate IsOutcome(start: Types, t: Txn, effects: Effects, types: Types, before: Items, items: Items,
      ea: Address, mode: Mode, result: Result) {
    && (result.message == Done <==> result.error == Success)
    && (result.message == Done ==>
          && types == t.types && result.structTid.Some?
          && (mode == Apply ==> ea in items.tinfo && NamesType(types, items.tinfo[ea], result.structTid.value)))
    && (ReportsRollback(result.message) ==>
          TypesRolledBack(start, t, effects, types) && MetadataAt(items, ea) == MetadataAt(before, ea))
    && (ReportsFailedRollback(result.message) ==>
          result.error == InternalError && MetadataAt(items, ea) == MetadataAt(before, ea))
    && (result.message == TypesRetained ==> types == t.types && result.failedSite)
    && !result.message.TypesNotRetained? && !result.message.CommitRejected? && !result.message.CannotBegin?
  }

  // The address names a stored type that the creation cannot write.
  ghost predicate Spared(creation: Creation, items: Items, types: Types, ea: Address) {
    ea in items.tinfo && items.tinfo[ea].Reference? ==>
      var name := items.tinfo[ea].name;
      name in types && (!Writes(creation, name) || !types[name].owned)
  }

  // The address names a type that a write took away without the journal noticing.
  ghost predicate NamesEscaped(start: Types, t: Txn, items: Items, ea: Address) {
    && ea in items.tinfo && items.tinfo[ea].Reference?
    && Escaped(start, t, items.tinfo[ea].name) && items.tinfo[ea].name !in t.types
  }

  // After a rollback that reports success, an address whose type named a stored type
  // at the start still does, exactly if that type was not taken away unnoticed.
  lemma RestoredNamesNothingMissing(start: Types, t: Txn, effects: Effects, types: Types, before: Items,
      items: Items, ea: Address)
    requires TypesRolledBack(start, t, effects, types) && MetadataAt(items, ea) == MetadataAt(before, ea)
    requires NoDanglingType(before, start, ea)
    ensures NoDanglingType(items, types, ea) <==> !NamesEscaped(start, t, before, ea)
  {
    assert Lookup(items.tinfo, ea) == Lookup(before.tinfo, ea);
    if ea in before.tinfo && before.tinfo[ea].Reference? {
      var name := before.tinfo[ea].name;
      assert Restored(start, t, types, Truthful(t, effects), name);
      assert Escaped(start, t, name) ==> Lookup(types, name) == Lookup(t.types, name);
    }
  }

  // A type the creation cannot write is never missing, whatever became of the rest.
  lemma SparedNamesNothingMissing(creation: Creation, start: Types, types: Types, before: Items, items: Items,
      ea: Address)
    requires OthersStay(creation, start, types) && Spared(creation, before, start, ea)
    requires Lookup(items.tinfo, ea) == Lookup(before.tinfo, ea) || NoDanglingType(items, types, ea)
    ensures NoDanglingType(items, types, ea)
  {
    if ea in before.tinfo && before.tinfo[ea].Reference? {
      var name := before.tinfo[ea].name;
      assert Lookup(types, name) == Lookup(start, name);
    }
  }

  // ---- A run as a function of the answers -----------------------------------------------------

  datatype SynthScript = SynthScript(creation: Script, undo: Answers, canLoad: bool, address: AddressScript)

  datatype Run = Run(result: Result, types: Types, items: Items)

  ghost function Creating(start: Types, creation: Creation, script: SynthScript): Created {
    Concluded(CreatedBy(Opened(start), creation, script.creation))
  }

  // The created types are given up.
  ghost function GivenUp(t: Txn, script: SynthScript): Undo {
    RollBackAll(t, EffectsOf(t, script.undo))
  }

  // From the created types on. `loaded`: the created type as it was loaded.
  ghost function Finished(t: Txn, items: Items, platform: Platform, ea: Address, structTid: Tid, injectFailure: bool,
      script: SynthScript, loaded: Option<TypeInfo>): Run
  {
    var r := GivenUp(t, script);
    if loaded.None? then
      Run(Result(if r.ok then TypeCreationFailed else InternalError, LoadFailed(r.ok), None, false), r.types, items)
    else
      var o := if injectFailure then Outcome(FailedRestored, items, false, false)
               else Applying(items, t.types, platform, ea, loaded, Some(ExactReadback), script.address);
      match o.result
      case Applied => Run(Result(Success, Done, Some(structTid), false), t.types, o.items)
      case RollbackFailed => Run(Result(InternalError, TypesRetained, Some(structTid), true), t.types, o.items)
      case FailedRestored =>
        Run(Result(if r.ok then PropagationFailed else InternalError, ApplicationFailed(r.ok), None, false), r.types,
            o.items)
  }

  ghost function Synthesized(start: Types, items: Items, platform: Platform, ea: Address, creation: Creation,
      mode: Mode, injectFailure: bool, script: SynthScript, loaded: Option<TypeInfo>): Run
  {
    var c := Creating(start, creation, script);
    var r := GivenUp(c.t, script);
    if c.tid.None? then
      Run(Result(if r.ok then TypeCreationFailed else InternalError, CreationFailed(r.ok), None, false), r.types, items)
    else if mode == Persist then
      Run(Result(Success, Done, c.tid, false), c.t.types, items)
    else
      Finished(c.t, items, platform, ea, c.tid.value, injectFailure, script, loaded)
  }

  // The type is loaded from the created store, if the run gets that far.
  ghost predicate IsLoadedFor(start: Types, creation: Creation, mode: Mode, script: SynthScript,
      loaded: Option<TypeInfo>) {
    var c := Creating(start, creation, script);
    c.tid.Some? && mode == Apply ==> IsLoaded(c.t.types, c.tid.value, script.canLoad, loaded)
  }

  // ---- What every run keeps --------------------------------------------------------------------

  lemma CreatingFacts(start: Types, creation: Creation, script: SynthScript) returns (calls: seq<Call>)
    ensures var c := Creating(start, creation, script);
            && Consistent(start, c.t) && c.t.poisoned == c.tid.None? && MeansCreated(Opened(start), creation, c)
            && IsRunOf(creation, calls) && IsAfter(Opened(start), calls, c.t)
            && OthersStay(creation, start, c.t.types) && OthersStay(creation, start, GivenUp(c.t, script).types)
  {
    OpenedIsConsistent(start);
    calls := ConcludedFacts(start, Opened(start), creation, script.creation);
    var c := Creating(start, creation, script);
    CreatedLeavesOthers(creation, start, calls, c.t, EffectsOf(c.t, script.undo));
  }

  lemma GivenUpFacts(start: Types, t: Txn, script: SynthScript)
    requires Consistent(start, t) && GivenUp(t, script).ok
    ensures TypesRolledBack(start, t, EffectsOf(t, script.undo), GivenUp(t, script).types)
  {
    var effects := EffectsOf(t, script.undo);
    AfterRollback(start, t, effects);
    forall n | Escaped(start, t, n) ensures Lookup(GivenUp(t, script).types, n) == Lookup(t.types, n) {
      RollbackRestores(start, t, effects, n);
    }
  }

  lemma AddressFacts(types: Types, items: Items, platform: Platform, ea: Address, loaded: Option<TypeInfo>,
      script: AddressScript)
    ensures var o := Applying(items, types, platform, ea, loaded, Some(ExactReadback), script);
            && IsHonest(items, platform, ea, loaded, Some(ExactReadback), o)
            && (Lookup(o.items.tinfo, ea) == Lookup(items.tinfo, ea) || NoDanglingType(o.items, types, ea))
  {
    ApplyingIsHonest(items, types, platform, ea, loaded, Some(ExactReadback), script);
    ApplyingNamesNothingMissing(items, types, platform, ea, loaded, Some(ExactReadback), script);
  }

  // What holds of a run that has created the types, or given them up.
  ghost predicate IsHonestRun(start: Types, c: Created, effects: Effects, items: Items, ea: Address,
      creation: Creation, mode: Mode, run: Run) {
    && IsOutcome(start, c.t, effects, run.types, items, run.items, ea, mode, run.result)
    && OthersStay(creation, start, run.types)
    && (Lookup(run.items.tinfo, ea) == Lookup(items.tinfo, ea) || NoDanglingType(run.items, run.types, ea))
    && (c.tid.None? <==> run.result.message.CreationFailed?)
    && (run.result.message == Done ==> Target(creation) in run.types && run.result.structTid == c.tid)
    && (mode == Persist || c.tid.None? ==> run.items == items)
  }

  lemma FinishingIsHonest(start: Types, c: Created, items: Items, platform: Platform, ea: Address, creation: Creation,
      injectFailure: bool, script: SynthScript, loaded: Option<TypeInfo>)
    requires c.tid.Some? && IsLoaded(c.t.types, c.tid.value, script.canLoad, loaded) && Target(creation) in c.t.types
    requires OthersStay(creation, start, c.t.types) && OthersStay(creation, start, GivenUp(c.t, script).types)
    requires GivenUp(c.t, script).ok ==>
        TypesRolledBack(start, c.t, EffectsOf(c.t, script.undo), GivenUp(c.t, script).types)
    ensures var run := Finished(c.t, items, platform, ea, c.tid.value, injectFailure, script, loaded);
            IsHonestRun(start, c, EffectsOf(c.t, script.undo), items, ea, creation, Apply, run)
  {
    AddressFacts(c.t.types, items, platform, ea, loaded, script.address);
  }

  // What a run reports is true, nothing else is touched, and the address is as before
  // or names no missing type.
  lemma RunsAreHonest(start: Types, items: Items, platform: Platform, ea: Address, creation: Creation, mode: Mode,
      injectFailure: bool, script: SynthScript, loaded: Option<TypeInfo>)
    requires IsLoadedFor(start, creation, mode, script, loaded)
    ensures var c := Creating(start, creation, script);
            var run := Synthesized(start, items, platform, ea, creation, mode, injectFailure, script, loaded);
            IsHonestRun(start, c, EffectsOf(c.t, script.undo), items, ea, creation, mode, run)
  {
    var calls := CreatingFacts(start, creation, script);
    var c := Creating(start, creation, script);
    if GivenUp(c.t, script).ok { GivenUpFacts(start, c.t, script); }
    if c.tid.Some? && mode == Apply {
      FinishingIsHonest(start, c, items, platform, ea, creation, injectFailure, script, loaded);
    }
  }

  // If its type at the start was stored and is not ours or not written by the
  // creation, the address names no missing type after any run; and unless a rollback
  // of the types failed and said so, it names one exactly if a write took that type
  // away unnoticed.
  lemma RunsDangleExactly(start: Types, items: Items, platform: Platform, ea: Address, creation: Creation, mode: Mode,
      injectFailure: bool, script: SynthScript, loaded: Option<TypeInfo>)
    requires IsLoadedFor(start, creation, mode, script, loaded)
    ensures var c := Creating(start, creation, script);
            var run := Synthesized(start, items, platform, ea, creation, mode, injectFailure, script, loaded);
            && (Spared(creation, items, start, ea) ==> NoDanglingType(run.items, run.types, ea))
            && (NoDanglingType(items, start, ea) && !ReportsFailedRollback(run.result.message) ==>
                  (NoDanglingType(run.items, run.types, ea) <==> !NamesEscaped(start, c.t, items, ea)))
  {
    var calls := CreatingFacts(start, creation, script);
    var c := Creating(start, creation, script);
    var run := Synthesized(start, items, platform, ea, creation, mode, injectFailure, script, loaded);
    RunsAreHonest(start, items, platform, ea, creation, mode, injectFailure, script, loaded);
    if Spared(creation, items, start, ea) {
      SparedNamesNothingMissing(creation, start, run.types, items, run.items, ea);
    }
    if NoDanglingType(items, start, ea) && ReportsRollback(run.result.message) {
      RestoredNamesNothingMissing(start, c.t, EffectsOf(c.t, script.undo), run.types, items, run.items, ea);
    }
  }

  // ---- Runs whose database does as asked --------------------------------------------------------

  // Everything can be read, every write leaves what was asked, every check passes, and
  // the creation writes only named types that are new or ours. An update keeps the
  // identity of the root.
  ghost predicate CanCreate(start: Types, creation: Creation, script: SynthScript) {
    && Obliging(Opened(start), creation, script.creation)
    && (creation.updating ==>
          var left := script.creation.answers(|creation.companions|)(Store(creation.root.definition)).left;
          left.Some? && Some(left.value.tid) == TidIn(start, creation.root.name))
  }

  // The created type can be loaded, the address takes a type, and the write of it does
  // as asked.
  ghost predicate CanTypeAddress(platform: Platform, ea: Address, script: SynthScript) {
    && script.canLoad && ea != BADADDR && platform.mainThread && ea in platform.mapped
    && !script.address.admissionRaises && !script.address.snapshotRaises && !script.address.readRaises
    && SetsType(script.address.setNew, ea)
  }

  ghost predicate CanFinish(platform: Platform, ea: Address, mode: Mode, injectFailure: bool, script: SynthScript) {
    mode == Apply ==> !injectFailure && CanTypeAddress(platform, ea, script)
  }

  lemma CreatingSucceeds(start: Types, creation: Creation, script: SynthScript)
    requires CanCreate(start, creation, script)
    ensures var c := Creating(start, creation, script);
            && c.tid.Some? && IsWritten(start, c.t.types, AllWrites(creation))
            && creation.root.name in c.t.types && c.t.types[creation.root.name].tid == c.tid.value
  {
    ObligingConclusion(Opened(start), creation, script.creation);
    ObligingCreationSucceeds(Opened(start), creation, script.creation);
  }

  // Then every written name has the definition of its last write, the run reports
  // success, and the address names the created identity.
  lemma ObligingRunsSucceed(start: Types, items: Items, platform: Platform, ea: Address, creation: Creation, mode: Mode,
      injectFailure: bool, script: SynthScript, loaded: Option<TypeInfo>)
    requires CanCreate(start, creation, script) && CanFinish(platform, ea, mode, injectFailure, script)
    requires IsLoadedFor(start, creation, mode, script, loaded)
    ensures var run := Synthesized(start, items, platform, ea, creation, mode, injectFailure, script, loaded);
            && run.result.message == Done && run.result.structTid.Some?
            && IsWritten(start, run.types, AllWrites(creation))
            && NamesType(run.types, Reference(creation.root.name), run.result.structTid.value)
            && (mode == Apply ==>
                  ea in run.items.tinfo && NamesType(run.types, run.items.tinfo[ea], run.result.structTid.value))
  {
    CreatingSucceeds(start, creation, script);
    var c := Creating(start, creation, script);
    if mode == Apply {
      assert creation.root.name in c.t.types && c.t.types[creation.root.name].tid == c.tid.value;
      CanApplyApplies(items, c.t.types, platform, ea, loaded.value, ExactReadback, script.address);
    }
  }

  // If every write of the rollback leaves what was asked and every identity was read,
  // no rollback of the types fails, and one leaves the store as at the start.
  lemma ObligingRunsGiveUpCleanly(start: Types, items: Items, platform: Platform, ea: Address, creation: Creation,
      mode: Mode, injectFailure: bool, script: SynthScript, loaded: Option<TypeInfo>)
    requires EveryReadReturns(script.creation) && forall k: nat :: Obeys(script.undo(k))
    ensures var run := Synthesized(start, items, platform, ea, creation, mode, injectFailure, script, loaded);
            && !ReportsFailedRollback(run.result.message)
            && (ReportsRollback(run.result.message) ==> BackAtStart(start, run.types))
  {
    ObligingRollbackIsClean(start, creation, script);
  }

  lemma ObligingRollbackIsClean(start: Types, creation: Creation, script: SynthScript)
    requires EveryReadReturns(script.creation) && forall k: nat :: Obeys(script.undo(k))
    ensures var r := GivenUp(Creating(start, creation, script).t, script);
            r.ok && BackAtStart(start, r.types)
  {
    var calls := CreatingFacts(start, creation, script);
    CreationIsSeen(Opened(start), creation, script.creation);
    ObeyingRollbackRestoresStart(start, Creating(start, creation, script).t, script.undo);
  }

  // If the address can be undone, the types are never retained, and a run that does
  // not succeed leaves the address as before.
  lemma UndoableRunsLeaveAddress(start: Types, items: Items, platform: Platform, ea: Address, creation: Creation,
      mode: Mode, injectFailure: bool, script: SynthScript, loaded: Option<TypeInfo>)
    requires CanUndo(items, platform, ea, script.address)
    requires NoDanglingType(items, Creating(start, creation, script).t.types, ea)
    ensures var run := Synthesized(start, items, platform, ea, creation, mode, injectFailure, script, loaded);
            run.result.message != TypesRetained && (run.result.message != Done ==> IsBack(items, run.items, ea))
  {
    var types := Creating(start, creation, script).t.types;
    CanUndoRestores(items, types, platform, ea, loaded, Some(ExactReadback), script.address);
  }

  // ---- The methods -------------------------------------------------------------------------------

  // The created type is applied to the address. The transaction is open and not
  // poisoned.
  method ApplyAndFinish(db: IDB, persistence: StructurePersistence, transaction: Transaction, platform: Platform,
      ea: Address, structTid: Tid, injectFailure: bool, script: SynthScript)
    returns (result: Result, ghost loaded: Option<TypeInfo>)
    requires persistence.db == db && persistence.Valid() && transaction.owner == persistence && transaction.unresolved
    requires persistence.state != null && !persistence.state.poisoned
    modifies db, persistence, transaction
    ensures IsLoaded(old(db.types), structTid, script.canLoad, loaded)
    ensures Run(result, db.types, db.items) ==
            Finished(old(persistence.View()), old(db.items), platform, ea, structTid, injectFailure, script, loaded)
  {
    var structType := LoadType(db, structTid, script.canLoad);
    loaded := structType;
    if structType.None? {
      var rolledBack := transaction.Rollback(script.undo);
      result := Result(
        if rolledBack then TypeCreationFailed else InternalError, LoadFailed(rolledBack), None, false);
      return;
    }
    var applied := FailedRestored;
    if !injectFailure {
      applied := ApplyGlobalTinfoTransactionDetailed(db, platform, ea, structType, Some(ExactReadback), script.address);
    }
    if applied == RollbackFailed {
      // The address may still name the new type, so the types stay.
      var retained := transaction.Commit(script.undo);
      result := Result(InternalError, if retained then TypesRetained else TypesNotRetained, Some(structTid), true);
      return;
    }
    if applied == FailedRestored {
      var rolledBack := transaction.Rollback(script.undo);
      result := Result(
        if rolledBack then PropagationFailed else InternalError, ApplicationFailed(rolledBack), None, false);
      return;
    }
    var committed := transaction.Commit(script.undo);
    result :=
      if committed then Result(Success, Done, Some(structTid), false)
      else Result(InternalError, CommitRejected, None, true);
  }

  // Success leaves the types as created and, when applying, the address with a
  // type that names the created identity. A reported rollback leaves the address and
  // the names of the start that did not escape as at the start, and the store too
  // exactly if no deletion lied and no name escaped; a failed address rollback keeps
  // the types. Names the creation does not write and types that are not ours are
  // never touched. The address names a missing type exactly as RunsDangleExactly says.
  // With a database that does as asked, the run succeeds, every written name has the
  // definition of its last write, and the address names the created identity; and
  // with one whose undoing does as asked, a run that does not succeed leaves the store
  // as at the start.
  method DoGlobalSynthesis(db: IDB, platform: Platform, ea: Address, creation: Creation, mode: Mode,
      injectFailure: bool, script: SynthScript)
    returns (result: Result, ghost loaded: Option<TypeInfo>)
    modifies db
    ensures IsLoadedFor(old(db.types), creation, mode, script, loaded)
    ensures Run(result, db.types, db.items) ==
            Synthesized(old(db.types), old(db.items), platform, ea, creation, mode, injectFailure, script, loaded)
    ensures var c := Creating(old(db.types), creation, script);
            && IsHonestRun(old(db.types), c, EffectsOf(c.t, script.undo), old(db.items), ea, creation, mode,
                           Run(result, db.types, db.items))
            && (old(NoDanglingType(db.items, db.types, ea)) && !ReportsFailedRollback(result.message) ==>
                  (NoDanglingType(db.items, db.types, ea) <==> !NamesEscaped(old(db.types), c.t, old(db.items), ea)))
    ensures old(Spared(creation, db.items, db.types, ea)) ==> NoDanglingType(db.items, db.types, ea)
    ensures old(NoDanglingType(db.items, db.types, ea)) && !NoDanglingType(db.items, db.types, ea) ==>
        Lookup(db.items.tinfo, ea) == old(Lookup(db.items.tinfo, ea))
    ensures old(CanCreate(db.types, creation, script)) && CanFinish(platform, ea, mode, injectFailure, script) ==>
        && result.message == Done && result.structTid.Some?
        && IsWritten(old(db.types), db.types, AllWrites(creation))
        && NamesType(db.types, Reference(creation.root.name), result.structTid.value)
        && (mode == Apply ==> ea in db.items.tinfo && NamesType(db.types, db.items.tinfo[ea], result.structTid.value))
    ensures EveryReadReturns(script.creation) && (forall k: nat :: Obeys(script.undo(k))) ==>
        && !ReportsFailedRollback(result.message)
        && (ReportsRollback(result.message) ==> BackAtStart(old(db.types), db.types))
  {
    ghost var start, items := db.types, db.items;
    result, loaded := Synthesize(db, platform, ea, creation, mode, injectFailure, script);
    RunsAreHonest(start, items, platform, ea, creation, mode, injectFailure, script, loaded);
    RunsDangleExactly(start, items, platform, ea, creation, mode, injectFailure, script, loaded);
    if CanCreate(start, creation, script) && CanFinish(platform, ea, mode, injectFailure, script) {
      ObligingRunsSucceed(start, items, platform, ea, creation, mode, injectFailure, script, loaded);
    }
    if EveryReadReturns(script.creation) && forall k: nat :: Obeys(script.undo(k)) {
      ObligingRunsGiveUpCleanly(start, items, platform, ea, creation, mode, injectFailure, script, loaded);
    }
  }

  method Synthesize(db: IDB, platform: Platform, ea: Address, creation: Creation, mode: Mode, injectFailure: bool,
      script: SynthScript)
    returns (result: Result, ghost loaded: Option<TypeInfo>)
    modifies db
    ensures IsLoadedFor(old(db.types), creation, mode, script, loaded)
    ensures Run(result, db.types, db.items) ==
            Synthesized(old(db.types), old(db.items), platform, ea, creation, mode, injectFailure, script, loaded)
  {
    loaded := None;
    ghost var start, items := db.types, db.items;
    var persistence := new StructurePersistence(db);
    var begun := persistence.BeginTransaction();
    if !begun {
      result := Result(InternalError, CannotBegin, None, false);
      return;
    }
    var transaction := new Transaction(persistence);
    var structTid := persistence.CreateStruct(creation, script.creation, script.undo);
    ghost var c := Creating(start, creation, script);
    assert Created(persistence.View(), structTid) == c && c.t.poisoned == structTid.None? && db.items == items;
    if structTid.None? {
      var rolledBack := transaction.Rollback(script.undo);
      result := Result(
        if rolledBack then TypeCreationFailed else InternalError, CreationFailed(rolledBack), None, false);
      return;
    }
    if mode == Persist {
      var committed := transaction.Commit(script.undo);
      result :=
        if committed then Result(Success, Done, structTid, false)
        else Result(InternalError, CommitRejected, None, false);
      return;
    }
    result, loaded := ApplyAndFinish(db, persistence, transaction, platform, ea, structTid.value, injectFailure,
        script);
  }

  // ---- When an address can be left naming a deleted type ------------------------------------

  // The creation makes these writes and is rolled back, and the address, which was
  // not touched, names a missing type.
  ghost predicate LeavesDangling(creation: Creation, start: Types, items: Items, ea: Address, calls: seq<Call>,
      effects: Effects) {
    && IsRunOf(creation, calls)
    && !NoDanglingType(items, RollBackAll(AfterCalls(Opened(start), calls), effects).types, ea)
  }

  // The first writes of the creation: all are saved but the last, which fails and
  // takes the type away.
  function LastFails(names: seq<string>): (calls: seq<Call>)
    ensures |calls| == |names|
    ensures forall k :: 0 <= k < |names| ==> calls[k].name == names[k] && (k < |names| - 1 ==> IsSaved(calls[k].effect))
    ensures names != [] ==> calls[|names| - 1] == Call(names[|names| - 1], true, Loses())
  {
    var saved := Effect(false, Saved, Some(NamedType(1, 0, true)), false, true);
    seq(|names|, k requires 0 <= k < |names| => Call(names[k], true, if k < |names| - 1 then saved else Loses()))
  }

  lemma LastFailingWriteTakesAway(start: Types, calls: seq<Call>, name: string)
    requires name in start && start[name].owned && name != ""
    requires calls != [] && calls[|calls| - 1] == Call(name, true, Loses())
    ensures name !in AfterCalls(Opened(start), calls).types
  {
    EveryRunIsConsistent(start, calls[..|calls| - 1]);
    var t := AfterCalls(Opened(start), calls[..|calls| - 1]);
    assert Tracked(start, t, name);
    assert Lookup(t.types, name) == Lookup(start, name) && name in t.types ==> t.types[name] == start[name];
  }

  // Undo steps that fail and take the type away bring no name back.
  lemma {:induction false} FailingRollbackBringsNothingBack(now: Types, entries: seq<Entry>,
      snapshots: seq<Option<Snapshot>>, order: seq<nat>, k: nat, effects: Effects)
    requires Within(order, |entries|) && k <= |order| && forall j: nat :: effects(j) == Loses()
    ensures Rollback.RolledBack(now, entries, snapshots, order, k, effects).types.Keys <= now.Keys
  {
    if k > 0 { FailingRollbackBringsNothingBack(now, entries, snapshots, order, k - 1, effects); }
  }

  lemma OursWrittenCanDangle(creation: Creation, start: Types, items: Items, ea: Address, k: nat, effects: Effects)
    requires NoDanglingType(items, start, ea) && !Spared(creation, items, start, ea)
    requires k < |WrittenNames(creation)| && WrittenNames(creation)[k] == items.tinfo[ea].name
    requires forall j: nat :: effects(j) == Loses()
    ensures LeavesDangling(creation, start, items, ea, LastFails(WrittenNames(creation)[..k + 1]), effects)
  {
    var calls := LastFails(WrittenNames(creation)[..k + 1]);
    LastFailingWriteTakesAway(start, calls, items.tinfo[ea].name);
    var t := AfterCalls(Opened(start), calls);
    var order := RollbackOrderOf(t.entries);
    OrderIsWithin(t.entries);
    FailingRollbackBringsNothingBack(t.types, t.entries, t.snapshots, order, |order|, effects);
  }

  lemma SparedNeverDangles(creation: Creation, start: Types, items: Items, ea: Address, calls: seq<Call>,
      effects: Effects)
    requires Spared(creation, items, start, ea) && IsRunOf(creation, calls)
    ensures !LeavesDangling(creation, start, items, ea, calls, effects)
  {
    var t := AfterCalls(Opened(start), calls);
    EveryRunIsConsistent(start, calls);
    CreatedLeavesOthers(creation, start, calls, t, effects);
    SparedNamesNothingMissing(creation, start, RollBackAll(t, effects).types, items, items, ea);
  }

  // The writes of a creation and a rollback can leave an address naming a deleted
  // type exactly if that type is ours and the creation writes it.
  lemma DanglingIsPossibleExactly(creation: Creation, start: Types, items: Items, ea: Address)
    requires NoDanglingType(items, start, ea)
    ensures (exists calls: seq<Call>, effects: Effects :: LeavesDangling(creation, start, items, ea, calls, effects))
        <==> !Spared(creation, items, start, ea)
  {
    if Spared(creation, items, start, ea) {
      forall calls: seq<Call>, effects: Effects ensures !LeavesDangling(creation, start, items, ea, calls, effects) {
        if IsRunOf(creation, calls) { SparedNeverDangles(creation, start, items, ea, calls, effects); }
      }
    } else {
      var name := items.tinfo[ea].name;
      var k :| 0 <= k < |WrittenNames(creation)| && WrittenNames(creation)[k] == name;
      OursWrittenCanDangle(creation, start, items, ea, k, j => Loses());
    }
  }
}
