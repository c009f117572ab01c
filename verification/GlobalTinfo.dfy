// Applying a type to an address as one transaction: snapshot, write, read back,
// and on a mismatch undo and read back again. Nothing the database reports about
// a write is believed. What it answers to each write is an argument.
module GlobalTinfo {
  import opened Machine
  import opened Database

  const BADADDR: Address := 0xFFFF_FFFF_FFFF_FFFF

  datatype Phase = Pending | Committed | RollbackRequired | RolledBack | RollbackFailedPhase

  datatype RollbackPlan = RollbackPlan(removeRequested: bool, removeTemporaryItem: bool, restorePrior: bool)

  datatype ApplyResult = Applied | FailedRestored | RollbackFailed

  // What the transaction asks about the process and the address space.
  datatype Platform = Platform(mainThread: bool, mapped: set<Address>, pointerSize: nat)

  type Verifier = (TypeInfo, TypeInfo) -> bool

  // ---- Reading the database ----------------------------------------------------------

  function FlagsAt(items: Items, a: Address): Flags {
    if a in items.flags then items.flags[a] else Flags(true, 0)
  }

  function SizeAt(items: Items, a: Address): nat {
    if a in items.size then items.size[a] else 0
  }

  // The type and item at an address, as the transaction compares them.
  datatype Metadata = Metadata(tinfo: Option<TypeInfo>, head: Option<Address>, size: nat, flags: Flags,
      headFlags: Option<Flags>)

  function MetadataAt(items: Items, ea: Address): Metadata {
    var head := Lookup(items.head, ea);
    Metadata(
      Lookup(items.tinfo, ea),
      head,
      if head.None? then 0 else SizeAt(items, head.value),
      FlagsAt(items, ea),
      if head.None? then None else Some(FlagsAt(items, head.value)))
  }

  // The flags of `size` consecutive addresses.
  ghost function RangeFlags(items: Items, ea: Address, size: nat): (flags: seq<Flags>)
    requires ea + size <= BADADDR
    ensures |flags| == size
    ensures forall i: nat :: i < size ==> flags[i] == FlagsAt(items, ea + i)
  {
    seq(size, i requires 0 <= i < size => FlagsAt(items, ea + i))
  }

  // ---- The transaction policy -------------------------------------------------------------

  datatype Policy = Policy(hadPriorTinfo: bool, temporaryDataItem: bool, phase: Phase)

  datatype Request =
    | RecordItem
    | Plan
    | FinishApplication(exactMatch: bool)
    | FinishRollback(tinfoRestored: bool, itemRestored: bool)

  function AfterRequest(p: Policy, c: Request): Policy {
    match c
    case RecordItem => p.(temporaryDataItem := true)
    case Plan => p
    case FinishApplication(exactMatch) =>
      if p.phase != Pending then p else p.(phase := if exactMatch then Committed else RollbackRequired)
    case FinishRollback(tinfoRestored, itemRestored) =>
      if p.phase != RollbackRequired then p
      else p.(phase := if tinfoRestored && itemRestored then RolledBack else RollbackFailedPhase)
  }

  function AfterRequests(p: Policy, requests: seq<Request>): Policy {
    if requests == [] then p
    else AfterRequest(AfterRequests(p, requests[..|requests| - 1]), requests[|requests| - 1])
  }

  // The first verdict on the application.
  ghost function FirstApplication(requests: seq<Request>): (i: Option<nat>)
    ensures i.Some? ==> i.value < |requests| && requests[i.value].FinishApplication?
    ensures i.Some? ==> forall k :: 0 <= k < i.value ==> !requests[k].FinishApplication?
    ensures i.None? ==> forall k :: 0 <= k < |requests| ==> !requests[k].FinishApplication?
  {
    if requests == [] then None
    else
      var n := |requests| - 1;
      var i := FirstApplication(requests[..n]);
      if i.None? && requests[n].FinishApplication? then Some(n) else i
  }

  // The first verdict on a rollback after call `from`.
  ghost function FirstRollback(requests: seq<Request>, from: nat): (i: Option<nat>)
    ensures i.Some? ==> from < i.value < |requests| && requests[i.value].FinishRollback?
    ensures i.Some? ==> forall k :: from < k < i.value ==> !requests[k].FinishRollback?
    ensures i.None? ==> forall k :: from < k < |requests| ==> !requests[k].FinishRollback?
  {
    if requests == [] then None
    else
      var n := |requests| - 1;
      var i := FirstRollback(requests[..n], from);
      if i.None? && from < n && requests[n].FinishRollback? then Some(n) else i
  }

  // Whatever is called in whatever order, the first verdict on the application and
  // the first verdict on a rollback after it decide; no later call changes them.
  lemma {:induction false} FirstVerdictsDecide(hadPriorTinfo: bool, requests: seq<Request>)
    ensures var p := AfterRequests(Policy(hadPriorTinfo, false, Pending), requests);
            && p.hadPriorTinfo == hadPriorTinfo
            && (p.temporaryDataItem <==> RecordItem in requests)
            && p.phase ==
               match FirstApplication(requests)
               case None => Pending
               case Some(i) =>
                 if requests[i].exactMatch then Committed
                 else
                   match FirstRollback(requests, i)
                   case None => RollbackRequired
                   case Some(j) =>
                     if requests[j].tinfoRestored && requests[j].itemRestored then RolledBack else RollbackFailedPhase
  {
    if requests != [] {
      var n := |requests| - 1;
      FirstVerdictsDecide(hadPriorTinfo, requests[..n]);
      assert requests == requests[..n] + [requests[n]];
    }
  }

  // From any state: a verdict that was taken is not revised.
  lemma {:induction false} VerdictsAreFinal(p: Policy, requests: seq<Request>)
    requires p.phase != Pending
    ensures var q := AfterRequests(p, requests).phase;
            && q != Pending && (q == Committed <==> p.phase == Committed)
            && (p.phase != RollbackRequired ==> q == p.phase)
  {
    if requests != [] { VerdictsAreFinal(p, requests[..|requests| - 1]); }
  }

  class GlobalTinfoTransactionState {
    const hadPriorTinfo: bool
    var temporaryDataItem: bool
    var phase: Phase

    ghost function View(): Policy
      reads this
    {
      Policy(hadPriorTinfo, temporaryDataItem, phase)
    }

    constructor (hadPriorTinfo: bool)
      ensures View() == Policy(hadPriorTinfo, false, Pending)
    {
      this.hadPriorTinfo := hadPriorTinfo;
      temporaryDataItem, phase := false, Pending;
    }

    method RecordTemporaryDataItem()
      modifies this
      ensures View() == AfterRequest(old(View()), RecordItem)
    {
      temporaryDataItem := true;
    }

    // The verdict is taken once.
    method FinishApplicationVerification(exactMatch: bool) returns (committed: bool)
      modifies this`phase
      ensures committed <==> old(phase) == Pending && exactMatch
      ensures View() == AfterRequest(old(View()), FinishApplication(exactMatch))
    {
      if phase != Pending {
        return false;
      }
      phase := if exactMatch then Committed else RollbackRequired;
      committed := exactMatch;
    }

    method PlanRollback() returns (plan: RollbackPlan)
      ensures phase == RollbackRequired ==> plan == RollbackPlan(true, temporaryDataItem, hadPriorTinfo)
      ensures phase != RollbackRequired ==> plan == RollbackPlan(false, false, false)
    {
      if phase != RollbackRequired {
        return RollbackPlan(false, false, false);
      }
      plan := RollbackPlan(true, temporaryDataItem, hadPriorTinfo);
    }

    method FinishRollbackVerification(tinfoRestored: bool, itemRestored: bool) returns (restored: bool)
      modifies this`phase
      ensures restored <==> old(phase) == RollbackRequired && tinfoRestored && itemRestored
      ensures View() == AfterRequest(old(View()), FinishRollback(tinfoRestored, itemRestored))
    {
      if phase != RollbackRequired {
        return false;
      }
      restored := tinfoRestored && itemRestored;
      phase := if restored then RolledBack else RollbackFailedPhase;
    }
  }

  // ---- The steps -----------------------------------------------------------------------------

  // The answers to the writes, and which reads raise an exception.
  datatype AddressScript = AddressScript(
    admissionRaises: bool,
    snapshotRaises: bool,
    flagsRaise: bool,
    create: ItemAnswer,
    setNew: ItemAnswer,
    readRaises: bool,
    removeType: ItemAnswer,
    deleteItems: ItemAnswer,
    setPrior: ItemAnswer,
    checkRaises: bool)

  predicate IsPointer(t: TypeInfo) {
    t.Other? && t.pointer
  }

  ghost predicate PointerFits(platform: Platform, ea: Address) {
    && platform.pointerSize in {4, 8} && ea + platform.pointerSize <= BADADDR
    && forall a: Address :: ea <= a < ea + platform.pointerSize ==> a in platform.mapped
  }

  ghost predicate IsAdmitted(platform: Platform, ea: Address, requested: TypeInfo) {
    ea in platform.mapped && (IsPointer(requested) ==> PointerFits(platform, ea))
  }

  // Whether the write may be attempted at all; nothing has been written yet. An
  // exception while asking is a refusal.
  method Admissible(platform: Platform, ea: Address, requested: TypeInfo, raises: bool) returns (ok: bool)
    ensures ok <==> !raises && IsAdmitted(platform, ea, requested)
  {
    if raises || ea !in platform.mapped {
      return false;
    }
    if IsPointer(requested) {
      if (platform.pointerSize != 4 && platform.pointerSize != 8) || ea > BADADDR - platform.pointerSize {
        return false;
      }
      for i := 0 to platform.pointerSize
        invariant forall a: Address :: ea <= a < ea + i ==> a in platform.mapped
      {
        if ea + i !in platform.mapped {
          return false;
        }
      }
    }
    ok := true;
  }

  // The items after pointer storage was prepared, and whether the new item counts.
  datatype Preparation = Preparation(items: Items, temporary: bool)

  ghost predicate IsUnexplored(items: Items, ea: Address, size: nat)
    requires ea + size <= BADADDR
  {
    forall a: Address :: ea <= a < ea + size ==> FlagsAt(items, a).unknown
  }

  ghost function PreparedFor(items: Items, types: Types, size: nat, ea: Address, script: AddressScript): Preparation
    requires ea + size <= BADADDR
  {
    if script.flagsRaise || !IsUnexplored(items, ea, size) then Preparation(items, false)
    else
      var effect := script.create(items, ea, CreateItem(size));
      Preparation(Landed(items, types, ea, CreateItem(size), script.create), effect.reported && !effect.raised)
  }

  // Materializes pointer storage over a fully unexplored range, whose flags are
  // kept. The item counts as temporary only if its creation was reported.
  method PreparePointerStorage(db: IDB, platform: Platform, ea: Address, script: AddressScript)
    returns (range: seq<Flags>, temporary: bool)
    requires PointerFits(platform, ea)
    modifies db`items
    ensures Preparation(db.items, temporary) == PreparedFor(old(db.items), db.types, platform.pointerSize, ea, script)
    ensures temporary ==> range == RangeFlags(old(db.items), ea, platform.pointerSize)
  {
    range, temporary := [], false;
    if script.flagsRaise {
      return;
    }
    var unexplored := true;
    for i := 0 to platform.pointerSize
      invariant range == RangeFlags(db.items, ea, i)
      invariant unexplored <==> IsUnexplored(db.items, ea, i)
    {
      var flags := FlagsAt(db.items, ea + i);
      range := range + [flags];
      if !flags.unknown {
        unexplored := false;
      }
    }
    if unexplored {
      var created, createRaised := db.WriteItems(ea, CreateItem(platform.pointerSize), script.create);
      temporary := created && !createRaised;
    }
  }

  // ---- Undoing ---------------------------------------------------------------------------------

  datatype Undoing = Undoing(items: Items, raised: bool)

  function Write(items: Items, types: Types, ea: Address, ask: ItemAsk, answer: ItemAnswer): Undoing {
    Undoing(Landed(items, types, ea, ask, answer), answer(items, ea, ask).raised)
  }

  // The next undo write, unless one has raised or it is not planned.
  function WriteNext(u: Undoing, types: Types, ea: Address, planned: bool, ask: ItemAsk, answer: ItemAnswer): Undoing {
    if u.raised || !planned then u else Write(u.items, types, ea, ask, answer)
  }

  function UndoneBy(items: Items, types: Types, ea: Address, plan: RollbackPlan, prior: Option<TypeInfo>, size: nat,
      script: AddressScript): Undoing
    requires plan.restorePrior ==> prior.Some?
  {
    var a := WriteNext(Undoing(items, false), types, ea, plan.removeRequested, RemoveType, script.removeType);
    var b := WriteNext(a, types, ea, plan.removeTemporaryItem && size != 0, DeleteItems(size), script.deleteItems);
    if plan.restorePrior then WriteNext(b, types, ea, true, SetType(prior.value), script.setPrior) else b
  }

  // The undo writes, up to the first that raises an exception.
  method UndoWrites(db: IDB, ea: Address, plan: RollbackPlan, prior: Option<TypeInfo>, size: nat,
      script: AddressScript) returns (raised: bool)
    requires plan.restorePrior ==> prior.Some?
    modifies db`items
    ensures Undoing(db.items, raised) == UndoneBy(old(db.items), db.types, ea, plan, prior, size, script)
  {
    raised := false;
    var reported: bool;
    if plan.removeRequested {
      reported, raised := db.WriteItems(ea, RemoveType, script.removeType);
    }
    if !raised && plan.removeTemporaryItem && size != 0 {
      reported, raised := db.WriteItems(ea, DeleteItems(size), script.deleteItems);
    }
    if !raised && plan.restorePrior {
      reported, raised := db.WriteItems(ea, SetType(prior.value), script.setPrior);
    }
  }

  // Compares what is there with the snapshot.
  method VerifyRollback(db: IDB, ea: Address, prior: Metadata, temporary: bool, range: seq<Flags>)
    returns (tinfoRestored: bool, itemRestored: bool)
    requires temporary ==> ea + |range| <= BADADDR
    ensures tinfoRestored && itemRestored <==>
            && MetadataAt(db.items, ea) == prior
            && (temporary ==> RangeFlags(db.items, ea, |range|) == range)
  {
    var now := MetadataAt(db.items, ea);
    tinfoRestored := now.tinfo == prior.tinfo;
    itemRestored := now.head == prior.head && now.size == prior.size && now.flags == prior.flags
        && now.headFlags == prior.headFlags;
    if itemRestored && temporary {
      for i := 0 to |range|
        invariant RangeFlags(db.items, ea, i) == range[..i]
      {
        if FlagsAt(db.items, ea + i) != range[i] {
          assert RangeFlags(db.items, ea, |range|)[i] != range[i];
          return tinfoRestored, false;
        }
      }
      assert range[..|range|] == range;
    }
  }

  // Nothing raised, and the snapshot reads back.
  ghost predicate ReadsBack(u: Undoing, ea: Address, prior: Metadata, temporary: bool, range: seq<Flags>,
      script: AddressScript)
    requires temporary ==> ea + |range| <= BADADDR
  {
    && !u.raised && !script.checkRaises && MetadataAt(u.items, ea) == prior
    && (temporary ==> RangeFlags(u.items, ea, |range|) == range)
  }

  // Undoes the application and reports it restored only if it reads back so.
  method RollBack(db: IDB, ea: Address, transaction: GlobalTinfoTransactionState, prior: Metadata, range: seq<Flags>,
      script: AddressScript)
    returns (result: ApplyResult)
    requires transaction.phase == RollbackRequired && transaction.hadPriorTinfo == prior.tinfo.Some?
    requires transaction.temporaryDataItem ==> ea + |range| <= BADADDR
    modifies db`items, transaction`phase
    ensures var plan := RollbackPlan(true, transaction.temporaryDataItem, prior.tinfo.Some?);
            var u := UndoneBy(old(db.items), db.types, ea, plan, prior.tinfo, |range|, script);
            && db.items == u.items
            && result == if ReadsBack(u, ea, prior, plan.removeTemporaryItem, range, script) then FailedRestored
                         else RollbackFailed
  {
    var plan := transaction.PlanRollback();
    var undoRaised := UndoWrites(db, ea, plan, prior.tinfo, |range|, script);
    var tinfoRestored, itemRestored := VerifyRollback(db, ea, prior, plan.removeTemporaryItem, range);
    if undoRaised || script.checkRaises {
      tinfoRestored, itemRestored := false, false;
    }
    var restored := transaction.FinishRollbackVerification(tinfoRestored, itemRestored);
    result := if restored then FailedRestored else RollbackFailed;
  }

  // ---- The whole transaction ---------------------------------------------------------------------

  // `temporary`: pointer storage was materialized; `raised`: the undo or its check
  // raised an exception.
  datatype Outcome = Outcome(result: ApplyResult, items: Items, temporary: bool, raised: bool)

  ghost predicate IsRefused(platform: Platform, ea: Address, requested: Option<TypeInfo>, verifier: Option<Verifier>,
      script: AddressScript) {
    || ea == BADADDR || requested.None? || !platform.mainThread || verifier.None?
    || script.admissionRaises || !IsAdmitted(platform, ea, requested.value) || script.snapshotRaises
  }

  ghost function AfterPreparing(items: Items, types: Types, platform: Platform, ea: Address, requested: TypeInfo,
      script: AddressScript): Preparation
    requires IsAdmitted(platform, ea, requested)
  {
    if IsPointer(requested) then PreparedFor(items, types, platform.pointerSize, ea, script)
    else Preparation(items, false)
  }

  ghost predicate IsVerified(items: Items, ea: Address, requested: TypeInfo, verifier: Verifier,
      script: AddressScript) {
    !script.readRaises && ea in items.tinfo && verifier(requested, items.tinfo[ea])
  }

  ghost function Applying(items: Items, types: Types, platform: Platform, ea: Address, requested: Option<TypeInfo>,
      verifier: Option<Verifier>, script: AddressScript): Outcome
  {
    if IsRefused(platform, ea, requested, verifier, script) then Outcome(FailedRestored, items, false, false)
    else
      var p := AfterPreparing(items, types, platform, ea, requested.value, script);
      var after := Landed(p.items, types, ea, SetType(requested.value), script.setNew);
      if IsVerified(after, ea, requested.value, verifier.value, script) then Outcome(Applied, after, p.temporary, false)
      else
        var prior := MetadataAt(items, ea);
        var range := if p.temporary then RangeFlags(items, ea, platform.pointerSize) else [];
        var plan := RollbackPlan(true, p.temporary, prior.tinfo.Some?);
        var u := UndoneBy(after, types, ea, plan, prior.tinfo, |range|, script);
        Outcome(if ReadsBack(u, ea, prior, p.temporary, range, script) then FailedRestored else RollbackFailed,
                u.items, p.temporary, u.raised || script.checkRaises)
  }

  // A database that does as asked about the type of the address.
  ghost predicate SetsType(answer: ItemAnswer, ea: Address) {
    forall items: Items, info: TypeInfo :: var e := answer(items, ea, SetType(info));
      !e.raised && e.left == items.(tinfo := items.tinfo[ea := info])
  }

  ghost predicate RemovesType(answer: ItemAnswer, ea: Address) {
    forall items: Items :: var e := answer(items, ea, RemoveType);
      !e.raised && e.left == items.(tinfo := items.tinfo - {ea})
  }

  // A write of a type that may leave any type, but nothing else.
  ghost predicate SetsOnlyTypes(answer: ItemAnswer, ea: Address) {
    forall items: Items, info: TypeInfo ::
      answer(items, ea, SetType(info)).left.(tinfo := items.tinfo) == items
  }

  // Deleting the items gives back what was there before.
  ghost predicate GivesBack(answer: ItemAnswer, before: Items, ea: Address, size: nat) {
    forall items: Items :: var e := answer(items, ea, DeleteItems(size));
      !e.raised && e.left == before.(tinfo := items.tinfo)
  }

  // The undo writes do as asked and nothing raises; what is not undone left nothing.
  ghost predicate CanUndo(items: Items, platform: Platform, ea: Address, script: AddressScript) {
    && SetsOnlyTypes(script.setNew, ea) && RemovesType(script.removeType, ea) && SetsType(script.setPrior, ea)
    && !script.checkRaises
    && GivesBack(script.deleteItems, items, ea, platform.pointerSize)
    && var e := script.create(items, ea, CreateItem(platform.pointerSize));
       !e.reported || e.raised ==> e.left == items
  }

  ghost predicate CanApply(platform: Platform, ea: Address, requested: TypeInfo, verifier: Verifier, types: Types,
      script: AddressScript) {
    && !IsRefused(platform, ea, Some(requested), Some(verifier), script)
    && SetsType(script.setNew, ea) && !script.readRaises && verifier(requested, requested)
    && (requested.Reference? ==> requested.name in types)
  }

  // If the type can be applied it is, and the address has the type requested.
  lemma CanApplyApplies(items: Items, types: Types, platform: Platform, ea: Address, requested: TypeInfo,
      verifier: Verifier, script: AddressScript)
    requires CanApply(platform, ea, requested, verifier, types, script)
    ensures var o := Applying(items, types, platform, ea, Some(requested), Some(verifier), script);
            o.result == Applied && Lookup(o.items.tinfo, ea) == Some(requested)
  {
    var p := AfterPreparing(items, types, platform, ea, requested, script);
    assert script.setNew(p.items, ea, SetType(requested)).left == p.items.(tinfo := p.items.tinfo[ea := requested]);
  }

  // The undo writes put the address back, whatever type the write left there.
  lemma UndoingRestores(items: Items, after: Items, types: Types, platform: Platform, ea: Address, temporary: bool,
      size: nat, script: AddressScript)
    requires CanUndo(items, platform, ea, script) && NoDanglingType(items, types, ea)
    requires if temporary then size == platform.pointerSize > 0 else after.(tinfo := items.tinfo) == items
    ensures var prior := Lookup(items.tinfo, ea);
            var u := UndoneBy(after, types, ea, RollbackPlan(true, temporary, prior.Some?), prior, size, script);
            !u.raised && u.items.(tinfo := items.tinfo) == items && Lookup(u.items.tinfo, ea) == prior
  {
    var prior := Lookup(items.tinfo, ea);
    var a := Write(after, types, ea, RemoveType, script.removeType);
    assert script.removeType(after, ea, RemoveType).left == after.(tinfo := after.tinfo - {ea});
    assert a.items == after.(tinfo := after.tinfo - {ea}) && !a.raised;
    var b := WriteNext(a, types, ea, temporary && size != 0, DeleteItems(size), script.deleteItems);
    if temporary {
      assert script.deleteItems(a.items, ea, DeleteItems(size)).left == items.(tinfo := a.items.tinfo);
    }
    assert !b.raised && b.items == items.(tinfo := after.tinfo - {ea});
    if prior.Some? {
      var left := b.items.(tinfo := b.items.tinfo[ea := prior.value]);
      assert script.setPrior(b.items, ea, SetType(prior.value)).left == left;
      assert NoDanglingType(left, types, ea);
    }
  }

  // Nothing but types was left, and the type of the address is as before.
  ghost predicate IsBack(before: Items, now: Items, ea: Address) {
    now.(tinfo := before.tinfo) == before && Lookup(now.tinfo, ea) == Lookup(before.tinfo, ea)
  }

  lemma BackReadsBack(before: Items, u: Undoing, ea: Address, temporary: bool, size: nat, script: AddressScript)
    requires IsBack(before, u.items, ea) && !u.raised && !script.checkRaises && ea + size <= BADADDR
    ensures var range := if temporary then RangeFlags(before, ea, size) else [];
            ReadsBack(u, ea, MetadataAt(before, ea), temporary, range, script)
  {
    var now := u.items;
    assert now.head == before.head && now.size == before.size && now.flags == before.flags by {
      assert now.(tinfo := before.tinfo).head == before.head;
    }
    if temporary { SameFlagsSameRange(before, now, ea, size); }
  }

  lemma SameFlagsSameRange(a: Items, b: Items, ea: Address, size: nat)
    requires a.flags == b.flags && ea + size <= BADADDR
    ensures RangeFlags(a, ea, size) == RangeFlags(b, ea, size)
  {
    var one, two := RangeFlags(a, ea, size), RangeFlags(b, ea, size);
    assert forall i: nat :: i < size ==> one[i] == two[i];
  }

  lemma SettingLeavesTheRest(items: Items, types: Types, ea: Address, info: TypeInfo, answer: ItemAnswer)
    requires SetsOnlyTypes(answer, ea)
    ensures Landed(items, types, ea, SetType(info), answer).(tinfo := items.tinfo) == items
  {
    assert answer(items, ea, SetType(info)).left.(tinfo := items.tinfo) == items;
  }

  lemma PreparedOrUntouched(items: Items, types: Types, platform: Platform, ea: Address, requested: TypeInfo,
      script: AddressScript)
    requires IsAdmitted(platform, ea, requested) && CanUndo(items, platform, ea, script)
    ensures var p := AfterPreparing(items, types, platform, ea, requested, script);
            if p.temporary then IsPointer(requested) && platform.pointerSize > 0 else p.items == items
  {
    var effect := script.create(items, ea, CreateItem(platform.pointerSize));
    if !effect.reported || effect.raised {
      assert Landed(items, types, ea, CreateItem(platform.pointerSize), script.create) == items;
    }
  }

  // Then a type that is not accepted is undone, and the address is as before.
  lemma CanUndoRestores(items: Items, types: Types, platform: Platform, ea: Address, requested: Option<TypeInfo>,
      verifier: Option<Verifier>, script: AddressScript)
    requires CanUndo(items, platform, ea, script) && NoDanglingType(items, types, ea)
    ensures var o := Applying(items, types, platform, ea, requested, verifier, script);
            o.result == Applied || (o.result == FailedRestored && IsBack(items, o.items, ea))
  {
    if !IsRefused(platform, ea, requested, verifier, script) {
      PreparedOrUntouched(items, types, platform, ea, requested.value, script);
      var p := AfterPreparing(items, types, platform, ea, requested.value, script);
      SettingLeavesTheRest(p.items, types, ea, requested.value, script.setNew);
      var after := Landed(p.items, types, ea, SetType(requested.value), script.setNew);
      if !IsVerified(after, ea, requested.value, verifier.value, script) {
        var prior := Lookup(items.tinfo, ea);
        var size := if p.temporary then platform.pointerSize else 0;
        UndoingRestores(items, after, types, platform, ea, p.temporary, size, script);
        var u := UndoneBy(after, types, ea, RollbackPlan(true, p.temporary, prior.Some?), prior, size, script);
        if p.temporary {
          BackReadsBack(items, u, ea, true, size, script);
        } else {
          BackReadsBack(items, u, ea, false, 0, script);
        }
      }
    }
  }

  // Success is reported only for a type read back and accepted by the verifier.
  // A restored failure leaves the address's type and item as they were, and all
  // flags of a range that was materialized. Anything else is a failed rollback,
  // which is reported only if something differs or an exception intervened.
  ghost predicate IsHonest(before: Items, platform: Platform, ea: Address, requested: Option<TypeInfo>,
      verifier: Option<Verifier>, o: Outcome) {
    && (o.result == Applied ==>
          && requested.Some? && verifier.Some? && ea in o.items.tinfo
          && verifier.value(requested.value, o.items.tinfo[ea]))
    && (o.result == FailedRestored ==> MetadataAt(o.items, ea) == MetadataAt(before, ea))
    && (o.result == FailedRestored && o.temporary ==>
          && PointerFits(platform, ea)
          && RangeFlags(o.items, ea, platform.pointerSize) == RangeFlags(before, ea, platform.pointerSize))
    && (o.result == RollbackFailed && !o.raised ==>
          || MetadataAt(o.items, ea) != MetadataAt(before, ea)
          || (o.temporary && PointerFits(platform, ea) &&
              RangeFlags(o.items, ea, platform.pointerSize) != RangeFlags(before, ea, platform.pointerSize)))
  }

  lemma ApplyingIsHonest(items: Items, types: Types, platform: Platform, ea: Address, requested: Option<TypeInfo>,
      verifier: Option<Verifier>, script: AddressScript)
    ensures var o := Applying(items, types, platform, ea, requested, verifier, script);
            IsHonest(items, platform, ea, requested, verifier, o)
  {
  }

  lemma WritingNextNamesNothingMissing(items: Items, types: Types, u: Undoing, ea: Address, planned: bool, ask: ItemAsk,
      answer: ItemAnswer)
    requires Lookup(u.items.tinfo, ea) == Lookup(items.tinfo, ea) || NoDanglingType(u.items, types, ea)
    ensures var now := WriteNext(u, types, ea, planned, ask, answer).items;
            Lookup(now.tinfo, ea) == Lookup(items.tinfo, ea) || NoDanglingType(now, types, ea)
  {
  }

  // The address never comes to name a missing type it did not name before.
  lemma ApplyingNamesNothingMissing(items: Items, types: Types, platform: Platform, ea: Address,
      requested: Option<TypeInfo>, verifier: Option<Verifier>, script: AddressScript)
    ensures var now := Applying(items, types, platform, ea, requested, verifier, script).items;
            Lookup(now.tinfo, ea) == Lookup(items.tinfo, ea) || NoDanglingType(now, types, ea)
  {
    if !IsRefused(platform, ea, requested, verifier, script) {
      var p := AfterPreparing(items, types, platform, ea, requested.value, script);
      var after := Landed(p.items, types, ea, SetType(requested.value), script.setNew);
      var prior := Lookup(items.tinfo, ea);
      var size := if p.temporary then platform.pointerSize else 0;
      var a := WriteNext(Undoing(after, false), types, ea, true, RemoveType, script.removeType);
      var b := WriteNext(a, types, ea, p.temporary && size != 0, DeleteItems(size), script.deleteItems);
      WritingNextNamesNothingMissing(items, types, Undoing(after, false), ea, true, RemoveType, script.removeType);
      WritingNextNamesNothingMissing(items, types, a, ea, p.temporary && size != 0, DeleteItems(size),
                                     script.deleteItems);
      if prior.Some? {
        WritingNextNamesNothingMissing(items, types, b, ea, true, SetType(prior.value), script.setPrior);
      }
    }
  }

  // If the database does as asked, a type that can be applied is applied, and one
  // that is not accepted is undone.
  method ApplyGlobalTinfoTransactionDetailed(db: IDB, platform: Platform, ea: Address, requested: Option<TypeInfo>,
      verifier: Option<Verifier>, script: AddressScript)
    returns (result: ApplyResult)
    modifies db`items
    ensures var o := Applying(old(db.items), db.types, platform, ea, requested, verifier, script);
            result == o.result && db.items == o.items && IsHonest(old(db.items), platform, ea, requested, verifier, o)
    ensures requested.Some? && verifier.Some? ==>
        (CanApply(platform, ea, requested.value, verifier.value, db.types, script) ==>
           result == Applied && Lookup(db.items.tinfo, ea) == requested)
    ensures old(CanUndo(db.items, platform, ea, script) && NoDanglingType(db.items, db.types, ea)) ==>
        result == Applied || (result == FailedRestored && IsBack(old(db.items), db.items, ea))
    ensures Lookup(db.items.tinfo, ea) == old(Lookup(db.items.tinfo, ea)) || NoDanglingType(db.items, db.types, ea)
  {
    ghost var start := db.items;
    result := ApplyTo(db, platform, ea, requested, verifier, script);
    ApplyingIsHonest(start, db.types, platform, ea, requested, verifier, script);
    ApplyingNamesNothingMissing(start, db.types, platform, ea, requested, verifier, script);
    if requested.Some? && verifier.Some? && CanApply(platform, ea, requested.value, verifier.value, db.types, script) {
      CanApplyApplies(start, db.types, platform, ea, requested.value, verifier.value, script);
    }
    if CanUndo(start, platform, ea, script) && NoDanglingType(start, db.types, ea) {
      CanUndoRestores(start, db.types, platform, ea, requested, verifier, script);
    }
  }

  method ApplyTo(db: IDB, platform: Platform, ea: Address, requested: Option<TypeInfo>, verifier: Option<Verifier>,
      script: AddressScript) returns (result: ApplyResult)
    modifies db`items
    ensures var o := Applying(old(db.items), db.types, platform, ea, requested, verifier, script);
            result == o.result && db.items == o.items
  {
    result := FailedRestored;
    if ea == BADADDR || requested.None? || !platform.mainThread || verifier.None? {
      return;
    }
    var admissible := Admissible(platform, ea, requested.value, script.admissionRaises);
    if !admissible || script.snapshotRaises {
      return;
    }
    var prior := MetadataAt(db.items, ea);
    var transaction := new GlobalTinfoTransactionState(prior.tinfo.Some?);
    var range: seq<Flags> := [];
    if IsPointer(requested.value) {
      var created: bool;
      range, created := PreparePointerStorage(db, platform, ea, script);
      if created {
        transaction.RecordTemporaryDataItem();
      }
    }
    var reported, raised := db.WriteItems(ea, SetType(requested.value), script.setNew);
    var verified := !script.readRaises && ea in db.items.tinfo && verifier.value(requested.value, db.items.tinfo[ea]);
    var committed := transaction.FinishApplicationVerification(verified);
    if committed {
      return Applied;
    }
    result := RollBack(db, ea, transaction, prior, range, script);
  }

  // The verifier in use: the type read back is the type requested.
  function ExactReadback(requested: TypeInfo, observed: TypeInfo): bool {
    requested == observed
  }
}
