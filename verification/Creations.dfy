// The creation of a structure as a function of what the database answers: its
// writes in order, each checked afterwards, with companions that may be tolerated
// when they fail.
module Creations {
  import opened Machine
  import opened Journal
  import opened Database
  import opened Rollback

  datatype NamedWrite = NamedWrite(name: string, definition: Definition)

  // How a structure gets its type: an existing type is reused as it is, or the
  // companion types and then the root are written; an update returns the
  // identity the root had before.
  datatype Creation = Reuse(name: string) | Create(companions: seq<NamedWrite>, root: NamedWrite, updating: bool)

  function Target(creation: Creation): string {
    if creation.Reuse? then creation.name else creation.root.name
  }

  // The writes of a creation, in order.
  function AllWrites(creation: Creation): seq<NamedWrite> {
    if creation.Reuse? then [] else creation.companions + [creation.root]
  }

  function WrittenNames(creation: Creation): seq<string> {
    seq(|AllWrites(creation)|, i requires 0 <= i < |AllWrites(creation)| => AllWrites(creation)[i].name)
  }

  // A write to the empty name is refused.
  predicate Writes(creation: Creation, n: string) {
    n != "" && n in WrittenNames(creation)
  }

  // The creation makes its writes in order and may end after any of them.
  ghost predicate IsRunOf(creation: Creation, calls: seq<Call>) {
    && |calls| <= |WrittenNames(creation)|
    && forall k :: 0 <= k < |calls| ==> calls[k].name == WrittenNames(creation)[k]
  }

  ghost predicate ForeignTypesStay(before: Types, now: Types) {
    forall n :: n in before && !before[n].owned ==> Lookup(now, n) == Lookup(before, n)
  }

  // No run touches a name the creation does not write, or a type that is not ours.
  ghost predicate OthersStay(creation: Creation, start: Types, types: Types) {
    && ForeignTypesStay(start, types)
    && forall n :: !Writes(creation, n) ==> Lookup(types, n) == Lookup(start, n)
  }

  // The names satisfying `may` aside, the store and the journal are unchanged.
  ghost predicate WritesOnly(before: Txn, now: Txn, may: string -> bool) {
    forall n :: !may(n) ==>
      Lookup(now.types, n) == Lookup(before.types, n) && Position(now.entries, n) == Position(before.entries, n)
  }

  // The transaction is what the calls make of it, apart from being poisoned.
  ghost predicate IsAfter(before: Txn, calls: seq<Call>, now: Txn) {
    now == AfterCalls(before, calls).(poisoned := now.poisoned)
  }

  lemma PoisonChangesNoWrite(a: Txn, b: Txn, name: string, readable: bool, effect: Effect)
    requires a == b.(poisoned := a.poisoned)
    ensures var a', b' := TransactionalWrite(a, name, readable, effect), TransactionalWrite(b, name, readable, effect);
            a' == b'.(poisoned := a'.poisoned)
  {
  }

  lemma OneMoreCall(before: Txn, calls: seq<Call>, now: Txn, call: Call)
    requires IsAfter(before, calls, now)
    ensures IsAfter(before, calls + [call], TransactionalWrite(now, call.name, call.readable, call.effect))
  {
    assert (calls + [call])[..|calls|] == calls;
    PoisonChangesNoWrite(now, AfterCalls(before, calls), call.name, call.readable, call.effect);
  }

  lemma RunWritesOnly(creation: Creation, before: Txn, calls: seq<Call>, now: Txn)
    requires IsRunOf(creation, calls) && IsAfter(before, calls, now)
    ensures WritesOnly(before, now, n => Writes(creation, n))
  {
    forall n | !Writes(creation, n)
      ensures Lookup(now.types, n) == Lookup(before.types, n) && Position(now.entries, n) == Position(before.entries, n)
    {
      OnlyCalledNames(before, calls, n);
    }
  }

  // A write never lifts the poison, and one that leaves the transaction unpoisoned
  // takes no name away and was read back.
  lemma WriteFacts(t: Txn, name: string, readable: bool, effect: Effect)
    ensures var t' := TransactionalWrite(t, name, readable, effect);
            && (t.poisoned ==> t'.poisoned) && (t'.unseen == t.unseen || t'.poisoned)
            && (!t'.poisoned ==> forall n :: n in t.types ==> n in t'.types)
            && (!FailsBefore(t, name, effect) && !Refuses(t, name, readable) && IsSaved(effect) ==> name in t'.types)
  {
    var t' := TransactionalWrite(t, name, readable, effect);
    if !t'.poisoned {
      forall n | n in t.types ensures n in t'.types {
        if n != name { TransactionalWriteTouchesOne(t, name, readable, effect, n); }
      }
    }
  }

  // ---- The creation --------------------------------------------------------------------------

  // The k-th write is answered by answers(k); `readable` says whether a type found
  // under its name can be read, `verified` whether the checks after it pass, and
  // `tolerated` whether the creation goes on if it failed.
  datatype Script = Script(
    canRead: bool,
    readable: nat -> bool,
    answers: nat -> Answer,
    verified: nat -> bool,
    tolerated: nat -> bool)

  function CallOf(creation: Creation, script: Script, k: nat): Call
    requires k < |AllWrites(creation)|
  {
    var w := AllWrites(creation)[k];
    Call(w.name, script.readable(k), script.answers(k)(Store(w.definition)))
  }

  // The write was made and the definition was saved.
  ghost predicate IsMade(t: Txn, call: Call) {
    !FailsBefore(t, call.name, call.effect) && !Refuses(t, call.name, call.readable) && IsSaved(call.effect)
  }

  // The transaction after some writes, and whether the creation is still going.
  datatype Stage = Stage(t: Txn, going: bool)

  ghost function AfterCompanion(s: Stage, creation: Creation, script: Script, k: nat): Stage
    requires k < |AllWrites(creation)|
  {
    if !s.going then s
    else
      var call := CallOf(creation, script, k);
      var t := TransactionalWrite(s.t, call.name, call.readable, call.effect);
      var made := IsMade(s.t, call);
      Stage(if made && !script.verified(k) then t.(poisoned := true) else t,
            (made && script.verified(k)) || script.tolerated(k))
  }

  ghost function AfterCompanions(t: Txn, creation: Creation, script: Script, n: nat): Stage
    requires n <= |AllWrites(creation)|
  {
    if n == 0 then Stage(t, true)
    else AfterCompanion(AfterCompanions(t, creation, script, n - 1), creation, script, n - 1)
  }

  ghost function AfterRoot(s: Stage, creation: Creation, script: Script): Stage
    requires creation.Create?
  {
    if !s.going then s
    else
      var k := |creation.companions|;
      var call := CallOf(creation, script, k);
      Stage(TransactionalWrite(s.t, call.name, call.readable, call.effect), IsMade(s.t, call) && script.verified(k))
  }

  // A creation that has ended makes no more writes.
  lemma {:induction false} EndedStays(t: Txn, creation: Creation, script: Script, n: nat, m: nat)
    requires n <= m <= |AllWrites(creation)| && !AfterCompanions(t, creation, script, n).going
    ensures AfterCompanions(t, creation, script, m) == AfterCompanions(t, creation, script, n)
  {
    if n < m { EndedStays(t, creation, script, n, m - 1); }
  }

  datatype Created = Created(t: Txn, tid: Option<Tid>)

  ghost function CreatedBy(t: Txn, creation: Creation, script: Script): Created {
    if !script.canRead then Created(t, None)
    else if creation.Reuse? then Created(t, TidIn(t.types, creation.name))
    else
      var s := AfterRoot(AfterCompanions(t, creation, script, |creation.companions|), creation, script);
      Created(s.t,
              if !s.going then None else TidIn(if creation.updating then t.types else s.t.types, creation.root.name))
  }

  // Any failure poisons the transaction, and a poisoned one has no identity to give.
  ghost function Concluded(c: Created): Created {
    Created(c.t.(poisoned := c.t.poisoned || c.tid.None?), if c.t.poisoned then None else c.tid)
  }

  // ---- What every creation keeps -------------------------------------------------------------

  ghost predicate IsSound(start: Types, t: Txn, now: Txn) {
    && Consistent(start, now)
    && (t.poisoned ==> now.poisoned) && (now.unseen == t.unseen || now.poisoned)
    && (!now.poisoned ==> forall n :: n in t.types ==> n in now.types)
  }

  lemma OneWriteIsSound(start: Types, t: Txn, now: Txn, call: Call)
    requires IsSound(start, t, now)
    ensures IsSound(start, t, TransactionalWrite(now, call.name, call.readable, call.effect))
  {
    TransactionalWriteIsConsistent(start, now, call.name, call.readable, call.effect);
    WriteFacts(now, call.name, call.readable, call.effect);
  }

  lemma PoisonIsSound(start: Types, t: Txn, now: Txn)
    requires IsSound(start, t, now)
    ensures IsSound(start, t, now.(poisoned := true))
  {
    PoisonIsConsistent(start, now);
  }

  // A stage reached by a prefix of the writes.
  ghost predicate IsReached(start: Types, t: Txn, s: Stage, creation: Creation, calls: seq<Call>, n: nat) {
    && IsSound(start, t, s.t) && IsRunOf(creation, calls) && IsAfter(t, calls, s.t) && (s.going ==> |calls| == n)
  }

  lemma OneMoreCompanion(start: Types, t: Txn, s: Stage, creation: Creation, script: Script, calls: seq<Call>, n: nat)
    requires n < |AllWrites(creation)| && s.going && IsReached(start, t, s, creation, calls, n)
    ensures var call := CallOf(creation, script, n);
            IsReached(start, t, AfterCompanion(s, creation, script, n), creation, calls + [call], n + 1)
  {
    var call := CallOf(creation, script, n);
    OneMoreReached(start, t, s.t, creation, calls, call);
    PoisonIsSound(start, t, TransactionalWrite(s.t, call.name, call.readable, call.effect));
  }

  lemma OneMoreReached(start: Types, t: Txn, now: Txn, creation: Creation, calls: seq<Call>, call: Call)
    requires IsSound(start, t, now) && IsRunOf(creation, calls) && IsAfter(t, calls, now)
    requires |calls| < |WrittenNames(creation)| && call.name == WrittenNames(creation)[|calls|]
    ensures var next := TransactionalWrite(now, call.name, call.readable, call.effect);
            && IsSound(start, t, next) && IsRunOf(creation, calls + [call]) && IsAfter(t, calls + [call], next)
  {
    OneWriteIsSound(start, t, now, call);
    OneMoreCall(t, calls, now, call);
  }

  lemma NextIsReached(start: Types, t: Txn, s: Stage, next: Stage, creation: Creation, script: Script,
      calls: seq<Call>, n: nat) returns (more: seq<Call>)
    requires n < |AllWrites(creation)| && IsReached(start, t, s, creation, calls, n)
    requires next == AfterCompanion(s, creation, script, n)
    ensures IsReached(start, t, next, creation, more, n + 1)
  {
    if s.going {
      OneMoreCompanion(start, t, s, creation, script, calls, n);
      more := calls + [CallOf(creation, script, n)];
    } else {
      more := calls;
    }
  }

  lemma {:induction false} CompanionsAreSound(start: Types, t: Txn, creation: Creation, script: Script, n: nat)
    returns (calls: seq<Call>)
    requires Consistent(start, t) && creation.Create? && n <= |creation.companions|
    ensures IsReached(start, t, AfterCompanions(t, creation, script, n), creation, calls, n)
  {
    if n == 0 {
      StartIsReached(start, t, creation);
      calls := [];
    } else {
      var before := CompanionsAreSound(start, t, creation, script, n - 1);
      var s := AfterCompanions(t, creation, script, n - 1);
      var next := AfterCompanions(t, creation, script, n);
      assert next == AfterCompanion(s, creation, script, n - 1);
      calls := NextIsReached(start, t, s, next, creation, script, before, n - 1);
    }
  }

  lemma StartIsReached(start: Types, t: Txn, creation: Creation)
    requires Consistent(start, t)
    ensures IsReached(start, t, Stage(t, true), creation, [], 0)
  {
  }

  // The transaction after a creation is what a prefix of its writes makes of it, and
  // is consistent; unless it is poisoned no name is lost and every identity was read.
  lemma CreationIsRun(start: Types, t: Txn, creation: Creation, script: Script) returns (calls: seq<Call>)
    requires Consistent(start, t)
    ensures var c := CreatedBy(t, creation, script);
            && IsSound(start, t, c.t) && IsRunOf(creation, calls) && IsAfter(t, calls, c.t)
            && (c.tid.Some? ==> Target(creation) in c.t.types)
  {
    calls := [];
    if script.canRead && creation.Create? {
      var k := |creation.companions|;
      calls := CompanionsAreSound(start, t, creation, script, k);
      var s := AfterCompanions(t, creation, script, k);
      if s.going {
        OneMoreReached(start, t, s.t, creation, calls, CallOf(creation, script, k));
        calls := calls + [CallOf(creation, script, k)];
      }
    }
  }

  // If no read after a write raises, every identity is read.
  lemma {:induction false} CompanionsAreSeen(t: Txn, creation: Creation, script: Script, n: nat)
    requires creation.Create? && n <= |creation.companions| && EveryReadReturns(script)
    ensures AfterCompanions(t, creation, script, n).t.unseen == t.unseen
  {
    if n > 0 {
      CompanionsAreSeen(t, creation, script, n - 1);
      var s := AfterCompanions(t, creation, script, n - 1);
      if s.going { CallIsSeen(s.t, creation, script, n - 1); }
    }
  }

  ghost predicate EveryReadReturns(script: Script) {
    forall k: nat, d: Definition :: !script.answers(k)(Store(d)).raisesAfter
  }

  lemma CallIsSeen(t: Txn, creation: Creation, script: Script, k: nat)
    requires k < |AllWrites(creation)| && EveryReadReturns(script)
    ensures var call := CallOf(creation, script, k);
            TransactionalWrite(t, call.name, call.readable, call.effect).unseen == t.unseen
  {
    var call := CallOf(creation, script, k);
    if !FailsBefore(t, call.name, call.effect) && !Refuses(t, call.name, call.readable) {
      TransactionalWriteHasEntry(t, call.name, call.readable, call.effect);
    }
  }

  lemma CreationIsSeen(t: Txn, creation: Creation, script: Script)
    requires EveryReadReturns(script)
    ensures Concluded(CreatedBy(t, creation, script)).t.unseen == t.unseen
  {
    if script.canRead && creation.Create? {
      var k := |creation.companions|;
      CompanionsAreSeen(t, creation, script, k);
      CallIsSeen(AfterCompanions(t, creation, script, k).t, creation, script, k);
    }
  }

  // What an identity means: nothing is poisoned or lost, every identity was read, the
  // created name is there, and the identity is that of the name, before an update or
  // after a new write; reusing a type changes nothing.
  ghost predicate MeansCreated(t: Txn, creation: Creation, c: Created) {
    c.tid.Some? ==>
      && !c.t.poisoned && c.t.unseen == t.unseen
      && Target(creation) in c.t.types && (forall n :: n in t.types ==> n in c.t.types)
      && (creation.Reuse? ==> c.t.types == t.types)
      && c.tid == TidIn(if creation.Create? && creation.updating then t.types else c.t.types, Target(creation))
  }

  lemma ConcludedFacts(start: Types, t: Txn, creation: Creation, script: Script) returns (calls: seq<Call>)
    requires Consistent(start, t)
    ensures var c := Concluded(CreatedBy(t, creation, script));
            && Consistent(start, c.t) && c.t.poisoned == c.tid.None? && MeansCreated(t, creation, c)
            && IsRunOf(creation, calls) && IsAfter(t, calls, c.t)
  {
    calls := CreationIsRun(start, t, creation, script);
    PoisonIsConsistent(start, CreatedBy(t, creation, script).t);
  }

  // The k-th write was saved and passed its checks, or it was refused and tolerated.
  ghost predicate IsSettled(t: Txn, creation: Creation, script: Script, k: nat)
    requires k < |AllWrites(creation)|
  {
    var s := AfterCompanions(t, creation, script, k).t;
    var call := CallOf(creation, script, k);
    || (IsMade(s, call) && script.verified(k))
    || (k < |creation.companions| && script.tolerated(k) && Refuses(s, call.name, call.readable))
  }

  lemma {:induction false} GoingMeansSettled(t: Txn, creation: Creation, script: Script, n: nat)
    requires creation.Create? && n <= |creation.companions|
    requires AfterCompanions(t, creation, script, n).going && !AfterCompanions(t, creation, script, n).t.poisoned
    ensures forall k: nat :: k < n ==> IsSettled(t, creation, script, k)
  {
    if n > 0 {
      var s := AfterCompanions(t, creation, script, n - 1);
      OneWritePoisons(s.t, CallOf(creation, script, n - 1));
      GoingMeansSettled(t, creation, script, n - 1);
    }
  }

  // An identity means that every write was saved and passed its checks, or was of a
  // companion, refused and tolerated.
  lemma IdentityMeansSettled(t: Txn, creation: Creation, script: Script)
    requires creation.Create? && Concluded(CreatedBy(t, creation, script)).tid.Some?
    ensures script.canRead && forall k: nat :: k < |AllWrites(creation)| ==> IsSettled(t, creation, script, k)
  {
    var n := |creation.companions|;
    var s := AfterCompanions(t, creation, script, n);
    OneWritePoisons(s.t, CallOf(creation, script, n));
    GoingMeansSettled(t, creation, script, n);
  }

  // ---- A creation whose database does as asked --------------------------------------------------

  // The definition that the last write of the name asked for.
  function LastDefinition(writes: seq<NamedWrite>, n: string): Option<Definition> {
    if writes == [] then None
    else if writes[|writes| - 1].name == n then Some(writes[|writes| - 1].definition)
    else LastDefinition(writes[..|writes| - 1], n)
  }

  // Everything can be read, every write leaves what was asked and every check passes;
  // and the creation writes only named types that are new or ours.
  ghost predicate Obliging(t: Txn, creation: Creation, script: Script) {
    && script.canRead && creation.Create? && (creation.updating ==> creation.root.name in t.types)
    && (forall k: nat :: k < |AllWrites(creation)| ==>
          script.readable(k) && script.verified(k) && Obeys(script.answers(k)))
    && (forall k: nat :: k < |AllWrites(creation)| ==> MayWrite(t, AllWrites(creation)[k].name))
  }

  ghost predicate MayWrite(t: Txn, name: string) {
    name != "" && (Position(t.entries, name).None? && name in t.types ==> t.types[name].owned)
  }

  // After the first writes, each written name has its last definition and the others
  // are unchanged.
  ghost predicate HasDefinitions(t: Txn, now: Txn, writes: seq<NamedWrite>) {
    forall n :: HasDefinition(t, now, writes, n)
  }

  ghost predicate HasDefinition(t: Txn, now: Txn, writes: seq<NamedWrite>, n: string) {
    match LastDefinition(writes, n)
    case None => Lookup(now.types, n) == Lookup(t.types, n) && Position(now.entries, n) == Position(t.entries, n)
    case Some(d) => n in now.types && now.types[n].definition == d && Position(now.entries, n).Some?
  }

  lemma ObligingWrite(t: Txn, call: Call, definition: Definition)
    requires MayWrite(t, call.name) && call.readable && LeavesAsAsked(call.effect, definition)
    ensures var now := TransactionalWrite(t, call.name, call.readable, call.effect);
            && IsMade(t, call) && now.poisoned == t.poisoned && now.unseen == t.unseen
            && now.types == t.types[call.name := call.effect.left.value]
            && Position(now.entries, call.name).Some?
  {
    TransactionalWriteHasEntry(t, call.name, call.readable, call.effect);
  }

  lemma OneMoreDefinition(t: Txn, was: Txn, writes: seq<NamedWrite>, w: NamedWrite, readable: bool, effect: Effect)
    requires HasDefinitions(t, was, writes) && MayWrite(t, w.name) && readable && LeavesAsAsked(effect, w.definition)
    ensures var now := TransactionalWrite(was, w.name, readable, effect);
            && IsMade(was, Call(w.name, readable, effect)) && HasDefinitions(t, now, writes + [w])
            && now.poisoned == was.poisoned && now.unseen == was.unseen
            && Lookup(now.types, w.name) == effect.left
  {
    var now := TransactionalWrite(was, w.name, readable, effect);
    assert HasDefinition(t, was, writes, w.name);
    assert MayWrite(was, w.name) by {
      if LastDefinition(writes, w.name).None? && w.name in was.types {
        assert Lookup(was.types, w.name) == Lookup(t.types, w.name);
      }
    }
    ObligingWrite(was, Call(w.name, readable, effect), w.definition);
    assert (writes + [w])[..|writes|] == writes;
    forall n ensures HasDefinition(t, now, writes + [w], n) {
      assert HasDefinition(t, was, writes, n);
      if n != w.name {
        TransactionalWriteTouchesOne(was, w.name, readable, effect, n);
        assert Lookup(now.types, n) == Lookup(was.types, n);
        assert n in now.types ==> n in was.types && now.types[n] == was.types[n];
      }
    }
  }

  lemma ObligingCompanion(t: Txn, s: Stage, creation: Creation, script: Script, n: nat)
    requires Obliging(t, creation, script) && n < |AllWrites(creation)| && s.going
    requires HasDefinitions(t, s.t, AllWrites(creation)[..n])
    ensures var now := AfterCompanion(s, creation, script, n);
            && now.going && now.t.poisoned == s.t.poisoned && now.t.unseen == s.t.unseen
            && HasDefinitions(t, now.t, AllWrites(creation)[..n + 1])
  {
    var w := AllWrites(creation)[n];
    ObligingEffect(t, creation, script, n);
    OneMoreDefinition(t, s.t, AllWrites(creation)[..n], w, script.readable(n), script.answers(n)(Store(w.definition)));
    assert AllWrites(creation)[..n] + [w] == AllWrites(creation)[..n + 1];
  }

  lemma {:induction false} ObligingCompanions(t: Txn, creation: Creation, script: Script, n: nat)
    requires Obliging(t, creation, script) && n <= |creation.companions|
    ensures var s := AfterCompanions(t, creation, script, n);
            && s.going && s.t.poisoned == t.poisoned && s.t.unseen == t.unseen
            && HasDefinitions(t, s.t, AllWrites(creation)[..n])
  {
    if n > 0 {
      ObligingCompanions(t, creation, script, n - 1);
      ObligingCompanion(t, AfterCompanions(t, creation, script, n - 1), creation, script, n - 1);
    }
  }

  lemma ObligingEffect(t: Txn, creation: Creation, script: Script, k: nat)
    requires Obliging(t, creation, script) && k < |AllWrites(creation)|
    ensures var w := AllWrites(creation)[k];
            MayWrite(t, w.name) && LeavesAsAsked(script.answers(k)(Store(w.definition)), w.definition)
  {
    assert Obeys(script.answers(k));
  }

  // Every written name has the definition of its last write, others are unchanged.
  ghost predicate IsWritten(before: Types, now: Types, writes: seq<NamedWrite>) {
    forall n :: match LastDefinition(writes, n)
                case None => Lookup(now, n) == Lookup(before, n)
                case Some(d) => n in now && now[n].definition == d
  }

  lemma DefinitionsAreWritten(t: Txn, now: Txn, writes: seq<NamedWrite>)
    requires HasDefinitions(t, now, writes)
    ensures IsWritten(t.types, now.types, writes)
  {
    forall n ensures match LastDefinition(writes, n)
                     case None => Lookup(now.types, n) == Lookup(t.types, n)
                     case Some(d) => n in now.types && now.types[n].definition == d
    {
      assert HasDefinition(t, now, writes, n);
    }
  }

  lemma ObligingConclusion(t: Txn, creation: Creation, script: Script)
    requires Obliging(t, creation, script) && !t.poisoned
    ensures var c := Concluded(CreatedBy(t, creation, script));
            && c.tid.Some? && c.t == CreatedBy(t, creation, script).t
            && IsWritten(t.types, c.t.types, AllWrites(creation))
  {
    ObligingCreationSucceeds(t, creation, script);
    DefinitionsAreWritten(t, CreatedBy(t, creation, script).t, AllWrites(creation));
  }

  // The creation returns its identity, poisons nothing, and every written name has
  // the definition of its last write; other names are unchanged.
  lemma ObligingCreationSucceeds(t: Txn, creation: Creation, script: Script)
    requires Obliging(t, creation, script)
    ensures var c := CreatedBy(t, creation, script);
            && c.t.poisoned == t.poisoned && c.t.unseen == t.unseen
            && HasDefinitions(t, c.t, AllWrites(creation))
            && Lookup(c.t.types, creation.root.name) ==
               script.answers(|creation.companions|)(Store(creation.root.definition)).left
            && creation.root.name in c.t.types
            && c.tid == TidIn(if creation.updating then t.types else c.t.types, creation.root.name) && c.tid.Some?
  {
    var k := |creation.companions|;
    ObligingCompanions(t, creation, script, k);
    var s := AfterCompanions(t, creation, script, k);
    var w := creation.root;
    ObligingEffect(t, creation, script, k);
    OneMoreDefinition(t, s.t, AllWrites(creation)[..k], w, script.readable(k), script.answers(k)(Store(w.definition)));
    assert AllWrites(creation)[..k] + [w] == AllWrites(creation);
    assert HasDefinition(t, CreatedBy(t, creation, script).t, AllWrites(creation), w.name);
  }
}
