// Where a regeneration ends: with the new corpus if every statement succeeds, and
// with the old one if one statement fails and the cleanup succeeds.
module CorpusOutcomes {
  import opened Machine
  import opened CorpusSwap

  // A statement, or a part of one, is carried out without a failure.
  predicate Succeeds(e: Event) {
    e.Proceed? || e.Pick? || e.Write? || e.Next? || e.Delete?
  }

  predicate AllSucceed(events: seq<Event>) {
    forall k :: 0 <= k < |events| ==> Succeeds(events[k])
  }

  // Every event succeeds and the run is over.
  predicate Completes(s: System, events: seq<Event>) {
    AllSucceed(events) && Run(s, events).Some? && Run(s, events).value.frame.pc.Idle?
  }

  lemma CompletesNext(s: System, events: seq<Event>)
    requires Completes(s, events) && !s.frame.pc.Idle?
    ensures events != [] && Succeeds(events[0]) && Step(s, events[0]).Some?
    ensures Completes(Step(s, events[0]).value, events[1..])
    ensures Run(s, events) == Run(Step(s, events[0]).value, events[1..])
  {
  }

  lemma NothingAfterIdle(s: System, events: seq<Event>)
    requires s.frame.pc.Idle? && AllSucceed(events) && Run(s, events).Some?
    ensures events == []
  {
    forall e | Succeeds(e) ensures Step(s, e).None? {}
  }

  // ---- The cleanup ---------------------------------------------------------------------------

  // The stage root is gone, and the backup too if the cleanup is to drop it.
  ghost predicate IsCleaned(s: System, t: System) {
    && t.disk.dest == s.disk.dest && t.current == s.current && t.lock.None?
    && s.frame.stage.Some? && t.disk.stages == s.disk.stages - {s.frame.stage.value}
    && t.disk.backups == if DropsBackup(s.frame) then s.disk.backups - {s.frame.backup.value} else s.disk.backups
  }

  lemma {:induction false} BackupIsDropped(s: System, events: seq<Event>)
    requires s.frame.pc.CleanBackup? && Completes(s, events)
    ensures var t := Run(s, events).value;
            && t.disk.dest == s.disk.dest && t.disk.stages == s.disk.stages && t.current == s.current && t.lock.None?
            && t.disk.backups ==
               if DropsBackup(s.frame) then s.disk.backups - {s.frame.backup.value} else s.disk.backups
    decreases |events|
  {
    CompletesNext(s, events);
    var next := Step(s, events[0]).value;
    if next.frame.pc.Idle? {
      NothingAfterIdle(next, events[1..]);
    } else {
      BackupIsDropped(next, events[1..]);
      var b := s.frame.backup.value;
      assert next.disk.backups - {b} == s.disk.backups - {b};
    }
  }

  lemma {:induction false} CleanupEnds(s: System, events: seq<Event>)
    requires s.frame.pc.CleanStage? && Completes(s, events)
    ensures IsCleaned(s, Run(s, events).value)
    decreases |events|
  {
    CompletesNext(s, events);
    var next := Step(s, events[0]).value;
    if next.frame.pc.CleanStage? {
      CleanupEnds(next, events[1..]);
      var m := s.frame.stage.value;
      assert next.disk.stages - {m} == s.disk.stages - {m};
    } else {
      BackupIsDropped(next, events[1..]);
    }
  }

  // ---- A statement fails -----------------------------------------------------------------------

  // The corpus as it was before the swap began.
  function Original(s: System): Option<Corpus> {
    if s.current.Some? then Some(Complete(s.current.value)) else None
  }

  predicate IsUndone(pc: Pc) {
    pc.Fill? || pc.MakeBackup? || pc.NoteBackup? || pc.MoveOriginal? || pc.Install?
  }

  lemma OriginalMovesBack(s: System, events: seq<Event>) returns (t: System, rest: seq<Event>)
    requires Inv(s) && s.frame.pc.Install? && s.frame.moved && Completes(OnRaise(s), events)
    ensures t.frame.pc.CleanStage? && Completes(t, rest) && Run(t, rest) == Run(OnRaise(s), events)
    ensures t.disk == Disk(Original(s), map[s.frame.backup.value := None], s.disk.stages) && t.current == s.current
    ensures t.frame == s.frame.(pc := CleanStage, moved := false)
  {
    var s1 := OnRaise(s);
    CompletesNext(s1, events);
    var s2 := Step(s1, events[0]).value;
    assert s2.disk.backups == map[s.frame.backup.value := None];
    CompletesNext(s2, events[1..]);
    t, rest := Step(s2, events[1..][0]).value, events[1..][1..];
  }

  // An exception while the stage is filled, at the backup or at either rename, and a
  // cleanup that succeeds: the run ends with the corpus it found at the destination,
  // its stage root gone, and no backup; except that an exception between the making
  // of the backup root and its name being noted leaves the empty root there.
  lemma FailureIsUndone(s: System, events: seq<Event>)
    requires Inv(s) && IsUndone(s.frame.pc) && Completes(OnRaise(s), events)
    ensures var t := Run(OnRaise(s), events).value;
            && t.frame.pc.Idle? && t.lock.None? && t.current == s.current
            && t.disk.dest == Original(s)
            && s.frame.stage.Some? && t.disk.stages == s.disk.stages - {s.frame.stage.value}
            && t.disk.backups == if s.frame.pc.NoteBackup? then s.disk.backups else map[]
  {
    if s.frame.pc.Install? && s.frame.moved {
      var t, rest := OriginalMovesBack(s, events);
      CleanupEnds(t, rest);
    } else {
      CleanupEnds(OnRaise(s), events);
    }
  }

  // An exception after the new corpus was installed and before the flag is set: moving
  // the original back cannot succeed, and the backup is never dropped.
  lemma UnflaggedInstallRetainsBackup(s: System, events: seq<Event>)
    requires Inv(s) && s.frame.pc.MarkInstalled? && s.frame.moved
    requires Completes(OnRaise(OnRaise(s)), events)
    ensures OnRaise(s).frame.pc.RestoreOriginal? && OnProceed(OnRaise(s)).None?
    ensures var t := Run(OnRaise(OnRaise(s)), events).value;
            && t.frame.pc.Idle? && t.disk.dest == s.disk.dest && t.disk.dest.Some?
            && t.disk.backups == s.disk.backups != map[]
  {
    CleanupEnds(OnRaise(OnRaise(s)), events);
    assert s.frame.backup.value in s.disk.backups;
  }

  // ---- Every statement succeeds ----------------------------------------------------------------

  // What was written last.
  function LastWritten(written: Option<Corpus>, events: seq<Event>): Option<Corpus>
    decreases |events|
  {
    if events == [] then written
    else LastWritten(if events[0].Write? then Some(events[0].content) else written, events[1..])
  }

  // On the way from a disk to the same disk with `written` installed.
  ghost predicate OnTheWay(disk: Disk, written: Option<Corpus>, t: System) {
    var f := t.frame;
    var m := if f.pc.NoteStage? then f.pc.made else if f.stage.Some? then f.stage.value else 0;
    var staged := disk.stages[m := written];
    match f.pc
    case Build | MakeStage => t.disk == disk && written.None? && FlagsClear(f)
    case NoteStage(_) => m !in disk.stages && t.disk == disk.(stages := staged) && written.None? && FlagsClear(f)
    case Fill => m !in disk.stages && f.stage.Some? && t.disk == disk.(stages := staged) && FlagsClear(f)
    case MakeBackup => m !in disk.stages && f.stage.Some? && t.disk == disk.(stages := staged) && FlagsClear(f)
    case NoteBackup(b) =>
      && m !in disk.stages && f.stage.Some? && FlagsClear(f)
      && t.disk == disk.(stages := staged, backups := map[b := None])
    case MoveOriginal =>
      && m !in disk.stages && f.stage.Some? && f.backup.Some? && !f.moved && !f.installed
      && t.disk == disk.(stages := staged, backups := map[f.backup.value := None])
    case MarkMoved =>
      && m !in disk.stages && f.stage.Some? && f.backup.Some? && !f.installed
      && t.disk == Disk(None, map[f.backup.value := disk.dest], staged)
    case Install =>
      && m !in disk.stages && f.stage.Some? && !f.installed && f.moved == f.backup.Some?
      && t.disk.stages == staged
      && (if f.moved then t.disk.backups.Keys == {f.backup.value} else t.disk.backups == map[])
    case MarkInstalled =>
      && m !in disk.stages && f.stage.Some? && !f.installed && f.moved == f.backup.Some?
      && t.disk.stages == disk.stages[m := None] && IsInstalled(written, t)
      && (if f.moved then t.disk.backups.Keys == {f.backup.value} else t.disk.backups == map[])
    case CleanStage =>
      && m !in disk.stages && f.stage.Some? && f.installed && f.moved == f.backup.Some?
      && t.disk.stages == disk.stages[m := None] && IsInstalled(written, t)
      && (if f.moved then t.disk.backups.Keys == {f.backup.value} else t.disk.backups == map[])
    case _ => false
  }

  ghost predicate IsInstalled(written: Option<Corpus>, t: System) {
    t.current.Some? && written == Some(Complete(t.current.value)) && t.disk.dest == written
  }

  lemma BuildingGoesOn(disk: Disk, written: Option<Corpus>, s: System, e: Event)
    requires disk.backups == map[] && OnTheWay(disk, written, s) && Succeeds(e) && Step(s, e).Some?
    requires s.frame.pc.Build? || s.frame.pc.MakeStage? || s.frame.pc.NoteStage? || s.frame.pc.Fill?
    ensures OnTheWay(disk, if e.Write? then Some(e.content) else written, Step(s, e).value)
  {
    var next := Step(s, e).value;
    if s.frame.pc.Fill? && e.Write? {
      assert next.disk.stages == disk.stages[s.frame.stage.value := Some(e.content)];
    }
  }

  lemma SwappingGoesOn(disk: Disk, written: Option<Corpus>, s: System, e: Event)
    requires disk.backups == map[] && OnTheWay(disk, written, s) && Succeeds(e) && Step(s, e).Some?
    requires s.frame.pc.MakeBackup? || s.frame.pc.NoteBackup? || Swapping(s.frame.pc)
    ensures OnTheWay(disk, if e.Write? then Some(e.content) else written, Step(s, e).value)
  {
    var next := Step(s, e).value;
    if s.frame.pc.MakeBackup? {
      assert next.disk.backups == map[e.name := None];
    } else if s.frame.pc.MoveOriginal? {
      assert next.disk.backups == map[s.frame.backup.value := disk.dest];
    } else if s.frame.pc.Install? {
      assert next.disk.stages == disk.stages[s.frame.stage.value := None];
    }
  }

  // A regeneration in which every statement succeeds ends with what was written last
  // at the destination, no backup, and its stage root gone.
  lemma {:induction false} SuccessInstalls(disk: Disk, written: Option<Corpus>, s: System, events: seq<Event>)
    requires disk.backups == map[] && OnTheWay(disk, written, s) && Completes(s, events)
    ensures var t := Run(s, events).value;
            && t.frame.pc.Idle? && t.lock.None? && IsInstalled(LastWritten(written, events), t)
            && t.disk.backups == map[] && t.disk.stages == disk.stages
    decreases |events|
  {
    if s.frame.pc.CleanStage? {
      CleanupEnds(s, events);
      NothingIsWritten(s, written, events);
    } else {
      CompletesNext(s, events);
      var e := events[0];
      if s.frame.pc.Build? || s.frame.pc.MakeStage? || s.frame.pc.NoteStage? || s.frame.pc.Fill? {
        BuildingGoesOn(disk, written, s, e);
      } else {
        SwappingGoesOn(disk, written, s, e);
      }
      SuccessInstalls(disk, if e.Write? then Some(e.content) else written, Step(s, e).value, events[1..]);
    }
  }

  lemma {:induction false} NothingIsWritten(s: System, written: Option<Corpus>, events: seq<Event>)
    requires (s.frame.pc.CleanStage? || s.frame.pc.CleanBackup? || s.frame.pc.Idle?) && AllSucceed(events)
    requires Run(s, events).Some?
    ensures LastWritten(written, events) == written
    decreases |events|
  {
    if events != [] { NothingIsWritten(Step(s, events[0]).value, written, events[1..]); }
  }

  lemma SuccessfulRunInstalls(s: System, events: seq<Event>)
    requires Inv(s) && s.frame.pc.Build? && Completes(s, events)
    ensures var t := Run(s, events).value;
            && t.frame.pc.Idle? && t.lock.None? && IsInstalled(LastWritten(None, events), t)
            && t.disk.backups == map[] && t.disk.stages == map[]
  {
    SuccessInstalls(s.disk, None, s, events);
  }

  // The build only begins once recovery has left nothing behind: no backup, no stage
  // root, and at the destination the last installed corpus, if there is one.
  lemma BuildStartsClean(s: System, events: seq<Event>)
    requires CleanStart(s) && Undisturbed(s, events) && Run(s, events).Some?
    requires Run(s, events).value.frame.pc.Build?
    ensures var t := Run(s, events).value;
            t.disk.backups == map[] && t.disk.stages == map[] && t.disk.dest == Original(t)
  {
    RunKeepsInv(s, events);
  }

  // ---- Such runs exist ---------------------------------------------------------------------------

  lemma {:induction false} FreshName(used: set<nat>) returns (name: nat)
    ensures name !in used && forall n :: n in used ==> n < name
  {
    if used == {} {
      name := 0;
    } else {
      var n :| n in used;
      var below := FreshName(used - {n});
      name := if n < below then below else n + 1;
      forall x | x in used ensures x < name { assert x != n ==> x in used - {n}; }
    }
  }

  // One more statement in front of a completion.
  lemma CompletesFirst(s: System, e: Event, events: seq<Event>)
    requires Succeeds(e) && Step(s, e).Some? && Completes(Step(s, e).value, events)
    ensures Completes(s, [e] + events) && Run(s, [e] + events) == Run(Step(s, e).value, events)
  {
    assert ([e] + events)[1..] == events;
  }

  lemma CleanupCanEnd(s: System) returns (events: seq<Event>)
    requires s.frame.pc.CleanStage? && s.frame.stage.Some? && s.frame.stage.value in s.disk.stages
    requires DropsBackup(s.frame) ==> s.frame.backup.value in s.disk.backups
    ensures Completes(s, events)
  {
    var s1 := Step(s, Delete(true)).value;
    var s2 := Step(s1, Proceed).value;
    if DropsBackup(s.frame) {
      var s3 := Step(s2, Delete(true)).value;
      assert Completes(Step(s3, Proceed).value, []);
      CompletesFirst(s3, Proceed, []);
      CompletesFirst(s2, Delete(true), [Proceed] + []);
      events := [Delete(true)] + ([Proceed] + []);
    } else {
      assert Completes(Step(s2, Proceed).value, []);
      CompletesFirst(s2, Proceed, []);
      events := [Proceed] + [];
    }
    CompletesFirst(s1, Proceed, events);
    CompletesFirst(s, Delete(true), [Proceed] + events);
    events := [Delete(true)] + ([Proceed] + events);
  }

  // A failure can be undone: the cleanup has a run that succeeds.
  lemma FailureCanBeUndone(s: System) returns (events: seq<Event>)
    requires Inv(s) && IsUndone(s.frame.pc)
    ensures Completes(OnRaise(s), events)
  {
    var s1 := OnRaise(s);
    if s.frame.pc.Install? && s.frame.moved {
      var s2 := Step(s1, Proceed).value;
      var s3 := Step(s2, Proceed).value;
      events := CleanupCanEnd(s3);
      CompletesFirst(s2, Proceed, events);
      CompletesFirst(s1, Proceed, [Proceed] + events);
      events := [Proceed] + ([Proceed] + events);
    } else {
      events := CleanupCanEnd(s1);
    }
  }

  lemma InstallCanEnd(s: System) returns (events: seq<Event>)
    requires Inv(s) && s.frame.pc.Install?
    ensures Completes(s, events)
  {
    var s1 := Step(s, Proceed).value;
    var s2 := Step(s1, Proceed).value;
    ProceedKeepsInv(s);
    ProceedKeepsInv(s1);
    assert DropsBackup(s2.frame) ==> s2.frame.backup.value in s2.disk.backups;
    events := CleanupCanEnd(s2);
    CompletesFirst(s1, Proceed, events);
    CompletesFirst(s, Proceed, [Proceed] + events);
    events := [Proceed] + ([Proceed] + events);
  }

  lemma SwapCanEnd(s: System) returns (events: seq<Event>)
    requires Inv(s) && s.frame.pc.MakeBackup?
    ensures Completes(s, events)
  {
    var b := FreshName(s.disk.stages.Keys + s.disk.backups.Keys);
    var s1 := Step(s, Pick(b)).value;
    var s2 := Step(s1, Proceed).value;
    StepKeepsInv(s, Pick(b));
    ProceedKeepsInv(s1);
    var s3 := Step(s2, Proceed).value;
    var s4 := Step(s3, Proceed).value;
    ProceedKeepsInv(s2);
    ProceedKeepsInv(s3);
    events := InstallCanEnd(s4);
    CompletesFirst(s3, Proceed, events);
    CompletesFirst(s2, Proceed, [Proceed] + events);
    CompletesFirst(s1, Proceed, [Proceed] + ([Proceed] + events));
    CompletesFirst(s, Pick(b), [Proceed] + ([Proceed] + ([Proceed] + events)));
    events := [Pick(b)] + ([Proceed] + ([Proceed] + ([Proceed] + events)));
  }

  // The stage is filled with the corpus, and everything after it succeeds.
  lemma FillingCanEnd(s: System, next: nat) returns (events: seq<Event>)
    requires Inv(s) && s.frame.pc.Fill?
    ensures Completes(s, events)
    ensures Run(s, events).value.current == Some(next)
  {
    var s1 := Step(s, Write(Complete(next))).value;
    var s2 := Step(s1, Proceed).value;
    StepKeepsInv(s, Write(Complete(next)));
    ProceedKeepsInv(s1);
    if s2.frame.pc.MakeBackup? { events := SwapCanEnd(s2); } else { events := InstallCanEnd(s2); }
    StagedIsInstalled(s2, events);
    CompletesFirst(s1, Proceed, events);
    CompletesFirst(s, Write(Complete(next)), [Proceed] + events);
    events := [Write(Complete(next))] + ([Proceed] + events);
  }

  // From the first statement of the swap on, the staged corpus is what is installed.
  lemma {:induction false} StagedIsInstalled(s: System, events: seq<Event>)
    requires Inv(s) && Completes(s, events)
    requires s.frame.pc.MakeBackup? || s.frame.pc.NoteBackup? || s.frame.pc.MoveOriginal? || s.frame.pc.MarkMoved? ||
        s.frame.pc.Install?
    ensures StageReady(s)
    ensures Run(s, events).value.current == Some(s.disk.stages[s.frame.stage.value].value.version)
    decreases |events|
  {
    CompletesNext(s, events);
    var next := Step(s, events[0]).value;
    StepKeepsInv(s, events[0]);
    if s.frame.pc.Install? { CurrentStays(next, events[1..]); } else { StagedIsInstalled(next, events[1..]); }
  }

  lemma {:induction false} CurrentStays(s: System, events: seq<Event>)
    requires s.frame.pc.MarkInstalled? || s.frame.pc.CleanStage? || s.frame.pc.CleanBackup? || s.frame.pc.Idle?
    requires AllSucceed(events) && Run(s, events).Some?
    ensures Run(s, events).value.current == s.current
    decreases |events|
  {
    if events != [] { CurrentStays(Step(s, events[0]).value, events[1..]); }
  }

  // From the build on, any version can be installed.
  lemma SuccessIsPossible(s: System, next: nat) returns (events: seq<Event>)
    requires Inv(s) && s.frame.pc.Build?
    ensures Completes(s, events) && Run(s, events).value.current == Some(next)
  {
    var m := FreshName(s.disk.stages.Keys + s.disk.backups.Keys);
    var s1 := Step(s, Proceed).value;
    var s2 := Step(s1, Pick(m)).value;
    var s3 := Step(s2, Proceed).value;
    ProceedKeepsInv(s);
    StepKeepsInv(s1, Pick(m));
    ProceedKeepsInv(s2);
    events := FillingCanEnd(s3, next);
    CompletesFirst(s2, Proceed, events);
    CompletesFirst(s1, Pick(m), [Proceed] + events);
    CompletesFirst(s, Proceed, [Pick(m)] + ([Proceed] + events));
    events := [Proceed] + ([Pick(m)] + ([Proceed] + events));
  }
}
