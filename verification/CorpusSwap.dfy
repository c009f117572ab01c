// Regeneration of the blessed contract corpus: stage, back up, swap, clean up,
// and the recovery that starts every run. One step is one statement that
// touches the disk or sets a flag; a crash may come between any two.
module CorpusSwap {
  import opened Machine

  // ---- State -------------------------------------------------------------------

  // A corpus directory: accepted by the loader, or with files missing.
  datatype Corpus = Complete(version: nat) | Damaged

  // The destination, and the contents of the backup and stage roots beside it.
  datatype Disk = Disk(
    dest: Option<Corpus>,
    backups: map<nat, Option<Corpus>>,
    stages: map<nat, Option<Corpus>>)

  // The statement the recorder is about to execute.
  datatype Pc =
    | Idle
    | Scan
    | RestoreBackup(root: nat)
    | DropBackup(root: nat)
    | CheckStages
    | DropStages
    | DropStage(root: nat)
    | Build
    | MakeStage
    | NoteStage(made: nat)
    | Fill
    | MakeBackup
    | NoteBackup(made: nat)
    | MoveOriginal
    | MarkMoved
    | Install
    | MarkInstalled
    | RestoreOriginal
    | MarkRestored
    | CleanStage
    | CleanBackup

  // Local variables of the recorder.
  datatype Frame = Frame(pc: Pc, stage: Option<nat>, backup: Option<nat>, moved: bool, installed: bool)

  const IDLE := Frame(Idle, None, None, false, false)

  // current is the version most recently installed at the destination.
  datatype System = System(disk: Disk, lock: Option<nat>, frame: Frame, current: Option<nat>)

  datatype Event =
    | Acquire(pid: nat)        // a recorder tries to start
    | Proceed                  // the statement succeeds
    | Pick(name: nat)          // mkdtemp succeeds with an unused name
    | Write(content: Corpus)   // copying and writing below the stage root
    | Next(root: nat)          // the sweep reaches a leftover stage root
    | Delete(gone: bool)       // rmtree removes a file, or the corpus directory
    | Skip                     // rmtree(ignore_errors) gives up
    | Raise                    // the statement raises, or an exception arrives before it
    | Crash                    // the process dies; the operating system drops its lock

  datatype Verdict = MultipleBackups | BothRetained | MissingCorpus | Restorable(root: nat) | NoBackup

  // ---- The recorder ----------------------------------------------------------------

  function ScanVerdict(d: Disk): Verdict {
    if |d.backups| > 1 then MultipleBackups
    else if d.backups == map[] then NoBackup
    else
      var root := OnlyKey(d.backups);
      if d.dest.Some? then BothRetained
      else if d.backups[root].None? then MissingCorpus
      else Restorable(root)
  }

  function OnlyKey(m: map<nat, Option<Corpus>>): (k: nat)
    requires m != map[] && |m| <= 1
    ensures m.Keys == {k}
  {
    KeysOfOne(m);
    var k :| k in m.Keys && m.Keys == {k};
    k
  }

  lemma KeysOfOne(m: map<nat, Option<Corpus>>)
    requires m != map[] && |m| <= 1
    ensures exists k :: k in m.Keys && m.Keys == {k}
  {
    assert m.Keys != {};
    var k :| k in m.Keys;
    SubsetSize({k}, m.Keys);
    assert |m.Keys - {k}| == 0;
    assert m.Keys == {k};
  }

  function Goto(s: System, pc: Pc): System {
    s.(frame := s.frame.(pc := pc))
  }

  // The run ends: the context manager releases the lock.
  function Finish(s: System): System {
    s.(lock := None, frame := IDLE)
  }

  function PutDest(s: System, c: Option<Corpus>): System {
    s.(disk := s.disk.(dest := c))
  }

  function PutBackup(s: System, root: nat, c: Option<Corpus>): System {
    s.(disk := s.disk.(backups := s.disk.backups[root := c]))
  }

  function PutStage(s: System, root: nat, c: Option<Corpus>): System {
    s.(disk := s.disk.(stages := s.disk.stages[root := c]))
  }

  function DropBackupRoot(s: System, root: nat): System {
    s.(disk := s.disk.(backups := s.disk.backups - {root}))
  }

  function DropStageRoot(s: System, root: nat): System {
    s.(disk := s.disk.(stages := s.disk.stages - {root}))
  }

  // One deletion inside a directory tree.
  function Erode(c: Option<Corpus>, gone: bool): Option<Corpus> {
    if c.None? || gone then None else Some(Damaged)
  }

  // What an exception raised at the current statement runs next.
  function OnRaise(s: System): System {
    match s.frame.pc
    case Fill | MakeBackup | NoteBackup(_) | MoveOriginal | MarkMoved | RestoreOriginal | MarkRestored =>
      Goto(s, CleanStage)
    case Install | MarkInstalled =>
      if s.frame.moved && s.frame.backup.Some? then Goto(s, RestoreOriginal) else Goto(s, CleanStage)
    case _ =>
      Finish(s)
  }

  // Whether the final clause removes the backup.
  predicate DropsBackup(f: Frame) {
    f.backup.Some? && (f.installed || !f.moved)
  }

  function OnProceed(s: System): Option<System> {
    match s.frame.pc
    case Idle => None
    case Scan =>
      (match ScanVerdict(s.disk)
       case Restorable(root) => Some(Goto(s, RestoreBackup(root)))
       case NoBackup => Some(Goto(s, CheckStages))
       case _ => Some(Finish(s)))
    case RestoreBackup(root) =>
      if s.disk.dest.None? && root in s.disk.backups && s.disk.backups[root].Some?
      then Some(Goto(PutBackup(PutDest(s, s.disk.backups[root]), root, None), DropBackup(root))) else None
    case DropBackup(root) =>
      if root in s.disk.backups && s.disk.backups[root].None?
      then Some(Goto(DropBackupRoot(s, root), CheckStages)) else None
    case CheckStages =>
      if s.disk.stages == map[] then Some(Goto(s, Build))
      else if s.disk.dest.None? then Some(Finish(s))
      else Some(Goto(s, DropStages))
    case DropStages =>
      if s.disk.stages == map[] then Some(Goto(s, Build)) else None
    case DropStage(root) =>
      if root in s.disk.stages && s.disk.stages[root].None?
      then Some(Goto(DropStageRoot(s, root), DropStages)) else None
    case Build => Some(Goto(s, MakeStage))
    case MakeStage => None
    case NoteStage(name) => Some(s.(frame := s.frame.(pc := Fill, stage := Some(name))))
    case Fill =>
      // The loader accepts complete corpora only.
      if s.frame.stage.Some? && s.frame.stage.value in s.disk.stages
         && s.disk.stages[s.frame.stage.value].Some? && s.disk.stages[s.frame.stage.value].value.Complete?
      then Some(Goto(s, if s.disk.dest.Some? then MakeBackup else Install)) else None
    case MakeBackup => None
    case NoteBackup(name) => Some(s.(frame := s.frame.(pc := MoveOriginal, backup := Some(name))))
    case MoveOriginal =>
      if s.frame.backup.Some? && s.disk.dest.Some?
      then Some(Goto(PutDest(PutBackup(s, s.frame.backup.value, s.disk.dest), None), MarkMoved)) else None
    case MarkMoved => Some(s.(frame := s.frame.(pc := Install, moved := true)))
    case Install =>
      // A directory cannot be renamed onto a non-empty one.
      if s.disk.dest.None? && s.frame.stage.Some? && s.frame.stage.value in s.disk.stages
         && s.disk.stages[s.frame.stage.value].Some? && s.disk.stages[s.frame.stage.value].value.Complete?
      then
        var c := s.disk.stages[s.frame.stage.value].value;
        Some(Goto(PutStage(PutDest(s, Some(c)), s.frame.stage.value, None).(current := Some(c.version)), MarkInstalled))
      else None
    case MarkInstalled => Some(s.(frame := s.frame.(pc := CleanStage, installed := true)))
    case RestoreOriginal =>
      if s.disk.dest.None? && s.frame.backup.Some? && s.frame.backup.value in s.disk.backups
      then
        var b := s.frame.backup.value;
        Some(Goto(PutBackup(PutDest(s, s.disk.backups[b]), b, None), MarkRestored))
      else None
    case MarkRestored => Some(s.(frame := s.frame.(pc := CleanStage, moved := false)))
    case CleanStage =>
      if s.frame.stage.Some? && s.frame.stage.value in s.disk.stages && s.disk.stages[s.frame.stage.value].None?
      then Some(Goto(DropStageRoot(s, s.frame.stage.value), CleanBackup)) else None
    case CleanBackup =>
      if !DropsBackup(s.frame) then Some(Finish(s))
      else if s.frame.backup.value in s.disk.backups && s.disk.backups[s.frame.backup.value].None?
      then Some(Finish(DropBackupRoot(s, s.frame.backup.value))) else None
  }

  function OnDelete(s: System, gone: bool): Option<System> {
    match s.frame.pc
    case DropBackup(root) =>
      if root in s.disk.backups then Some(PutBackup(s, root, Erode(s.disk.backups[root], gone))) else None
    case DropStage(root) =>
      if root in s.disk.stages then Some(PutStage(s, root, Erode(s.disk.stages[root], gone))) else None
    case CleanStage =>
      if s.frame.stage.Some? && s.frame.stage.value in s.disk.stages
      then Some(PutStage(s, s.frame.stage.value, Erode(s.disk.stages[s.frame.stage.value], gone))) else None
    case CleanBackup =>
      if DropsBackup(s.frame) && s.frame.backup.value in s.disk.backups
      then Some(PutBackup(s, s.frame.backup.value, Erode(s.disk.backups[s.frame.backup.value], gone))) else None
    case _ => None
  }

  // One event; None when it cannot happen in this state.
  function Step(s: System, e: Event): Option<System> {
    match e
    case Acquire(pid) =>
      // A held lock turns every other recorder away.
      if s.lock.Some? then Some(s) else Some(s.(lock := Some(pid), frame := IDLE.(pc := Scan)))
    case Crash => Some(Finish(s))
    case Raise => if s.frame.pc.Idle? then None else Some(OnRaise(s))
    case Proceed => OnProceed(s)
    case Pick(name) =>
      if name in s.disk.stages || name in s.disk.backups then None
      else if s.frame.pc.MakeStage? then Some(Goto(PutStage(s, name, None), NoteStage(name)))
      else if s.frame.pc.MakeBackup? then Some(Goto(PutBackup(s, name, None), NoteBackup(name)))
      else None
    case Next(root) =>
      if s.frame.pc.DropStages? && root in s.disk.stages then Some(Goto(s, DropStage(root))) else None
    case Write(content) =>
      if s.frame.pc.Fill? && s.frame.stage.Some? then Some(PutStage(s, s.frame.stage.value, Some(content))) else None
    case Delete(gone) => OnDelete(s, gone)
    case Skip =>
      if s.frame.pc.CleanStage? then Some(Goto(s, CleanBackup))
      else if s.frame.pc.CleanBackup? then Some(Finish(s))
      else None
  }

  // A schedule is a finite sequence of events; events that cannot happen end it.
  function Run(s: System, events: seq<Event>): Option<System>
    decreases |events|
  {
    if events == [] then Some(s)
    else
      var next := Step(s, events[0]);
      if next.None? then None else Run(next.value, events[1..])
  }

  // An exception between the rename of the corpus into the backup and the flag
  // that records it. A rename that fails leaves the recorder one statement
  // earlier, so only an asynchronous exception lands here.
  ghost predicate InterruptsMove(s: System, e: Event) {
    e.Raise? && s.frame.pc.MarkMoved?
  }

  ghost predicate Undisturbed(s: System, events: seq<Event>)
    decreases |events|
  {
    events == [] ||
    (!InterruptsMove(s, events[0]) &&
     (Step(s, events[0]).Some? ==> Undisturbed(Step(s, events[0]).value, events[1..])))
  }

  // ---- What must survive -----------------------------------------------------------

  ghost predicate HoldsCurrent(c: Option<Corpus>, current: Option<nat>) {
    current.Some? && c == Some(Complete(current.value))
  }

  // The last installed corpus is intact at the destination or in a backup.
  ghost predicate Survives(s: System) {
    s.current.Some? ==>
      || HoldsCurrent(s.disk.dest, s.current)
      || exists root :: root in s.disk.backups && HoldsCurrent(s.disk.backups[root], s.current)
  }

  // No recorder running, no interrupted swap, and nothing but a complete corpus
  // at the destination. Stage roots may be left over.
  ghost predicate CleanStart(s: System) {
    && s.lock.None? && s.frame == IDLE
    && s.disk.backups == map[]
    && (s.current.None? ==> s.disk.dest.None?)
    && (s.current.Some? ==> HoldsCurrent(s.disk.dest, s.current))
  }

  // ---- The invariant --------------------------------------------------------------

  ghost predicate OnlyBackup(s: System, root: nat, content: Option<Corpus>) {
    s.disk.backups == map[root := content]
  }

  ghost predicate StageReady(s: System) {
    && s.frame.stage.Some? && s.frame.stage.value in s.disk.stages
    && s.disk.stages[s.frame.stage.value].Some?
    && s.disk.stages[s.frame.stage.value].value.Complete?
  }

  ghost predicate FlagsClear(f: Frame) {
    f.backup.None? && !f.moved && !f.installed
  }

  // Between runs and before a run looks: whatever a crash can leave behind.
  ghost predicate DiskInv(s: System) {
    && (s.disk.dest.Some? ==> HoldsCurrent(s.disk.dest, s.current))
    && (s.current.None? ==> s.disk.backups == map[])
    && (forall a, b :: a in s.disk.backups && b in s.disk.backups ==> a == b)
    && (s.disk.dest.None? && s.current.Some? ==>
          && s.disk.backups != map[]
          && forall root :: root in s.disk.backups ==> HoldsCurrent(s.disk.backups[root], s.current))
  }

  ghost predicate PcInv(s: System) {
    var f := s.frame;
    match f.pc
    case Idle => f == IDLE
    case Scan => FlagsClear(f)
    case RestoreBackup(root) =>
      FlagsClear(f) && s.disk.dest.None? && s.current.Some? && OnlyBackup(s, root, Some(Complete(s.current.value)))
    case DropBackup(root) =>
      FlagsClear(f) && s.disk.dest.Some? && s.disk.backups.Keys == {root}
    case CheckStages | DropStages | DropStage(_) =>
      FlagsClear(f) && s.disk.backups == map[]
    case Build | MakeStage =>
      FlagsClear(f) && s.disk.backups == map[] && s.disk.stages == map[]
    case NoteStage(root) =>
      FlagsClear(f) && s.disk.backups == map[] && root in s.disk.stages
    case Fill =>
      FlagsClear(f) && s.disk.backups == map[] && f.stage.Some? && f.stage.value in s.disk.stages
    case MakeBackup =>
      FlagsClear(f) && s.disk.backups == map[] && s.disk.dest.Some? && StageReady(s)
    case NoteBackup(root) =>
      FlagsClear(f) && OnlyBackup(s, root, None) && s.disk.dest.Some? && StageReady(s)
    case MoveOriginal =>
      f.backup.Some? && !f.moved && !f.installed && OnlyBackup(s, f.backup.value, None) && s.disk.dest.Some?
      && StageReady(s)
    case MarkMoved =>
      f.backup.Some? && !f.moved && !f.installed && s.disk.dest.None? && s.current.Some?
      && OnlyBackup(s, f.backup.value, Some(Complete(s.current.value))) && StageReady(s)
    case Install =>
      && !f.installed && s.disk.dest.None? && StageReady(s) && f.moved == f.backup.Some? == s.current.Some?
      && (f.moved ==> OnlyBackup(s, f.backup.value, Some(Complete(s.current.value))))
    case MarkInstalled =>
      !f.installed && s.disk.dest.Some? && f.moved == f.backup.Some? && (f.moved ==>
          s.disk.backups.Keys == {f.backup.value})
    case RestoreOriginal =>
      && !f.installed && f.moved && f.backup.Some?
      && s.disk.backups.Keys == {f.backup.value}
    case MarkRestored =>
      && !f.installed && f.moved && f.backup.Some? && s.disk.dest.Some?
      && s.disk.backups.Keys == {f.backup.value}
    case CleanStage | CleanBackup =>
      DropsBackup(f) ==> s.disk.dest.Some? && s.disk.backups.Keys <= {f.backup.value}
  }

  ghost predicate Inv(s: System) {
    && (s.lock.None? <==> s.frame.pc.Idle?)
    && DiskInv(s)
    && PcInv(s)
  }

  lemma InvSurvives(s: System)
    requires Inv(s)
    ensures Survives(s)
  {
    if s.disk.dest.None? && s.current.Some? {
      assert s.disk.backups.Keys != {};
      var root :| root in s.disk.backups.Keys;
    }
  }

  lemma ScanIsDecisive(s: System)
    requires Inv(s)
    ensures !ScanVerdict(s.disk).MultipleBackups? && !ScanVerdict(s.disk).MissingCorpus?
    ensures ScanVerdict(s.disk).Restorable? ==>
              s.disk.dest.None? && s.current.Some?
              && OnlyBackup(s, ScanVerdict(s.disk).root, Some(Complete(s.current.value)))
  {
    AtMostOneKey(s.disk.backups);
    if s.disk.backups != map[] {
      var root := OnlyKey(s.disk.backups);
      assert s.disk.backups == map[root := s.disk.backups[root]];
    }
  }

  lemma AtMostOneKey(m: map<nat, Option<Corpus>>)
    requires forall a, b :: a in m && b in m ==> a == b
    ensures |m| <= 1
  {
    if m != map[] {
      var k :| k in m.Keys;
      assert m.Keys == {k};
    }
  }

  predicate Recovering(pc: Pc) {
    pc.Scan? || pc.RestoreBackup? || pc.DropBackup? || pc.CheckStages? || pc.DropStages? || pc.DropStage?
  }

  predicate Swapping(pc: Pc) {
    pc.MoveOriginal? || pc.MarkMoved? || pc.Install? || pc.MarkInstalled? || pc.RestoreOriginal? || pc.MarkRestored?
  }

  lemma RecoveringKeepsInv(s: System)
    requires Inv(s) && Recovering(s.frame.pc) && OnProceed(s).Some?
    ensures Inv(OnProceed(s).value)
  {
    if s.frame.pc.Scan? { ScanIsDecisive(s); }
  }

  lemma SwappingKeepsInv(s: System)
    requires Inv(s) && Swapping(s.frame.pc) && OnProceed(s).Some?
    ensures Inv(OnProceed(s).value)
  {
    if s.frame.pc.MoveOriginal? {
      assert s.frame.backup.value in OnProceed(s).value.disk.backups;
    }
  }

  lemma ProceedKeepsInv(s: System)
    requires Inv(s) && OnProceed(s).Some?
    ensures Inv(OnProceed(s).value)
  {
    if Recovering(s.frame.pc) {
      RecoveringKeepsInv(s);
    } else if Swapping(s.frame.pc) {
      SwappingKeepsInv(s);
    }
  }

  lemma RaiseKeepsInv(s: System)
    requires Inv(s) && !s.frame.pc.Idle? && !s.frame.pc.MarkMoved?
    ensures Inv(OnRaise(s))
  {
  }

  lemma DeleteKeepsInv(s: System, gone: bool)
    requires Inv(s) && OnDelete(s, gone).Some?
    ensures Inv(OnDelete(s, gone).value)
  {
  }

  lemma StepKeepsInv(s: System, e: Event)
    requires Inv(s) && Step(s, e).Some? && !InterruptsMove(s, e)
    ensures Inv(Step(s, e).value)
  {
    match e
    case Proceed => ProceedKeepsInv(s);
    case Delete(gone) => DeleteKeepsInv(s, gone);
    case Raise => RaiseKeepsInv(s);
    case _ =>
  }

  // ---- Every run ---------------------------------------------------------------------

  lemma {:induction false} RunKeepsInv(s: System, events: seq<Event>)
    requires Inv(s) && Undisturbed(s, events) && Run(s, events).Some?
    ensures Inv(Run(s, events).value)
    decreases |events|
  {
    if events != [] {
      StepKeepsInv(s, events[0]);
      RunKeepsInv(Step(s, events[0]).value, events[1..]);
    }
  }

  // Runs, failures, crashes and retries in any order: the last installed corpus
  // is always intact, the destination never holds a damaged one, and recovery
  // can neither meet several backups nor a backup without its corpus.
  lemma CorpusSurvivesEveryRun(s: System, events: seq<Event>)
    requires CleanStart(s) && Undisturbed(s, events) && Run(s, events).Some?
    ensures var t := Run(s, events).value;
            && Survives(t)
            && (t.disk.dest.Some? ==> HoldsCurrent(t.disk.dest, t.current))
            && !ScanVerdict(t.disk).MultipleBackups? && !ScanVerdict(t.disk).MissingCorpus?
  {
    RunKeepsInv(s, events);
    InvSurvives(Run(s, events).value);
    ScanIsDecisive(Run(s, events).value);
  }

  // What recovery restores is the last installed corpus, never a remnant of a
  // backup whose deletion was interrupted.
  lemma OnlyIntactBackupsAreRestored(s: System, events: seq<Event>)
    requires CleanStart(s) && Undisturbed(s, events) && Run(s, events).Some?
    requires ScanVerdict(Run(s, events).value.disk).Restorable?
    ensures var t := Run(s, events).value;
            && t.disk.dest.None?
            && HoldsCurrent(t.disk.backups[ScanVerdict(t.disk).root], t.current)
  {
    RunKeepsInv(s, events);
    ScanIsDecisive(Run(s, events).value);
  }

  // The remaining refusal, staged files without a destination, only happens
  // before any corpus was ever installed.
  lemma StageWithoutDestinationMeansNoCorpusYet(s: System, events: seq<Event>)
    requires CleanStart(s) && Undisturbed(s, events) && Run(s, events).Some?
    requires Run(s, events).value.frame.pc.CheckStages? && Run(s, events).value.disk.dest.None?
    ensures Run(s, events).value.current.None?
  {
    RunKeepsInv(s, events);
  }

  // ---- Recovery terminates with the corpus back -----------------------------------------

  lemma {:induction false} RunConcat(s: System, a: seq<Event>, b: seq<Event>)
    requires Run(s, a).Some?
    ensures Run(s, a + b) == Run(Run(s, a).value, b)
    decreases |a|
  {
    if a == [] {
      assert a + b == b;
    } else {
      assert (a + b)[0] == a[0] && (a + b)[1..] == a[1..] + b;
      RunConcat(Step(s, a[0]).value, a[1..], b);
    }
  }

  lemma RunOne(s: System, events: seq<Event>)
    requires events != [] && Step(s, events[0]).Some?
    ensures Run(s, events) == Run(Step(s, events[0]).value, events[1..])
  {
  }

  // From a state a crash left between the two renames, one undisturbed run of
  // the recovery brings the corpus back and removes the backup.
  lemma {:induction false} InterruptedSwapIsRecovered(s: System, pid: nat)
    requires Inv(s) && s.frame.pc.Idle? && s.disk.dest.None? && s.current.Some?
    ensures var t := Run(s, [Acquire(pid), Proceed, Proceed, Proceed]);
            && t.Some?
            && HoldsCurrent(t.value.disk.dest, s.current)
            && t.value.disk.backups == map[] && t.value.current == s.current
            && t.value.frame.pc.CheckStages?
  {
    var events := [Acquire(pid), Proceed, Proceed, Proceed];
    var s1 := Step(s, Acquire(pid)).value;
    ScanIsDecisive(s1);
    assert s.disk.backups.Keys != {};
    var s2 := Step(s1, Proceed).value;
    var s3 := Step(s2, Proceed).value;
    var s4 := Step(s3, Proceed).value;
    assert s4.disk.backups == map[];
    RunOne(s, events);
    RunOne(s1, events[1..]);
    RunOne(s2, events[1..][1..]);
    RunOne(s3, events[1..][1..][1..]);
  }

  // ---- The one window that loses the corpus ------------------------------------------------

  ghost predicate CanLose(s: System) {
    exists events :: Undisturbed(s, events) && Run(s, events).Some? && !Survives(Run(s, events).value)
  }

  // An exception can cost the corpus exactly when it arrives after the rename
  // into the backup and before the flag is set: the final clause then takes the
  // only copy for an unused backup and deletes it.
  lemma {:induction false} ExceptionLosesCorpusExactlyThere(s: System)
    requires Inv(s) && !s.frame.pc.Idle?
    ensures CanLose(OnRaise(s)) <==> s.frame.pc.MarkMoved?
  {
    var t := OnRaise(s);
    if s.frame.pc.MarkMoved? {
      var events := [Skip, Delete(true)];
      var t1 := Step(t, Skip).value;
      var t2 := Step(t1, Delete(true)).value;
      assert events[1..] == [Delete(true)];
      assert Undisturbed(t1, [Delete(true)]);
      assert Run(t1, [Delete(true)]) == Some(t2);
      assert Run(t, events) == Some(t2);
      assert !Survives(t2);
      assert Undisturbed(t, events);
    } else {
      RaiseKeepsInv(s);
      forall events | Undisturbed(t, events) && Run(t, events).Some?
        ensures Survives(Run(t, events).value)
      {
        RunKeepsInv(t, events);
        InvSurvives(Run(t, events).value);
      }
    }
  }

  // The window is real: from a clean start, a regeneration in which every
  // statement succeeds passes through it.
  function Start(version: nat): System {
    System(Disk(Some(Complete(version)), map[], map[]), None, IDLE, Some(version))
  }

  function Staged(version: nat, next: nat): System {
    System(Disk(Some(Complete(version)), map[], map[1 := Some(Complete(next))]), Some(0),
           Frame(MakeBackup, Some(1), None, false, false), Some(version))
  }

  function Built(version: nat): System {
    Start(version).(lock := Some(0), frame := IDLE.(pc := MakeStage))
  }

  lemma {:induction false} BuildingRuns(version: nat)
    ensures Run(Start(version), [Acquire(0), Proceed, Proceed, Proceed]) == Some(Built(version))
  {
    var events := [Acquire(0), Proceed, Proceed, Proceed];
    var s := Start(version);
    for k := 0 to 4
      invariant Run(Start(version), events) == Run(s, events[k..])
      invariant s == if k == 0 then Start(version)
                     else Built(version).(frame := IDLE.(pc := [Scan, CheckStages, Build, MakeStage][k - 1]))
    {
      RunOne(s, events[k..]);
      assert events[k..][1..] == events[k + 1..];
      s := Step(s, events[k]).value;
    }
  }

  lemma {:induction false} StagingRuns(version: nat, next: nat)
    ensures Run(Built(version), [Pick(1), Proceed, Write(Complete(next)), Proceed]) == Some(Staged(version, next))
  {
    var events := [Pick(1), Proceed, Write(Complete(next)), Proceed];
    var s := Built(version);
    RunOne(s, events);
    var s1 := Step(s, events[0]).value;
    RunOne(s1, events[1..]);
    var s2 := Step(s1, events[1]).value;
    RunOne(s2, events[1..][1..]);
    var s3 := Step(s2, events[2]).value;
    assert s3.disk.stages == map[1 := Some(Complete(next))];
    RunOne(s3, events[1..][1..][1..]);
  }

  // The old corpus has just been renamed into the backup.
  function Moved(version: nat, next: nat): System {
    System(Disk(None, map[2 := Some(Complete(version))], map[1 := Some(Complete(next))]), Some(0),
           Frame(MarkMoved, Some(1), Some(2), false, false), Some(version))
  }

  lemma {:induction false} MovingRuns(version: nat, next: nat)
    ensures Run(Staged(version, next), [Pick(2), Proceed, Proceed]) == Some(Moved(version, next))
  {
    var events := [Pick(2), Proceed, Proceed];
    var s := Staged(version, next);
    RunOne(s, events);
    var s1 := Step(s, events[0]).value;
    RunOne(s1, events[1..]);
    var s2 := Step(s1, events[1]).value;
    RunOne(s2, events[1..][1..]);
    assert Step(s2, events[2]).value.disk.backups == map[2 := Some(Complete(version))];
  }

  lemma {:induction false} RegenerationReachesTheWindow(version: nat, next: nat) returns (events: seq<Event>)
    ensures CleanStart(Start(version)) && (forall k :: 0 <= k < |events| ==> !events[k].Raise?)
    ensures Run(Start(version), events) == Some(Moved(version, next)) && Moved(version, next).frame.pc.MarkMoved?
  {
    var first := [Acquire(0), Proceed, Proceed, Proceed];
    var middle := [Pick(1), Proceed, Write(Complete(next)), Proceed];
    var second := [Pick(2), Proceed, Proceed];
    BuildingRuns(version);
    StagingRuns(version, next);
    MovingRuns(version, next);
    RunConcat(Start(version), first, middle);
    RunConcat(Start(version), first + middle, second);
    events := first + middle + second;
  }

  // ---- A backup that is never removed ------------------------------------------------------

  // The new corpus is installed, and a crash cut the deletion of the backup short.
  function Retained(next: nat): System {
    System(Disk(Some(Complete(next)), map[2 := Some(Damaged)], map[]), None, IDLE, Some(next))
  }

  function Installed(version: nat, next: nat): System {
    System(Disk(Some(Complete(next)), map[2 := Some(Complete(version))], map[1 := None]), Some(0),
           Frame(CleanStage, Some(1), Some(2), true, true), Some(next))
  }

  lemma {:induction false} InstallingRuns(version: nat, next: nat)
    ensures Run(Moved(version, next), [Proceed, Proceed, Proceed]) == Some(Installed(version, next))
  {
    var events := [Proceed, Proceed, Proceed];
    var s := Moved(version, next);
    RunOne(s, events);
    var s1 := Step(s, events[0]).value;
    RunOne(s1, events[1..]);
    var s2 := Step(s1, events[1]).value;
    RunOne(s2, events[1..][1..]);
    assert Step(s2, events[2]).value.disk.stages == map[1 := None];
  }

  lemma {:induction false} CleaningCrashes(version: nat, next: nat)
    ensures Run(Installed(version, next), [Proceed, Delete(false), Crash]) == Some(Retained(next))
  {
    var events := [Proceed, Delete(false), Crash];
    var s := Installed(version, next);
    RunOne(s, events);
    var s1 := Step(s, events[0]).value;
    assert s1.disk.stages == map[];
    RunOne(s1, events[1..]);
    var s2 := Step(s1, events[1]).value;
    assert s2.disk.backups == map[2 := Some(Damaged)];
    RunOne(s2, events[1..][1..]);
  }

  // A crash while the old backup is being deleted leaves both directories.
  lemma {:induction false} CrashRetainsBackup(version: nat, next: nat) returns (events: seq<Event>)
    ensures CleanStart(Start(version)) && Undisturbed(Start(version), events)
    ensures Run(Start(version), events) == Some(Retained(next))
    ensures var t := Retained(next);
            Inv(t) && t.frame.pc.Idle? && t.disk.dest.Some? && t.disk.backups != map[]
  {
    var before := RegenerationReachesTheWindow(version, next);
    var third := [Proceed, Proceed, Proceed];
    var last := [Proceed, Delete(false), Crash];
    InstallingRuns(version, next);
    CleaningCrashes(version, next);
    RunConcat(Start(version), before, third);
    RunConcat(Start(version), before + third, last);
    events := before + third + last;
    WithoutExceptions(Start(version), events);
    RetainedIsLawful(next);
  }

  lemma RetainedIsLawful(next: nat)
    ensures var t := Retained(next);
            Inv(t) && t.frame.pc.Idle? && t.disk.dest.Some? && t.disk.backups != map[]
  {
    assert 2 in Retained(next).disk.backups;
  }

  lemma {:induction false} WithoutExceptions(s: System, events: seq<Event>)
    requires forall k :: 0 <= k < |events| ==> !events[k].Raise?
    ensures Undisturbed(s, events)
    decreases |events|
  {
    if events != [] && Step(s, events[0]).Some? {
      forall k | 0 <= k < |events| - 1 ensures !events[1..][k].Raise? { assert events[1..][k] == events[k + 1]; }
      WithoutExceptions(Step(s, events[0]).value, events[1..]);
    }
  }

  // From then on no run, whatever happens in it, gets beyond the scan or changes
  // anything.
  lemma {:induction false} RetainedBackupStopsEveryRun(s: System, events: seq<Event>)
    requires s.frame == IDLE || s.frame == IDLE.(pc := Scan)
    requires s.disk.dest.Some? && s.disk.backups != map[] && Run(s, events).Some?
    ensures var t := Run(s, events).value;
            t.disk == s.disk && t.current == s.current && (t.frame.pc.Idle? || t.frame.pc.Scan?)
    decreases |events|
  {
    if events != [] { RetainedBackupStopsEveryRun(Step(s, events[0]).value, events[1..]); }
  }

  // An undisturbed run gets past the scan exactly if there is no backup or nothing
  // at the destination.
  lemma {:induction false} RecoveryPassesScan(s: System, pid: nat)
    requires Inv(s) && s.frame.pc.Idle?
    ensures var t := Run(s, [Acquire(pid), Proceed]);
            && t.Some?
            && (!t.value.frame.pc.Idle? <==> s.disk.backups == map[] || s.disk.dest.None?)
            && (t.value.frame.pc.Idle? ==> t.value == s)
  {
    var events := [Acquire(pid), Proceed];
    var s1 := Step(s, Acquire(pid)).value;
    ScanIsDecisive(s1);
    RunOne(s, events);
    RunOne(s1, events[1..]);
  }

  // ---- Which states recovery gets out of ---------------------------------------------------

  function FirstStart(): System {
    System(Disk(None, map[], map[]), None, IDLE, None)
  }

  function StageLeft(): System {
    System(Disk(None, map[], map[1 := None]), None, IDLE, None)
  }

  // The first recorder is about to make a stage root.
  function FirstBuilt(): System {
    FirstStart().(lock := Some(0), frame := IDLE.(pc := MakeStage))
  }

  lemma {:induction false} FirstBuildingRuns()
    ensures Run(FirstStart(), [Acquire(0), Proceed, Proceed, Proceed]) == Some(FirstBuilt())
  {
    var events := [Acquire(0), Proceed, Proceed, Proceed];
    var s := FirstStart();
    RunOne(s, events);
    var s1 := Step(s, events[0]).value;
    RunOne(s1, events[1..]);
    var s2 := Step(s1, events[1]).value;
    RunOne(s2, events[1..][1..]);
    var s3 := Step(s2, events[2]).value;
    RunOne(s3, events[1..][1..][1..]);
  }

  // The very first regeneration, and a crash as soon as the stage root exists.
  lemma {:induction false} CrashLeavesStage() returns (events: seq<Event>)
    ensures CleanStart(FirstStart()) && Undisturbed(FirstStart(), events)
    ensures Run(FirstStart(), events) == Some(StageLeft()) && Inv(StageLeft())
  {
    var first := [Acquire(0), Proceed, Proceed, Proceed];
    var last := [Pick(1), Crash];
    FirstBuildingRuns();
    RunOne(FirstBuilt(), last);
    assert Step(FirstBuilt(), Pick(1)).value.disk == StageLeft().disk;
    RunConcat(FirstStart(), first, last);
    events := first + last;
    WithoutExceptions(FirstStart(), events);
  }

  // With a stage root left and neither destination nor backup, no run, whatever
  // happens in it, gets beyond the check of the stages or changes anything.
  lemma {:induction false} StageStopsEveryRun(s: System, events: seq<Event>)
    requires s.frame == IDLE || s.frame == IDLE.(pc := Scan) || s.frame == IDLE.(pc := CheckStages)
    requires s.disk.dest.None? && s.disk.backups == map[] && s.disk.stages != map[] && Run(s, events).Some?
    ensures var t := Run(s, events).value;
            && t.disk == s.disk && t.current == s.current
            && (t.frame.pc.Idle? || t.frame.pc.Scan? || t.frame.pc.CheckStages?)
    decreases |events|
  {
    if events != [] { StageStopsEveryRun(Step(s, events[0]).value, events[1..]); }
  }

  lemma {:induction false} SweepRemovesOne(s: System, root: nat) returns (t: System)
    requires s.frame.pc.DropStages? && root in s.disk.stages
    ensures Run(s, [Next(root), Delete(true), Proceed]) == Some(t) && t.frame.pc.DropStages?
    ensures t.disk.stages.Keys == s.disk.stages.Keys - {root}
  {
    var events := [Next(root), Delete(true), Proceed];
    var s1 := Step(s, Next(root)).value;
    var s2 := Step(s1, Delete(true)).value;
    t := Step(s2, Proceed).value;
    assert s2.disk.stages.Keys == s.disk.stages.Keys;
    RunOne(s, events);
    RunOne(s1, events[1..]);
    RunOne(s2, events[1..][1..]);
  }

  // The sweep of the stages ends.
  lemma {:induction false} SweepReachesBuild(s: System) returns (events: seq<Event>)
    requires s.frame.pc.DropStages?
    ensures Run(s, events).Some? && Run(s, events).value.frame.pc.Build?
    decreases |s.disk.stages.Keys|
  {
    if s.disk.stages == map[] {
      events := [Proceed];
      RunOne(s, events);
    } else {
      var root :| root in s.disk.stages;
      var t := SweepRemovesOne(s, root);
      var rest := SweepReachesBuild(t);
      RunConcat(s, [Next(root), Delete(true), Proceed], rest);
      events := [Next(root), Delete(true), Proceed] + rest;
    }
  }

  lemma CheckReachesBuild(s: System) returns (events: seq<Event>)
    requires s.frame.pc.CheckStages? && (s.disk.dest.Some? || s.disk.stages == map[])
    ensures Run(s, events).Some? && Run(s, events).value.frame.pc.Build?
  {
    var next := Step(s, Proceed).value;
    events := [];
    if !next.frame.pc.Build? { events := SweepReachesBuild(next); }
    var all := [Proceed] + events;
    assert all[1..] == events;
    RunOne(s, all);
    events := all;
  }

  // Recovery can get as far as building a new corpus.
  ghost predicate CanBuild(s: System) {
    exists events :: Run(s, events).Some? && Run(s, events).value.frame.pc.Build?
  }

  lemma RunThenBuild(s: System, first: seq<Event>)
    requires Run(s, first).Some?
    requires Run(s, first).value.frame.pc.CheckStages?
    requires Run(s, first).value.disk.dest.Some? || Run(s, first).value.disk.stages == map[]
    ensures CanBuild(s)
  {
    var rest := CheckReachesBuild(Run(s, first).value);
    RunConcat(s, first, rest);
    assert Run(s, first + rest).Some?;
  }

  lemma StuckStatesCannotBuild(s: System, events: seq<Event>)
    requires s.frame == IDLE && Run(s, events).Some?
    requires if s.disk.backups == map[] then s.disk.dest.None? && s.disk.stages != map[] else s.disk.dest.Some?
    ensures !Run(s, events).value.frame.pc.Build?
  {
    if s.disk.backups == map[] { StageStopsEveryRun(s, events); } else { RetainedBackupStopsEveryRun(s, events); }
  }

  // From any state that runs and crashes outside the window can leave, a later run
  // can get through the recovery exactly if: with no backup, there is a destination or no stage root;
  // with a backup, there is no destination.
  lemma {:induction false} RecoveryIsPossibleExactly(s: System)
    requires Inv(s) && s.frame.pc.Idle?
    ensures CanBuild(s) <==> if s.disk.backups == map[] then s.disk.dest.Some? || s.disk.stages == map[]
                             else s.disk.dest.None?
  {
    if s.disk.backups == map[] {
      if s.disk.dest.Some? || s.disk.stages == map[] {
        var first := [Acquire(0), Proceed];
        RecoveryPassesScan(s, 0);
        RunOne(s, first);
        RunOne(Step(s, Acquire(0)).value, first[1..]);
        RunThenBuild(s, first);
      }
    } else if s.disk.dest.None? {
      InterruptedSwapIsRecovered(s, 0);
      RunThenBuild(s, [Acquire(0), Proceed, Proceed, Proceed]);
    }
    if !(if s.disk.backups == map[] then s.disk.dest.Some? || s.disk.stages == map[] else s.disk.dest.None?) {
      forall events | Run(s, events).Some? ensures !Run(s, events).value.frame.pc.Build? {
        StuckStatesCannotBuild(s, events);
      }
    }
  }
}
