// Several recorders at once: each process has its own statement and local
// variables, and only the lock on the corpus keeps them apart.
module CorpusRecorders {
  import opened Machine
  import opened CorpusSwap

  datatype Recorders = Recorders(disk: Disk, lock: Option<nat>, frames: map<nat, Frame>, current: Option<nat>)

  // Something that happens in one process.
  datatype Action = Action(pid: nat, event: Event)

  function FrameOf(r: Recorders, pid: nat): Frame {
    if pid in r.frames then r.frames[pid] else IDLE
  }

  // What one process sees and changes.
  function View(r: Recorders, pid: nat): System {
    System(r.disk, r.lock, FrameOf(r, pid), r.current)
  }

  // A process that ends gives back the lock only if it holds it.
  function Updated(r: Recorders, pid: nat, t: System): Recorders {
    Recorders(t.disk, if t.frame.pc.Idle? && r.lock == Some(pid) then None else r.lock, r.frames[pid := t.frame],
              t.current)
  }

  // One statement of one process, whoever holds the lock.
  function StepOne(r: Recorders, a: Action): Option<Recorders> {
    if a.event.Acquire? then
      if a.event.pid != a.pid || !FrameOf(r, a.pid).pc.Idle? then None
      else if r.lock.Some? then Some(r)
      else Some(r.(lock := Some(a.pid), frames := r.frames[a.pid := IDLE.(pc := Scan)]))
    else
      var t := Step(View(r, a.pid), a.event);
      if t.None? then None else Some(Updated(r, a.pid, t.value))
  }

  // An interleaving of the processes.
  function RunAll(r: Recorders, actions: seq<Action>): Option<Recorders>
    decreases |actions|
  {
    if actions == [] then Some(r)
    else
      var next := StepOne(r, actions[0]);
      if next.None? then None else RunAll(next.value, actions[1..])
  }

  // No exception arrives in any process between the rename and the flag that
  // records it.
  ghost predicate AllUndisturbed(r: Recorders, actions: seq<Action>)
    decreases |actions|
  {
    actions != [] ==>
      && !InterruptsMove(View(r, actions[0].pid), actions[0].event)
      && (StepOne(r, actions[0]).Some? ==> AllUndisturbed(StepOne(r, actions[0]).value, actions[1..]))
  }

  // Only the holder of the lock is at work.
  ghost predicate Exclusive(r: Recorders) {
    && (forall pid: nat :: FrameOf(r, pid).pc.Idle? ==> FrameOf(r, pid) == IDLE)
    && (forall pid: nat :: !FrameOf(r, pid).pc.Idle? <==> r.lock == Some(pid))
  }

  // The recorder at work, if there is one, as a system of its own.
  function Holder(r: Recorders): System {
    System(r.disk, r.lock, if r.lock.Some? then FrameOf(r, r.lock.value) else IDLE, r.current)
  }

  ghost predicate NobodyAtWork(r: Recorders) {
    forall pid: nat :: FrameOf(r, pid) == IDLE
  }

  // A step of any process is a step of the one at work, or changes nothing.
  lemma StepIsHolders(r: Recorders, a: Action)
    requires Exclusive(r) && StepOne(r, a).Some?
    ensures var r' := StepOne(r, a).value;
            && Exclusive(r')
            && (Holder(r') == Holder(r) || Step(Holder(r), a.event) == Some(Holder(r')))
            && (Holder(r') != Holder(r) && InterruptsMove(Holder(r), a.event) ==>
                  InterruptsMove(View(r, a.pid), a.event))
  {
    var r' := StepOne(r, a).value;
    forall pid: nat | pid != a.pid ensures FrameOf(r', pid) == FrameOf(r, pid) {}
    if r.lock == Some(a.pid) {
      assert View(r, a.pid) == Holder(r);
      StepLock(View(r, a.pid), a.event);
    } else if !a.event.Acquire? {
      assert FrameOf(r, a.pid) == IDLE;
    }
  }

  // A step keeps the lock, or ends the run and clears the frame.
  lemma StepLock(s: System, e: Event)
    requires s.lock.Some? && Step(s, e).Some? && !s.frame.pc.Idle?
    ensures var t := Step(s, e).value;
            if t.frame.pc.Idle? then t.frame == IDLE && t.lock.None? else t.lock == s.lock
  {
  }

  // Every interleaving is a run of one recorder at a time.
  lemma {:induction false} EveryInterleavingIsSerial(r: Recorders, actions: seq<Action>) returns (events: seq<Event>)
    requires Exclusive(r) && RunAll(r, actions).Some?
    ensures Exclusive(RunAll(r, actions).value)
    ensures Run(Holder(r), events) == Some(Holder(RunAll(r, actions).value))
    ensures AllUndisturbed(r, actions) ==> Undisturbed(Holder(r), events)
    decreases |actions|
  {
    if actions == [] {
      events := [];
    } else {
      var r' := StepOne(r, actions[0]).value;
      StepIsHolders(r, actions[0]);
      events := EveryInterleavingIsSerial(r', actions[1..]);
      if Holder(r') != Holder(r) {
        var all := [actions[0].event] + events;
        assert all[1..] == events;
        events := all;
      }
    }
  }

  // From a start with nobody at work, at most one recorder is ever at work, and it
  // holds the lock.
  lemma AtMostOneRecorderWorks(r: Recorders, actions: seq<Action>, p: nat, q: nat)
    requires NobodyAtWork(r) && r.lock.None? && RunAll(r, actions).Some?
    ensures var t := RunAll(r, actions).value;
            && (!FrameOf(t, p).pc.Idle? <==> t.lock == Some(p))
            && (!FrameOf(t, p).pc.Idle? && !FrameOf(t, q).pc.Idle? ==> p == q)
  {
    var _ := EveryInterleavingIsSerial(r, actions);
  }

  // However the processes interleave, fail and crash: the last installed corpus is
  // intact, the destination never holds a damaged one, and a recovery can restore
  // nothing else.
  lemma CorpusSurvivesEveryInterleaving(r: Recorders, actions: seq<Action>)
    requires NobodyAtWork(r) && CleanStart(Holder(r)) && AllUndisturbed(r, actions) && RunAll(r, actions).Some?
    ensures var t := Holder(RunAll(r, actions).value);
            && Survives(t)
            && (t.disk.dest.Some? ==> HoldsCurrent(t.disk.dest, t.current))
            && !ScanVerdict(t.disk).MultipleBackups? && !ScanVerdict(t.disk).MissingCorpus?
            && (ScanVerdict(t.disk).Restorable? ==>
                  t.disk.dest.None? && HoldsCurrent(t.disk.backups[ScanVerdict(t.disk).root], t.current))
  {
    var events := EveryInterleavingIsSerial(r, actions);
    CorpusSurvivesEveryRun(Holder(r), events);
    if ScanVerdict(Run(Holder(r), events).value.disk).Restorable? { OnlyIntactBackupsAreRestored(Holder(r), events); }
  }
}
