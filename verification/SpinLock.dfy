/**
 The spin lock of the process table, as interleaved steps of several cores
 (src/util/sync.rs), with the critical sections of process.rs and scheduler.rs
 cut into the small steps a core performs while holding it. Memory is
 sequentially consistent.
*/
module SpinLock {
  import opened Machine
  import opened Wrappers
  import opened ProcessModel
  import opened SchedulerSafety

  /** What a critical section hands back to its caller. */
  datatype Output =
    | PidOut(pid: Option<u32>)
    | FrameOut(frame: u64)
    | EntryOut(landing: Landing)
    | FoundOut(found: bool)

  /** Where a core is inside the critical section of `event`. */
  datatype Local =
    | Begin
    | Saved
    | Scan(left: nat)
    | Popped(left: nat, idx: nat)
    | Chosen(next: Option<nat>)
    | Requeued(chosen: nat)
    | Filling(idx: nat)
    | Numbered(idx: nat, pid: u32)
    | Filled(idx: nat, pid: u32)
    | Seeking(idx: nat)
    | Done(out: Output)
    | Panicked

  ghost predicate ValidLocal(s: Sched, e: Event, l: Local) {
    && Shaped(s) && e.Valid()
    && match l
       case Begin => true
       case Saved => e.Irq?
       case Scan(_) => e.Irq? || e.Start?
       case Popped(_, idx) => (e.Irq? || e.Start?) && idx < MAX_PROCS
       case Chosen(next) => (e.Irq? || e.Start?) && (next.Some? ==> next.value < MAX_PROCS && s.slots[next.value].Some?)
       case Requeued(next) => e.Irq? && next < MAX_PROCS && s.slots[next].Some?
       case Filling(idx) => e.Creation? && idx <= MAX_PROCS
       case Numbered(idx, _) => e.Creation? && idx < MAX_PROCS
       case Filled(idx, _) => e.Creation? && idx < MAX_PROCS
       case Seeking(idx) => e.StateSet? && idx <= MAX_PROCS
       case Done(_) => true
       case Panicked => true
  }

  function PutProcess(s: Sched, idx: nat, p: Process): (r: Sched)
    requires Shaped(s) && idx < MAX_PROCS
    ensures Shaped(r)
  {
    s.(slots := s.slots[idx := Some(p)])
  }

  /** One small step of the critical section. */
  function Micro(s: Sched, e: Event, l: Local): (r: (Sched, Local))
    requires ValidLocal(s, e, l) && !l.Done? && !l.Panicked?
    ensures ValidLocal(r.0, e, r.1)
  {
    match l
    case Begin =>
      (match e
       case Creation(_, _, _) => (s, Filling(0))
       case Start(_) => (s, Scan(|s.queue|))
       case StateSet(_, _) => (s, Seeking(0))
       case Irq(cpu, frame) =>
         var cur := s.current[cpu];
         if cur == INVALID_IDX || s.slots[cur].None? then (s, Saved)
         else (PutProcess(s, cur, s.slots[cur].value.(contextSp := frame)), Saved))
    case Saved =>
      var cur := s.current[e.cpu];
      if cur == INVALID_IDX || s.slots[cur].None? || s.slots[cur].value.state != Running then (s, Scan(|s.queue|))
      else
        (PutProcess(s, cur, s.slots[cur].value.(state := Ready, runningOn := CPU_NONE, inRunQueue := false)),
          Scan(|s.queue|))
    case Scan(left) =>
      if left == 0 || s.queue == [] then (s, Chosen(None))
      else (s.(queue := s.queue[1..]), Popped(left - 1, s.queue[0]))
    case Popped(left, idx) =>
      if Takeable(s.slots, idx) then (PutProcess(s, idx, s.slots[idx].value.(inRunQueue := false)), Chosen(Some(idx)))
      else (s.(queue := Pushed(s.queue, idx)), Scan(left))
    case Chosen(next) =>
      if next.None? then
        if e.Irq? then (KeepCurrent(s, e.cpu), Done(FrameOut(e.frame))) else (s, Panicked)
      else if e.Irq? then (Requeue(s, e.cpu), Requeued(next.value))
      else
        var p := s.slots[next.value].value;
        (Dispatch(s, e.cpu, next.value), Done(EntryOut(Landing(p.entry, p.stackTop))))
    case Requeued(next) =>
      (Dispatch(s, e.cpu, next), Done(FrameOut(s.slots[next].value.contextSp)))
    case Filling(idx) =>
      if idx == MAX_PROCS then (s, Done(PidOut(None)))
      else if s.slots[idx].None? then (s.(nextPid := NextPid(s.nextPid)), Numbered(idx, s.nextPid))
      else (s, Filling(idx + 1))
    case Numbered(idx, pid) =>
      (PutProcess(s, idx, NewProcess(pid, e.entry, StackTop(e.stacks, idx, e.requested))), Filled(idx, pid))
    case Filled(idx, pid) => (s.(queue := Pushed(s.queue, idx)), Done(PidOut(Some(pid))))
    case Seeking(idx) =>
      if idx == MAX_PROCS then (s, Done(FoundOut(false)))
      else if s.slots[idx].Some? && s.slots[idx].value.id == e.pid then
        (PutProcess(s, idx, s.slots[idx].value.(state := e.state)), Done(FoundOut(true)))
      else (s, Seeking(idx + 1))
  }

  /** Steps left at most, so a critical section ends. */
  function Rank(l: Local, queueLen: nat): nat {
    match l
    case Begin => 2 * queueLen + 2 * MAX_PROCS + 9
    case Saved => 2 * queueLen + 8
    case Scan(left) => 2 * left + 4
    case Popped(left, _) => 2 * left + 5
    case Chosen(_) => 3
    case Requeued(_) => 2
    case Filling(idx) => if idx <= MAX_PROCS then MAX_PROCS - idx + 4 else 4
    case Numbered(_, _) => 3
    case Filled(_, _) => 2
    case Seeking(idx) => if idx <= MAX_PROCS then MAX_PROCS - idx + 4 else 4
    case Done(_) => 0
    case Panicked => 0
  }

  /** Runs the remaining small steps without interruption; None is a panic. */
  function Finish(s: Sched, e: Event, l: Local): Option<(Sched, Output)>
    requires ValidLocal(s, e, l)
    decreases Rank(l, |s.queue|)
  {
    if l.Done? then Some((s, l.out))
    else if l.Panicked? then None
    else
      var (t, l') := Micro(s, e, l);
      Finish(t, e, l')
  }

  /** The atomic critical section with its output. */
  function Atomic(s: Sched, e: Event): Option<(Sched, Output)>
    requires Shaped(s) && e.Valid()
  {
    match e
    case Creation(stacks, entry, requested) =>
      var out := Create(s, stacks, entry, requested); Some((out.0, PidOut(out.1)))
    case Start(cpu) => (match StartOn(s, cpu) case None => None case Some(out) => Some((out.0, EntryOut(out.1))))
    case Irq(cpu, frame) => var out := FromIrq(s, cpu, frame); Some((out.0, FrameOut(out.1)))
    case StateSet(pid, state) => var out := SetState(s, pid, state); Some((out.0, FoundOut(out.1)))
  }

  // ---- The small steps add up ----------------------------------------------

  lemma {:induction false} FinishFilling(s: Sched, e: Event, idx: nat)
    requires Shaped(s) && e.Valid() && e.Creation? && idx <= FirstFree(s.slots)
    ensures Finish(s, e, Filling(idx)) == Atomic(s, e)
    decreases MAX_PROCS - idx
  {
    if idx < FirstFree(s.slots) {
      FinishFilling(s, e, idx + 1);
    } else if idx < MAX_PROCS {
      var (t, l) := Micro(s, e, Filling(idx));
      var (t', l') := Micro(t, e, l);
      var (t'', l'') := Micro(t', e, l');
      assert Finish(t'', e, l'') == Some((t'', PidOut(Some(s.nextPid))));
      assert Finish(t', e, l') == Finish(t'', e, l'');
    }
  }

  lemma {:induction false} FinishSeeking(s: Sched, e: Event, idx: nat)
    requires Shaped(s) && e.Valid() && e.StateSet? && idx <= FindPid(s.slots, e.pid)
    ensures Finish(s, e, Seeking(idx)) == Atomic(s, e)
    decreases MAX_PROCS - idx
  {
    if idx < FindPid(s.slots, e.pid) {
      FinishSeeking(s, e, idx + 1);
    } else if idx < MAX_PROCS {
      var (t, l) := Micro(s, e, Seeking(idx));
      assert Finish(t, e, l) == Some((t, FoundOut(true)));
    }
  }

  /** Completion once the scan has its answer. */
  function AfterScan(d: (Sched, Option<nat>), e: Event): Option<(Sched, Output)>
    requires Shaped(d.0) && e.Valid() && (e.Irq? || e.Start?)
    requires d.1.Some? ==> d.1.value < MAX_PROCS && d.0.slots[d.1.value].Some?
  {
    Finish(d.0, e, Chosen(d.1))
  }

  lemma {:induction false} FinishPop(t: Sched, e: Event, left: nat, u: Sched, idx: nat)
    requires Shaped(t) && e.Valid() && (e.Irq? || e.Start?)
    requires t.queue != [] && idx == t.queue[0] && u == t.(queue := t.queue[1..])
    ensures ValidLocal(u, e, Popped(left, idx)) && Finish(t, e, Scan(left + 1)) == Finish(u, e, Popped(left, idx))
  {
    assert Micro(t, e, Scan(left + 1)) == (u, Popped(left, idx));
  }

  lemma {:induction false} FinishSkip(u: Sched, e: Event, left: nat, v: Sched, idx: nat)
    requires ValidLocal(u, e, Popped(left, idx)) && !Takeable(u.slots, idx) && v == u.(queue := Pushed(u.queue, idx))
    ensures ValidLocal(v, e, Scan(left)) && Finish(u, e, Popped(left, idx)) == Finish(v, e, Scan(left))
  {
    assert Micro(u, e, Popped(left, idx)) == (v, Scan(left));
  }

  lemma {:induction false} FinishTake(u: Sched, e: Event, left: nat, v: Sched, idx: nat)
    requires ValidLocal(u, e, Popped(left, idx)) && Takeable(u.slots, idx)
    requires v == PutProcess(u, idx, u.slots[idx].value.(inRunQueue := false))
    ensures ValidLocal(v, e, Chosen(Some(idx)))
    ensures Finish(u, e, Popped(left, idx)) == Finish(v, e, Chosen(Some(idx)))
  {
    assert Micro(u, e, Popped(left, idx)) == (v, Chosen(Some(idx)));
  }

  /** The table after i entries have been skipped. */
  ghost predicate Skipped(s: Sched, t: Sched, i: nat) {
    i <= |s.queue| && t == s.(queue := s.queue[i..] + s.queue[..i])
  }

  lemma {:induction false} FinishScanEnd(s: Sched, t: Sched, e: Event)
    requires Shaped(s) && e.Valid() && (e.Irq? || e.Start?)
    requires Skipped(s, t, |s.queue|) && FirstTakeable(s.slots, s.queue) == |s.queue|
    ensures Shaped(t) && Finish(t, e, Scan(0)) == AfterScan(Dequeue(s), e)
  {
    assert s.queue[|s.queue|..] + s.queue[..|s.queue|] == s.queue;
    assert t == s == Dequeue(s).0;
  }

  lemma {:induction false} FinishScanTake(s: Sched, t: Sched, e: Event, i: nat, less: nat, left: nat)
    requires left == less + 1
    requires Shaped(s) && e.Valid() && (e.Irq? || e.Start?)
    requires i == FirstTakeable(s.slots, s.queue) < |s.queue| && Skipped(s, t, i)
    ensures Shaped(t) && Finish(t, e, Scan(left)) == AfterScan(Dequeue(s), e)
  {
    var u, idx := t.(queue := s.queue[i + 1..] + s.queue[..i]), s.queue[i];
    RotateStep(s.queue, i);
    FinishPop(t, e, less, u, idx);
    FinishTake(u, e, less, Dequeue(s).0, idx);
  }

  lemma {:induction false} FinishScanSkip(s: Sched, t: Sched, e: Event, i: nat, less: nat, left: nat, v: Sched)
    requires left == less + 1
    requires Shaped(s) && e.Valid() && (e.Irq? || e.Start?) && |s.queue| <= MAX_PROCS
    requires i < FirstTakeable(s.slots, s.queue) && Skipped(s, t, i) && Skipped(s, v, i + 1)
    ensures Shaped(t) && Shaped(v) && Finish(t, e, Scan(left)) == Finish(v, e, Scan(less))
  {
    var u, idx := t.(queue := s.queue[i + 1..] + s.queue[..i]), s.queue[i];
    RotateStep(s.queue, i);
    FinishPop(t, e, less, u, idx);
    FinishSkip(u, e, less, v, idx);
  }

  lemma {:induction false} FinishScan(s: Sched, t: Sched, e: Event, i: nat, left: nat)
    requires Shaped(s) && e.Valid() && (e.Irq? || e.Start?)
    requires i + left == |s.queue| <= MAX_PROCS && i <= FirstTakeable(s.slots, s.queue) && Skipped(s, t, i)
    ensures Shaped(t) && Finish(t, e, Scan(left)) == AfterScan(Dequeue(s), e)
    decreases left
  {
    if left == 0 {
      FinishScanEnd(s, t, e);
    } else {
      var less := left - 1;
      if i < FirstTakeable(s.slots, s.queue) {
        var v := s.(queue := s.queue[i + 1..] + s.queue[..i + 1]);
        FinishScanSkip(s, t, e, i, less, left, v);
        FinishScan(s, v, e, i + 1, less);
      } else {
        FinishScanTake(s, t, e, i, less, left);
      }
    }
  }

  lemma {:induction false} FinishFromScan(s: Sched, e: Event)
    requires Shaped(s) && e.Valid() && (e.Irq? || e.Start?) && |s.queue| <= MAX_PROCS
    ensures Finish(s, e, Scan(|s.queue|)) == AfterScan(Dequeue(s), e)
  {
    assert s.queue[0..] + s.queue[..0] == s.queue;
    FinishScan(s, s, e, 0, |s.queue|);
  }

  lemma {:induction false} FinishStart(s: Sched, e: Event)
    requires Shaped(s) && e.Valid() && e.Start? && |s.queue| <= MAX_PROCS
    ensures Finish(s, e, Begin) == Atomic(s, e)
  {
    FinishFromScan(s, e);
    assert Finish(s, e, Begin) == Finish(s, e, Scan(|s.queue|));
    var (t, next) := Dequeue(s);
    var (u, l) := Micro(t, e, Chosen(next));
    assert Finish(t, e, Chosen(next)) == Finish(u, e, l);
  }

  lemma {:induction false} FinishIrqChosen(t: Sched, e: Event, next: Option<nat>)
    requires ValidLocal(t, e, Chosen(next)) && e.Irq?
    ensures Finish(t, e, Chosen(next)) ==
      if next.None? then Some((KeepCurrent(t, e.cpu), FrameOut(e.frame)))
      else
        var u := Requeue(t, e.cpu);
        Some((Dispatch(u, e.cpu, next.value), FrameOut(u.slots[next.value].value.contextSp)))
  {
    var (u, l) := Micro(t, e, Chosen(next));
    assert Finish(t, e, Chosen(next)) == Finish(u, e, l);
    if next.Some? {
      var (v, l') := Micro(u, e, l);
      assert Finish(u, e, l) == Finish(v, e, l');
    }
  }

  lemma {:induction false} FinishIrq(s: Sched, e: Event)
    requires Shaped(s) && e.Valid() && e.Irq? && |s.queue| <= MAX_PROCS
    ensures Finish(s, e, Begin) == Atomic(s, e)
  {
    var (t, l) := Micro(s, e, Begin);
    var (u, l') := Micro(t, e, l);
    assert u == SaveCurrent(s, e.cpu, e.frame) && l' == Scan(|u.queue|);
    assert Finish(s, e, Begin) == Finish(t, e, l) == Finish(u, e, l');
    FinishFromScan(u, e);
    FinishIrqChosen(Dequeue(u).0, e, Dequeue(u).1);
  }

  /** Run without interruption, the small steps compute the atomic critical section. */
  lemma {:induction false} MicroIsAtomic(s: Sched, e: Event)
    requires Shaped(s) && e.Valid() && |s.queue| <= MAX_PROCS
    ensures Finish(s, e, Begin) == Atomic(s, e)
  {
    match e
    case Creation(_, _, _) =>
      assert Finish(s, e, Begin) == Finish(s, e, Filling(0));
      FinishFilling(s, e, 0);
    case Start(_) => FinishStart(s, e);
    case Irq(_, _) => FinishIrq(s, e);
    case StateSet(_, _) =>
      assert Finish(s, e, Begin) == Finish(s, e, Seeking(0));
      FinishSeeking(s, e, 0);
  }

  // ---- The lock ------------------------------------------------------------

  /**
   One core: outside, at the compare-exchange, spinning on the flag, holding
   the lock, or holding it below an interrupt handler that wants it as well.
  */
  datatype Core =
    | Outside
    | Acquiring(event: Event)
    | Trying(event: Event)
    | Spinning(event: Event)
    | Inside(event: Event, local: Local)
    | Interrupted(event: Event, local: Local, handler: Event)

  datatype Cores = Cores(locked: bool, table: Sched, cores: seq<Core>)

  /** A core runs the scheduler for itself only. */
  predicate Own(core: nat, e: Event) {
    e.Valid() && (e.Start? || e.Irq? ==> e.cpu == core)
  }

  /** The step of a core that moves the lock flag or its own position and leaves the table alone. */
  ghost predicate Moves(m: Cores, c: nat, m': Cores, locked: bool, core: Core)
    requires c < |m.cores|
  {
    m' == m.(locked := locked, cores := m.cores[c := core])
  }

  ghost predicate Calls(m: Cores, c: nat, m': Cores)
    requires c < |m.cores|
  {
    exists e: Event :: Own(c, e) && (Moves(m, c, m', m.locked, Acquiring(e)) || Moves(m, c, m', m.locked, Trying(e)))
  }

  /** A small step of the critical section; a panic halts the core with the lock still held. */
  ghost predicate Works(m: Cores, c: nat, m': Cores, e: Event, l: Local)
    requires c < |m.cores| && !l.Done?
  {
    if l.Panicked? then m' == m
    else
      ValidLocal(m.table, e, l) &&
      m' == m.(table := Micro(m.table, e, l).0, cores := m.cores[c := Inside(e, Micro(m.table, e, l).1)])
  }

  /** The lock is this core's. */
  predicate Holds(core: Core) { core.Inside? || core.Interrupted? }

  /**
   An interrupt arrives outside an interrupt handler, where interrupts are not
   masked. A core that waits for the lock goes on as the handler; what it was
   waiting for is called again when that context runs again.
  */
  ghost predicate Preempted(m: Cores, c: nat, m': Cores, e: Event)
    requires c < |m.cores|
  {
    !e.Irq? && exists irq: Event :: irq.Irq? && Own(c, irq) && Moves(m, c, m', m.locked, Acquiring(irq))
  }

  /** An interrupt inside the core's own critical section. */
  ghost predicate Hit(m: Cores, c: nat, m': Cores, e: Event, l: Local)
    requires c < |m.cores|
  {
    !e.Irq? && exists irq: Event :: irq.Irq? && Own(c, irq) && Moves(m, c, m', m.locked, Interrupted(e, l, irq))
  }

  /**
   One step of core c: a call, a compare-exchange, a load of the flag, a small
   step, the release, an interrupt, or a handler's compare-exchange.
  */
  ghost predicate CoreStep(m: Cores, c: nat, m': Cores)
    requires c < |m.cores|
  {
    match m.cores[c]
    case Outside => Calls(m, c, m')
    case Acquiring(e) =>
      Moves(m, c, m', true, if m.locked then Spinning(e) else Inside(e, Begin)) || Preempted(m, c, m', e)
    case Trying(e) =>
      Moves(m, c, m', true, if m.locked then Outside else Inside(e, Begin)) || Preempted(m, c, m', e)
    case Spinning(e) =>
      Moves(m, c, m', m.locked, if m.locked then Spinning(e) else Acquiring(e)) || Preempted(m, c, m', e)
    case Inside(e, l) =>
      (if l.Done? then Moves(m, c, m', false, Outside) else Works(m, c, m', e, l)) || Hit(m, c, m', e, l)
    case Interrupted(e, l, irq) =>
      Moves(m, c, m', true, if m.locked then Interrupted(e, l, irq) else Inside(irq, Begin))
  }

  ghost predicate AllOutside(cores: seq<Core>) {
    forall c :: 0 <= c < |cores| ==> cores[c] == Outside
  }

  function AtBoot(cores: seq<Core>): Cores {
    Cores(false, EmptyTable(), cores)
  }

  /** A run: the states of the machine and the core that moved between them. */
  datatype Trace = First(cores: seq<Core>) | Then(before: Trace, core: nat, state: Cores)
  {
    function Last(): Cores {
      match this
      case First(cores) => AtBoot(cores)
      case Then(_, _, state) => state
    }

    ghost predicate Valid() {
      match this
      case First(cores) => AllOutside(cores)
      case Then(before, core, state) =>
        before.Valid() && core < |before.Last().cores| && CoreStep(before.Last(), core, state)
    }

    /** The last step was a release of the lock. */
    predicate Releases() {
      Then? && before.Last().locked && !state.locked
    }

    /** The critical sections completed, in the order of their releases. */
    function Committed(): seq<Event> {
      match this
      case First(_) => []
      case Then(before, core, _) =>
        if Releases() && core < |before.Last().cores| && Holds(before.Last().cores[core])
        then before.Committed() + [before.Last().cores[core].event] else before.Committed()
    }
  }

  /** The holder of the lock is part-way through an atomic step from the table `s`. */
  ghost predicate Holding(s: Sched, m: Cores, c: nat)
    requires Shaped(s)
  {
    && c < |m.cores| && Holds(m.cores[c])
    && (forall d :: 0 <= d < |m.cores| && d != c ==> !Holds(m.cores[d]))
    && ValidLocal(m.table, m.cores[c].event, m.cores[c].local)
    && Finish(m.table, m.cores[c].event, m.cores[c].local) == Atomic(s, m.cores[c].event)
  }

  ghost predicate WaitersValid(m: Cores) {
    forall c :: 0 <= c < |m.cores| ==> m.cores[c].Outside? || m.cores[c].event.Valid()
  }

  /** The lock invariant: s is the table after the completed critical sections. */
  ghost predicate LockInv(s: Sched, m: Cores) {
    && Safe(s) && WaitersValid(m)
    && (!m.locked ==> m.table == s && (forall c :: 0 <= c < |m.cores| ==> !Holds(m.cores[c])))
    && (m.locked ==> exists c :: Holding(s, m, c))
  }

  lemma {:induction false} ExecSnoc(s: Sched, es: seq<Event>, e: Event)
    requires Shaped(s) && ValidEvents(es) && e.Valid()
    ensures ValidEvents(es + [e])
    ensures Exec(s, es + [e]) == match Exec(s, es) case None => None case Some(t) => Step(t, e)
    decreases |es|
  {
    if es == [] {
      assert [e][1..] == [];
    } else {
      var long := es + [e];
      assert long[0] == es[0] && long[1..] == es[1..] + [e];
      if Step(s, es[0]).Some? {
        ExecSnoc(Step(s, es[0]).value, es[1..], e);
      }
    }
  }

  lemma {:induction false} AtomicIsStep(s: Sched, e: Event)
    requires Shaped(s) && e.Valid()
    ensures Atomic(s, e).None? <==> Step(s, e).None?
    ensures Atomic(s, e).Some? ==> Step(s, e) == Some(Atomic(s, e).value.0)
  {
  }

  lemma {:induction false} SafeQueueFits(s: Sched)
    requires Safe(s)
    ensures |s.queue| <= MAX_PROCS
  {
    QueueBelow(s.queue, MAX_PROCS);
  }

  lemma {:induction false} QueueBelow(q: seq<nat>, n: nat)
    requires Distinct(q) && (forall k :: 0 <= k < |q| ==> q[k] < n)
    ensures |q| <= n
  {
    DistinctCount(q, UpTo(n));
  }

  lemma {:induction false} EnterKeepsInv(s: Sched, m: Cores, c: nat, m': Cores, e: Event)
    requires LockInv(s, m) && c < |m.cores| && !m.locked && e.Valid()
    requires m'.locked && m'.table == m.table && m'.cores == m.cores[c := Inside(e, Begin)]
    ensures LockInv(s, m')
  {
    SafeQueueFits(s);
    MicroIsAtomic(s, e);
    assert Holding(s, m', c);
  }

  /** A core that stays out of the critical section disturbs nothing. */
  lemma {:induction false} BystanderKeepsInv(s: Sched, m: Cores, c: nat, m': Cores, core: Core)
    requires LockInv(s, m) && c < |m.cores| && !Holds(m.cores[c]) && !Holds(core)
    requires core.Outside? || core.event.Valid()
    requires m'.locked == m.locked && m'.table == m.table && m'.cores == m.cores[c := core]
    ensures LockInv(s, m')
  {
    if m.locked {
      var h :| Holding(s, m, h);
      assert Holding(s, m', h);
    }
  }

  lemma {:induction false} WorkKeepsInv(s: Sched, m: Cores, c: nat, m': Cores)
    requires LockInv(s, m) && c < |m.cores| && m.cores[c].Inside? && !m.cores[c].local.Done?
    requires Works(m, c, m', m.cores[c].event, m.cores[c].local)
    ensures LockInv(s, m')
  {
    var h :| Holding(s, m, h);
    assert h == c;
    assert Holding(s, m', c);
  }

  /** An interrupted holder holds what it held, and so does its handler's vain attempt. */
  lemma {:induction false} HitKeepsInv(s: Sched, m: Cores, c: nat, m': Cores, core: Core)
    requires LockInv(s, m) && c < |m.cores| && m.locked && Holds(m.cores[c]) && core.Interrupted?
    requires core.event == m.cores[c].event && core.local == m.cores[c].local
    requires Moves(m, c, m', true, core)
    ensures LockInv(s, m')
  {
    var h :| Holding(s, m, h);
    assert h == c;
    assert Holding(s, m', c);
  }

  lemma {:induction false} ReleaseCommits(s: Sched, m: Cores, c: nat, m': Cores)
    requires LockInv(s, m) && c < |m.cores| && m.cores[c].Inside? && m.cores[c].local.Done?
    requires Moves(m, c, m', false, Outside)
    ensures Atomic(s, m.cores[c].event) == Some((m'.table, m.cores[c].local.out))
    ensures LockInv(m'.table, m') && m.locked
  {
    var h :| Holding(s, m, h);
    assert h == c;
    AtomicIsStep(s, m.cores[c].event);
    StepSafe(s, m.cores[c].event);
  }

  lemma {:induction false} HolderLocks(s: Sched, m: Cores, c: nat)
    requires LockInv(s, m) && c < |m.cores| && Holds(m.cores[c])
    ensures m.locked
  {
  }

  /** The lock becomes free only by the holder's own release. */
  lemma {:induction false} OnlyReleaseFrees(s: Sched, m: Cores, c: nat, m': Cores)
    requires LockInv(s, m) && c < |m.cores| && CoreStep(m, c, m') && m.locked && !m'.locked
    ensures m.cores[c].Inside? && m.cores[c].local.Done? && Moves(m, c, m', false, Outside)
  {
  }

  lemma {:induction false} WaiterKeepsInv(s: Sched, m: Cores, c: nat, m': Cores)
    requires LockInv(s, m) && c < |m.cores| && CoreStep(m, c, m') && !Holds(m.cores[c])
    ensures LockInv(s, m')
  {
    if !m'.cores[c].Inside? {
      BystanderKeepsInv(s, m, c, m', m'.cores[c]);
    } else {
      EnterKeepsInv(s, m, c, m', m.cores[c].event);
    }
  }

  lemma {:induction false} HolderKeepsInv(s: Sched, m: Cores, c: nat, m': Cores)
    requires LockInv(s, m) && c < |m.cores| && CoreStep(m, c, m') && Holds(m.cores[c]) && m'.locked
    ensures LockInv(s, m')
  {
    HolderLocks(s, m, c);
    if m'.cores[c].Interrupted? {
      HitKeepsInv(s, m, c, m', m'.cores[c]);
    } else {
      WorkKeepsInv(s, m, c, m');
    }
  }

  lemma {:induction false} QuietStepKeepsInv(s: Sched, m: Cores, c: nat, m': Cores)
    requires LockInv(s, m) && c < |m.cores| && CoreStep(m, c, m') && !(m.locked && !m'.locked)
    ensures LockInv(s, m')
  {
    if Holds(m.cores[c]) {
      HolderLocks(s, m, c);
      HolderKeepsInv(s, m, c, m');
    } else {
      WaiterKeepsInv(s, m, c, m');
    }
  }

  lemma {:induction false} TraceInv(tr: Trace)
    requires tr.Valid()
    ensures ValidEvents(tr.Committed()) && Exec(EmptyTable(), tr.Committed()).Some?
    ensures LockInv(Exec(EmptyTable(), tr.Committed()).value, tr.Last())
  {
    match tr
    case First(_) =>
    case Then(before, c, m') =>
      TraceInv(before);
      var s, m := Exec(EmptyTable(), before.Committed()).value, before.Last();
      if tr.Releases() {
        OnlyReleaseFrees(s, m, c, m');
        ReleaseCommits(s, m, c, m');
        AtomicIsStep(s, m.cores[c].event);
        ExecSnoc(EmptyTable(), before.Committed(), m.cores[c].event);
      } else {
        QuietStepKeepsInv(s, m, c, m');
      }
  }

  /** The table after the completed critical sections. */
  function Settled(tr: Trace): Sched
    requires tr.Valid()
  {
    TraceInv(tr);
    Exec(EmptyTable(), tr.Committed()).value
  }

  /** At most one core holds the lock, and one does exactly while the flag is set. */
  lemma {:induction false} MutualExclusion(tr: Trace)
    requires tr.Valid()
    ensures var m := tr.Last();
      && (forall c, d :: 0 <= c < d < |m.cores| ==> !(Holds(m.cores[c]) && Holds(m.cores[d])))
      && (m.locked <==> exists c :: 0 <= c < |m.cores| && Holds(m.cores[c]))
  {
    TraceInv(tr);
    var m := tr.Last();
    if m.locked {
      var h :| Holding(Settled(tr), m, h);
    }
  }

  /**
   Reduction: whenever the lock is free, and so at every release, the table is
   the one that the completed critical sections produce when executed
   atomically in the order of their releases; and each hands its caller what
   the atomic one would.
  */
  lemma {:induction false} LockReduction(tr: Trace)
    requires tr.Valid()
    ensures ValidEvents(tr.Committed())
    ensures !tr.Last().locked ==> Exec(EmptyTable(), tr.Committed()) == Some(tr.Last().table)
    ensures tr.Releases() ==>
      var holder := tr.before.Last().cores[tr.core];
      && holder.Inside? && holder.local.Done? && holder.event.Valid()
      && tr.Committed() == tr.before.Committed() + [holder.event]
      && ValidEvents(tr.before.Committed()) && Exec(EmptyTable(), tr.before.Committed()).Some?
      && Atomic(Exec(EmptyTable(), tr.before.Committed()).value, holder.event) ==
        Some((tr.Last().table, holder.local.out))
  {
    TraceInv(tr);
    if tr.Releases() {
      TraceInv(tr.before);
      OnlyReleaseFrees(Settled(tr.before), tr.before.Last(), tr.core, tr.Last());
      ReleaseCommits(Settled(tr.before), tr.before.Last(), tr.core, tr.Last());
    }
  }

  // ---- When the lock is never released --------------------------------------

  /** later is a run that goes on from tr. */
  predicate Extends(later: Trace, tr: Trace) {
    later == tr || (later.Then? && Extends(later.before, tr))
  }

  /** Nobody ever gets the lock again. */
  ghost predicate Stuck(tr: Trace) {
    tr.Last().locked && forall later: Trace :: later.Valid() && Extends(later, tr) ==> later.Last().locked
  }

  /** A holder that will not go on: an interrupt has hit it, or it panics. */
  ghost predicate Dead(m: Cores) {
    exists c :: 0 <= c < |m.cores| && Hopeless(m, c)
  }

  ghost predicate Hopeless(m: Cores, c: nat)
    requires c < |m.cores|
  {
    m.cores[c].Interrupted? ||
    (m.cores[c].Inside? && ValidLocal(m.table, m.cores[c].event, m.cores[c].local) &&
     Finish(m.table, m.cores[c].event, m.cores[c].local).None?)
  }

  lemma {:induction false} HopelessStays(s: Sched, m: Cores, c: nat, d: nat, m': Cores)
    requires LockInv(s, m) && d < |m.cores| && Hopeless(m, d) && c < |m.cores| && CoreStep(m, c, m')
    ensures d < |m'.cores| && Hopeless(m', d) && m'.locked
  {
    HolderLocks(s, m, d);
    var h :| Holding(s, m, h);
    assert h == d;
    if c == d && m.cores[c].Inside? {
      DoomedStays(s, m, c, m');
    }
  }

  lemma {:induction false} DoomedStays(s: Sched, m: Cores, c: nat, m': Cores)
    requires LockInv(s, m) && c < |m.cores| && m.cores[c].Inside? && Hopeless(m, c) && CoreStep(m, c, m')
    ensures c < |m'.cores| && Hopeless(m', c) && m'.locked
  {
    HolderLocks(s, m, c);
    assert !m.cores[c].local.Done?;
  }

  lemma {:induction false} DeadStays(later: Trace, tr: Trace, d: nat)
    requires later.Valid() && Extends(later, tr) && tr.Valid() && d < |tr.Last().cores| && Hopeless(tr.Last(), d)
    ensures d < |later.Last().cores| && Hopeless(later.Last(), d) && later.Last().locked
    decreases later
  {
    if later == tr {
      TraceInv(tr);
      HolderLocks(Settled(tr), tr.Last(), d);
    } else {
      DeadStays(later.before, tr, d);
      TraceInv(later.before);
      HopelessStays(Settled(later.before), later.before.Last(), later.core, d, later.Last());
    }
  }

  /** A holder that is neither interrupted nor going to panic can always finish and release. */
  lemma {:induction false} CanRelease(tr: Trace, c: nat) returns (later: Trace)
    requires tr.Valid() && tr.Last().locked && c < |tr.Last().cores| && tr.Last().cores[c].Inside?
    requires var core := tr.Last().cores[c];
      ValidLocal(tr.Last().table, core.event, core.local) && Finish(tr.Last().table, core.event, core.local).Some?
    ensures later.Valid() && Extends(later, tr) && !later.Last().locked
    ensures later.Committed() == tr.Committed() + [tr.Last().cores[c].event]
    ensures later.Last().cores == tr.Last().cores[c := Outside]
    decreases Rank(tr.Last().cores[c].local, |tr.Last().table.queue|)
  {
    var m, e, l := tr.Last(), tr.Last().cores[c].event, tr.Last().cores[c].local;
    if l.Done? {
      later := Then(tr, c, m.(locked := false, cores := m.cores[c := Outside]));
    } else {
      var (t, l') := Micro(m.table, e, l);
      var next := Then(tr, c, m.(table := t, cores := m.cores[c := Inside(e, l')]));
      later := CanRelease(next, c);
      ExtendsTrans(later, next, tr);
      assert m.cores[c := Inside(e, l')][c := Outside] == m.cores[c := Outside];
    }
  }

  lemma {:induction false} ExtendsTrans(a: Trace, b: Trace, c: Trace)
    requires Extends(a, b) && Extends(b, c)
    ensures Extends(a, c)
  {
    if a != b {
      ExtendsTrans(a.before, b, c);
    }
  }

  lemma {:induction false} DeadIsStuck(tr: Trace, d: nat)
    requires tr.Valid() && d < |tr.Last().cores| && Hopeless(tr.Last(), d)
    ensures Stuck(tr)
  {
    forall later: Trace | later.Valid() && Extends(later, tr)
      ensures later.Last().locked
    {
      DeadStays(later, tr, d);
    }
    TraceInv(tr);
    HolderLocks(Settled(tr), tr.Last(), d);
  }

  lemma {:induction false} AliveHolder(s: Sched, m: Cores) returns (c: nat)
    requires LockInv(s, m) && m.locked && !Dead(m)
    ensures c < |m.cores| && m.cores[c].Inside? && ValidLocal(m.table, m.cores[c].event, m.cores[c].local)
    ensures Finish(m.table, m.cores[c].event, m.cores[c].local).Some?
  {
    c :| Holding(s, m, c);
    assert c < |m.cores|;
    assert !Hopeless(m, c);
  }

  /**
   The lock is never free again exactly when an interrupt has hit its holder
   inside the critical section, whose handler then waits for it for ever, or
   the holder is bound to panic.
  */
  lemma {:induction false} StuckExactly(tr: Trace)
    requires tr.Valid()
    ensures Stuck(tr) <==> Dead(tr.Last())
  {
    TraceInv(tr);
    if Dead(tr.Last()) {
      var d :| 0 <= d < |tr.Last().cores| && Hopeless(tr.Last(), d);
      DeadIsStuck(tr, d);
    } else if tr.Last().locked {
      var c := AliveHolder(Settled(tr), tr.Last());
      var later := CanRelease(tr, c);
    }
  }

  /** An interrupt is possible in every section but a handler's own, so such a run exists whenever one is entered. */
  lemma {:induction false} InterruptSticks(tr: Trace, c: nat, frame: u64) returns (later: Trace)
    requires tr.Valid() && c < |tr.Last().cores| && c < MAX_CPUS
    requires tr.Last().cores[c].Inside? && !tr.Last().cores[c].event.Irq?
    ensures later.Valid() && Extends(later, tr) && Stuck(later)
  {
    var m := tr.Last();
    var e, l, irq := m.cores[c].event, m.cores[c].local, Irq(c, frame);
    var m' := m.(cores := m.cores[c := Interrupted(e, l, irq)]);
    assert irq.Irq? && Own(c, irq) && Moves(m, c, m', m.locked, Interrupted(e, l, irq));
    later := Then(tr, c, m');
    assert Extends(tr, tr);
    assert Hopeless(m', c);
    StuckExactly(later);
  }

  // ---- Every run of atomic sections happens -----------------------------------

  predicate Waits(core: Core) { core.Acquiring? || core.Trying? || core.Spinning? }

  /**
   A core that waits for a free lock, spins on it or tries it may take it, and
   completes its section if that does not panic.
  */
  lemma {:induction false} WaiterCommits(tr: Trace, c: nat) returns (later: Trace)
    requires tr.Valid() && !tr.Last().locked && c < |tr.Last().cores| && Waits(tr.Last().cores[c])
    requires Shaped(tr.Last().table) && tr.Last().cores[c].event.Valid()
    requires |tr.Last().table.queue| <= 64 && Atomic(tr.Last().table, tr.Last().cores[c].event).Some?
    ensures later.Valid() && Extends(later, tr) && !later.Last().locked
    ensures later.Committed() == tr.Committed() + [tr.Last().cores[c].event]
    ensures later.Last().cores == tr.Last().cores[c := Outside]
    decreases tr.Last().cores[c].Spinning?
  {
    var m, e := tr.Last(), tr.Last().cores[c].event;
    if m.cores[c].Spinning? {
      var next := Then(tr, c, m.(cores := m.cores[c := Acquiring(e)]));
      later := WaiterCommits(next, c);
      ExtendsTrans(later, next, tr);
      assert m.cores[c := Acquiring(e)][c := Outside] == m.cores[c := Outside];
    } else {
      var inside := m.(locked := true, cores := m.cores[c := Inside(e, Begin)]);
      var next := Then(tr, c, inside);
      assert Moves(m, c, inside, true, Inside(e, Begin));
      MicroIsAtomic(m.table, e);
      later := CanRelease(next, c);
      ExtendsTrans(later, next, tr);
      assert m.cores[c := Inside(e, Begin)][c := Outside] == m.cores[c := Outside];
    }
  }

  /** A core outside may call lock or try_lock when the lock is free, and completes its section. */
  lemma {:induction false} CallerCommits(tr: Trace, c: nat, e: Event, try: bool) returns (later: Trace)
    requires tr.Valid() && !tr.Last().locked && c < |tr.Last().cores| && tr.Last().cores[c] == Outside && Own(c, e)
    requires Shaped(tr.Last().table) && Atomic(tr.Last().table, e).Some?
    ensures later.Valid() && Extends(later, tr) && !later.Last().locked
    ensures later.Committed() == tr.Committed() + [e] && later.Last().cores == tr.Last().cores
  {
    TraceInv(tr);
    var m := tr.Last();
    SafeQueueFits(m.table);
    var core := if try then Trying(e) else Acquiring(e);
    var next := Then(tr, c, m.(cores := m.cores[c := core]));
    assert Moves(m, c, next.state, m.locked, core);
    later := WaiterCommits(next, c);
    ExtendsTrans(later, next, tr);
    assert m.cores[c := core][c := Outside] == m.cores;
  }

  /** The core that runs each section: starts and interrupts are those of the core itself. */
  predicate Assigned(es: seq<Event>, cs: seq<nat>, cores: nat) {
    |cs| == |es| && forall i :: 0 <= i < |es| ==> cs[i] < cores && Own(cs[i], es[i])
  }

  /** One more section after a run of them. */
  lemma {:induction false} NextCommits(before: Trace, cores: seq<Core>, es: seq<Event>, e: Event, c: nat, try: bool)
    returns (tr: Trace)
    requires AllOutside(cores) && ValidEvents(es) && e.Valid() && c < |cores| && Own(c, e)
    requires before.Valid() && before.Committed() == es && Exec(EmptyTable(), es).Some?
    requires before.Last() == Cores(false, Exec(EmptyTable(), es).value, cores)
    requires Step(before.Last().table, e).Some?
    ensures tr.Valid() && tr.Committed() == es + [e] && ValidEvents(es + [e])
    ensures Exec(EmptyTable(), es + [e]).Some?
    ensures tr.Last() == Cores(false, Exec(EmptyTable(), es + [e]).value, cores)
  {
    ExecSnoc(EmptyTable(), es, e);
    AtomicIsStep(before.Last().table, e);
    tr := CallerCommits(before, c, e, try);
    LockReduction(tr);
  }

  lemma {:induction false} Shortened(es: seq<Event>, cs: seq<nat>, cores: nat, n: nat)
    requires ValidEvents(es) && Exec(EmptyTable(), es).Some? && Assigned(es, cs, cores) && n + 1 == |es|
    ensures ValidEvents(es[..n]) && Assigned(es[..n], cs[..n], cores) && es[..n] + [es[n]] == es
    ensures Exec(EmptyTable(), es[..n]).Some? && Step(Exec(EmptyTable(), es[..n]).value, es[n]).Some?
    ensures es[n].Valid() && cs[n] < cores && Own(cs[n], es[n])
  {
    assert es == es[..n] + [es[n]];
    assert forall i :: 0 <= i < n ==> es[..n][i] == es[i] && cs[..n][i] == cs[i];
    assert Own(cs[n], es[n]);
    ExecSnoc(EmptyTable(), es[..n], es[n]);
  }

  /**
   The converse of the reduction: every run of atomic sections that does not
   panic, on cores of any number, is what some run of the lock commits.
  */
  lemma {:induction false} EveryRunHappens(cores: seq<Core>, es: seq<Event>, cs: seq<nat>) returns (tr: Trace)
    requires AllOutside(cores) && ValidEvents(es) && Exec(EmptyTable(), es).Some? && Assigned(es, cs, |cores|)
    ensures tr.Valid() && tr.Committed() == es && tr.Last() == Cores(false, Exec(EmptyTable(), es).value, cores)
  {
    if es == [] {
      tr := First(cores);
    } else {
      var n := |es| - 1;
      Shortened(es, cs, |cores|, n);
      var before := EveryRunHappens(cores, es[..n], cs[..n]);
      tr := NextCommits(before, cores, es[..n], es[n], cs[n], n % 2 == 0);
    }
  }
}
