/**
 Context hand-off over whole runs: what an interrupt returns into is what that
 process itself was last interrupted with
 (src/kernel/process/scheduler.rs, src/kernel/process.rs,
 src/arch/aarch64/exception.S).
*/
module SchedulerContext {
  import opened Machine
  import opened Wrappers
  import opened ProcessModel
  import opened SchedulerSafety

  /** What an outside observer sees of a run, without looking at the table. */
  datatype Record =
    | Created(process: nat, landing: Landing, frame: u64)
    | Interrupted(cpu: nat, frame: u64)
    | Returned(cpu: nat, process: nat, frame: u64)
    | Entered(cpu: nat, process: nat, landing: Landing)

  /** The process the CPU last returned into or entered. */
  function RunningOn(log: seq<Record>, cpu: nat): nat {
    if log == [] then INVALID_IDX
    else
      var (rest, last) := (log[..|log| - 1], log[|log| - 1]);
      if (last.Returned? || last.Entered?) && last.cpu == cpu then last.process
      else RunningOn(rest, cpu)
  }

  /** The frame of the last interrupt this process suffered; its initial frame before the first one. */
  function LastFrame(log: seq<Record>, process: nat): Option<u64> {
    if log == [] then None
    else
      var (rest, last) := (log[..|log| - 1], log[|log| - 1]);
      if last.Created? && last.process == process then Some(last.frame)
      else if last.Interrupted? && RunningOn(rest, last.cpu) == process then Some(last.frame)
      else LastFrame(rest, process)
  }

  /** The entry point and stack the process was created with. */
  function CreatedWith(log: seq<Record>, process: nat): Option<Landing> {
    if log == [] then None
    else
      var (rest, last) := (log[..|log| - 1], log[|log| - 1]);
      if last.Created? && last.process == process then Some(last.landing)
      else CreatedWith(rest, process)
  }

  /** Every return goes to the frame its process was last interrupted with, every entry to the process's own start. */
  ghost predicate HandsOver(log: seq<Record>) {
    forall i :: 0 <= i < |log| ==>
      match log[i]
      case Returned(_, p, frame) => p != INVALID_IDX ==> LastFrame(log[..i], p) == Some(frame)
      case Entered(_, p, landing) => CreatedWith(log[..i], p) == Some(landing)
      case _ => true
  }

  /** The records of one event. */
  function Observe(s: Sched, e: Event): seq<Record>
    requires Shaped(s) && e.Valid()
  {
    match e
    case Creation(stacks, entry, requested) =>
      var idx := FirstFree(s.slots);
      if idx == MAX_PROCS then []
      else
        var top := StackTop(stacks, idx, requested);
        [Created(idx, Landing(entry, top), InitContext(top))]
    case Start(cpu) => (match StartOn(s, cpu)
                        case None => []
                        case Some(out) => [Entered(cpu, out.0.current[cpu], out.1)])
    case Irq(cpu, frame) =>
      var out := FromIrq(s, cpu, frame);
      [Interrupted(cpu, frame), Returned(cpu, out.0.current[cpu], out.1)]
    case StateSet(_, _) => []
  }

  function History(s: Sched, log: seq<Record>, es: seq<Event>): seq<Record>
    requires Shaped(s) && ValidEvents(es) && Exec(s, es).Some?
    decreases |es|
  {
    if es == [] then log else History(Step(s, es[0]).value, log + Observe(s, es[0]), es[1..])
  }

  ghost predicate Matches(s: Sched, log: seq<Record>) {
    && Safe(s)
    && (forall c :: 0 <= c < MAX_CPUS ==> RunningOn(log, c) == s.current[c])
    && (forall i :: 0 <= i < MAX_PROCS && s.slots[i].Some? ==>
          && LastFrame(log, i) == Some(s.slots[i].value.contextSp)
          && CreatedWith(log, i) == Some(Landing(s.slots[i].value.entry, s.slots[i].value.stackTop)))
  }

  lemma {:induction false} Snoc(log: seq<Record>, r: Record)
    ensures (log + [r])[..|log + [r]| - 1] == log && (log + [r])[|log + [r]| - 1] == r
  {
  }

  lemma {:induction false} HandsOverSnoc(log: seq<Record>, r: Record)
    requires HandsOver(log)
    requires r.Returned? && r.process != INVALID_IDX ==> LastFrame(log, r.process) == Some(r.frame)
    requires r.Entered? ==> CreatedWith(log, r.process) == Some(r.landing)
    ensures HandsOver(log + [r])
  {
    var long := log + [r];
    forall i | 0 <= i < |long|
      ensures long[..i] == log[..Min(i, |log|)]
    {
    }
    assert log[..|log|] == log;
  }

  /** The table t holds the processes of s, with the saved frame of one of them replaced. */
  ghost predicate SameContexts(s: Sched, t: Sched, changed: nat, frame: u64) {
    && (forall i :: 0 <= i < MAX_PROCS ==> (t.slots[i].Some? <==> s.slots[i].Some?))
    && (forall i :: 0 <= i < MAX_PROCS && s.slots[i].Some? ==>
          && t.slots[i].value.entry == s.slots[i].value.entry
          && t.slots[i].value.stackTop == s.slots[i].value.stackTop
          && t.slots[i].value.contextSp == if i == changed then frame else s.slots[i].value.contextSp)
  }

  lemma {:induction false} DequeueContexts(s: Sched)
    requires Shaped(s)
    ensures SameContexts(s, Dequeue(s).0, MAX_PROCS, 0)
  {
  }

  lemma {:induction false} SwitchContexts(s: Sched, cpu: nat, next: nat)
    requires Shaped(s) && cpu < MAX_CPUS && next < MAX_PROCS && s.slots[next].Some?
    ensures SameContexts(s, Requeue(s, cpu), MAX_PROCS, 0)
    ensures SameContexts(s, Dispatch(Requeue(s, cpu), cpu, next), MAX_PROCS, 0)
  {
  }

  /** What an interrupt does to the saved contexts, whatever the states of the processes. */
  lemma {:induction false} IrqContexts(s: Sched, cpu: nat, frame: u64)
    requires Safe(s) && cpu < MAX_CPUS
    ensures var (t, out) := FromIrq(s, cpu, frame);
      && (forall c :: 0 <= c < MAX_CPUS && c != cpu ==> t.current[c] == s.current[c])
      && SameContexts(s, t, s.current[cpu], frame)
      && (t.current[cpu] != INVALID_IDX ==>
            t.slots[t.current[cpu]].Some? && out == t.slots[t.current[cpu]].value.contextSp)
  {
    var saved := SaveCurrent(s, cpu, frame);
    IrqMiddle(s, cpu, frame);
    SaveSafe(s, cpu, frame);
    DequeueSafe(saved, cpu);
    assert Owns(s, cpu);
    assert SameContexts(s, saved, s.current[cpu], frame);
    DequeueContexts(saved);
    var (t, next) := Dequeue(saved);
    if next.Some? {
      SwitchContexts(t, cpu, next.value);
    }
  }

  lemma {:induction false} InterruptedMatches(s: Sched, t: Sched, log: seq<Record>, cpu: nat, frame: u64)
    requires Matches(s, log) && cpu < MAX_CPUS && SameContexts(s, t, s.current[cpu], frame)
    ensures forall i :: 0 <= i < MAX_PROCS && t.slots[i].Some? ==>
      && LastFrame(log + [Interrupted(cpu, frame)], i) == Some(t.slots[i].value.contextSp)
      && CreatedWith(log + [Interrupted(cpu, frame)], i) ==
        Some(Landing(t.slots[i].value.entry, t.slots[i].value.stackTop))
  {
    Snoc(log, Interrupted(cpu, frame));
  }

  lemma {:induction false} ReturnedMatches(t: Sched, log: seq<Record>, cpu: nat, out: u64)
    requires Safe(t) && HandsOver(log) && cpu < MAX_CPUS
    requires forall c :: 0 <= c < MAX_CPUS && c != cpu ==> RunningOn(log, c) == t.current[c]
    requires forall i :: 0 <= i < MAX_PROCS && t.slots[i].Some? ==>
      && LastFrame(log, i) == Some(t.slots[i].value.contextSp)
      && CreatedWith(log, i) == Some(Landing(t.slots[i].value.entry, t.slots[i].value.stackTop))
    requires t.current[cpu] != INVALID_IDX ==>
      t.slots[t.current[cpu]].Some? && out == t.slots[t.current[cpu]].value.contextSp
    ensures Matches(t, log + [Returned(cpu, t.current[cpu], out)])
    ensures HandsOver(log + [Returned(cpu, t.current[cpu], out)])
  {
    Snoc(log, Returned(cpu, t.current[cpu], out));
    HandsOverSnoc(log, Returned(cpu, t.current[cpu], out));
  }

  lemma {:induction false} IrqMatches(s: Sched, log: seq<Record>, cpu: nat, frame: u64)
    requires Matches(s, log) && HandsOver(log) && cpu < MAX_CPUS
    ensures var e := Irq(cpu, frame);
      Matches(FromIrq(s, cpu, frame).0, log + Observe(s, e)) && HandsOver(log + Observe(s, e))
  {
    var (t, out) := FromIrq(s, cpu, frame);
    var r := Interrupted(cpu, frame);
    IrqSafe(s, cpu, frame);
    IrqContexts(s, cpu, frame);
    InterruptedMatches(s, t, log, cpu, frame);
    Snoc(log, r);
    HandsOverSnoc(log, r);
    ReturnedMatches(t, log + [r], cpu, out);
    assert log + [r] + [Returned(cpu, t.current[cpu], out)] == log + Observe(s, Irq(cpu, frame));
  }

  lemma {:induction false} StartMatches(s: Sched, log: seq<Record>, cpu: nat)
    requires Matches(s, log) && HandsOver(log) && cpu < MAX_CPUS && StartOn(s, cpu).Some?
    ensures var e := Start(cpu);
      Matches(Step(s, e).value, log + Observe(s, e)) && HandsOver(log + Observe(s, e))
  {
    StartSafe(s, cpu);
    DequeueSafe(s, cpu);
    var out := StartOn(s, cpu).value;
    var r := Entered(cpu, out.0.current[cpu], out.1);
    Snoc(log, r);
    HandsOverSnoc(log, r);
  }

  lemma {:induction false} CreationMatches(s: Sched, log: seq<Record>, e: Event)
    requires Matches(s, log) && HandsOver(log) && e.Valid() && e.Creation?
    ensures Matches(Step(s, e).value, log + Observe(s, e)) && HandsOver(log + Observe(s, e))
  {
    StepSafe(s, e);
    if FirstFree(s.slots) == MAX_PROCS {
      assert log + [] == log;
    } else {
      var r := Observe(s, e)[0];
      Snoc(log, r);
      HandsOverSnoc(log, r);
    }
  }

  lemma {:induction false} StepMatches(s: Sched, log: seq<Record>, e: Event)
    requires Matches(s, log) && HandsOver(log) && e.Valid() && Step(s, e).Some?
    ensures Matches(Step(s, e).value, log + Observe(s, e)) && HandsOver(log + Observe(s, e))
  {
    match e
    case Creation(_, _, _) => CreationMatches(s, log, e);
    case Start(cpu) => StartMatches(s, log, cpu);
    case Irq(cpu, frame) => IrqMatches(s, log, cpu, frame);
    case StateSet(_, _) =>
      StepSafe(s, e);
      assert log + [] == log;
  }

  lemma {:induction false} HistoryMatches(s: Sched, log: seq<Record>, es: seq<Event>)
    requires Matches(s, log) && HandsOver(log) && ValidEvents(es) && Exec(s, es).Some?
    ensures HandsOver(History(s, log, es)) && Matches(Exec(s, es).value, History(s, log, es))
    decreases |es|
  {
    if es == [] {
    } else {
      StepMatches(s, log, es[0]);
      HistoryMatches(Step(s, es[0]).value, log + Observe(s, es[0]), es[1..]);
    }
  }

  /**
   In every run, `set_state` calls included: whenever an interrupt returns into
   a process, it returns to the frame that process was last interrupted with,
   or to its initial frame if it never was; and start_on_cpu enters a process
   at the entry and stack it was created with.
  */
  lemma {:induction false} ContextHandOff(es: seq<Event>)
    requires ValidEvents(es) && Exec(EmptyTable(), es).Some?
    ensures HandsOver(History(EmptyTable(), [], es))
  {
    HistoryMatches(EmptyTable(), [], es);
  }

  // ---- First entry ---------------------------------------------------------

  /** The exception return of exception.S: SP leaves the frame, PC is ELR. */
  function Eret(framePtr: u64, frame: TrapFrame): Landing {
    Landing(frame.elr, (framePtr + TRAP_FRAME_SIZE) % TWO64)
  }

  /** start_first of exception.S. */
  function StartFirst(entry: u64, stackTop: u64): Landing {
    Landing(entry, stackTop)
  }

  /**
   A fresh process enters at the same place through its initial trap frame and
   through start_on_cpu exactly when its stack top is 16-byte aligned. The
   frame's saved program status selects EL1 with its own stack pointer (M is
   0b00101) and masks no interrupt (DAIF is 0).
  */
  lemma {:induction false} FirstEntryAgrees(entry: u64, stackTop: u64)
    ensures Eret(InitContext(stackTop), FreshFrame(entry)) == StartFirst(entry, stackTop) <==> stackTop % 16 == 0
    ensures FreshFrame(entry).spsr % 32 == 5 && FreshFrame(entry).spsr / 64 % 16 == 0
  {
    var p := (stackTop + (TWO64 - TRAP_FRAME_SIZE)) % TWO64;
    assert p % 16 == stackTop % 16;
    assert (p + TRAP_FRAME_SIZE) % TWO64 == stackTop;
    if stackTop % 16 != 0 {
      assert (p - p % 16 + TRAP_FRAME_SIZE) % TWO64 != stackTop;
    }
  }

  /** Stacks the kernel picks itself are aligned, since PROCESS_STACKS is. */
  lemma {:induction false} KernelStacksAgree(stacks: nat, idx: nat, entry: u64)
    requires stacks + MAX_PROCS * STACK_SIZE < TWO64 && idx < MAX_PROCS && stacks % 16 == 0
    ensures var top := StackTop(stacks, idx, 0);
      Eret(InitContext(top), FreshFrame(entry)) == StartFirst(entry, top)
  {
    FirstEntryAgrees(entry, StackTop(stacks, idx, 0));
  }
}
