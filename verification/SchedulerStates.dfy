/**
 Process states over whole runs: who may be put on a CPU, and what becomes of
 a process that `set_state` blocked or terminated
 (src/kernel/process/scheduler.rs, src/kernel/process.rs).
*/
module SchedulerStates {
  import opened Machine
  import opened Wrappers
  import opened ProcessModel
  import opened SchedulerSafety

  /** Ready and on no CPU. */
  predicate MayRun(s: Sched, i: nat) {
    i < 64 && s.slots[i].Some? && s.slots[i].value.state == Ready && s.slots[i].value.runningOn == U64_MAX
  }

  /** Only a start or an interrupt of the CPU itself puts a process on it, one that waits and is ready. */
  lemma {:induction false} OnlyReadyRuns(s: Sched, e: Event, c: nat)
    requires Safe(s) && e.Valid() && Step(s, e).Some? && c < MAX_CPUS
    requires Step(s, e).value.current[c] != s.current[c]
    ensures (e.Start? || e.Irq?) && e.cpu == c
    ensures MayRun(s, Step(s, e).value.current[c]) && Step(s, e).value.current[c] in s.queue
  {
    match e
    case Start(cpu) => DequeueSafe(s, cpu);
    case Irq(cpu, frame) =>
      SaveSafe(s, cpu, frame);
      DequeueSafe(SaveCurrent(s, cpu, frame), cpu);
      IrqMiddle(s, cpu, frame);
    case Creation(_, _, _) =>
    case StateSet(_, _) =>
  }

  predicate Asleep(s: Sched, i: nat) {
    i < 64 && s.slots[i].Some? && (s.slots[i].value.state == Blocked || s.slots[i].value.state == Terminated)
  }

  ghost predicate NoneMayRun(s: Sched) {
    forall k :: 0 <= k < |s.queue| ==> !MayRun(s, s.queue[k])
  }

  /** What the interrupted process leaves behind is chosen from as it was. */
  lemma {:induction false} ChoosesExactly(s: Sched, cpu: nat, frame: u64)
    requires Safe(s) && cpu < MAX_CPUS
    ensures Dequeue(SaveCurrent(s, cpu, frame)).1 == None <==> NoneMayRun(s)
  {
    var saved := SaveCurrent(s, cpu, frame);
    SaveSafe(s, cpu, frame);
    DequeueExactly(saved);
    assert Owns(s, cpu);
    forall k | 0 <= k < |s.queue|
      ensures Takeable(saved.slots, saved.queue[k]) == MayRun(s, s.queue[k])
    {
      assert s.queue[k] in s.queue;
    }
  }

  /** The interrupt of a CPU that a sleeping process still occupies, with nothing else to run. */
  ghost predicate Wakes(s: Sched, e: Event, i: nat)
    requires Shaped(s) && e.Valid()
  {
    e.Irq? && s.current[e.cpu] == i && NoneMayRun(s)
  }

  ghost predicate StaysAsleep(s: Sched, t: Sched, i: nat)
    requires Asleep(s, i)
  {
    i < |t.slots| && t.slots[i].Some? && t.slots[i].value.id == s.slots[i].value.id &&
    t.slots[i].value.state == s.slots[i].value.state
  }

  lemma {:induction false} SavedSleeper(s: Sched, cpu: nat, frame: u64, i: nat)
    requires Shaped(s) && cpu < MAX_CPUS && Asleep(s, i)
    ensures StaysAsleep(s, SaveCurrent(s, cpu, frame), i)
  {
  }

  /** Another process is chosen, and this one is neither requeued nor dispatched. */
  lemma {:induction false} PassedOver(s: Sched, cpu: nat, next: nat, i: nat)
    requires Shaped(s) && cpu < MAX_CPUS && next < 64 && s.slots[next].Some? && Asleep(s, i) && i != next
    ensures StaysAsleep(s, Dispatch(Requeue(s, cpu), cpu, next), i)
  {
  }

  lemma {:induction false} SleeperIrq(s: Sched, cpu: nat, frame: u64, i: nat)
    requires Safe(s) && cpu < MAX_CPUS && Asleep(s, i)
    ensures var t := FromIrq(s, cpu, frame).0;
      && t.slots[i].Some? && t.slots[i].value.id == s.slots[i].value.id
      && t.slots[i].value.state == if s.current[cpu] == i && NoneMayRun(s) then Running else s.slots[i].value.state
  {
    var saved := SaveCurrent(s, cpu, frame);
    ChoosesExactly(s, cpu, frame);
    SavedSleeper(s, cpu, frame, i);
    SaveSafe(s, cpu, frame);
    DequeueSafe(saved, cpu);
    var (t, next) := Dequeue(saved);
    if next.Some? {
      PassedOver(t, cpu, next.value, i);
    }
  }

  /**
   A blocked or terminated process stays so, except that a timer interrupt on
   its own CPU makes it Running again exactly when nothing else may run.
  */
  lemma {:induction false} SleeperStep(s: Sched, e: Event, i: nat)
    requires Safe(s) && e.Valid() && Step(s, e).Some? && !e.StateSet? && Asleep(s, i)
    ensures Step(s, e).value.slots[i].Some? && Step(s, e).value.slots[i].value.id == s.slots[i].value.id
    ensures Step(s, e).value.slots[i].value.state == if Wakes(s, e, i) then Running else s.slots[i].value.state
  {
    match e
    case Start(cpu) => DequeueSafe(s, cpu);
    case Irq(cpu, frame) => SleeperIrq(s, cpu, frame, i);
    case Creation(_, _, _) =>
    case StateSet(_, _) =>
  }

  /** No `set_state` call of the run names this process. */
  predicate LeftAlone(es: seq<Event>, pid: u32) {
    forall k :: 0 <= k < |es| && es[k].StateSet? ==> es[k].pid != pid
  }

  predicate OffCpu(s: Sched, i: nat)
    requires Shaped(s)
  {
    forall c :: 0 <= c < MAX_CPUS ==> s.current[c] != i
  }

  lemma {:induction false} OffCpuStep(s: Sched, e: Event, i: nat)
    requires Safe(s) && e.Valid() && Step(s, e).Some? && Asleep(s, i) && OffCpu(s, i)
    ensures OffCpu(Step(s, e).value, i)
  {
    forall c | 0 <= c < MAX_CPUS
      ensures Step(s, e).value.current[c] != i
    {
      if Step(s, e).value.current[c] != s.current[c] {
        OnlyReadyRuns(s, e, c);
      }
    }
  }

  /** A process that sleeps off the CPUs is never put on one while nobody sets its state. */
  lemma {:induction false} SleeperSleeps(s: Sched, es: seq<Event>, i: nat)
    requires Safe(s) && ValidEvents(es) && Exec(s, es).Some? && Asleep(s, i) && OffCpu(s, i)
    requires LeftAlone(es, s.slots[i].value.id)
    ensures var t := Exec(s, es).value;
      t.slots[i].Some? && t.slots[i].value.state == s.slots[i].value.state && OffCpu(t, i)
    decreases |es|
  {
    if es == [] {
    } else {
      var e := es[0];
      var t := Step(s, e).value;
      StepSafe(s, e);
      OffCpuStep(s, e, i);
      if !e.StateSet? {
        SleeperStep(s, e, i);
      }
      SleeperSleeps(t, es[1..], i);
    }
  }
}
