/**
 The stacks of the processes over whole runs
 (src/kernel/process.rs, src/kernel/process/scheduler.rs).

 Addresses and sizes are written out here: a stack of the kernel's own array
 has 512 KiB and a trap frame 288 bytes.
*/
module SchedulerStacks {
  import opened Machine
  import opened Wrappers
  import opened ProcessModel
  import opened SchedulerSafety
  import opened SchedulerContext

  /** Every process is created on a stack of the array at `stacks`, as main.rs does for all of its processes. */
  predicate KernelStacks(es: seq<Event>, stacks: nat) {
    forall k :: 0 <= k < |es| && es[k].Creation? ==> es[k].stacks == stacks && es[k].requested == 0
  }

  /** The frame of 288 bytes at p lies on the i-th stack. */
  predicate OnStack(stacks: nat, i: nat, p: nat) {
    stacks + i * 0x8_0000 <= p && p + 288 <= stacks + (i + 1) * 0x8_0000
  }

  /** Exception entry pushes its frame on the stack of the process that was interrupted. */
  predicate FramesOnStacks(s: Sched, es: seq<Event>, stacks: nat)
    requires Shaped(s) && ValidEvents(es)
    decreases |es|
  {
    es == [] ||
    ((es[0].Irq? && s.current[es[0].cpu] != INVALID_IDX ==> OnStack(stacks, s.current[es[0].cpu], es[0].frame)) &&
     (Step(s, es[0]).Some? ==> FramesOnStacks(Step(s, es[0]).value, es[1..], stacks)))
  }

  ghost predicate Tops(s: Sched, stacks: nat) {
    forall i :: 0 <= i < 64 && s.slots[i].Some? ==> s.slots[i].value.stackTop == stacks + (i + 1) * 0x8_0000
  }

  ghost predicate Frames(s: Sched, stacks: nat) {
    forall i :: 0 <= i < 64 && s.slots[i].Some? ==> OnStack(stacks, i, s.slots[i].value.contextSp)
  }

  /** The stack a process gets: the one of its slot, or the one its creator asked for. */
  lemma {:induction false} CreationGivesStack(s: Sched, stacks: nat, entry: u64, requested: u64)
    requires Shaped(s) && stacks + 64 * 0x8_0000 < TWO64 && FirstFree(s.slots) < 64
    ensures var (idx, p) := (FirstFree(s.slots), Create(s, stacks, entry, requested).0.slots[FirstFree(s.slots)].value);
      && (requested == 0 ==> p.stackTop == stacks + (idx + 1) * 0x8_0000 && OnStack(stacks, idx, p.contextSp))
      && (requested != 0 ==> p.stackTop == requested)
  {
    var top := StackTop(stacks, FirstFree(s.slots), requested);
    if requested == 0 {
      assert InitContext(top) == (top - 288) - (top - 288) % 16;
    }
  }

  /** Only a creation chooses stacks, and only an interrupt saves a frame, that of the process it hit. */
  lemma {:induction false} OtherStepsKeep(s: Sched, e: Event)
    requires Safe(s) && e.Valid() && !e.Creation? && Step(s, e).Some?
    ensures SameContexts(s, Step(s, e).value, if e.Irq? then s.current[e.cpu] else 64, if e.Irq? then e.frame else 0)
  {
    match e
    case Start(cpu) =>
      DequeueSafe(s, cpu);
      DequeueContexts(s);
    case Irq(cpu, frame) => IrqContexts(s, cpu, frame);
    case StateSet(_, _) =>
  }

  lemma {:induction false} StepKeepsTops(s: Sched, e: Event, stacks: nat)
    requires Safe(s) && e.Valid() && Step(s, e).Some? && Tops(s, stacks) && KernelStacks([e], stacks)
    ensures Tops(Step(s, e).value, stacks)
  {
    if e.Creation? {
      assert [e][0].stacks == stacks;
      if FirstFree(s.slots) < 64 {
        CreationGivesStack(s, stacks, e.entry, 0);
      }
    } else {
      OtherStepsKeep(s, e);
    }
  }

  lemma {:induction false} StepKeepsFrames(s: Sched, e: Event, stacks: nat)
    requires Safe(s) && e.Valid() && Step(s, e).Some? && Frames(s, stacks) && KernelStacks([e], stacks)
    requires e.Irq? && s.current[e.cpu] != INVALID_IDX ==> OnStack(stacks, s.current[e.cpu], e.frame)
    ensures Frames(Step(s, e).value, stacks)
  {
    if e.Creation? {
      assert [e][0].stacks == stacks;
      if FirstFree(s.slots) < 64 {
        CreationGivesStack(s, stacks, e.entry, 0);
      }
    } else {
      OtherStepsKeep(s, e);
    }
  }

  lemma {:induction false} ExecKeepsStacks(s: Sched, es: seq<Event>, stacks: nat)
    requires Safe(s) && ValidEvents(es) && Exec(s, es).Some? && KernelStacks(es, stacks) && Tops(s, stacks)
    ensures Tops(Exec(s, es).value, stacks)
    ensures Frames(s, stacks) && FramesOnStacks(s, es, stacks) ==> Frames(Exec(s, es).value, stacks)
    decreases |es|
  {
    if es == [] {
    } else {
      assert KernelStacks([es[0]], stacks);
      StepSafe(s, es[0]);
      StepKeepsTops(s, es[0], stacks);
      if Frames(s, stacks) && FramesOnStacks(s, es, stacks) {
        StepKeepsFrames(s, es[0], stacks);
      }
      ExecKeepsStacks(Step(s, es[0]).value, es[1..], stacks);
    }
  }

  /**
   After any run the process in slot i has the i-th stack of the array, so no
   two processes share one. If every interrupt finds its frame on the stack of
   the process it hit, the saved frame of every process is on that process's
   stack.
  */
  lemma {:induction false} EveryProcessHasItsStack(es: seq<Event>, stacks: nat)
    requires ValidEvents(es) && Exec(EmptyTable(), es).Some? && KernelStacks(es, stacks)
    ensures var s := Exec(EmptyTable(), es).value;
      && (forall i :: 0 <= i < 64 && s.slots[i].Some? ==> s.slots[i].value.stackTop == stacks + (i + 1) * 0x8_0000)
      && (forall i, j :: 0 <= i < j < 64 && s.slots[i].Some? && s.slots[j].Some? ==>
            s.slots[i].value.stackTop <= s.slots[j].value.stackTop - 0x8_0000)
      && (FramesOnStacks(EmptyTable(), es, stacks) ==>
            forall i :: 0 <= i < 64 && s.slots[i].Some? ==> OnStack(stacks, i, s.slots[i].value.contextSp))
  {
    ExecKeepsStacks(EmptyTable(), es, stacks);
  }

  /** Then every interrupt returns to a frame on the stack of the process it resumes. */
  lemma {:induction false} ReturnsOntoOwnStack(es: seq<Event>, cpu: nat, frame: u64, stacks: nat)
    requires ValidEvents(es) && Exec(EmptyTable(), es).Some? && KernelStacks(es, stacks) && cpu < MAX_CPUS
    requires var s := Exec(EmptyTable(), es).value;
      FramesOnStacks(EmptyTable(), es, stacks) && FramesOnStacks(s, [Irq(cpu, frame)], stacks)
    ensures var (t, out) := FromIrq(Exec(EmptyTable(), es).value, cpu, frame);
      t.current[cpu] != INVALID_IDX ==> OnStack(stacks, t.current[cpu], out)
  {
    ExecSafe(EmptyTable(), es);
    ExecKeepsStacks(EmptyTable(), es, stacks);
    var s := Exec(EmptyTable(), es).value;
    assert KernelStacks([Irq(cpu, frame)], stacks);
    StepKeepsFrames(s, Irq(cpu, frame), stacks);
    IrqContexts(s, cpu, frame);
  }
}
