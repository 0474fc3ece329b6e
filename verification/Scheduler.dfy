/**
 The mutable scheduler state and the operations on it
 (src/kernel/process.rs, src/kernel/process/scheduler.rs), each proved
 against the value-level function of module ProcessModel.
*/
module Scheduler {
  import opened Machine
  import opened Wrappers
  import opened ProcessModel

  /** The i-th slot from the head on, around the ring. */
  function Around(head: nat, i: nat): nat {
    if head + i < MAX_PROCS then head + i else head + i - MAX_PROCS
  }

  /** The source steps with a remainder. */
  lemma {:induction false} StepAround(k: nat)
    requires k < MAX_PROCS
    ensures (k + 1) % MAX_PROCS == Around(k, 1)
  {
  }

  /** Ring buffer of process indices. */
  class RunQueue {
    const slots: array<u64>
    var head: nat
    var tail: nat
    var len: nat

    ghost predicate Valid()
      reads this, slots
    {
      && slots.Length == MAX_PROCS
      && head < MAX_PROCS
      && len <= MAX_PROCS
      && tail == Around(head, len)
    }

    /** The queued entries, oldest first. */
    ghost function Contents(): (q: seq<nat>)
      requires Valid()
      reads this, slots
    {
      seq(len, i requires 0 <= i < len && slots.Length == MAX_PROCS && head < MAX_PROCS &&
        len <= MAX_PROCS reads this, slots =>
        slots[Around(head, i)])
    }

    constructor ()
      ensures Valid() && Contents() == [] && fresh(slots)
    {
      slots := new u64[MAX_PROCS](_ => INVALID_IDX);
      head, tail, len := 0, 0, 0;
    }

    method Push(idx: u64)
      requires Valid()
      modifies this, slots
      ensures Valid()
      ensures Contents() == Pushed(old(Contents()), idx)
    {
      if len >= MAX_PROCS {
        return;
      }
      ghost var q := Contents();
      StepAround(tail);
      slots[tail] := idx;
      tail := (tail + 1) % MAX_PROCS;
      len := len + 1;
      assert Contents() == q + [idx];
    }

    method Pop() returns (r: Option<u64>)
      requires Valid()
      modifies this
      ensures Valid()
      ensures old(Contents()) == [] ==> r == None && Contents() == []
      ensures old(Contents()) != [] ==> r == Some(old(Contents())[0]) && Contents() == old(Contents())[1..]
    {
      if len == 0 {
        return None;
      }
      var idx := slots[head];
      StepAround(head);
      head := (head + 1) % MAX_PROCS;
      len := len - 1;
      return Some(idx);
    }
  }

  class ProcessTable {
    const slots: array<Option<Process>>
    var nextPid: u32
    const runQueue: RunQueue
    /** The static CURRENT array: the process each CPU runs. */
    const current: array<u64>

    ghost function Repr(): set<object> {
      {this, slots, runQueue, runQueue.slots, current}
    }

    ghost predicate Valid()
      reads Repr()
    {
      && slots.Length == MAX_PROCS
      && current.Length == MAX_CPUS
      && runQueue.slots != current
      && runQueue.Valid()
      && Shaped(Sched(slots[..], nextPid, runQueue.Contents(), current[..]))
    }

    ghost function View(): Sched
      requires Valid()
      reads Repr()
    {
      Sched(slots[..], nextPid, runQueue.Contents(), current[..])
    }

    /** process::init */
    constructor ()
      ensures Valid() && fresh(Repr()) && View() == EmptyTable()
    {
      slots := new Option<Process>[MAX_PROCS](_ => None);
      nextPid := 1;
      runQueue := new RunQueue();
      current := new u64[MAX_CPUS](_ => INVALID_IDX);
    }

    // ---- Single updates, stated on the view --------------------------------

    method PutProcess(idx: nat, p: Process)
      requires Valid() && idx < MAX_PROCS
      modifies slots
      ensures Valid()
      ensures View() == old(View()).(slots := old(View()).slots[idx := Some(p)])
    {
      slots[idx] := Some(p);
    }

    method PushBack(idx: nat)
      requires Valid() && idx < MAX_PROCS
      modifies runQueue, runQueue.slots
      ensures Valid()
      ensures View() == old(View()).(queue := Pushed(old(View()).queue, idx))
    {
      runQueue.Push(idx);
    }

    method PopFront() returns (r: Option<u64>)
      requires Valid()
      modifies runQueue
      ensures Valid()
      ensures old(View()).queue == [] ==> r == None && View() == old(View())
      ensures old(View()).queue != [] ==>
        r == Some(old(View()).queue[0]) && r.value < MAX_PROCS &&
        View() == old(View()).(queue := old(View()).queue[1..])
    {
      assert forall k :: 0 <= k < |View().queue| ==> View().queue[k] < MAX_PROCS;
      r := runQueue.Pop();
    }

    method SetCurrent(cpu: nat, idx: nat)
      requires Valid() && cpu < MAX_CPUS && idx < MAX_PROCS
      modifies current
      ensures Valid()
      ensures View() == old(View()).(current := old(View()).current[cpu := idx])
    {
      current[cpu] := idx;
    }

    // ---- Operations ----------------------------------------------------------

    method AllocPid() returns (pid: u32)
      requires Valid()
      modifies this
      ensures Valid()
      ensures pid == old(nextPid) && View() == old(View()).(nextPid := NextPid(old(nextPid)))
      ensures nextPid == if old(nextPid) == 0xFFFF_FFFF then 1 else old(nextPid) + 1
    {
      pid := nextPid;
      nextPid := Max((nextPid + 1) % TWO32, 1);
    }

    /** create_with_mode, without the descriptor table. */
    method CreateProcess(stacks: nat, entry: u64, requested: u64) returns (r: Option<u32>)
      requires Valid() && stacks + MAX_PROCS * STACK_SIZE < TWO64
      modifies Repr()
      ensures Valid()
      ensures (View(), r) == Create(old(View()), stacks, entry, requested)
    {
      for idx := 0 to MAX_PROCS
        invariant Valid() && View() == old(View())
        invariant idx <= FirstFree(slots[..])
      {
        if slots[idx].None? {
          var pid := AllocPid();
          var stackTop := StackTop(stacks, idx, requested);
          PutProcess(idx, NewProcess(pid, entry, stackTop));
          PushBack(idx);
          return Some(pid);
        }
      }
      return None;
    }

    method SetProcessState(pid: u32, state: State) returns (found: bool)
      requires Valid()
      modifies slots
      ensures Valid()
      ensures (View(), found) == SetState(old(View()), pid, state)
    {
      for idx := 0 to MAX_PROCS
        invariant Valid() && View() == old(View())
        invariant idx <= FindPid(slots[..], pid)
      {
        if slots[idx].Some? && slots[idx].value.id == pid {
          PutProcess(idx, slots[idx].value.(state := state));
          return true;
        }
      }
      return false;
    }

    method MayRun(idx: nat) returns (r: bool)
      requires Valid() && idx < MAX_PROCS
      ensures r == Takeable(View().slots, idx)
    {
      if slots[idx].None? {
        return false;
      }
      return slots[idx].value.state == Ready && slots[idx].value.runningOn == CPU_NONE;
    }

    method LeaveQueue(idx: nat)
      requires Valid() && idx < MAX_PROCS && Takeable(View().slots, idx)
      modifies slots
      ensures Valid() && View() == old(View()).(slots := Unqueue(old(View()).slots, idx))
    {
      PutProcess(idx, slots[idx].value.(inRunQueue := false));
    }

    /** One turn of the dequeue loop: the front entry is taken or goes to the back. */
    method TakeOrRotate(ghost s: Sched, ghost i: nat) returns (r: Option<u64>)
      requires Valid() && Shaped(s) && i < |s.queue| <= MAX_PROCS && i <= FirstTakeable(s.slots, s.queue)
      requires View() == s.(queue := s.queue[i..] + s.queue[..i])
      modifies Repr() - {current}
      ensures Valid()
      ensures r.Some? ==> View() == Dequeue(s).0 && r == Dequeue(s).1
      ensures r.None? ==>
        View() == s.(queue := s.queue[i + 1..] + s.queue[..i + 1]) && i < FirstTakeable(s.slots, s.queue)
    {
      RotateStep(s.queue, i);
      var popped := PopFront();
      var take := MayRun(popped.value);
      if take {
        LeaveQueue(popped.value);
        return popped;
      }
      PushBack(popped.value);
      return None;
    }

    /** dequeue_next_runnable */
    method DequeueNextRunnable() returns (r: Option<u64>)
      requires Valid()
      modifies Repr() - {current}
      ensures Valid()
      ensures View() == Dequeue(old(View())).0 && r == Dequeue(old(View())).1
    {
      var initialLen := runQueue.len;
      ghost var s := View();
      assert s.queue[0..] + s.queue[..0] == s.queue;
      for i := 0 to initialLen
        invariant Valid() && View() == s.(queue := s.queue[i..] + s.queue[..i])
        invariant i <= FirstTakeable(s.slots, s.queue)
      {
        r := TakeOrRotate(s, i);
        if r.Some? {
          return;
        }
      }
      assert s.queue[|s.queue|..] + s.queue[..|s.queue|] == s.queue;
      return None;
    }

    /** The part of schedule_from_irq before the queue is consulted. */
    method SaveInterrupted(currentIdx: u64, cpu: nat, frame: u64)
      requires Valid() && cpu < MAX_CPUS && currentIdx == current[cpu]
      modifies slots
      ensures Valid()
      ensures View() == SaveCurrent(old(View()), cpu, frame)
    {
      if currentIdx != INVALID_IDX {
        if slots[currentIdx].Some? {
          PutProcess(currentIdx, slots[currentIdx].value.(contextSp := frame));
          if slots[currentIdx].value.state == Running {
            PutProcess(currentIdx, slots[currentIdx].value.(
              state := Ready, runningOn := CPU_NONE, inRunQueue := false));
          }
        }
      }
    }

    /** The interrupted process goes to the back of the queue. */
    method RequeueInterrupted(currentIdx: u64, cpu: nat)
      requires Valid() && cpu < MAX_CPUS && currentIdx == current[cpu]
      modifies Repr() - {current}
      ensures Valid()
      ensures View() == Requeue(old(View()), cpu)
    {
      if currentIdx != INVALID_IDX {
        if slots[currentIdx].Some? {
          if slots[currentIdx].value.state == Ready && !slots[currentIdx].value.inRunQueue {
            PutProcess(currentIdx, slots[currentIdx].value.(inRunQueue := true));
            PushBack(currentIdx);
          }
        }
      }
    }

    /** Shared tail of both entry points: the process takes the CPU. */
    method SwitchTo(cpu: nat, next: nat)
      requires Valid() && cpu < MAX_CPUS && next < MAX_PROCS && slots[next].Some?
      modifies slots, current
      ensures Valid()
      ensures View() == Dispatch(old(View()), cpu, next)
    {
      PutProcess(next, slots[next].value.(state := Running, runningOn := cpu, inRunQueue := false));
      SetCurrent(cpu, next);
    }

    /** schedule_from_irq */
    method ScheduleFromIrq(cpu: nat, frame: u64) returns (result: u64)
      requires Valid() && cpu < MAX_CPUS
      modifies Repr()
      ensures Valid()
      ensures (View(), result) == FromIrq(old(View()), cpu, frame)
    {
      var currentIdx := current[cpu];
      SaveInterrupted(currentIdx, cpu, frame);
      var nextIdx := DequeueNextRunnable();
      if nextIdx.None? {
        if currentIdx != INVALID_IDX {
          if slots[currentIdx].Some? {
            PutProcess(currentIdx, slots[currentIdx].value.(state := Running, runningOn := cpu));
          }
        }
        return frame;
      }
      result := frame;
      var next := nextIdx.value;
      if slots[next].Some? {
        RequeueInterrupted(currentIdx, cpu);
        result := slots[next].value.contextSp;
        SwitchTo(cpu, next);
      }
    }

    /** start_on_cpu up to the jump; None is the panic of `expect`. */
    method StartOnCpu(cpu: nat) returns (r: Option<Landing>)
      requires Valid() && cpu < MAX_CPUS
      modifies Repr()
      ensures Valid()
      ensures match StartOn(old(View()), cpu)
              case None => r == None
              case Some(out) => View() == out.0 && r == Some(out.1)
    {
      var nextIdx := DequeueNextRunnable();
      if nextIdx.None? {
        return None;
      }
      var next := nextIdx.value;
      if slots[next].Some? {
        r := Some(Landing(slots[next].value.entry, slots[next].value.stackTop));
        SwitchTo(cpu, next);
      } else {
        return None;
      }
    }
  }
}
