/** The process table and the run queue (src/kernel/process.rs). */

/** The table as a value: what the lock protects, plus the per-CPU CURRENT array. */
module ProcessModel {
  import opened Machine
  import opened Wrappers

  const MAX_PROCS: nat := 64
  const MAX_CPUS: nat := 4
  const CPU_NONE: u64 := U64_MAX
  const INVALID_IDX: u64 := U64_MAX
  const STACK_SIZE: nat := 512 * 1024

  datatype State = Ready | Running | Blocked | Terminated

  datatype Process = Process(
    id: u32,
    entry: u64,
    state: State,
    stackTop: u64,
    contextSp: u64,
    runningOn: u64,
    inRunQueue: bool)

  type Slots = s: seq<Option<Process>> | |s| == MAX_PROCS witness seq(MAX_PROCS, _ => None)

  datatype Sched = Sched(slots: Slots, nextPid: u32, queue: seq<nat>, current: seq<u64>)

  ghost predicate Shaped(s: Sched) {
    && |s.current| == MAX_CPUS
    && (forall k :: 0 <= k < |s.queue| ==> s.queue[k] < MAX_PROCS)
    && (forall c :: 0 <= c < MAX_CPUS ==> s.current[c] == INVALID_IDX || s.current[c] < MAX_PROCS)
  }

  function EmptyTable(): Sched {
    Sched(seq(MAX_PROCS, _ => None), 1, [], seq(MAX_CPUS, _ => INVALID_IDX))
  }

  // ---- Run queue -----------------------------------------------------------

  /** A full queue drops the entry silently. */
  function Pushed(q: seq<nat>, idx: nat): seq<nat> {
    if |q| >= MAX_PROCS then q else q + [idx]
  }

  /** Moving the front entry of a rotated queue to the back rotates it once more. */
  lemma {:induction false} RotateStep(q: seq<nat>, i: nat)
    requires i < |q|
    ensures (q[i..] + q[..i])[0] == q[i]
    ensures (q[i..] + q[..i])[1..] == q[i + 1..] + q[..i]
    ensures |q| <= MAX_PROCS ==> Pushed(q[i + 1..] + q[..i], q[i]) == q[i + 1..] + q[..i + 1]
  {
    assert q[i..] == [q[i]] + q[i + 1..];
    assert q[i..] + q[..i] == [q[i]] + (q[i + 1..] + q[..i]);
    assert q[..i + 1] == q[..i] + [q[i]];
  }

  predicate Takeable(slots: Slots, idx: nat)
    requires idx < MAX_PROCS
  {
    slots[idx].Some? && slots[idx].value.state == Ready && slots[idx].value.runningOn == CPU_NONE
  }

  /** Position of the first entry the scheduler may take; |q| when there is none. */
  function FirstTakeable(slots: Slots, q: seq<nat>): (k: nat)
    requires forall j :: 0 <= j < |q| ==> q[j] < MAX_PROCS
    ensures k <= |q|
    ensures forall j :: 0 <= j < k ==> !Takeable(slots, q[j])
    ensures k < |q| ==> Takeable(slots, q[k])
  {
    if q == [] then 0
    else if Takeable(slots, q[0]) then 0
    else 1 + FirstTakeable(slots, q[1..])
  }

  function Unqueue(slots: Slots, idx: nat): Slots
    requires idx < MAX_PROCS
  {
    if slots[idx].Some? then slots[idx := Some(slots[idx].value.(inRunQueue := false))] else slots
  }

  /** Round-robin scan: skipped entries go to the back of the queue. */
  function Dequeue(s: Sched): (r: (Sched, Option<nat>))
    requires Shaped(s)
    ensures Shaped(r.0)
    ensures r.1.Some? ==> r.1.value < MAX_PROCS
  {
    var k := FirstTakeable(s.slots, s.queue);
    if k < |s.queue| then
      (s.(slots := Unqueue(s.slots, s.queue[k]), queue := s.queue[k + 1..] + s.queue[..k]), Some(s.queue[k]))
    else (s, None)
  }

  /** Entry k is taken: those before it are skipped and go behind the rest, in order. */
  ghost predicate TakenAt(s: Sched, k: nat)
    requires Shaped(s) && k < |s.queue|
  {
    && Takeable(s.slots, s.queue[k]) && (forall j :: 0 <= j < k ==> !Takeable(s.slots, s.queue[j]))
    && Dequeue(s).1 == Some(s.queue[k]) && Dequeue(s).0.queue == s.queue[k + 1..] + s.queue[..k]
  }

  /** The result is the first entry that may run; there is none exactly when no entry may, and then nothing changes. */
  lemma {:induction false} DequeueExactly(s: Sched)
    requires Shaped(s)
    ensures Dequeue(s).1 == None <==> forall j :: 0 <= j < |s.queue| ==> !Takeable(s.slots, s.queue[j])
    ensures Dequeue(s).1 == None ==> Dequeue(s).0 == s
    ensures Dequeue(s).1.Some? ==> exists k :: 0 <= k < |s.queue| && TakenAt(s, k)
  {
    var k := FirstTakeable(s.slots, s.queue);
    if k < |s.queue| {
      assert TakenAt(s, k);
    }
  }

  // ---- Process creation ----------------------------------------------------

  const TRAP_FRAME_SIZE: nat := 288

  datatype TrapFrame = TrapFrame(elr: u64, spsr: u64, spEl0: u64)

  function FreshFrame(entry: u64): TrapFrame { TrapFrame(entry, 0x5, 0) }

  /** Address of the initial trap frame: (stack_top - 288) & !0xF in wrapping arithmetic. */
  function InitContext(stackTop: u64): u64 {
    var p := (stackTop + (TWO64 - TRAP_FRAME_SIZE)) % TWO64;
    p - p % 16
  }

  function NextPid(pid: u32): u32 { Max((pid + 1) % TWO32, 1) }

  function FirstFree(slots: seq<Option<Process>>): (k: nat)
    ensures k <= |slots|
    ensures forall j :: 0 <= j < k ==> slots[j].Some?
    ensures k < |slots| ==> slots[k].None?
  {
    if slots == [] || slots[0].None? then 0 else 1 + FirstFree(slots[1..])
  }

  /** `stacks` is the address of the static PROCESS_STACKS array. */
  function StackTop(stacks: nat, idx: nat, requested: u64): u64
    requires stacks + MAX_PROCS * STACK_SIZE < TWO64 && idx < MAX_PROCS
  {
    if requested == 0 then stacks + idx * STACK_SIZE + STACK_SIZE else requested
  }

  function NewProcess(pid: u32, entry: u64, stackTop: u64): Process {
    Process(pid, entry, Ready, stackTop, InitContext(stackTop), CPU_NONE, true)
  }

  function Create(s: Sched, stacks: nat, entry: u64, requested: u64): (r: (Sched, Option<u32>))
    requires Shaped(s) && stacks + MAX_PROCS * STACK_SIZE < TWO64
    ensures Shaped(r.0)
  {
    var idx := FirstFree(s.slots);
    if idx == MAX_PROCS then (s, None)
    else
      var p := NewProcess(s.nextPid, entry, StackTop(stacks, idx, requested));
      (s.(slots := s.slots[idx := Some(p)], nextPid := NextPid(s.nextPid), queue := Pushed(s.queue, idx)),
       Some(s.nextPid))
  }

  /** Index of the first process with this pid; |slots| when there is none. */
  function FindPid(slots: seq<Option<Process>>, pid: u32): (k: nat)
    ensures k <= |slots|
    ensures k < |slots| ==> slots[k].Some? && slots[k].value.id == pid
    ensures forall j :: 0 <= j < k ==> slots[j].None? || slots[j].value.id != pid
  {
    if slots == [] then 0
    else if slots[0].Some? && slots[0].value.id == pid then 0
    else 1 + FindPid(slots[1..], pid)
  }

  function SetState(s: Sched, pid: u32, state: State): (r: (Sched, bool))
    requires Shaped(s)
    ensures Shaped(r.0)
  {
    var k := FindPid(s.slots, pid);
    if k == MAX_PROCS then (s, false)
    else (s.(slots := s.slots[k := Some(s.slots[k].value.(state := state))]), true)
  }

  // ---- Scheduling ----------------------------------------------------------

  /** The interrupted process: its frame is recorded, and if it was Running it becomes Ready. */
  function SaveCurrent(s: Sched, cpu: nat, frame: u64): (r: Sched)
    requires Shaped(s) && cpu < MAX_CPUS
    ensures Shaped(r)
  {
    var cur := s.current[cpu];
    if cur == INVALID_IDX || s.slots[cur].None? then s
    else
      var p := s.slots[cur].value.(contextSp := frame);
      var q := if p.state == Running then p.(state := Ready, runningOn := CPU_NONE, inRunQueue := false) else p;
      s.(slots := s.slots[cur := Some(q)])
  }

  /** Nothing to switch to: the interrupted process keeps the CPU. */
  function KeepCurrent(s: Sched, cpu: nat): (r: Sched)
    requires Shaped(s) && cpu < MAX_CPUS
    ensures Shaped(r)
  {
    var cur := s.current[cpu];
    if cur == INVALID_IDX || s.slots[cur].None? then s
    else s.(slots := s.slots[cur := Some(s.slots[cur].value.(state := Running, runningOn := cpu))])
  }

  function Requeue(s: Sched, cpu: nat): (r: Sched)
    requires Shaped(s) && cpu < MAX_CPUS
    ensures Shaped(r)
    ensures forall i :: 0 <= i < MAX_PROCS ==> r.slots[i].Some? == s.slots[i].Some?
  {
    var cur := s.current[cpu];
    if cur == INVALID_IDX || s.slots[cur].None? then s
    else
      var p := s.slots[cur].value;
      if p.state == Ready && !p.inRunQueue then
        s.(slots := s.slots[cur := Some(p.(inRunQueue := true))], queue := Pushed(s.queue, cur))
      else s
  }

  function Dispatch(s: Sched, cpu: nat, next: nat): (r: Sched)
    requires Shaped(s) && cpu < MAX_CPUS && next < MAX_PROCS && s.slots[next].Some?
    ensures Shaped(r)
  {
    var p := s.slots[next].value.(state := Running, runningOn := cpu, inRunQueue := false);
    s.(slots := s.slots[next := Some(p)], current := s.current[cpu := next])
  }

  /** schedule_from_irq: the new table and the frame the interrupt returns to. */
  function FromIrq(s: Sched, cpu: nat, frame: u64): (r: (Sched, u64))
    requires Shaped(s) && cpu < MAX_CPUS
    ensures Shaped(r.0)
  {
    var (t, next) := Dequeue(SaveCurrent(s, cpu, frame));
    if next.None? then (KeepCurrent(t, cpu), frame)
    else if t.slots[next.value].None? then (t, frame)
    else
      var u := Requeue(t, cpu);
      (Dispatch(u, cpu, next.value), u.slots[next.value].value.contextSp)
  }

  /** Where a CPU continues: program counter and stack pointer. */
  datatype Landing = Landing(pc: u64, sp: u64)

  /** start_on_cpu: None is the "no runnable process" panic. */
  function StartOn(s: Sched, cpu: nat): (r: Option<(Sched, Landing)>)
    requires Shaped(s) && cpu < MAX_CPUS
    ensures r.Some? ==> Shaped(r.value.0)
  {
    var (t, next) := Dequeue(s);
    if next.None? || t.slots[next.value].None? then None
    else
      var p := t.slots[next.value].value;
      Some((Dispatch(t, cpu, next.value), Landing(p.entry, p.stackTop)))
  }
}
