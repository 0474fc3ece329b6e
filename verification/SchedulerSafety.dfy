/**
 What every run of the scheduler keeps, whatever the interleaving of the
 CPUs and whatever `set_state` does in between
 (src/kernel/process/scheduler.rs, src/kernel/process.rs).

 One event is one critical section of the table lock; module SpinLock shows
 that finer interleavings give the same tables.
*/
module SchedulerSafety {
  import opened Machine
  import opened Wrappers
  import opened ProcessModel

  /** One critical section. `stacks` is the address of PROCESS_STACKS. */
  datatype Event =
    | Creation(stacks: nat, entry: u64, requested: u64)
    | Start(cpu: nat)
    | Irq(cpu: nat, frame: u64)
    | StateSet(pid: u32, state: State)
  {
    predicate Valid() {
      match this
      case Creation(stacks, _, _) => stacks + MAX_PROCS * STACK_SIZE < TWO64
      case Start(cpu) => cpu < MAX_CPUS
      case Irq(cpu, _) => cpu < MAX_CPUS
      case StateSet(_, _) => true
    }
  }

  /** The table after the event; None when the event panics. */
  function Step(s: Sched, e: Event): (r: Option<Sched>)
    requires Shaped(s) && e.Valid()
    ensures r.Some? ==> Shaped(r.value)
  {
    match e
    case Creation(stacks, entry, requested) => Some(Create(s, stacks, entry, requested).0)
    case Start(cpu) => (match StartOn(s, cpu) case None => None case Some(out) => Some(out.0))
    case Irq(cpu, frame) => Some(FromIrq(s, cpu, frame).0)
    case StateSet(pid, state) => Some(SetState(s, pid, state).0)
  }

  predicate ValidEvents(es: seq<Event>) {
    forall i :: 0 <= i < |es| ==> es[i].Valid()
  }

  /** The table after a run; None when some event panicked. */
  function Exec(s: Sched, es: seq<Event>): (r: Option<Sched>)
    requires Shaped(s) && ValidEvents(es)
    ensures r.Some? ==> Shaped(r.value)
    decreases |es|
  {
    if es == [] then Some(s)
    else
      match Step(s, es[0])
      case None => None
      case Some(t) => Exec(t, es[1..])
  }

  // ---- Queue facts ---------------------------------------------------------

  ghost predicate Distinct(q: seq<nat>) {
    forall i, j :: 0 <= i < j < |q| ==> q[i] != q[j]
  }

  function Without(q: seq<nat>, k: nat): seq<nat>
    requires k < |q|
  {
    q[k + 1..] + q[..k]
  }

  lemma {:induction false} WithoutMembers(q: seq<nat>, k: nat)
    requires Distinct(q) && k < |q|
    ensures Distinct(Without(q, k))
    ensures forall x :: x in Without(q, k) <==> x in q && x != q[k]
  {
    var r := Without(q, k);
    forall x | x in q && x != q[k]
      ensures x in r
    {
      var i :| 0 <= i < |q| && q[i] == x;
      assert r[if i > k then i - k - 1 else i + |q| - k - 1] == x;
    }
  }

  function Members(q: seq<nat>): set<nat> {
    set x | x in q
  }

  lemma {:induction false} DistinctCount(q: seq<nat>, bound: set<nat>)
    requires Distinct(q) && (forall x :: x in q ==> x in bound)
    ensures |q| <= |bound|
    ensures |Members(q)| == |q|
  {
    if q == [] {
    } else {
      var rest := q[1..];
      assert q[0] !in rest && (forall x :: x in rest ==> x in q);
      DistinctCount(rest, bound - {q[0]});
      assert Members(q) == Members(rest) + {q[0]};
    }
  }

  function UpTo(n: nat): (r: set<nat>)
    ensures |r| == n
    ensures forall i: nat :: i in r <==> i < n
  {
    if n == 0 then {} else UpTo(n - 1) + {n - 1}
  }

  lemma {:induction false} DistinctBelow(q: seq<nat>, idx: nat, n: nat)
    requires Distinct(q) && (forall k :: 0 <= k < |q| ==> q[k] < n) && idx < n && idx !in q
    ensures |q| < n
  {
    DistinctCount(q, UpTo(n) - {idx});
  }

  /** A queue of distinct indices that misses one index is never full. */
  lemma {:induction false} QueueHasRoom(q: seq<nat>, idx: nat)
    requires Distinct(q) && (forall k :: 0 <= k < |q| ==> q[k] < MAX_PROCS) && idx < MAX_PROCS && idx !in q
    ensures |q| < MAX_PROCS && Pushed(q, idx) == q + [idx] && Distinct(q + [idx])
  {
    DistinctBelow(q, idx, MAX_PROCS);
  }

  // ---- The safety invariant ------------------------------------------------

  ghost predicate QueueExact(s: Sched)
    requires Shaped(s)
  {
    && Distinct(s.queue)
    && (forall i :: 0 <= i < MAX_PROCS && s.slots[i].Some? ==> (s.slots[i].value.inRunQueue <==> i in s.queue))
    && (forall i :: i in s.queue ==> s.slots[i].Some?)
  }

  /** What CURRENT[c] promises about the process it names. */
  ghost predicate Owns(s: Sched, c: nat)
    requires Shaped(s) && c < MAX_CPUS
  {
    var i := s.current[c];
    i != INVALID_IDX ==> s.slots[i].Some? && s.slots[i].value.runningOn == c && i !in s.queue
  }

  ghost predicate Safe(s: Sched) {
    Shaped(s) && QueueExact(s) && (forall c :: 0 <= c < MAX_CPUS ==> Owns(s, c))
  }

  /** The invariant inside a critical section of `cpu`. */
  ghost predicate SafeBut(s: Sched, cpu: nat) {
    Shaped(s) && QueueExact(s) && (forall c :: 0 <= c < MAX_CPUS && c != cpu ==> Owns(s, c))
  }

  /** Ownership on the other CPUs survives an update of slots they do not run. */
  lemma {:induction false} OwnsFrame(s: Sched, t: Sched, cpu: nat)
    requires SafeBut(s, cpu) && Shaped(t) && t.current == s.current
    requires forall x :: x in t.queue ==> x in s.queue
    requires forall i :: 0 <= i < MAX_PROCS && s.slots[i].Some? ==>
      t.slots[i].Some? && (t.slots[i].value.runningOn == s.slots[i].value.runningOn
                           || forall c :: 0 <= c < MAX_CPUS && c != cpu ==> s.current[c] != i)
    ensures forall c :: 0 <= c < MAX_CPUS && c != cpu ==> Owns(t, c)
  {
    forall c | 0 <= c < MAX_CPUS && c != cpu
      ensures Owns(t, c)
    {
      assert Owns(s, c);
    }
  }

  lemma {:induction false} DequeueSafe(s: Sched, cpu: nat)
    requires SafeBut(s, cpu)
    ensures SafeBut(Dequeue(s).0, cpu)
    ensures Dequeue(s).1 == None ==> Dequeue(s).0 == s
    ensures Dequeue(s).1.Some? ==>
      var i := Dequeue(s).1.value;
      i in s.queue && Takeable(s.slots, i) && i !in Dequeue(s).0.queue
      && Dequeue(s).0.slots == s.slots[i := Some(s.slots[i].value.(inRunQueue := false))]
      && Dequeue(s).0.current == s.current
      && (forall x :: x in Dequeue(s).0.queue <==> x in s.queue && x != i)
  {
    var k := FirstTakeable(s.slots, s.queue);
    if k < |s.queue| {
      WithoutMembers(s.queue, k);
      var t := Dequeue(s).0;
      assert t.queue == Without(s.queue, k);
      OwnsFrame(s, t, cpu);
    }
  }

  lemma {:induction false} SaveSafe(s: Sched, cpu: nat, frame: u64)
    requires Safe(s) && cpu < MAX_CPUS
    ensures SafeBut(SaveCurrent(s, cpu, frame), cpu)
    ensures SaveCurrent(s, cpu, frame).queue == s.queue && SaveCurrent(s, cpu, frame).current == s.current
  {
    var t := SaveCurrent(s, cpu, frame);
    var cur := s.current[cpu];
    assert Owns(s, cpu);
    forall c | 0 <= c < MAX_CPUS && c != cpu && cur != INVALID_IDX
      ensures s.current[c] != cur
    {
      assert Owns(s, c);
    }
    OwnsFrame(s, t, cpu);
  }

  lemma {:induction false} RequeueSafe(s: Sched, cpu: nat)
    requires SafeBut(s, cpu) && cpu < MAX_CPUS
    requires forall c :: 0 <= c < MAX_CPUS && c != cpu && s.current[cpu] != INVALID_IDX ==>
      s.current[c] != s.current[cpu]
    ensures SafeBut(Requeue(s, cpu), cpu)
    ensures forall i :: 0 <= i < MAX_PROCS && s.slots[i].Some? ==>
      Requeue(s, cpu).slots[i] == Some(s.slots[i].value.(inRunQueue := Requeue(s, cpu).slots[i].value.inRunQueue))
    ensures forall x :: x in Requeue(s, cpu).queue ==> x in s.queue || x == s.current[cpu]
    ensures Requeue(s, cpu).current == s.current
  {
    var cur := s.current[cpu];
    if cur != INVALID_IDX && s.slots[cur].Some? && s.slots[cur].value.state == Ready && !s.slots[cur].value.inRunQueue {
      assert cur !in s.queue;
      QueueHasRoom(s.queue, cur);
      var t := Requeue(s, cpu);
      forall c | 0 <= c < MAX_CPUS && c != cpu
        ensures Owns(t, c)
      {
        assert Owns(s, c);
      }
    }
  }

  lemma {:induction false} DispatchSafe(s: Sched, cpu: nat, next: nat)
    requires SafeBut(s, cpu) && cpu < MAX_CPUS && next < MAX_PROCS && s.slots[next].Some?
    requires next !in s.queue && s.slots[next].value.runningOn == CPU_NONE
    ensures Safe(Dispatch(s, cpu, next))
  {
    var t := Dispatch(s, cpu, next);
    forall c | 0 <= c < MAX_CPUS
      ensures Owns(t, c)
    {
      assert c != cpu ==> Owns(s, c);
    }
  }

  lemma {:induction false} CreationSafe(s: Sched, stacks: nat, entry: u64, requested: u64)
    requires Safe(s) && stacks + MAX_PROCS * STACK_SIZE < TWO64
    ensures Safe(Create(s, stacks, entry, requested).0)
    ensures var idx := FirstFree(s.slots);
      idx < MAX_PROCS ==> Create(s, stacks, entry, requested).0.queue == s.queue + [idx] && idx !in s.queue
  {
    var idx := FirstFree(s.slots);
    if idx < MAX_PROCS {
      assert idx !in s.queue;
      QueueHasRoom(s.queue, idx);
      var t := Create(s, stacks, entry, requested).0;
      forall c | 0 <= c < MAX_CPUS
        ensures Owns(t, c)
      {
        assert Owns(s, c);
      }
    }
  }

  lemma {:induction false} SetStateSafe(s: Sched, pid: u32, state: State)
    requires Safe(s)
    ensures Safe(SetState(s, pid, state).0)
  {
    var t := SetState(s, pid, state).0;
    forall c | 0 <= c < MAX_CPUS
      ensures Owns(t, c)
    {
      assert Owns(s, c);
    }
  }

  lemma {:induction false} StartSafe(s: Sched, cpu: nat)
    requires Safe(s) && cpu < MAX_CPUS
    ensures StartOn(s, cpu).Some? ==> Safe(StartOn(s, cpu).value.0)
    ensures StartOn(s, cpu) == None <==> Dequeue(s).1 == None
  {
    DequeueSafe(s, cpu);
    if Dequeue(s).1.Some? {
      DispatchSafe(Dequeue(s).0, cpu, Dequeue(s).1.value);
    }
  }

  /** After the interrupted process was requeued, the next one is still free to run. */
  lemma {:induction false} IrqMiddle(s: Sched, cpu: nat, frame: u64)
    requires Safe(s) && cpu < MAX_CPUS
    ensures var (t, next) := Dequeue(SaveCurrent(s, cpu, frame));
      next.Some? ==>
        var u := Requeue(t, cpu);
        && SafeBut(u, cpu) && u.slots[next.value].Some?
        && next.value !in u.queue && u.slots[next.value].value.runningOn == CPU_NONE
        && next.value != s.current[cpu] && next.value in s.queue
        && u.current == s.current
  {
    var saved := SaveCurrent(s, cpu, frame);
    SaveSafe(s, cpu, frame);
    DequeueSafe(saved, cpu);
    var (t, next) := Dequeue(saved);
    if next.Some? {
      assert Owns(s, cpu);
      forall c | 0 <= c < MAX_CPUS && c != cpu && t.current[cpu] != INVALID_IDX
        ensures t.current[c] != t.current[cpu]
      {
        assert Owns(s, c);
      }
      RequeueSafe(t, cpu);
    }
  }

  lemma {:induction false} IrqSafe(s: Sched, cpu: nat, frame: u64)
    requires Safe(s) && cpu < MAX_CPUS
    ensures Safe(FromIrq(s, cpu, frame).0)
  {
    var saved := SaveCurrent(s, cpu, frame);
    SaveSafe(s, cpu, frame);
    DequeueSafe(saved, cpu);
    var (t, next) := Dequeue(saved);
    if next.Some? {
      IrqMiddle(s, cpu, frame);
      DispatchSafe(Requeue(t, cpu), cpu, next.value);
    } else {
      KeepSafe(s, cpu, frame);
    }
  }

  lemma {:induction false} KeepSafe(s: Sched, cpu: nat, frame: u64)
    requires Safe(s) && cpu < MAX_CPUS
    ensures Safe(KeepCurrent(SaveCurrent(s, cpu, frame), cpu))
  {
    var t := KeepCurrent(SaveCurrent(s, cpu, frame), cpu);
    forall c | 0 <= c < MAX_CPUS
      ensures Owns(t, c)
    {
      assert Owns(s, c) && Owns(s, cpu);
    }
  }

  lemma {:induction false} StepSafe(s: Sched, e: Event)
    requires Safe(s) && e.Valid()
    ensures Step(s, e).Some? ==> Safe(Step(s, e).value)
  {
    match e
    case Creation(stacks, entry, requested) => CreationSafe(s, stacks, entry, requested);
    case Start(cpu) => StartSafe(s, cpu);
    case Irq(cpu, frame) => IrqSafe(s, cpu, frame);
    case StateSet(pid, state) => SetStateSafe(s, pid, state);
  }

  lemma {:induction false} ExecSafe(s: Sched, es: seq<Event>)
    requires Safe(s) && ValidEvents(es)
    ensures Exec(s, es).Some? ==> Safe(Exec(s, es).value)
    decreases |es|
  {
    if es == [] {
    } else {
      StepSafe(s, es[0]);
      if Step(s, es[0]).Some? {
        ExecSafe(Step(s, es[0]).value, es[1..]);
      }
    }
  }

  /**
   In every reachable state, including runs with arbitrary `set_state` calls,
   no process is current on two CPUs, a current process records the CPU it is
   on and is not queued, and the queue holds each flagged process exactly once.
  */
  lemma {:induction false} OneCpuPerProcess(es: seq<Event>)
    requires ValidEvents(es) && Exec(EmptyTable(), es).Some?
    ensures var s := Exec(EmptyTable(), es).value;
      && (forall c, d :: 0 <= c < d < 4 && s.current[c] != INVALID_IDX ==> s.current[c] != s.current[d])
      && (forall c :: 0 <= c < 4 && s.current[c] != INVALID_IDX ==>
            && s.slots[s.current[c]].Some?
            && s.slots[s.current[c]].value.runningOn == c
            && s.current[c] !in s.queue)
      && Distinct(s.queue)
      && (forall i :: 0 <= i < 64 && s.slots[i].Some? ==> (s.slots[i].value.inRunQueue <==> i in s.queue))
  {
    ExecSafe(EmptyTable(), es);
    var s := Exec(EmptyTable(), es).value;
    forall c | 0 <= c < MAX_CPUS && s.current[c] != INVALID_IDX
      ensures s.slots[s.current[c]].Some? && s.slots[s.current[c]].value.runningOn == c && s.current[c] !in s.queue
    {
      assert Owns(s, c);
    }
  }
}
