/**
 Runs without `set_state` (wake-up is not implemented in the kernel): no
 process is lost, the queue is first-in first-out over the whole run, every
 wait is bounded exactly, and starting a CPU cannot fail
 (src/kernel/process/scheduler.rs, src/main.rs).
*/
module SchedulerFairness {
  import opened Machine
  import opened Wrappers
  import opened ProcessModel
  import opened SchedulerSafety

  /** Events of such a run: start_on_cpu is called once, on a CPU that runs nothing. */
  predicate Quiet(s: Sched, e: Event)
    requires Shaped(s) && e.Valid()
  {
    && !e.StateSet?
    && (e.Start? ==> s.current[e.cpu] == INVALID_IDX)
  }

  predicate QuietRun(s: Sched, es: seq<Event>)
    requires Shaped(s) && ValidEvents(es)
    decreases |es|
  {
    es == [] || (Quiet(s, es[0]) && (Step(s, es[0]).Some? ==> QuietRun(Step(s, es[0]).value, es[1..])))
  }

  // ---- Conservation --------------------------------------------------------

  ghost predicate Placed(s: Sched, i: nat)
    requires Shaped(s) && i < MAX_PROCS && s.slots[i].Some?
  {
    var p := s.slots[i].value;
    || (p.state == Ready && p.runningOn == CPU_NONE && i in s.queue)
    || (p.state == Running && p.runningOn < MAX_CPUS && s.current[p.runningOn] == i)
  }

  /** Every process waits in the queue or runs on a CPU. */
  ghost predicate Conserved(s: Sched) {
    Safe(s) && (forall i :: 0 <= i < MAX_PROCS && s.slots[i].Some? ==> Placed(s, i))
  }

  lemma {:induction false} QueuedIsTakeable(s: Sched, k: nat)
    requires Conserved(s) && k < |s.queue|
    ensures Takeable(s.slots, s.queue[k])
  {
    var i := s.queue[k];
    assert i in s.queue && Placed(s, i);
    assert s.slots[i].value.state == Running ==> Owns(s, s.slots[i].value.runningOn);
  }

  /** With every queued process runnable, the scan takes the head. */
  lemma {:induction false} DequeueHead(s: Sched)
    requires Shaped(s) && (s.queue != [] ==> Takeable(s.slots, s.queue[0]))
    ensures s.queue == [] ==> Dequeue(s) == (s, None)
    ensures s.queue != [] ==>
      Dequeue(s) == (s.(slots := Unqueue(s.slots, s.queue[0]), queue := s.queue[1..]), Some(s.queue[0]))
  {
    if s.queue != [] {
      assert s.queue[1..] + s.queue[..0] == s.queue[1..];
    }
  }

  lemma {:induction false} StartConserved(s: Sched, cpu: nat)
    requires Conserved(s) && cpu < MAX_CPUS && s.current[cpu] == INVALID_IDX
    ensures s.queue == [] <==> StartOn(s, cpu) == None
    ensures s.queue != [] ==>
      var out := StartOn(s, cpu).value;
      && Conserved(out.0)
      && out.0.queue == s.queue[1..]
      && out.0.current == s.current[cpu := s.queue[0]]
  {
    if s.queue == [] {
    } else {
      QueuedIsTakeable(s, 0);
      DequeueHead(s);
      StartSafe(s, cpu);
      var t := StartOn(s, cpu).value.0;
      forall i | 0 <= i < MAX_PROCS && t.slots[i].Some?
        ensures Placed(t, i)
      {
        assert Placed(s, i);
        assert i in s.queue && i != s.queue[0] ==> i in s.queue[1..];
      }
    }
  }

  lemma {:induction false} CreationConserved(s: Sched, stacks: nat, entry: u64, requested: u64)
    requires Conserved(s) && stacks + MAX_PROCS * STACK_SIZE < TWO64
    ensures Conserved(Create(s, stacks, entry, requested).0)
  {
    CreationSafe(s, stacks, entry, requested);
    var t := Create(s, stacks, entry, requested).0;
    forall i | 0 <= i < MAX_PROCS && t.slots[i].Some?
      ensures Placed(t, i)
    {
      if i != FirstFree(s.slots) {
        assert Placed(s, i);
      }
    }
  }

  /** A timer interrupt with nothing queued only records the frame. */
  lemma {:induction false} IrqIdle(s: Sched, cpu: nat, frame: u64)
    requires Conserved(s) && cpu < MAX_CPUS && s.queue == []
    ensures Conserved(FromIrq(s, cpu, frame).0)
    ensures FromIrq(s, cpu, frame).1 == frame
    ensures FromIrq(s, cpu, frame).0.queue == []
    ensures FromIrq(s, cpu, frame).0.current == s.current
  {
    IrqSafe(s, cpu, frame);
    SaveSafe(s, cpu, frame);
    DequeueHead(SaveCurrent(s, cpu, frame));
    var t := FromIrq(s, cpu, frame).0;
    forall i | 0 <= i < MAX_PROCS && t.slots[i].Some?
      ensures Placed(t, i)
    {
      assert Placed(s, i) && Owns(s, cpu);
    }
  }

  function Interrupted(s: Sched, cpu: nat): seq<nat>
    requires Shaped(s) && cpu < MAX_CPUS
  {
    if s.current[cpu] == INVALID_IDX then [] else [s.current[cpu]]
  }

  /** A timer interrupt with a non-empty queue switches to its head and queues the interrupted process. */
  lemma {:induction false} IrqSwitch(s: Sched, cpu: nat, frame: u64)
    requires Conserved(s) && cpu < MAX_CPUS && s.queue != []
    ensures FromIrq(s, cpu, frame).1 == s.slots[s.queue[0]].value.contextSp
    ensures var t := FromIrq(s, cpu, frame).0;
      && t.queue == s.queue[1..] + Interrupted(s, cpu)
      && t.current == s.current[cpu := s.queue[0]]
      && t.slots[s.queue[0]] == Some(s.slots[s.queue[0]].value.(state := Running, runningOn := cpu,
        inRunQueue := false))
      && (s.current[cpu] != INVALID_IDX ==>
            t.slots[s.current[cpu]] == Some(s.slots[s.current[cpu]].value.(
              state := Ready, runningOn := CPU_NONE, inRunQueue := true, contextSp := frame)))
      && (forall i :: 0 <= i < MAX_PROCS && i != s.queue[0] && i != s.current[cpu] ==> t.slots[i] == s.slots[i])
  {
    var cur, head := s.current[cpu], s.queue[0];
    var saved := SaveCurrent(s, cpu, frame);
    QueuedIsTakeable(s, 0);
    assert Owns(s, cpu) && head in s.queue;
    if cur != INVALID_IDX {
      assert Placed(s, cur);
    }
    DequeueHead(saved);
    var t := Dequeue(saved).0;
    if cur != INVALID_IDX {
      assert cur !in s.queue[1..];
      assert forall k :: 0 <= k < |s.queue[1..]| ==> s.queue[1..][k] == s.queue[k + 1];
      QueueHasRoom(s.queue[1..], cur);
    }
  }

  lemma {:induction false} IrqConserved(s: Sched, cpu: nat, frame: u64)
    requires Conserved(s) && cpu < MAX_CPUS
    ensures Conserved(FromIrq(s, cpu, frame).0)
  {
    if s.queue == [] {
      IrqIdle(s, cpu, frame);
    } else {
      IrqSafe(s, cpu, frame);
      IrqSwitch(s, cpu, frame);
      var t := FromIrq(s, cpu, frame).0;
      forall i | 0 <= i < MAX_PROCS && t.slots[i].Some?
        ensures Placed(t, i)
      {
        if i == s.queue[0] {
          assert t.current[cpu] == i;
        } else if i == s.current[cpu] {
          assert t.queue[|s.queue| - 1] == i;
        } else {
          assert Placed(s, i);
          assert i in s.queue ==> i in s.queue[1..];
        }
      }
    }
  }

  lemma {:induction false} StepConserved(s: Sched, e: Event)
    requires Conserved(s) && e.Valid() && Quiet(s, e)
    ensures Step(s, e).Some? ==> Conserved(Step(s, e).value)
  {
    match e
    case Creation(stacks, entry, requested) => CreationConserved(s, stacks, entry, requested);
    case Start(cpu) => StartConserved(s, cpu);
    case Irq(cpu, frame) => IrqConserved(s, cpu, frame);
    case StateSet(_, _) =>
  }

  lemma {:induction false} ExecConserved(s: Sched, es: seq<Event>)
    requires Conserved(s) && ValidEvents(es) && QuietRun(s, es)
    ensures Exec(s, es).Some? ==> Conserved(Exec(s, es).value)
    decreases |es|
  {
    if es == [] {
    } else {
      StepConserved(s, es[0]);
      if Step(s, es[0]).Some? {
        ExecConserved(Step(s, es[0]).value, es[1..]);
      }
    }
  }

  // ---- Only creation fills slots ---------------------------------------------

  lemma {:induction false} DequeueKeepsPids(s: Sched)
    requires Shaped(s)
    ensures SamePids(s, Dequeue(s).0)
  {
  }

  /** Both tables hold the same processes, whatever their scheduling state. */
  ghost predicate SamePids(s: Sched, t: Sched) {
    && t.nextPid == s.nextPid
    && (forall i :: 0 <= i < MAX_PROCS ==> (t.slots[i].Some? <==> s.slots[i].Some?))
    && (forall i :: 0 <= i < MAX_PROCS && s.slots[i].Some? ==> t.slots[i].value.id == s.slots[i].value.id)
  }

  lemma {:induction false} IrqKeepsPids(s: Sched, cpu: nat, frame: u64)
    requires Shaped(s) && cpu < MAX_CPUS
    ensures SamePids(s, FromIrq(s, cpu, frame).0)
  {
    var saved := SaveCurrent(s, cpu, frame);
    assert SamePids(s, saved);
    DequeueKeepsPids(saved);
    var (t, next) := Dequeue(saved);
    assert SamePids(t, Requeue(t, cpu));
  }

  lemma {:induction false} StepKeepsPids(s: Sched, e: Event)
    requires Shaped(s) && e.Valid() && Step(s, e).Some? && !e.Creation?
    ensures SamePids(s, Step(s, e).value)
  {
    match e
    case Start(cpu) => DequeueKeepsPids(s);
    case Irq(cpu, frame) => IrqKeepsPids(s, cpu, frame);
    case StateSet(_, _) =>
  }

  // ---- Counting ------------------------------------------------------------

  function Live(s: Sched): set<nat> {
    set i | 0 <= i < MAX_PROCS && s.slots[i].Some?
  }

  /** How many of the first n CPUs run a process. */
  function BusyCpus(current: seq<u64>, n: nat): nat
    requires n <= |current|
  {
    if n == 0 then 0 else BusyCpus(current, n - 1) + (if current[n - 1] == INVALID_IDX then 0 else 1)
  }

  function Occupants(current: seq<u64>, n: nat): (r: set<nat>)
    requires n <= |current|
    ensures forall i :: i in r ==> i != INVALID_IDX && exists c :: 0 <= c < n && current[c] == i
    ensures forall c :: 0 <= c < n && current[c] != INVALID_IDX ==> current[c] in r
  {
    if n == 0 then {}
    else Occupants(current, n - 1) + (if current[n - 1] == INVALID_IDX then {} else {current[n - 1]})
  }

  lemma {:induction false} OccupantCount(current: seq<u64>, n: nat)
    requires n <= |current|
    requires forall c, d :: 0 <= c < d < n && current[c] != INVALID_IDX ==> current[c] != current[d]
    ensures |Occupants(current, n)| == BusyCpus(current, n)
  {
    if n > 0 {
      OccupantCount(current, n - 1);
    }
  }

  lemma {:induction false} IdleCpu(current: seq<u64>, n: nat, cpu: nat)
    requires cpu < n <= |current| && current[cpu] == INVALID_IDX
    ensures BusyCpus(current, n) < n
  {
    if cpu < n - 1 {
      IdleCpu(current, n - 1, cpu);
    } else {
      BusyBound(current, n - 1);
    }
  }

  lemma {:induction false} BusyBound(current: seq<u64>, n: nat)
    requires n <= |current|
    ensures BusyCpus(current, n) <= n
  {
    if n > 0 {
      BusyBound(current, n - 1);
    }
  }

  lemma {:induction false} OccupantsDistinct(s: Sched)
    requires Safe(s)
    ensures forall c, d :: 0 <= c < d < MAX_CPUS && s.current[c] != INVALID_IDX ==> s.current[c] != s.current[d]
    ensures forall i :: i in s.current && i != INVALID_IDX ==> i < MAX_PROCS && s.slots[i].Some? && i !in s.queue
  {
    forall c | 0 <= c < MAX_CPUS && s.current[c] != INVALID_IDX
      ensures s.slots[s.current[c]].Some? && s.slots[s.current[c]].value.runningOn == c && s.current[c] !in s.queue
    {
      assert Owns(s, c);
    }
  }

  /** The processes are those queued and those running, and none is both. */
  lemma {:induction false} LiveIsQueuedOrRunning(s: Sched, running: set<nat>)
    requires Conserved(s) && (forall i :: i in running <==> i != INVALID_IDX && i in s.current)
    ensures Live(s) == Members(s.queue) + running && Members(s.queue) !! running
  {
    OccupantsDistinct(s);
    forall i | i in Live(s)
      ensures i in s.queue || i in running
    {
      assert Placed(s, i);
    }
  }

  /** Queue length plus busy CPUs is the number of processes. */
  lemma {:induction false} QueuePlusBusyIsLive(s: Sched)
    requires Conserved(s)
    ensures |s.queue| + BusyCpus(s.current, MAX_CPUS) == |Live(s)|
  {
    OccupantsDistinct(s);
    DistinctCount(s.queue, Members(s.queue));
    OccupantCount(s.current, MAX_CPUS);
    LiveIsQueuedOrRunning(s, Occupants(s.current, MAX_CPUS));
  }

  /** The number of processes over any event: it grows only by a creation with a free slot. */
  lemma {:induction false} LiveStep(s: Sched, e: Event)
    requires Shaped(s) && e.Valid() && Step(s, e).Some?
    ensures var t := Step(s, e).value;
      Live(t) == if e.Creation? && FirstFree(s.slots) < MAX_PROCS then Live(s) + {FirstFree(s.slots)} else Live(s)
  {
    if !e.Creation? {
      StepKeepsPids(s, e);
    }
  }

  /** start_on_cpu panics exactly when the queue is empty, that is when every process already runs. */
  lemma {:induction false} StartFailsExactlyWhen(s: Sched, cpu: nat)
    requires Conserved(s) && cpu < MAX_CPUS && s.current[cpu] == INVALID_IDX
    ensures StartOn(s, cpu) == None <==> |Live(s)| == BusyCpus(s.current, MAX_CPUS)
  {
    StartConserved(s, cpu);
    QueuePlusBusyIsLive(s);
  }

  /** With at least as many processes as CPUs no event ever panics. */
  lemma {:induction false} NeverPanics(s: Sched, es: seq<Event>)
    requires Conserved(s) && ValidEvents(es) && QuietRun(s, es) && |Live(s)| >= MAX_CPUS
    ensures Exec(s, es).Some?
    decreases |es|
  {
    if es == [] {
    } else {
      var e := es[0];
      if e.Start? {
        StartFailsExactlyWhen(s, e.cpu);
        IdleCpu(s.current, MAX_CPUS, e.cpu);
      }
      StepConserved(s, e);
      LiveStep(s, e);
      NeverPanics(Step(s, e).value, es[1..]);
    }
  }

  lemma {:induction false} CreationsFillSlots(s: Sched, es: seq<Event>)
    requires Conserved(s) && ValidEvents(es) && (forall i :: 0 <= i < |es| ==> es[i].Creation?)
    ensures QuietRun(s, es) && Exec(s, es).Some? && Conserved(Exec(s, es).value)
    ensures |Live(s)| + |es| <= MAX_PROCS ==> |Live(Exec(s, es).value)| == |Live(s)| + |es|
    decreases |es|
  {
    if es == [] {
    } else {
      var t := Step(s, es[0]).value;
      StepConserved(s, es[0]);
      CreationAddsProcess(s, es[0]);
      CreationsFillSlots(t, es[1..]);
    }
  }

  lemma {:induction false} CreationAddsProcess(s: Sched, e: Event)
    requires Conserved(s) && e.Valid() && e.Creation?
    ensures Step(s, e).Some? && (|Live(s)| < MAX_PROCS ==> |Live(Step(s, e).value)| == |Live(s)| + 1)
  {
    LiveStep(s, e);
    if FirstFree(s.slots) == MAX_PROCS {
      AllSlotsLive(s);
    }
  }

  lemma {:induction false} AllSlotsLive(s: Sched)
    requires FirstFree(s.slots) == MAX_PROCS
    ensures |Live(s)| == MAX_PROCS
  {
    SlotsBelow(s, MAX_PROCS);
  }

  lemma {:induction false} SlotsBelow(s: Sched, n: nat)
    requires n == MAX_PROCS && FirstFree(s.slots) == n
    ensures |Live(s)| == n
  {
    assert Live(s) == UpTo(n);
  }

  /**
   The boot sequence of main.rs: after the processes are created, at least one
   per CPU (the kernel creates five for four), no schedule of starts, timer
   interrupts and further creations reaches the "no runnable process" panic.
  */
  lemma {:induction false} BootNeverPanics(boot: seq<Event>, rest: seq<Event>)
    requires ValidEvents(boot) && ValidEvents(rest)
    requires 4 <= |boot| <= 64 && (forall i :: 0 <= i < |boot| ==> boot[i].Creation?)
    requires Exec(EmptyTable(), boot).Some? ==> QuietRun(Exec(EmptyTable(), boot).value, rest)
    ensures Exec(EmptyTable(), boot).Some?
    ensures Exec(Exec(EmptyTable(), boot).value, rest).Some?
  {
    assert Live(EmptyTable()) == {};
    CreationsFillSlots(EmptyTable(), boot);
    NeverPanics(Exec(EmptyTable(), boot).value, rest);
  }

  // ---- First in, first out -------------------------------------------------

  /** The process an event puts on a CPU, read off CURRENT. */
  function DispatchedBy(s: Sched, e: Event): seq<nat>
    requires Shaped(s) && e.Valid() && Step(s, e).Some?
  {
    if (e.Start? || e.Irq?) && Step(s, e).value.current[e.cpu] != s.current[e.cpu]
    then [Step(s, e).value.current[e.cpu]] else []
  }

  /** The process an event puts at the back of the queue. */
  function EnqueuedBy(s: Sched, e: Event): seq<nat>
    requires Shaped(s) && e.Valid() && Step(s, e).Some?
  {
    if e.Creation? && FirstFree(s.slots) < MAX_PROCS then [FirstFree(s.slots)]
    else if e.Irq? && DispatchedBy(s, e) != [] then Interrupted(s, e.cpu)
    else []
  }

  function Dispatched(s: Sched, es: seq<Event>): seq<nat>
    requires Shaped(s) && ValidEvents(es) && Exec(s, es).Some?
    decreases |es|
  {
    if es == [] then [] else DispatchedBy(s, es[0]) + Dispatched(Step(s, es[0]).value, es[1..])
  }

  function Enqueued(s: Sched, es: seq<Event>): seq<nat>
    requires Shaped(s) && ValidEvents(es) && Exec(s, es).Some?
    decreases |es|
  {
    if es == [] then [] else EnqueuedBy(s, es[0]) + Enqueued(Step(s, es[0]).value, es[1..])
  }

  lemma {:induction false} MovedFront(q: seq<nat>, back: seq<nat>)
    requires q != []
    ensures q[..1] == [q[0]] && q[..1] + (q[1..] + back) == q + back
  {
    assert q[..1] + q[1..] == q;
  }

  lemma {:induction false} IrqSwitchFifo(s: Sched, cpu: nat, frame: u64, e: Event)
    requires Conserved(s) && cpu < MAX_CPUS && s.queue != [] && e == Irq(cpu, frame)
    ensures DispatchedBy(s, e) == [s.queue[0]] && EnqueuedBy(s, e) == Interrupted(s, cpu)
    ensures Step(s, e).value.queue == s.queue[1..] + Interrupted(s, cpu)
  {
    IrqSwitch(s, cpu, frame);
    assert Owns(s, cpu) && s.queue[0] in s.queue;
  }

  lemma {:induction false} IrqFifo(s: Sched, cpu: nat, frame: u64)
    requires Conserved(s) && cpu < MAX_CPUS
    ensures var e := Irq(cpu, frame);
      && DispatchedBy(s, e) + Step(s, e).value.queue == s.queue + EnqueuedBy(s, e)
      && DispatchedBy(s, e) == s.queue[..Min(1, |s.queue|)]
  {
    if s.queue == [] {
      IrqIdle(s, cpu, frame);
    } else {
      IrqSwitchFifo(s, cpu, frame, Irq(cpu, frame));
      MovedFront(s.queue, Interrupted(s, cpu));
    }
  }

  lemma {:induction false} CreationFifo(s: Sched, e: Event)
    requires Conserved(s) && e.Valid() && e.Creation? && Quiet(s, e)
    ensures Step(s, e).Some? && DispatchedBy(s, e) == [] && Step(s, e).value.queue == s.queue + EnqueuedBy(s, e)
  {
    CreationSafe(s, e.stacks, e.entry, e.requested);
  }

  lemma {:induction false} StartFifo(s: Sched, e: Event)
    requires Conserved(s) && e.Valid() && e.Start? && Quiet(s, e) && Step(s, e).Some?
    ensures DispatchedBy(s, e) + Step(s, e).value.queue == s.queue && DispatchedBy(s, e) == s.queue[..Min(1, |s.queue|)]
  {
    StartConserved(s, e.cpu);
    assert s.queue[..1] == [s.queue[0]] && s.queue[..1] + s.queue[1..] == s.queue;
  }

  /** One event takes from the front and adds at the back. */
  lemma {:induction false} StepFifo(s: Sched, e: Event)
    requires Conserved(s) && e.Valid() && Quiet(s, e) && Step(s, e).Some?
    ensures DispatchedBy(s, e) + Step(s, e).value.queue == s.queue + EnqueuedBy(s, e)
    ensures e.Start? || e.Irq? ==> DispatchedBy(s, e) == s.queue[..Min(1, |s.queue|)]
  {
    match e
    case Creation(_, _, _) => CreationFifo(s, e);
    case Start(_) => StartFifo(s, e);
    case Irq(cpu, frame) => IrqFifo(s, cpu, frame);
  }

  /**
   Over a whole run, on any CPUs and with any creations in between, the
   processes dispatched followed by the queue left over are the queue at the
   start followed by the processes enqueued.
  */
  lemma {:induction false} FifoLaw(s: Sched, es: seq<Event>)
    requires Conserved(s) && ValidEvents(es) && QuietRun(s, es) && Exec(s, es).Some?
    ensures Dispatched(s, es) + Exec(s, es).value.queue == s.queue + Enqueued(s, es)
    decreases |es|
  {
    if es == [] {
      assert [] + s.queue == s.queue + [];
    } else {
      var t := Step(s, es[0]).value;
      StepFifo(s, es[0]);
      StepConserved(s, es[0]);
      FifoLaw(t, es[1..]);
      FifoGlue(DispatchedBy(s, es[0]), Dispatched(t, es[1..]), EnqueuedBy(s, es[0]), Enqueued(t, es[1..]),
               s.queue, t.queue, Exec(s, es).value.queue);
    }
  }

  lemma {:induction false} FifoGlue(d: seq<nat>, d': seq<nat>, n: seq<nat>, n': seq<nat>, q: seq<nat>, q': seq<nat>,
        last: seq<nat>)
    requires d + q' == q + n && d' + last == q' + n'
    ensures (d + d') + last == q + (n + n')
  {
    assert (d + d') + last == d + (d' + last);
    assert d + (q' + n') == (d + q') + n';
    assert (q + n) + n' == q + (n + n');
  }

  /**
   With dispatches d since the queue was q, and last the queue now, entry k of
   q was served by the (k+1)-th dispatch and no earlier one, or has moved
   forward by the number of dispatches.
  */
  ghost predicate InTurn(q: seq<nat>, k: nat, d: seq<nat>, last: seq<nat>)
    requires k < |q|
  {
    && (forall j :: 0 <= j < k && j < |d| ==> d[j] != q[k])
    && (k < |d| ==> d[k] == q[k])
    && (k >= |d| ==> k - |d| < |last| && last[k - |d|] == q[k])
  }

  lemma {:induction false} FifoPosition(d: seq<nat>, last: seq<nat>, q: seq<nat>, n: seq<nat>, k: nat)
    requires d + last == q + n && k < |q| && Distinct(q)
    ensures InTurn(q, k, d, last)
  {
    assert |d| + |last| == |q| + |n|;
    forall j | 0 <= j <= k
      ensures q[j] == if j < |d| then d[j] else last[j - |d|]
    {
      assert (d + last)[j] == (q + n)[j];
    }
  }

  /**
   Exact bounded waiting: the process at position k of the queue is dispatched
   by exactly the (k+1)-th dispatch, on whatever CPU, and until then it only
   moves forward in the queue.
  */
  lemma {:induction false} BoundedWaiting(s: Sched, es: seq<Event>, k: nat)
    requires Conserved(s) && ValidEvents(es) && QuietRun(s, es) && Exec(s, es).Some? && k < |s.queue|
    ensures InTurn(s.queue, k, Dispatched(s, es), Exec(s, es).value.queue)
  {
    FifoLaw(s, es);
    FifoPosition(Dispatched(s, es), Exec(s, es).value.queue, s.queue, Enqueued(s, es), k);
  }

  /** A process preempted when q others were queued runs again at the q-th dispatch after that. */
  lemma {:induction false} PreemptedRunsAgain(s: Sched, cpu: nat, frame: u64, es: seq<Event>)
    requires Conserved(s) && cpu < MAX_CPUS && s.current[cpu] != INVALID_IDX && s.queue != []
    requires ValidEvents(es)
    requires var t := FromIrq(s, cpu, frame).0; QuietRun(t, es) && Exec(t, es).Some?
    ensures var t := FromIrq(s, cpu, frame).0;
      var d, q := Dispatched(t, es), |s.queue|;
      && |t.queue| == q && t.queue[q - 1] == s.current[cpu]
      && (forall j :: 0 <= j < q - 1 && j < |d| ==> d[j] != s.current[cpu])
      && (|d| >= q ==> d[q - 1] == s.current[cpu])
  {
    IrqConserved(s, cpu, frame);
    IrqSwitch(s, cpu, frame);
    BoundedWaiting(FromIrq(s, cpu, frame).0, es, |s.queue| - 1);
  }

  function SchedulerCalls(es: seq<Event>): nat {
    if es == [] then 0 else (if es[0].Start? || es[0].Irq? then 1 else 0) + SchedulerCalls(es[1..])
  }

  /** While a process waits, no scheduler call is wasted, so k + 1 timer interrupts or starts suffice. */
  lemma {:induction false} WaitEndsInTime(s: Sched, es: seq<Event>, k: nat)
    requires Conserved(s) && ValidEvents(es) && QuietRun(s, es) && Exec(s, es).Some? && k < |s.queue|
    ensures |Dispatched(s, es)| >= Min(SchedulerCalls(es), k + 1)
    ensures SchedulerCalls(es) > k ==> Dispatched(s, es)[k] == s.queue[k]
    decreases |es|
  {
    if es == [] {
    } else {
      var t := Step(s, es[0]).value;
      StepFifo(s, es[0]);
      StepConserved(s, es[0]);
      var d := DispatchedBy(s, es[0]);
      FifoPosition(d, t.queue, s.queue, EnqueuedBy(s, es[0]), k);
      if |d| <= k {
        WaitEndsInTime(t, es[1..], k - |d|);
      }
      BoundedWaiting(s, es, k);
    }
  }

  // ---- Process identifiers -------------------------------------------------

  /** Slots are filled in order and never freed, so pids are the slot numbers plus one. */
  ghost predicate Numbered(s: Sched) {
    && (forall i :: 0 <= i < MAX_PROCS ==> (s.slots[i].Some? <==> i < FirstFree(s.slots)))
    && (forall i :: 0 <= i < FirstFree(s.slots) ==> s.slots[i].Some? && s.slots[i].value.id == i + 1)
    && s.nextPid == FirstFree(s.slots) + 1
  }

  lemma {:induction false} FirstFreeIs(slots: seq<Option<Process>>, k: nat)
    requires k <= |slots| && (forall j :: 0 <= j < k ==> slots[j].Some?) && (k < |slots| ==> slots[k].None?)
    ensures FirstFree(slots) == k
  {
  }

  /** No operation but creation changes which slots are filled or their pids. */
  lemma {:induction false} NumberedFrame(s: Sched, t: Sched)
    requires Numbered(s) && SamePids(s, t)
    ensures Numbered(t)
  {
    FirstFreeIs(t.slots, FirstFree(s.slots));
  }

  lemma {:induction false} StepNumbered(s: Sched, e: Event)
    requires Shaped(s) && Numbered(s) && e.Valid() && Step(s, e).Some?
    ensures Numbered(Step(s, e).value)
  {
    var t := Step(s, e).value;
    if e.Creation? {
      var k := FirstFree(s.slots);
      if k < MAX_PROCS {
        FirstFreeIs(t.slots, k + 1);
      }
    } else {
      StepKeepsPids(s, e);
      NumberedFrame(s, t);
    }
  }

  lemma {:induction false} ExecNumbered(s: Sched, es: seq<Event>)
    requires Shaped(s) && Numbered(s) && ValidEvents(es)
    ensures Exec(s, es).Some? ==> Numbered(Exec(s, es).value)
    decreases |es|
  {
    if es == [] {
    } else if Step(s, es[0]).Some? {
      StepNumbered(s, es[0]);
      ExecNumbered(Step(s, es[0]).value, es[1..]);
    }
  }

  /**
   The pid counter never wraps in any run, so a pid names one process for ever
   and `set_state` changes the state of that process and nothing else.
  */
  lemma {:induction false} SetStateTouchesOneProcess(es: seq<Event>, pid: u32, state: State)
    requires ValidEvents(es) && Exec(EmptyTable(), es).Some?
    ensures var s := Exec(EmptyTable(), es).value;
      var (t, found) := SetState(s, pid, state);
      && (found <==> exists i :: 0 <= i < MAX_PROCS && s.slots[i].Some? && s.slots[i].value.id == pid)
      && t.(slots := s.slots) == s
      && (forall i :: 0 <= i < MAX_PROCS ==>
            t.slots[i] == if s.slots[i].Some? && s.slots[i].value.id == pid
                          then Some(s.slots[i].value.(state := state)) else s.slots[i])
  {
    FirstFreeIs(EmptyTable().slots, 0);
    ExecNumbered(EmptyTable(), es);
  }
}
