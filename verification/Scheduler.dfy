/**
 The round-robin thread scheduler. `Sched` is its whole state and `Step` one of
 its four events; the class below carries the events out in place and refines
 them. Safety and bounded waiting are proved over every run.
 */
module Scheduling {
  import opened Machine

  const DEFAULT_QUANTUM_TICKS: nat := 10

  datatype ThreadState = Ready | Running | Sleeping | Blocked | Dead

  datatype Thread = Thread(id: U64, state: ThreadState)

  datatype Sched = Sched(
    threads: seq<Thread>,
    queue: seq<nat>,
    current: nat,
    idle: nat,
    nextId: U64,
    quantum: nat,
    ticks: U64,
    needsReschedule: bool)

  datatype Event = Spawn | Tick | Schedule | Exit

  // ---------------------------------------------------------------- events

  ghost predicate QueueInBounds(threads: seq<Thread>, queue: seq<nat>) {
    forall i :: 0 <= i < |queue| ==> queue[i] < |threads|
  }

  ghost predicate InBounds(s: Sched) {
    s.current < |s.threads| && s.idle < |s.threads| && QueueInBounds(s.threads, s.queue)
  }

  /** `pick_next`: the thread to run next and the queue left behind; `skippedIdle` if the idle thread was popped. */
  function Pick(threads: seq<Thread>, queue: seq<nat>, idle: nat, skippedIdle: bool): (nat, seq<nat>)
    requires QueueInBounds(threads, queue)
  {
    if queue == [] then (idle, [])
    else if threads[queue[0]].state != Ready then Pick(threads, queue[1..], idle, skippedIdle)
    else if queue[0] == idle then Pick(threads, queue[1..], idle, true)
    else (queue[0], queue[1..] + (if skippedIdle then [idle] else []))
  }

  function SetState(threads: seq<Thread>, i: nat, state: ThreadState): seq<Thread>
    requires i < |threads|
  {
    threads[i := threads[i].(state := state)]
  }

  /** `spawn_internal`. */
  function SpawnStep(s: Sched): Sched {
    s.(threads := s.threads + [Thread(s.nextId, Ready)],
       queue := s.queue + [|s.threads|],
       nextId := (s.nextId + 1) % (U64_MAX + 1))
  }

  /** `on_timer_tick`. */
  function TickStep(s: Sched): Sched {
    var ticks := SatAdd(s.ticks, 1);
    s.(ticks := ticks, needsReschedule := s.needsReschedule || ticks >= s.quantum)
  }

  /** The step of a thread whose entry function has returned. */
  function ExitStep(s: Sched): Sched
    requires s.current < |s.threads|
  {
    s.(threads := SetState(s.threads, s.current, Dead))
  }

  /** `do_schedule`. */
  function ScheduleStep(s: Sched): Sched
    requires InBounds(s)
  {
    var (next, queue) := Pick(s.threads, s.queue, s.idle, false);
    PickInBounds(s.threads, s.queue, s.idle, false);
    var rested := s.(queue := queue, needsReschedule := false, ticks := 0);
    if s.current == next then rested
    else
      var preempted := s.threads[s.current].state == Running && s.current != s.idle;
      var threads := if preempted then SetState(s.threads, s.current, Ready) else s.threads;
      rested.(threads := SetState(threads, next, Running),
              queue := if preempted then queue + [s.current] else queue,
              current := next)
  }

  lemma {:induction false} PickInBounds(threads: seq<Thread>, queue: seq<nat>, idle: nat, skippedIdle: bool)
    requires QueueInBounds(threads, queue) && idle < |threads|
    ensures var (next, left) := Pick(threads, queue, idle, skippedIdle);
            next < |threads| && QueueInBounds(threads, left)
    decreases queue
  {
    if queue != [] {
      PickInBounds(threads, queue[1..], idle, skippedIdle);
      PickInBounds(threads, queue[1..], idle, true);
    }
  }

  /** `init`: a running bootstrap thread and a queued idle thread. */
  function InitialSched(): Sched {
    Sched([Thread(0, Running), Thread(1, Ready)], [1], 0, 1, 2, DEFAULT_QUANTUM_TICKS, 0, false)
  }

  /** The idle thread's entry function never returns, so only other threads exit. */
  predicate Enabled(s: Sched, e: Event) { e == Exit ==> s.current != s.idle }

  function Step(s: Sched, e: Event): Sched
    requires InBounds(s)
  {
    match e
    case Spawn => SpawnStep(s)
    case Tick => TickStep(s)
    case Schedule => ScheduleStep(s)
    case Exit => ExitStep(s)
  }

  // ---------------------------------------------------------------- the invariant

  /** The threads waiting for their turn, in order: the queue without the idle thread. */
  function Waiting(queue: seq<nat>, idle: nat): seq<nat> {
    if queue == [] then []
    else (if queue[0] == idle then [] else [queue[0]]) + Waiting(queue[1..], idle)
  }

  predicate Distinct(q: seq<nat>) { forall i, j :: 0 <= i < j < |q| ==> q[i] != q[j] }

  /**
   Queued threads are distinct and Ready; every thread but the idle one is current, Dead, or queued;
   only the current and the idle thread can be Running.
   */
  ghost predicate Inv(s: Sched) {
    && InBounds(s)
    && Distinct(s.queue)
    && (forall i :: 0 <= i < |s.queue| ==> s.threads[s.queue[i]].state == Ready)
    && s.current !in s.queue
    && s.threads[s.current].state in {Running, Dead}
    && s.threads[s.idle].state in {Ready, Running}
    && (forall i: nat | i < |s.threads| && i != s.current && i != s.idle :: Settled(s, i))
    && (s.threads[s.idle].state == Ready <==> s.idle in s.queue)
  }

  ghost predicate Settled(s: Sched, i: nat)
    requires i < |s.threads|
  {
    s.threads[i].state == Dead || (s.threads[i].state == Ready && i in s.queue)
  }

  lemma {:induction false} WaitingMembers(queue: seq<nat>, idle: nat)
    ensures forall t :: t in Waiting(queue, idle) <==> t in queue && t != idle
  {
    if queue != [] { WaitingMembers(queue[1..], idle); }
  }

  lemma {:induction false} WaitingAppend(a: seq<nat>, b: seq<nat>, idle: nat)
    ensures Waiting(a + b, idle) == Waiting(a, idle) + Waiting(b, idle)
  {
    if a == [] {
      assert a + b == b;
    } else {
      assert (a + b)[1..] == a[1..] + b;
      WaitingAppend(a[1..], b, idle);
    }
  }

  /** On a queue of Ready threads, the pick is the first waiting thread, or the idle thread when none waits. */
  lemma {:induction false} PickTakesFirst(threads: seq<Thread>, queue: seq<nat>, idle: nat, skippedIdle: bool)
    requires QueueInBounds(threads, queue)
    requires forall i :: 0 <= i < |queue| ==> threads[queue[i]].state == Ready
    requires Distinct(queue) && (skippedIdle ==> idle !in queue)
    ensures var (next, left) := Pick(threads, queue, idle, skippedIdle);
            var waiting := Waiting(queue, idle);
            if waiting == [] then next == idle && left == []
            else
              && next == waiting[0] && Waiting(left, idle) == waiting[1..]
              && Distinct(left) && next !in left
              && (forall q :: q in left <==> (q in queue && q != next) || (skippedIdle && q == idle))
    decreases queue
  {
    if queue == [] {
    } else if queue[0] == idle {
      PickTakesFirst(threads, queue[1..], idle, true);
      WaitingMembers(queue[1..], idle);
    } else {
      var tail := if skippedIdle then [idle] else [];
      WaitingAppend(queue[1..], tail, idle);
    }
  }

  // ---------------------------------------------------------------- what every event keeps

  lemma SpawnKeepsInv(s: Sched)
    requires Inv(s)
    ensures Inv(SpawnStep(s))
    ensures Waiting(SpawnStep(s).queue, s.idle) == Waiting(s.queue, s.idle) + [|s.threads|]
  {
    var t := SpawnStep(s);
    WaitingAppend(s.queue, [|s.threads|], s.idle);
    assert t.queue[|s.queue|] == |s.threads|;
    forall i: nat | i < |t.threads| && i != t.current && i != t.idle ensures Settled(t, i) {
      if i < |s.threads| { assert Settled(s, i); }
    }
  }

  lemma ExitKeepsInv(s: Sched)
    requires Inv(s) && s.current != s.idle
    ensures Inv(ExitStep(s))
  {
    var t := ExitStep(s);
    forall i: nat | i < |t.threads| && i != t.current && i != t.idle ensures Settled(t, i) {
      assert Settled(s, i);
    }
  }

  /**
   A schedule step hands the processor to the first waiting thread, to the idle thread only when none
   waits, and puts a preempted thread at the end of the line.
   */
  lemma ScheduleIsRoundRobin(s: Sched)
    requires Inv(s)
    ensures var t := ScheduleStep(s);
            var waiting := Waiting(s.queue, s.idle);
            && t.current == (if waiting == [] then s.idle else waiting[0])
            && Waiting(t.queue, s.idle) == (if waiting == [] then [] else waiting[1..])
                                           + (if s.current != s.idle && s.threads[s.current].state == Running then [s.current] else [])
            && t.current < |t.threads| && t.threads[t.current].state == Running
  {
    PickTakesFirst(s.threads, s.queue, s.idle, false);
    var (next, queue) := Pick(s.threads, s.queue, s.idle, false);
    WaitingMembers(s.queue, s.idle);
    WaitingAppend(queue, [s.current], s.idle);
    if s.current == next {
      assert next == s.idle;
    }
  }

  /** The pick leaves a queue of the other queued threads, and comes from the queue unless it is the idle thread. */
  lemma PickLeaves(s: Sched)
    requires Inv(s)
    ensures var (next, queue) := Pick(s.threads, s.queue, s.idle, false);
            && next < |s.threads| && QueueInBounds(s.threads, queue) && Distinct(queue) && next !in queue
            && (next == s.idle || next in s.queue)
            && (next == s.current ==> next == s.idle)
            && (forall q :: q in queue ==> q in s.queue)
            && (forall q :: q in s.queue && q != s.idle ==> q == next || q in queue)
            && (s.idle in s.queue && next != s.idle ==> s.idle in queue)
            && (forall i :: 0 <= i < |queue| ==> s.threads[queue[i]].state == Ready)
  {
    PickTakesFirst(s.threads, s.queue, s.idle, false);
    PickInBounds(s.threads, s.queue, s.idle, false);
    WaitingMembers(s.queue, s.idle);
    var (next, queue) := Pick(s.threads, s.queue, s.idle, false);
    if Waiting(s.queue, s.idle) != [] { assert next in Waiting(s.queue, s.idle); }
    forall i | 0 <= i < |queue| ensures s.threads[queue[i]].state == Ready {
      assert queue[i] in queue;
    }
  }

  lemma ScheduleKeepsInv(s: Sched)
    requires Inv(s)
    ensures Inv(ScheduleStep(s))
  {
    PickLeaves(s);
    hide Pick, Waiting;
    var (next, queue) := Pick(s.threads, s.queue, s.idle, false);
    var t := ScheduleStep(s);
    if s.current == next {
      forall i: nat | i < |t.threads| && i != t.current && i != t.idle ensures Settled(t, i) {
        assert Settled(s, i);
      }
    } else {
      forall q ensures q in t.queue <==> q in queue || (q == s.current && t.queue != queue) {}
      forall i: nat | i < |t.threads| && i != t.current && i != t.idle ensures Settled(t, i) {
        assert i != s.current ==> Settled(s, i);
      }
      ScheduledQueue(s, next, queue);
    }
  }

  lemma ScheduledQueue(s: Sched, next: nat, queue: seq<nat>)
    requires Inv(s) && (next, queue) == Pick(s.threads, s.queue, s.idle, false) && s.current != next
    ensures var t := ScheduleStep(s);
            && Distinct(t.queue) && t.current !in t.queue && QueueInBounds(t.threads, t.queue)
            && (forall i :: 0 <= i < |t.queue| ==> t.threads[t.queue[i]].state == Ready)
  {
    PickLeaves(s);
    hide Pick, Waiting;
    var t := ScheduleStep(s);
    forall i | 0 <= i < |t.queue| ensures t.threads[t.queue[i]].state == Ready && t.queue[i] != next {
      if i < |queue| { assert queue[i] in queue; }
    }
  }

  /** Every enabled event keeps the invariant. */
  lemma StepKeepsInv(s: Sched, e: Event)
    requires Inv(s) && Enabled(s, e)
    ensures Inv(Step(s, e))
  {
    match e {
      case Spawn => SpawnKeepsInv(s);
      case Tick =>
        forall i: nat | i < |s.threads| && i != s.current && i != s.idle ensures Settled(TickStep(s), i) {
          assert Settled(s, i);
        }
      case Schedule => ScheduleKeepsInv(s);
      case Exit => ExitKeepsInv(s);
    }
  }

  // ---------------------------------------------------------------- runs

  /** A sequence of events that can happen one after the other. */
  ghost predicate Feasible(s: Sched, run: seq<Event>)
    requires Inv(s)
    decreases |run|
  {
    run == [] || (Enabled(s, run[0]) && (StepKeepsInv(s, run[0]); Feasible(Step(s, run[0]), run[1..])))
  }

  ghost function After(s: Sched, run: seq<Event>): (t: Sched)
    requires Inv(s) && Feasible(s, run)
    ensures Inv(t)
    decreases |run|
  {
    if run == [] then s else (StepKeepsInv(s, run[0]); After(Step(s, run[0]), run[1..]))
  }

  function Schedules(run: seq<Event>): nat {
    if run == [] then 0 else (if run[0] == Schedule then 1 else 0) + Schedules(run[1..])
  }

  lemma InitialInv()
    ensures Inv(InitialSched())
  {
  }

  /** One event moves a waiting thread one place forward if it is a schedule, and nowhere otherwise. */
  lemma LineMoves(s: Sched, e: Event, k: nat)
    requires Inv(s) && Enabled(s, e) && k < |Waiting(s.queue, s.idle)|
    ensures var t := Step(s, e);
            var thread := Waiting(s.queue, s.idle)[k];
            && t.idle == s.idle
            && if e == Schedule && k == 0 then t.current == thread
               else
                 && t.current != thread
                 && var j := if e == Schedule then k - 1 else k;
                    j < |Waiting(t.queue, t.idle)| && Waiting(t.queue, t.idle)[j] == thread
  {
    WaitingMembers(s.queue, s.idle);
    var thread := Waiting(s.queue, s.idle)[k];
    assert thread in Waiting(s.queue, s.idle);
    match e {
      case Spawn => SpawnKeepsInv(s);
      case Tick =>
      case Schedule =>
        ScheduleIsRoundRobin(s);
        if k > 0 { WaitingDistinct(s.queue, s.idle, 0, k); }
      case Exit =>
    }
  }

  lemma {:induction false} WaitingDistinct(queue: seq<nat>, idle: nat, i: nat, j: nat)
    requires Distinct(queue) && i < j < |Waiting(queue, idle)|
    ensures Waiting(queue, idle)[i] != Waiting(queue, idle)[j]
    decreases queue
  {
    WaitingMembers(queue[1..], idle);
    if queue[0] == idle {
      WaitingDistinct(queue[1..], idle, i, j);
    } else if i > 0 {
      WaitingDistinct(queue[1..], idle, i - 1, j - 1);
    } else {
      assert Waiting(queue[1..], idle)[j - 1] in queue[1..];
    }
  }

  /**
   Bounded waiting. A thread with k threads ahead of it stays in line, one place nearer per schedule,
   through any run with at most k schedules, and is not dispatched meanwhile.
   */
  lemma {:induction false} StaysInLine(s: Sched, run: seq<Event>, k: nat)
    requires Inv(s) && Feasible(s, run) && k < |Waiting(s.queue, s.idle)| && Schedules(run) <= k
    ensures var t := After(s, run);
            var thread := Waiting(s.queue, s.idle)[k];
            && t.idle == s.idle && k - Schedules(run) < |Waiting(t.queue, t.idle)|
            && Waiting(t.queue, t.idle)[k - Schedules(run)] == thread
            && t.current != thread
    decreases |run|
  {
    WaitingMembers(s.queue, s.idle);
    assert Waiting(s.queue, s.idle)[k] in Waiting(s.queue, s.idle);
    assert s.current !in s.queue || s.current == s.idle;
    hide Inv, Waiting, Step, Enabled, InBounds;
    if run != [] {
      LineMoves(s, run[0], k);
      StepKeepsInv(s, run[0]);
      var t := Step(s, run[0]);
      assert Feasible(t, run[1..]) && After(s, run) == After(t, run[1..]);
      assert Schedules(run) == (if run[0] == Schedule then 1 else 0) + Schedules(run[1..]);
      hide Feasible, After, Schedules;
      StaysInLine(t, run[1..], if run[0] == Schedule then k - 1 else k);
    }
  }

  /** ... and it becomes current at exactly the (k + 1)-th schedule, whatever else happens in between. */
  lemma {:induction false} BoundedWaiting(s: Sched, run: seq<Event>, k: nat)
    requires Inv(s) && Feasible(s, run + [Schedule]) && k < |Waiting(s.queue, s.idle)| && Schedules(run) == k
    ensures After(s, run + [Schedule]).current == Waiting(s.queue, s.idle)[k]
    decreases |run|
  {
    if run == [] {
      assert run + [Schedule] == [Schedule];
      StepKeepsInv(s, Schedule);
      assert After(s, [Schedule]) == After(Step(s, Schedule), []);
      LineMoves(s, Schedule, 0);
    } else {
      assert (run + [Schedule])[0] == run[0] && (run + [Schedule])[1..] == run[1..] + [Schedule];
      LineMoves(s, run[0], k);
      StepKeepsInv(s, run[0]);
      BoundedWaiting(Step(s, run[0]), run[1..], if run[0] == Schedule then k - 1 else k);
    }
  }

  // ---------------------------------------------------------------- the self-test

  ghost function RunningThreads(s: Sched): set<nat> {
    set i: nat | i < |s.threads| && s.threads[i].state == Running
  }

  /**
   The kernel's self-test expects exactly one Running thread. In a reachable state that holds exactly
   when the idle thread is current, or both or neither of these hold: the current thread has exited, the
   idle thread is marked Running (as it stays once it has run).
   */
  lemma ExactlyOneRunningWhen(s: Sched)
    requires Inv(s)
    ensures |RunningThreads(s)| == 1
       <==> (if s.current == s.idle then true
             else (s.threads[s.current].state == Dead) == (s.threads[s.idle].state == Running))
  {
    var r := RunningThreads(s);
    forall i: nat | i in r ensures i == s.current || i == s.idle {
      assert i != s.current && i != s.idle ==> Settled(s, i);
    }
    assert r == (if s.threads[s.current].state == Running then {s.current} else {})
              + (if s.threads[s.idle].state == Running then {s.idle} else {});
  }

  /** Leaving the idle thread leaves it marked Running, so two schedules from the start break the self-test. */
  lemma SelfTestFails()
    ensures var s := InitialSched();
            && Inv(s) && Feasible(s, [Schedule, Schedule])
            && var t := After(s, [Schedule, Schedule]);
               t.current == 0 && RunningThreads(t) == {0, 1}
  {
    InitialInv();
    FirstTwoSteps();
    hide InBounds, Inv, Step, InitialSched;
    var s := InitialSched();
    StepKeepsInv(s, Schedule);
    var s1 := Step(s, Schedule);
    StepKeepsInv(s1, Schedule);
    assert [Schedule, Schedule][1..] == [Schedule] && [Schedule][1..] == [];
    assert Feasible(s1, [Schedule]) && After(s1, [Schedule]) == Step(s1, Schedule);
    assert RunningThreads(Step(s1, Schedule)) == {0, 1};
  }

  lemma FirstTwoSteps()
    ensures var s1 := Step(InitialSched(), Schedule);
            && InBounds(s1) && Step(s1, Schedule).current == 0
            && Step(s1, Schedule).threads == [Thread(0, Running), Thread(1, Running)]
  {
    var s := InitialSched();
    assert s.queue[1..] == [];
    var s1 := Step(s, Schedule);
    assert s1 == Sched([Thread(0, Ready), Thread(1, Running)], [0], 1, 1, 2, DEFAULT_QUANTUM_TICKS, 0, false);
  }

  // ---------------------------------------------------------------- thread identifiers

  function Wrapped(n: nat): U64 { n % (U64_MAX + 1) }

  lemma WrappedNext(n: nat)
    ensures Wrapped(n + 1) == (Wrapped(n) + 1) % (U64_MAX + 1)
  {
  }

  /** Identifiers are handed out in order and wrap around after 2^64 threads. */
  ghost predicate IdsInOrder(s: Sched) {
    s.nextId == Wrapped(|s.threads|) && forall i: nat | i < |s.threads| :: s.threads[i].id == Wrapped(i)
  }

  lemma StepKeepsIds(s: Sched, e: Event)
    requires Inv(s) && IdsInOrder(s)
    ensures IdsInOrder(Step(s, e))
  {
    WrappedNext(|s.threads|);
    StepIds(s, e);
    hide Step, Inv, Wrapped;
  }

  /** No step changes the identifier of a thread; a new one gets the next. */
  lemma StepIds(s: Sched, e: Event)
    requires Inv(s)
    ensures |Step(s, e).threads| == |s.threads| + (if e == Spawn then 1 else 0)
    ensures forall i: nat | i < |s.threads| :: Step(s, e).threads[i].id == s.threads[i].id
    ensures Step(s, e).nextId == if e == Spawn then (s.nextId + 1) % (U64_MAX + 1) else s.nextId
    ensures e == Spawn ==> Step(s, e).threads[|s.threads|].id == s.nextId
  {
    hide Pick, Distinct, Waiting;
    StepCount(s, e);
    if e == Schedule { PickInBounds(s.threads, s.queue, s.idle, false); }
  }

  function Spawns(run: seq<Event>): nat {
    if run == [] then 0 else (if run[0] == Spawn then 1 else 0) + Spawns(run[1..])
  }

  lemma {:induction false} RunKeepsIds(s: Sched, run: seq<Event>)
    requires Inv(s) && IdsInOrder(s) && Feasible(s, run)
    ensures IdsInOrder(After(s, run)) && |After(s, run).threads| == |s.threads| + Spawns(run)
    decreases |run|
  {
    if run != [] {
      StepKeepsIds(s, run[0]);
      StepKeepsInv(s, run[0]);
      StepCount(s, run[0]);
      RunKeepsIds(Step(s, run[0]), run[1..]);
    }
  }

  lemma StepCount(s: Sched, e: Event)
    requires Inv(s)
    ensures |Step(s, e).threads| == |s.threads| + (if e == Spawn then 1 else 0)
  {
    hide Pick;
    if e == Schedule { PickInBounds(s.threads, s.queue, s.idle, false); }
  }

  ghost predicate IdsUnique(s: Sched) {
    forall i: nat, j: nat | i < j < |s.threads| :: s.threads[i].id != s.threads[j].id
  }

  lemma UniqueWhileInOrder(s: Sched)
    requires IdsInOrder(s)
    ensures IdsUnique(s) <==> |s.threads| <= U64_MAX + 1
  {
    if |s.threads| > U64_MAX + 1 {
      assert s.threads[0].id == s.threads[U64_MAX + 1].id;
    }
  }

  /** After every run from the start, identifiers are unique exactly while the run has not spawned past 2^64 threads. */
  lemma IdsUniqueExactlyWhen(run: seq<Event>)
    requires Feasible(InitialSched(), run)
    ensures IdsUnique(After(InitialSched(), run)) <==> 2 + Spawns(run) <= U64_MAX + 1
  {
    hide Feasible, After, IdsUnique;
    RunKeepsIds(InitialSched(), run);
    UniqueWhileInOrder(After(InitialSched(), run));
  }

  // ---------------------------------------------------------------- in place

  class Scheduler {
    var threads: seq<Thread>
    var queue: seq<nat>
    var current: nat
    var idle: nat
    var nextId: U64
    var quantum: nat
    var ticks: U64
    var needsReschedule: bool

    ghost function State(): Sched
      reads this
    {
      Sched(threads, queue, current, idle, nextId, quantum, ticks, needsReschedule)
    }

    constructor ()
      ensures State() == InitialSched() && Inv(State())
    {
      threads, queue := [Thread(0, Running), Thread(1, Ready)], [1];
      current, idle, nextId := 0, 1, 2;
      quantum, ticks, needsReschedule := DEFAULT_QUANTUM_TICKS, 0, false;
    }

    method SpawnThread() returns (id: U64)
      requires Inv(State())
      modifies this
      ensures State() == Step(old(State()), Spawn) && Inv(State()) && id == old(nextId)
    {
      SpawnKeepsInv(State());
      id := nextId;
      nextId := (nextId + 1) % (U64_MAX + 1);
      threads := threads + [Thread(id, Ready)];
      queue := queue + [|threads| - 1];
    }

    method OnTimerTick()
      requires Inv(State())
      modifies this
      ensures State() == Step(old(State()), Event.Tick) && Inv(State())
    {
      StepKeepsInv(State(), Event.Tick);
      ticks := SatAdd(ticks, 1);
      if ticks >= quantum { needsReschedule := true; }
    }

    method ExitCurrent()
      requires Inv(State()) && current != idle
      modifies this
      ensures State() == Step(old(State()), Event.Exit) && Inv(State())
    {
      ExitKeepsInv(State());
      threads := SetState(threads, current, Dead);
    }

    method PickNext() returns (next: nat)
      requires InBounds(State())
      modifies this`queue
      ensures (next, queue) == Pick(threads, old(queue), idle, false)
    {
      var idleCandidate := false;
      while queue != []
        invariant QueueInBounds(threads, queue)
        invariant Pick(threads, old(queue), idle, false) == Pick(threads, queue, idle, idleCandidate)
        decreases |queue|
      {
        var idx := queue[0];
        queue := queue[1..];
        if threads[idx].state != Ready { continue; }
        if idx == idle {
          idleCandidate := true;
          continue;
        }
        assert queue + [] == queue;
        if idleCandidate { queue := queue + [idle]; }
        return idx;
      }
      return idle;
    }

    method DoSchedule()
      requires Inv(State())
      modifies this
      ensures State() == Step(old(State()), Event.Schedule) && Inv(State())
    {
      ScheduleKeepsInv(State());
      PickInBounds(threads, queue, idle, false);
      hide Pick, Settled, Distinct;
      var oldIdx := current;
      var next := PickNext();
      if oldIdx == next {
        needsReschedule, ticks := false, 0;
        return;
      }
      if threads[oldIdx].state == Running && oldIdx != idle {
        threads := SetState(threads, oldIdx, Ready);
        queue := queue + [oldIdx];
      }
      threads := SetState(threads, next, Running);
      current, needsReschedule, ticks := next, false, 0;
    }
  }
}
