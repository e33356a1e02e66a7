/**
 * Threads of kernel/src/processes/thread.rs: their states, the run-queue of
 * their process each state belongs to, and their tick accounting.
 *
 * The owning `Process` (process.rs, not part of this model) appears with
 * the fields the thread and scheduler code read and write: its three
 * thread queues and its tick counters. Shared `Arc<Mutex<_>>` handles are
 * object references.
 */
module Threads {
  import opened Wrappers
  import opened Digits

  /** `ThreadState`. */
  datatype ThreadState = NotStarted | Ready | Running | Sleeping(until: nat) | Terminated

  /** The parts of `RegistersState` this model sets: instruction pointer, flags and stack pointer. */
  datatype RegistersState = RegistersState(instructionPointer: nat, flags: nat, stackPointer: nat)

  /** `s` without any occurrence of `x`, the others in their order. */
  function Without<T(==)>(s: seq<T>, x: T): (r: seq<T>)
    ensures |r| <= |s|
    ensures x !in r
    ensures forall y :: y in r ==> y in s
  {
    if s == [] then []
    else if s[0] == x then Without(s[1..], x)
    else [s[0]] + Without(s[1..], x)
  }

  /** Removing `x` takes away every copy of it and keeps every other element as often as before. */
  lemma {:induction false} WithoutCounts<T>(s: seq<T>, x: T, y: T)
    ensures multiset(Without(s, x))[y] == if y == x then 0 else multiset(s)[y]
  {
    if s != [] {
      WithoutCounts(s[1..], x, y);
      assert s == [s[0]] + s[1..];
    }
  }

  /** Removing what is absent changes nothing. */
  lemma {:induction false} WithoutAbsent<T>(s: seq<T>, x: T)
    requires x !in s
    ensures Without(s, x) == s
  {
    if s != [] {
      WithoutAbsent(s[1..], x);
    }
  }

  /** After leaving a queue and possibly rejoining it, a thread is in it once or not at all. */
  lemma JoinedOnce<T>(q: seq<T>, t: T, join: bool)
    ensures multiset(Without(q, t) + (if join then [t] else []))[t] == if join then 1 else 0
  {
    WithoutCounts(q, t, t);
  }

  class Process {
    /** `not_started_threads`. */
    var notStartedThreads: seq<Thread>
    /** `ready_threads`. */
    var readyThreads: seq<Thread>
    /** `sleeping_threads`. */
    var sleepingThreads: seq<Thread>
    /** Total ticks the process has been running for. */
    var totalTicks: nat
    /** The tick the process last ran on. */
    var lastTick: nat

    constructor ()
      ensures notStartedThreads == [] && readyThreads == [] && sleepingThreads == []
      ensures totalTicks == 0 && lastTick == 0
    {
      notStartedThreads, readyThreads, sleepingThreads := [], [], [];
      totalTicks, lastTick := 0, 0;
    }

    /** The number of threads in the three queues. */
    function QueuedCount(): nat
      reads this
    {
      |notStartedThreads| + |readyThreads| + |sleepingThreads|
    }
  }

  class Thread {
    /** The thread's id within its process. */
    const id: nat
    var state: ThreadState
    var registers: RegistersState
    /** Total ticks the thread has been running for. */
    var totalTicks: nat
    /** The tick the thread was created on. */
    const startTick: nat
    /** The tick the thread last ran on. */
    var lastTick: nat
    /** The process the thread runs for. */
    const process: Process

    constructor (id: nat, registers: RegistersState, process: Process)
      ensures this.id == id && this.registers == registers && this.process == process
      ensures state == NotStarted && totalTicks == 0 && startTick == 0 && lastTick == 0
    {
      this.id := id;
      this.registers := registers;
      this.process := process;
      state := NotStarted;
      totalTicks, startTick, lastTick := 0, 0, 0;
    }

    /**
     * `tick_density`: the percentage of the ticks since its creation the
     * thread spent running, rounded down. `None` where the `u64` subtraction
     * underflows (before the start tick) or the division is by zero (at it).
     */
    function TickDensity(currentTick: nat): (r: Option<nat>)
      reads this
      ensures r.None? <==> currentTick <= startTick
      ensures r.Some? ==> r.value * (currentTick - startTick) <= totalTicks * 100 < (r.value + 1) * (currentTick - startTick)
    {
      if currentTick <= startTick then None
      else
        var elapsed := currentTick - startTick;
        var q := totalTicks * 100 / elapsed;
        assert totalTicks * 100 == elapsed * q + totalTicks * 100 % elapsed;
        assert (q + 1) * elapsed == q * elapsed + elapsed;
        Some(q)
    }

    /**
     * `change_state`: the thread leaves its process's queues, takes the new
     * state, and joins the queue of that state; a terminated thread joins
     * none, and a change to `Running` is refused.
     */
    static method ChangeState(thread: Thread, state: ThreadState)
      requires !state.Running?
      modifies thread`state, thread.process
      ensures thread.state == state
      ensures thread.process.notStartedThreads == Without(old(thread.process.notStartedThreads), thread) + (if state.NotStarted? then [thread] else [])
      ensures thread.process.readyThreads == Without(old(thread.process.readyThreads), thread) + (if state.Ready? then [thread] else [])
      ensures thread.process.sleepingThreads == Without(old(thread.process.sleepingThreads), thread) + (if state.Sleeping? then [thread] else [])
      ensures thread.process.totalTicks == old(thread.process.totalTicks) && thread.process.lastTick == old(thread.process.lastTick)
      ensures (thread in thread.process.notStartedThreads <==> state.NotStarted?)
        && (thread in thread.process.readyThreads <==> state.Ready?)
        && (thread in thread.process.sleepingThreads <==> state.Sleeping?)
    {
      var p := thread.process;
      RemoveFromQueues(p, thread);
      thread.state := state;
      match state {
        case NotStarted => p.notStartedThreads := p.notStartedThreads + [thread];
        case Ready => p.readyThreads := p.readyThreads + [thread];
        case Sleeping(_) => p.sleepingThreads := p.sleepingThreads + [thread];
        case Terminated =>
      }
    }

    /** `remove_thread_from_process_queues` (dispatcher.rs, not part of this model): the thread leaves all three queues. */
    static method RemoveFromQueues(p: Process, thread: Thread)
      modifies p
      ensures p.notStartedThreads == Without(old(p.notStartedThreads), thread)
      ensures p.readyThreads == Without(old(p.readyThreads), thread)
      ensures p.sleepingThreads == Without(old(p.sleepingThreads), thread)
      ensures p.totalTicks == old(p.totalTicks) && p.lastTick == old(p.lastTick)
    {
      p.notStartedThreads := Without(p.notStartedThreads, thread);
      p.readyThreads := Without(p.readyThreads, thread);
      p.sleepingThreads := Without(p.sleepingThreads, thread);
    }

    /**
     * `new_native`: a thread whose id is the number of threads the process
     * already queues, not started, with no ticks, appended to the process's
     * not-started queue.
     */
    static method NewNative(address: nat, stackPointer: nat, process: Process) returns (thread: Thread)
      modifies process`notStartedThreads
      ensures fresh(thread)
      ensures thread.id == old(process.QueuedCount()) && thread.process == process
      ensures thread.state == NotStarted && thread.totalTicks == 0 && thread.startTick == 0 && thread.lastTick == 0
      ensures thread.registers == RegistersState(address, 0x200, stackPointer)
      ensures process.notStartedThreads == old(process.notStartedThreads) + [thread]
    {
      var id := |process.notStartedThreads| + |process.readyThreads| + |process.sleepingThreads|;
      thread := new Thread(id, RegistersState(address, 0x200, stackPointer), process);
      process.notStartedThreads := process.notStartedThreads + [thread];
    }
  }

  /** A thread that has run at most the ticks since its creation has a density of at most 100; one that ran all of them, exactly 100. */
  lemma TickDensityBounds(t: Thread, currentTick: nat)
    ensures currentTick > t.startTick && t.totalTicks <= currentTick - t.startTick ==> t.TickDensity(currentTick).value <= 100
    ensures currentTick > t.startTick && t.totalTicks == currentTick - t.startTick ==> t.TickDensity(currentTick).value == 100
  {
    if currentTick > t.startTick {
      PercentBounds(t.totalTicks, currentTick - t.startTick);
    }
  }

  /** A share of at most the whole is at most 100 percent, and the whole is exactly 100 percent. */
  lemma PercentBounds(total: nat, elapsed: nat)
    requires elapsed >= 1
    ensures total <= elapsed ==> total * 100 / elapsed <= 100
    ensures total == elapsed ==> total * 100 / elapsed == 100
  {
    DivModUnique(elapsed * 100, elapsed, 100, 0);
    if total <= elapsed {
      MulMonotone(total, elapsed, 100);
      DivMonotone(total * 100, elapsed * 100, elapsed);
    }
  }

  lemma DivMonotone(a: nat, b: nat, d: nat)
    requires a <= b && d >= 1
    ensures a / d <= b / d
  {
    var qa, qb := a / d, b / d;
    if qa > qb {
      MulMonotone(qb + 1, qa, d);
      assert false;
    }
  }

  /** Of two threads started at the same tick, the one that has run longer has at least the other's density. */
  lemma TickDensityMonotone(t: Thread, u: Thread, currentTick: nat)
    requires t.startTick == u.startTick < currentTick && t.totalTicks <= u.totalTicks
    ensures t.TickDensity(currentTick).value <= u.TickDensity(currentTick).value
  {
    MulMonotone(t.totalTicks, u.totalTicks, 100);
    DivMonotone(t.totalTicks * 100, u.totalTicks * 100, currentTick - t.startTick);
  }
}
