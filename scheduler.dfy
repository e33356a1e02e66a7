/**
 * The round-robin `Scheduler` of kernel/src/processes/scheduler.rs: a queue
 * of processes, rotated so that the first process with a ready thread runs
 * next, that process's first ready thread with it.
 */
module Scheduling {
  import opened Threads

  /** The queue position of the first process with a ready thread; `|ps|` if there is none. */
  function FirstReady(ps: seq<Process>): (i: nat)
    reads ps
    ensures i <= |ps|
    ensures forall k :: 0 <= k < i ==> ps[k].readyThreads == []
    ensures i < |ps| ==> ps[i].readyThreads != []
  {
    if ps == [] then 0
    else if ps[0].readyThreads != [] then 0
    else 1 + FirstReady(ps[1..])
  }

  /** `s` with its element at `i` taken out and put at the back. */
  function Rotated<T>(s: seq<T>, i: nat): seq<T>
    requires i < |s|
  {
    s[..i] + s[i + 1..] + [s[i]]
  }

  /** Moving one element to the back keeps every element, as often as before, and the order of the others. */
  lemma RotatedPermutes<T>(s: seq<T>, i: nat)
    requires i < |s|
    ensures |Rotated(s, i)| == |s| && multiset(Rotated(s, i)) == multiset(s)
    ensures Rotated(s, i)[|s| - 1] == s[i]
    ensures forall k :: 0 <= k < i ==> Rotated(s, i)[k] == s[k]
    ensures forall k :: i <= k < |s| - 1 ==> Rotated(s, i)[k] == s[k + 1]
  {
    assert s == s[..i] + [s[i]] + s[i + 1..];
  }

  /** The queue after one `schedule`: the first process with a ready thread moved to the back, or the queue as it was. */
  ghost function ScheduledQueue(ps: seq<Process>): seq<Process>
    reads ps
  {
    var i := FirstReady(ps);
    if i < |ps| then Rotated(ps, i) else ps
  }

  /**
   * Round robin: while every process has a ready thread, the queue turned by
   * `n` runs process `n` and becomes the queue turned by `n + 1`; after
   * `|ps|` calls each process has run once and the queue is back as it was.
   */
  lemma RoundRobin(ps: seq<Process>, n: nat)
    requires forall k :: 0 <= k < |ps| ==> ps[k].readyThreads != []
    requires n < |ps|
    ensures var q := ps[n..] + ps[..n];
      FirstReady(q) == 0 && q[0] == ps[n] && ScheduledQueue(q) == ps[n + 1..] + ps[..n + 1]
  {
    var q := ps[n..] + ps[..n];
    assert q[0] == ps[n];
    assert FirstReady(q) == 0;
    calc {
      ScheduledQueue(q);
      Rotated(q, 0);
      { assert q[..0] == []; }
      q[1..] + [q[0]];
      { assert q[1..] == ps[n + 1..] + ps[..n]; }
      ps[n + 1..] + ps[..n] + [ps[n]];
      { assert ps[..n + 1] == ps[..n] + [ps[n]]; }
      ps[n + 1..] + ps[..n + 1];
    }
  }

  class Scheduler {
    /** `running_thread`. */
    var runningThread: Thread?
    /** `processes`, front first. */
    var processes: seq<Process>

    /** `Scheduler::default`. */
    constructor ()
      ensures runningThread == null && processes == []
    {
      runningThread := null;
      processes := [];
    }

    /** `add_process`: the process joins the back of the queue. */
    method AddProcess(process: Process) returns (rc: Process)
      modifies this`processes
      ensures rc == process && processes == old(processes) + [process]
    {
      processes := processes + [process];
      rc := process;
    }

    /** `remove_process`: every entry for the process leaves the queue, the others keep their order. */
    method RemoveProcess(process: Process)
      modifies this`processes
      ensures processes == Without(old(processes), process)
      ensures process !in processes
      ensures forall q :: q != process ==> multiset(processes)[q] == multiset(old(processes))[q]
    {
      processes := Without(processes, process);
      forall q | q != process
        ensures multiset(processes)[q] == multiset(old(processes))[q]
      {
        WithoutCounts(old(processes), process, q);
      }
    }

    /**
     * `timer_tick`: the running thread and its process are charged the ticks
     * since each last ran and remember `tick`; with no running thread
     * nothing changes.
     */
    method TimerTick(registers: RegistersState, tick: nat)
      requires runningThread != null ==> tick >= runningThread.lastTick && tick >= runningThread.process.lastTick
      modifies if runningThread != null then {runningThread, runningThread.process} else {}
      ensures runningThread != null ==>
        var t, p := runningThread, runningThread.process;
        && t.registers == registers
        && t.totalTicks == old(t.totalTicks) + (tick - old(t.lastTick)) && t.lastTick == tick
        && p.totalTicks == old(p.totalTicks) + (tick - old(p.lastTick)) && p.lastTick == tick
        && t.state == old(t.state)
        && p.readyThreads == old(p.readyThreads) && p.notStartedThreads == old(p.notStartedThreads)
        && p.sleepingThreads == old(p.sleepingThreads)
    {
      if runningThread != null {
        var thread := runningThread;
        thread.registers := registers;
        thread.totalTicks := thread.totalTicks + (tick - thread.lastTick);
        thread.lastTick := tick;
        var process := thread.process;
        process.totalTicks := process.totalTicks + (tick - process.lastTick);
        process.lastTick := tick;
      }
    }

    /** `get_thread_to_run`: the process's first ready thread, moved to the back of its ready queue. */
    static method GetThreadToRun(process: Process) returns (thread: Thread?)
      modifies process`readyThreads
      ensures old(process.readyThreads) == [] ==> thread == null && process.readyThreads == []
      ensures old(process.readyThreads) != [] ==>
        thread == old(process.readyThreads)[0] && process.readyThreads == Rotated(old(process.readyThreads), 0)
    {
      if process.readyThreads == [] {
        return null;
      }
      thread := process.readyThreads[0];
      process.readyThreads := process.readyThreads[1..];
      process.readyThreads := process.readyThreads + [thread];
    }

    /**
     * `schedule`: the first process in queue order with a ready thread goes
     * to the back of the queue, and its first ready thread, moved to the
     * back of its own ready queue, is the one to run. With no such process
     * nothing changes and there is no thread.
     */
    method Schedule() returns (thread: Thread?)
      modifies this`processes, processes
      ensures processes == old(ScheduledQueue(processes))
      ensures old(FirstReady(processes)) == |old(processes)| ==> thread == null && processes == old(processes)
      ensures old(FirstReady(processes)) < |old(processes)| ==>
        var i := old(FirstReady(processes));
        var chosen := old(processes)[i];
        && processes == Rotated(old(processes), i)
        && thread == old(chosen.readyThreads)[0]
        && chosen.readyThreads == Rotated(old(chosen.readyThreads), 0)
      ensures forall p :: p in old(processes) && p.readyThreads != old(p.readyThreads) ==>
        old(FirstReady(processes)) < |old(processes)| && p == old(processes)[old(FirstReady(processes))]
      ensures forall p :: p in old(processes) ==>
        && p.notStartedThreads == old(p.notStartedThreads) && p.sleepingThreads == old(p.sleepingThreads)
        && p.totalTicks == old(p.totalTicks) && p.lastTick == old(p.lastTick)
    {
      if |processes| == 0 {
        return null;
      }
      var i := 0;
      while i < |processes| && processes[i].readyThreads == []
        invariant 0 <= i <= |processes|
        invariant forall k :: 0 <= k < i ==> processes[k].readyThreads == []
      {
        i := i + 1;
      }
      if i == |processes| {
        return null;
      }
      var process := processes[i];
      processes := processes[..i] + processes[i + 1..];
      thread := GetThreadToRun(process);
      processes := processes + [process];
    }
  }
}
