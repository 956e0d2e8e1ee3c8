/** The scheduler of scheduler.c over thread objects. */
module Scheduler {
  import opened Words
  import opened RoundRobin
  import opened SchedulerProofs

  class Thread {
    const uid: Word
    var state: ThreadState
    var locked: bool
    var ticks: nat

    /** thread_create: halted and unlocked until started. */
    constructor (uid: Word)
      ensures this.uid == uid && state == HALTED && !locked && ticks == 0
    {
      this.uid, state, locked, ticks := uid, HALTED, false, 0;
    }
  }

  /** The threads of a list as values. */
  ghost function View(l: seq<Thread>): (v: seq<Thr<Thread>>)
    reads l
    ensures |v| == |l|
    ensures forall i :: 0 <= i < |l| ==> v[i] == Thr(l[i], l[i].uid, l[i].state, l[i].locked)
  {
    seq(|l|, i requires 0 <= i < |l| reads l => Thr(l[i], l[i].uid, l[i].state, l[i].locked))
  }

  lemma SamePlace(l: seq<Thr<Thread>>, i: nat, j: nat)
    requires Distinct(l) && i < |l| && j < |l| && l[i].ref == l[j].ref
    ensures i == j
  {
  }

  /** Unloading an entry unloads its value. */
  lemma ViewWithout(v: seq<Thr<Thread>>, l: seq<Thread>, k: nat, uid: Word)
    requires k < |v| && v[k].uid == uid
    requires forall i :: 0 <= i < |v| ==> v[i] == Thr(v[i].ref, v[i].ref.uid, v[i].ref.state, v[i].ref.locked)
    requires |l| == if uid == KERNEL_UID then |v| else |v| - 1
    requires forall i :: 0 <= i < |l| ==> l[i] == v[if uid == KERNEL_UID || i < k then i else i + 1].ref
    ensures View(l) == if uid == KERNEL_UID then v else Without(v, k)
  {
  }

  class TaskMgr {
    var threads: seq<Thread>
    var timer: nat
    var index: nat
    var lock: bool
    var ready: bool
    var thisThread: Thread
    var nextThread: Thread

    ghost function Abs(): Machine<Thread>
      reads this, threads
    {
      Machine(View(threads), index, thisThread, timer, ready)
    }

    ghost predicate Valid()
      reads this, threads
    {
      !lock && Inv(Abs())
    }

    /** taskmgr_init: the kernel thread alone, RUNNING. */
    constructor ()
      ensures Valid() && fresh(thisThread)
      ensures Abs() == Boot(thisThread)
    {
      var kthread := new Thread(KERNEL_UID);
      kthread.state := RUNNING;
      threads := [kthread];
      timer, index, lock, ready := 0, 0, false, false;
      thisThread, nextThread := kthread, kthread;
    }

    /** taskmgr_load: keeps the run invariant exactly for a thread that is new, unlocked and not a second kernel. */
    method Load(thread: Thread?) returns (halted: bool)
      requires Valid()
      modifies this`threads
      ensures halted <==> thread == null
      ensures thread == null ==> Valid()
      ensures thread != null ==>
        (Valid() <==> Allowed(old(Abs()), Event.Load(Thr(thread, thread.uid, thread.state, thread.locked))))
      ensures Abs() == if thread == null then old(Abs()) else
        Step(old(Abs()), Event.Load(Thr(thread, thread.uid, thread.state, thread.locked)))
    {
      if thread == null { return true; }
      ghost var t: Thr<Thread> := Thr(thread, thread.uid, thread.state, thread.locked);
      LoadKeepsIff(Abs(), t);
      threads := threads + [thread];
      assert View(threads) == old(View(threads)) + [t];
      halted := false;
    }

    method StartThread(thread: Thread?) returns (halted: bool)
      requires Valid()
      modifies this`lock, (if thread == null then {} else {thread})
      ensures halted <==> thread == null
      ensures !halted ==> Valid() && Abs() == Step(old(Abs()), Start(thread)) && thread.state == RUNNING
    {
      lock := true;
      if thread == null { return true; }
      StepKeeps(Abs(), Start(thread));
      thread.state := RUNNING;
      lock := false;
      assert View(threads) == SetState(old(View(threads)), thread, RUNNING);
      halted := false;
    }

    method KillThread(thread: Thread?) returns (halted: bool)
      requires Valid()
      modifies this`lock, (if thread == null then {} else {thread})
      ensures halted <==> thread == null
      ensures !halted ==> Valid() && Abs() == Step(old(Abs()), Kill(thread)) && thread.state == TERMINATED
    {
      lock := true;
      if thread == null { return true; }
      StepKeeps(Abs(), Kill(thread));
      thread.state := TERMINATED;
      lock := false;
      assert View(threads) == SetState(old(View(threads)), thread, TERMINATED);
      halted := false;
    }

    method LockThread()
      requires Valid()
      modifies thisThread`locked
      ensures Valid() && Abs() == Step(old(Abs()), Lock)
      ensures thisThread.locked && threads == old(threads) && threads[index] == thisThread
    {
      StepKeeps(Abs(), Lock);
      thisThread.locked := true;
      assert View(threads) == SetLock(old(View(threads)), thisThread, true);
    }

    method UnlockThread()
      requires Valid()
      modifies thisThread`locked
      ensures Valid() && Abs() == Step(old(Abs()), Unlock)
      ensures !thisThread.locked && threads == old(threads) && threads[index] == thisThread
    {
      StepKeeps(Abs(), Unlock);
      thisThread.locked := false;
      assert View(threads) == SetLock(old(View(threads)), thisThread, false);
    }

    /** taskmgr_toggle. */
    method Toggle(enabled: bool)
      requires Valid()
      modifies this`ready, this`lock
      ensures Valid() && Abs() == Step(old(Abs()), Event.Toggle(enabled)) && ready == enabled
    {
      StepKeeps(Abs(), Event.Toggle(enabled));
      ready, lock := enabled, false;
    }

    /** taskmgr_unload_index: refuses the kernel thread. */
    method UnloadIndex(i: int) returns (halted: bool)
      modifies this`lock, this`threads
      ensures (halted <==> !(0 <= i < |old(threads)|)) && !lock
      ensures threads == if halted || old(threads[i].uid) == KERNEL_UID then old(threads) else
        old(threads)[..i] + old(threads)[i + 1..]
    {
      lock := true;
      if i < 0 || i >= |threads| { lock := false; return true; }
      if threads[i].uid == KERNEL_UID { lock := false; return false; }
      threads := Without(threads, i);
      lock := false;
      halted := false;
    }

    /** taskmgr_unload: the first entry equal to `thread`, at `k`, is unloaded. */
    method Unload(thread: Thread?) returns (halted: bool, ghost k: nat)
      modifies this`lock, this`threads
      ensures halted <==> thread == null || thread !in old(threads)
      ensures halted ==> threads == old(threads)
      ensures !halted ==>
        && !lock && k < |old(threads)| && old(threads)[k] == thread
        && threads == if thread.uid == KERNEL_UID then old(threads) else Without(old(threads), k)
    {
      lock := true;
      if thread == null { return true, 0; }
      var i := 0;
      while i < |threads|
        invariant i <= |threads| && threads == old(threads) && forall k :: 0 <= k < i ==> threads[k] != thread
      {
        if threads[i] == thread {
          halted := UnloadIndex(i);
          return halted, i;
        }
        i := i + 1;
      }
      halted, k := true, 0;
    }

    /** Unloading the thread at the cursor. */
    method UnloadAt(thread: Thread)
      requires Distinct(View(threads)) && index < |threads| && threads[index] == thread
      modifies this`lock, this`threads
      ensures Distinct(View(threads))
      ensures View(threads)
        == if thread.uid == KERNEL_UID then old(View(threads)) else Without(old(View(threads)), index)
    {
      hide Distinct, View;
      ghost var l := View(threads);
      var halted, k := Unload(thread);
      SamePlace(l, k, index);
      ViewWithout(l, threads, index, thread.uid);
      DistinctWithout(l, index);
    }

    /** The loop of taskmgr_schedule: moves the cursor to the next thread to run, unloading on the way. */
    method SelectNext()
      requires Distinct(View(threads)) && index < |threads|
      modifies this`index, this`nextThread, this`lock, this`threads
      ensures index < |threads| && nextThread == threads[index]
      ensures (View(threads), index) == Walk(old(View(threads)), old(index))
    {
      hide Walk, Distinct, Without;
      while true
        invariant Distinct(View(threads)) && index <= |threads| && |threads| > 0
        invariant Walk(old(View(threads)), old(index)) == Walk(View(threads), index)
        decreases |threads| - index
      {
        ghost var l := View(threads);
        WalkStep(l, index);
        index := index + 1;
        assert View(threads) == l;
        if index >= |threads| {
          index := 0;
          nextThread := threads[0];
          assert View(threads) == l;
          return;
        }
        var thread := threads[index];
        if thread.state == HALTED || thread.state == WAITING { continue; }
        if thread.state == TERMINATED {
          UnloadAt(thread);
          continue;
        }
        nextThread := thread;
        assert View(threads) == l;
        return;
      }
    }

    /** taskmgr_schedule, with the context switch, which makes NEXT_THREAD the running one. */
    method ScheduleNext(unlock: bool)
      requires Distinct(View(threads))
      modifies this, threads`locked
      ensures lock == old(lock)
      ensures Abs() == if old(lock) then old(Abs()) else Schedule(old(Abs()), unlock)
    {
      if lock || !ready { return; }
      if index >= |threads| { index := 0; return; }
      lock := true;
      thisThread := threads[index];
      DistinctSetLock(View(threads), thisThread, false);
      hide Walk, Distinct;
      if thisThread.locked {
        if !unlock { lock := false; return; }
        thisThread.locked := false;
      }
      assert View(threads) == SetLock(old(View(threads)), thisThread, false);
      hide SetLock;
      SelectNext();
      lock := false;
      thisThread := nextThread;
    }

    /** The timer interrupt: counts the tick, and calls the scheduler once per interval. */
    method Callback()
      requires Valid()
      modifies this, threads`locked, thisThread`ticks
      ensures Valid() && Abs() == Step(old(Abs()), Tick)
      ensures old(thisThread).ticks == old(thisThread.ticks) + if ready then 1 else 0
    {
      StepKeeps(Abs(), Tick);
      hide Inv, Schedule;
      if !ready { timer := 0; return; }
      thisThread.ticks := thisThread.ticks + 1;
      timer := timer + 1;
      if timer >= SCHEDULER_INTERVAL {
        timer := 0;
        assert Abs() == old(Abs()).(timer := 0);
        ScheduleNext(false);
      } else {
        assert Abs() == old(Abs()).(timer := old(timer) + 1);
      }
    }

    /** A thread gives the processor up. */
    method Yields()
      requires Valid()
      modifies this, threads`locked
      ensures Valid() && Abs() == Step(old(Abs()), Yield)
    {
      StepKeeps(Abs(), Yield);
      ScheduleNext(true);
    }

    /** taskmgr_exists. */
    method Exists(thread: Thread?) returns (found: bool)
      ensures found <==> thread != null && thread in threads
    {
      if thread == null { return false; }
      var i := 0;
      while i < |threads|
        invariant i <= |threads| && thread !in threads[..i]
      {
        if threads[i] == thread { return true; }
        i := i + 1;
      }
      found := false;
    }
  }
}
