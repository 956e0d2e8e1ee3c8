/** What holds in every reachable scheduler state, critical sections, and fairness. */
module SchedulerProofs {
  import opened RoundRobin

  // ---------------------------------------------------------------- every step, every run

  /** A call that switches: the scheduler is on and the running thread is unlocked or yields. */
  ghost predicate Switches<R>(m: Machine<R>, unlock: bool)
  {
    Inv(m) && m.ready && (unlock || !m.list[m.index].locked)
  }

  /** A switch keeps the invariant, never unloads the thread it leaves, and selects a RUNNING thread or the kernel. */
  lemma SwitchSelects<R>(m: Machine<R>, unlock: bool)
    requires Switches(m, unlock)
    ensures var n := Schedule(m, unlock);
      && Inv(n) && |n.list| <= |m.list|
      && (n.index == 0 || n.list[n.index].state == RUNNING)
      && m.index < |n.list| && n.list[m.index].ref == m.cur && n.list[m.index].state == m.list[m.index].state
      && n.list[0].state == m.list[0].state
  {
    var l := SetLock(m.list, m.cur, false);
    var w := Walk(l, m.index);
    WalkKeeps(l, m.index);
    assert w.0[..m.index + 1][m.index] == l[..m.index + 1][m.index];
    assert w.0[..m.index + 1][0] == l[..m.index + 1][0];
    assert forall i :: 0 <= i < |l| ==> !l[i].locked;
    forall i | 0 <= i < |w.0| ensures !w.0[i].locked {
      assert w.0[i] in l;
    }
  }

  /** Loading keeps the run invariant if and only if the thread is as thread_create makes it and not yet in the list. */
  lemma LoadKeepsIff<R>(m: Machine<R>, t: Thr<R>)
    requires Inv(m)
    ensures Inv(Step(m, Load(t))) <==> Allowed(m, Load(t))
  {
    var n := Step(m, Load(t));
    assert n.list[|m.list|] == t && forall i :: 0 <= i < |m.list| ==> n.list[i] == m.list[i];
  }

  lemma StepKeeps<R>(m: Machine<R>, e: Event<R>)
    requires Inv(m) && Allowed(m, e)
    ensures Inv(Step(m, e))
  {
    hide Walk;
    if e.Yield? {
      if m.ready { SwitchSelects(m, true); }
    } else if e.Tick? && m.ready && m.timer + 1 >= SCHEDULER_INTERVAL {
      var n := m.(timer := 0);
      if !n.list[n.index].locked { SwitchSelects(n, false); }
    }
  }

  /** The invariant holds after every run from boot. */
  lemma {:induction false} RunKeeps<R>(m: Machine<R>, es: seq<Event<R>>)
    requires Inv(m) && RunAllowed(m, es)
    ensures Inv(Run(m, es))
    decreases |es|
  {
    if es != [] {
      StepKeeps(m, es[0]);
      RunKeeps(Step(m, es[0]), es[1..]);
    }
  }

  lemma EveryRunFromBoot<R>(kernel: R, es: seq<Event<R>>)
    requires RunAllowed(Boot(kernel), es)
    ensures Inv(Run(Boot(kernel), es)) && Run(Boot(kernel), es).list[0].ref == kernel
    ensures Run(Boot(kernel), es).list[0].uid == 0x1000_0000
  {
    RunKeeps(Boot(kernel), es);
    KernelStays(Boot(kernel), es);
  }

  lemma StepKernel<R>(m: Machine<R>, e: Event<R>)
    requires Inv(m) && Allowed(m, e)
    ensures Step(m, e).list != [] && Step(m, e).list[0].ref == m.list[0].ref
    ensures e != Kill(m.list[0].ref) && m.list[0].state == RUNNING ==> Step(m, e).list[0].state == RUNNING
  {
    StepKeeps(m, e);
    if e.Yield? {
      if m.ready { ScheduleKernel(m, true); }
    } else if e.Tick? && m.ready && m.timer + 1 >= SCHEDULER_INTERVAL {
      var n := m.(timer := 0);
      if !n.list[n.index].locked { ScheduleKernel(n, false); }
    }
  }

  lemma ScheduleKernel<R>(m: Machine<R>, unlock: bool)
    requires Switches(m, unlock)
    ensures Schedule(m, unlock).list != []
    ensures Schedule(m, unlock).list[0].ref == m.list[0].ref && Schedule(m, unlock).list[0].state == m.list[0].state
  {
    var l := SetLock(m.list, m.cur, false);
    WalkKeeps(l, m.index);
    assert Walk(l, m.index).0[..m.index + 1][0] == l[..m.index + 1][0];
  }

  lemma {:induction false} KernelStays<R>(m: Machine<R>, es: seq<Event<R>>)
    requires Inv(m) && RunAllowed(m, es)
    ensures Run(m, es).list != [] && Run(m, es).list[0].ref == m.list[0].ref
    ensures m.list[0].state == RUNNING && Kill(m.list[0].ref) !in es ==> Run(m, es).list[0].state == RUNNING
    decreases |es|
  {
    if es != [] {
      StepKernel(m, es[0]);
      StepKeeps(m, es[0]);
      KernelStays(Step(m, es[0]), es[1..]);
    }
  }

  /** In every run that never kills the kernel thread, each switch selects a RUNNING thread. */
  lemma SelectedIsRunning<R>(kernel: R, es: seq<Event<R>>, unlock: bool)
    requires RunAllowed(Boot(kernel), es) && Kill(kernel) !in es
    requires Switches(Run(Boot(kernel), es), unlock)
    ensures var n := Schedule(Run(Boot(kernel), es), unlock);
            n.index < |n.list| && n.cur == n.list[n.index].ref && n.list[n.index].state == RUNNING
  {
    KernelStays(Boot(kernel), es);
    SwitchSelects(Run(Boot(kernel), es), unlock);
  }

  // ---------------------------------------------------------------- one event at a time

  /** lock and unlock set the lock of the running thread and change nothing else. */
  lemma LockSets<R>(m: Machine<R>)
    requires Inv(m)
    ensures Step(m, Lock) == m.(list := m.list[m.index := m.list[m.index].(locked := true)])
    ensures Step(m, Unlock) == m.(list := m.list[m.index := m.list[m.index].(locked := false)])
  {
    assert SetLock(m.list, m.cur, true) == m.list[m.index := m.list[m.index].(locked := true)];
    assert SetLock(m.list, m.cur, false) == m.list[m.index := m.list[m.index].(locked := false)];
  }

  /** Starting and killing set the state of that thread and change nothing else; of a thread that is not listed, nothing
      at all. */
  lemma StateSets<R>(m: Machine<R>, q: nat, r: R)
    requires Inv(m) && q <= |m.list| && (q < |m.list| ==> m.list[q].ref == r)
    requires q == |m.list| ==> forall i :: 0 <= i < |m.list| ==> m.list[i].ref != r
    ensures Step(m, Start(r)) == if q == |m.list| then m else m.(list := m.list[q := m.list[q].(state := RUNNING)])
    ensures Step(m, Kill(r)) == if q == |m.list| then m else m.(list := m.list[q := m.list[q].(state := TERMINATED)])
  {
    if q < |m.list| {
      assert SetState(m.list, r, RUNNING) == m.list[q := m.list[q].(state := RUNNING)];
      assert SetState(m.list, r, TERMINATED) == m.list[q := m.list[q].(state := TERMINATED)];
    } else {
      assert SetState(m.list, r, RUNNING) == m.list && SetState(m.list, r, TERMINATED) == m.list;
    }
  }

  /** A switched-off scheduler leaves everything alone but the timer, which it resets. */
  lemma OffDoesNothing<R>(m: Machine<R>)
    requires Inv(m) && !m.ready
    ensures Step(m, Yield) == m && Step(m, Tick) == m.(timer := 0)
    ensures Step(m, Toggle(true)) == m.(ready := true) && Step(m.(ready := true), Toggle(false)) == m
  {
  }

  /** What a walk does with the first entry after its start that is neither HALTED nor WAITING: a RUNNING thread is
      selected, a TERMINATED one is unloaded and the walk goes on behind the entry that took its place; with no such
      entry it ends at the kernel thread. */
  lemma {:induction false} WalkMeets<R>(l: seq<Thr<R>>, p: nat, q: nat)
    requires KernelFirst(l) && p < q <= |l|
    requires forall i :: p < i < q ==> l[i].state == HALTED || l[i].state == WAITING
    ensures q == |l| ==> Walk(l, p) == (l, 0)
    ensures q < |l| && l[q].state == RUNNING ==> Walk(l, p) == (l, q)
    ensures q < |l| && l[q].state == TERMINATED ==> Walk(l, p) == Walk(l[..q] + l[q + 1..], q)
    decreases q - p
  {
    WalkStep(l, p);
    hide Walk;
    if p + 1 < q { WalkMeets(l, p + 1, q); }
  }

  // ---------------------------------------------------------------- only started threads run

  /** A thread that is not RUNNING, not the one with the processor, and not the kernel's. */
  ghost predicate Idle<R>(m: Machine<R>, r: R)
  {
    && m.cur != r && m.list != [] && m.list[0].ref != r
    && forall i :: 0 <= i < |m.list| && m.list[i].ref == r ==> m.list[i].state != RUNNING
  }

  /** The event makes the thread RUNNING. */
  ghost predicate Wakes<R>(e: Event<R>, r: R)
  {
    e == Start(r) || (e.Load? && e.t.ref == r && e.t.state == RUNNING)
  }

  lemma SwitchIdle<R>(m: Machine<R>, unlock: bool, r: R)
    requires Switches(m, unlock) && Idle(m, r)
    ensures Idle(Schedule(m, unlock), r)
  {
    var n := Schedule(m, unlock);
    var l := SetLock(m.list, m.cur, false);
    SwitchSelects(m, unlock);
    ScheduleKernel(m, unlock);
    WalkKeeps(l, m.index);
    forall i | 0 <= i < |n.list| && n.list[i].ref == r ensures n.list[i].state != RUNNING {
      assert n.list[i] in l;
    }
  }

  lemma StepIdle<R>(m: Machine<R>, e: Event<R>, r: R)
    requires Inv(m) && Allowed(m, e) && Idle(m, r) && !Wakes(e, r)
    ensures Idle(Step(m, e), r)
  {
    if e.Yield? {
      if m.ready { SwitchIdle(m, true, r); }
    } else if e.Tick? && m.ready && m.timer + 1 >= SCHEDULER_INTERVAL {
      var n := m.(timer := 0);
      if !n.list[n.index].locked { SwitchIdle(n, false, r); }
    }
  }

  lemma {:induction false} RunIdle<R>(m: Machine<R>, es: seq<Event<R>>, r: R)
    requires Inv(m) && RunAllowed(m, es) && Idle(m, r) && forall e :: e in es ==> !Wakes(e, r)
    ensures Idle(Run(m, es), r)
    decreases |es|
  {
    if es != [] {
      StepKeeps(m, es[0]);
      StepIdle(m, es[0], r);
      RunIdle(Step(m, es[0]), es[1..], r);
    }
  }

  /** A killed thread never gets the processor again, whatever happens, until somebody starts it. */
  lemma KilledStaysOff<R>(m: Machine<R>, es: seq<Event<R>>, r: R)
    requires Inv(m) && m.cur != r && m.list[0].ref != r
    requires RunAllowed(Step(m, Kill(r)), es) && forall e :: e in es ==> !Wakes(e, r)
    ensures Run(Step(m, Kill(r)), es).cur != r
  {
    StepKeeps(m, Kill(r));
    RunIdle(Step(m, Kill(r)), es, r);
  }

  /** A thread that nobody has started never gets the processor, in any run from boot. */
  lemma NeverStartedNeverRuns<R>(kernel: R, es: seq<Event<R>>, r: R)
    requires r != kernel && RunAllowed(Boot(kernel), es) && forall e :: e in es ==> !Wakes(e, r)
    ensures Run(Boot(kernel), es).cur != r
  {
    RunIdle(Boot(kernel), es, r);
  }

  // ---------------------------------------------------------------- critical sections

  ghost function Ticks<R>(m: Machine<R>, n: nat): Machine<R>
    decreases n
  {
    if n == 0 then m else Ticks(Step(m, Tick), n - 1)
  }

  /** No number of timer interrupts takes the processor from a thread that holds its lock. */
  lemma {:induction false} LockedKeepsProcessor<R>(m: Machine<R>, n: nat)
    requires Inv(m) && m.list[m.index].locked
    ensures var r := Ticks(m, n);
            r.cur == m.cur && r.index == m.index && r.list == m.list && r.ready == m.ready
    decreases n
  {
    if n > 0 { LockedKeepsProcessor(Step(m, Tick), n - 1); }
  }

  /** From lock to unlock, whatever the running thread's lock was before, no number of timer interrupts takes the
      processor; the unlock leaves everything but the timer as it was, and the thread unlocked. */
  lemma CriticalSection<R>(m: Machine<R>, n: nat)
    requires Inv(m)
    ensures var r := Ticks(Step(m, Lock), n);
      && r.cur == m.cur && r.index == m.index && r.ready == m.ready && r.timer < 30
      && r.list == m.list[m.index := m.list[m.index].(locked := true)]
      && Step(r, Unlock) == m.(list := m.list[m.index := m.list[m.index].(locked := false)], timer := r.timer)
  {
    var k := Step(m, Lock);
    LockSets(m);
    StepKeeps(m, Lock);
    LockedKeepsProcessor(k, n);
    TicksKeep(k, n);
    LockSets(Ticks(k, n));
    hide Inv, Step, Ticks;
    assert k.list[m.index := k.list[m.index].(locked := false)]
      == m.list[m.index := m.list[m.index].(locked := false)];
  }

  lemma {:induction false} TicksKeep<R>(m: Machine<R>, n: nat)
    requires Inv(m)
    ensures Inv(Ticks(m, n))
    decreases n
  {
    if n > 0 {
      StepKeeps(m, Tick);
      TicksKeep(Step(m, Tick), n - 1);
    }
  }

  /** An unlocked thread loses it exactly when the timer interval runs out. */
  lemma {:induction false} UnlockedKeepsUntil<R>(m: Machine<R>, n: nat)
    requires Inv(m) && m.ready && m.timer + n < SCHEDULER_INTERVAL
    ensures Ticks(m, n) == m.(timer := m.timer + n)
    decreases n
  {
    if n > 0 { UnlockedKeepsUntil(Step(m, Tick), n - 1); }
  }

  // ---------------------------------------------------------------- fairness

  ghost function Dead<R>(l: seq<Thr<R>>): nat
  {
    if l == [] then 0 else (if l[0].state == TERMINATED then 1 else 0) + Dead(l[1..])
  }

  lemma {:induction false} DeadWithout<R>(l: seq<Thr<R>>, k: nat)
    requires k < |l|
    ensures Dead(Without(l, k)) == Dead(l) - if l[k].state == TERMINATED then 1 else 0
  {
    if k == 0 {
      assert Without(l, 0) == l[1..];
    } else {
      assert Without(l, k)[0] == l[0] && Without(l, k)[1..] == Without(l[1..], k - 1);
      DeadWithout(l[1..], k - 1);
    }
  }

  /** Position `q` of the list holds the thread we wait for, ready to run. */
  ghost predicate Waits<R>(l: seq<Thr<R>>, q: nat, r: R)
  {
    q < |l| && l[q].ref == r && l[q].state == RUNNING
  }

  /** One walk either selects the waiting thread, or moves the cursor on; passing it costs a TERMINATED thread. */
  lemma {:induction false} WalkProgress<R>(l: seq<Thr<R>>, p: nat, q: nat, r: R) returns (q': nat)
    requires p <= |l| && Waits(l, q, r)
    ensures var w := Walk(l, p);
      && Waits(w.0, q', r) && q' <= q && Dead(w.0) <= Dead(l)
      && (w.1 == 0 || w.1 > p)
      && (p >= q ==> w.1 == 0 || w.1 > q')
      && (p < q ==> w.1 == q' || (0 < w.1 < q') || Dead(w.0) < Dead(l))
    decreases |l| - p
  {
    var n := p + 1;
    q' := q;
    if n < |l| {
      if l[n].state == TERMINATED && l[n].uid != KERNEL_UID {
        DeadWithout(l, n);
        q' := WalkProgress(Without(l, n), n, if n < q then q - 1 else q, r);
      } else if l[n].state != RUNNING {
        q' := WalkProgress(l, n, q, r);
      }
    }
  }

  /** A stretch of scheduler calls with nothing else in between. */
  ghost function Calls<R>(m: Machine<R>, unlocks: seq<bool>): Machine<R>
    decreases |unlocks|
  {
    if unlocks == [] then m else Calls(Schedule(m, unlocks[0]), unlocks[1..])
  }

  /** The scheduler is on and nobody holds a lock, so every call switches. */
  ghost predicate Quiet<R>(m: Machine<R>)
  {
    Inv(m) && m.ready && !m.list[m.index].locked
  }

  lemma CallQuiet<R>(m: Machine<R>, unlock: bool)
    requires Quiet(m)
    ensures var n := Schedule(m, unlock);
            var w := Walk(m.list, m.index);
            Quiet(n) && n == m.(list := w.0, index := w.1, cur := w.0[w.1].ref)
  {
    assert SetLock(m.list, m.cur, false) == m.list;
    SwitchSelects(m, unlock);
    WalkKeeps(m.list, m.index);
    var w := Walk(m.list, m.index);
    assert w.0[w.1] in m.list;
  }

  /** Calls left before the thread at `q` is certainly selected, for lists of at most `size` threads. */
  ghost function Patience(dead: nat, size: nat, p: nat, q: nat): int
  {
    dead * size + (size - p) + if p >= q then size else 0
  }

  lemma {:induction false} Multiples(d: nat, d': nat, size: nat)
    requires d' <= d
    ensures d' * size + (if d' < d then size else 0) <= d * size
  {
    if d' < d { Multiples(d - 1, d', size); }
  }

  /** Every way a call can miss the waiting thread leaves less patience. */
  lemma PatienceFalls(d: nat, d': nat, size: nat, p: nat, p': nat, q: nat, q': nat)
    requires d' <= d && q' <= q < size && p < size && p' < size && p' != q'
    requires p' == 0 || p' > p
    requires p >= q ==> p' == 0 || p' > q'
    requires p < q ==> 0 < p' < q' || d' < d
    ensures 1 <= Patience(d', size, p', q') < Patience(d, size, p, q)
  {
    Multiples(d, d', size);
    assert d' * size >= 0;
  }

  /** One call selects the waiting thread or uses up patience. */
  lemma OneCall<R>(m: Machine<R>, q: nat, r: R, size: nat, unlock: bool) returns (q': nat)
    requires Quiet(m) && Waits(m.list, q, r) && |m.list| <= size
    ensures var n := Schedule(m, unlock);
      && Quiet(n) && Waits(n.list, q', r) && |n.list| <= size
      && (n.cur == r || 1 <= Patience(Dead(n.list), size, n.index, q') < Patience(Dead(m.list), size, m.index, q))
    ensures 1 <= Patience(Dead(m.list), size, m.index, q)
  {
    hide Schedule, Walk, Dead;
    var n := Schedule(m, unlock);
    CallQuiet(m, unlock);
    q' := WalkProgress(m.list, m.index, q, r);
    Multiples(Dead(m.list), 0, size);
    if n.index != q' {
      PatienceFalls(Dead(m.list), Dead(n.list), size, m.index, n.index, q, q');
    }
  }

  lemma {:induction false} ServedInTime<R>(m: Machine<R>, q: nat, r: R, size: nat, unlocks: seq<bool>) returns (k: nat)
    requires Quiet(m) && Waits(m.list, q, r) && |m.list| <= size
    requires 1 <= |unlocks| && Patience(Dead(m.list), size, m.index, q) <= |unlocks|
    ensures 1 <= k <= Patience(Dead(m.list), size, m.index, q)
    ensures Calls(m, unlocks[..k]).cur == r
    decreases |unlocks|
  {
    hide Patience, Quiet, Waits, Schedule;
    var q' := OneCall(m, q, r, size, unlocks[0]);
    var n := Schedule(m, unlocks[0]);
    if n.cur == r {
      k := 1;
      assert unlocks[..1][1..] == [];
      assert Calls(n, []) == n;
    } else {
      var j := ServedInTime(n, q', r, size, unlocks[1..]);
      k := j + 1;
      assert unlocks[..k][1..] == unlocks[1..][..j];
    }
  }

  /** Fairness: with nothing else happening, a RUNNING thread is selected within (T + 2) * n calls. */
  lemma Fair<R>(m: Machine<R>, q: nat, r: R, unlocks: seq<bool>)
    requires Quiet(m) && Waits(m.list, q, r)
    requires |unlocks| == (Dead(m.list) + 2) * |m.list|
    ensures exists k :: 1 <= k <= |unlocks| && Calls(m, unlocks[..k]).cur == r
  {
    var size := |m.list|;
    Multiples(Dead(m.list), 0, size);
    assert (Dead(m.list) + 2) * size == Dead(m.list) * size + 2 * size;
    var k := ServedInTime(m, q, r, size, unlocks);
  }

  // ---------------------------------------------------------------- reclaiming

  /** Position `q` of the list holds a TERMINATED thread that is still to be unloaded. */
  ghost predicate Lingers<R>(l: seq<Thr<R>>, q: nat, r: R)
  {
    0 < q < |l| && l[q].ref == r && l[q].state == TERMINATED
  }

  ghost predicate Gone<R>(l: seq<Thr<R>>, r: R)
  {
    forall i :: 0 <= i < |l| ==> l[i].ref != r
  }

  lemma StaysGone<R>(l: seq<Thr<R>>, p: nat, r: R)
    requires Distinct(l) && KernelFirst(l) && p <= |l| && Gone(l, r)
    ensures Gone(Walk(l, p).0, r)
  {
    WalkKeeps(l, p);
    var u := Walk(l, p).0;
    forall i | 0 <= i < |u| ensures u[i].ref != r { assert u[i] in l; }
  }

  lemma GoneWithout<R>(l: seq<Thr<R>>, q: nat, r: R)
    requires Distinct(l) && q < |l| && l[q].ref == r
    ensures Gone(Without(l, q), r)
  {
  }

  /** A walk that leaves the thread in the list moves the cursor on; passing it costs another TERMINATED thread. */
  ghost predicate Nearer<R>(l: seq<Thr<R>>, p: nat, q: nat, w: (seq<Thr<R>>, nat), q': nat, r: R)
  {
    && Lingers(w.0, q', r) && q' <= q && Dead(w.0) <= Dead(l)
    && (w.1 == 0 || w.1 > p)
    && (p >= q ==> w.1 == 0 || w.1 > q')
    && (p < q ==> (0 < w.1 < q') || Dead(w.0) < Dead(l))
  }

  lemma {:induction false} WalkReclaims<R>(l: seq<Thr<R>>, p: nat, q: nat, r: R) returns (q': nat)
    requires p <= |l| && Distinct(l) && KernelFirst(l) && Lingers(l, q, r)
    ensures Gone(Walk(l, p).0, r) || Nearer(l, p, q, Walk(l, p), q', r)
    decreases |l| - p
  {
    WalkStep(l, p);
    hide Walk, Distinct, KernelFirst, Pruned, Gone;
    var n := p + 1;
    q' := q;
    if n < |l| {
      if l[n].state == TERMINATED {
        var u := Without(l, n);
        WithoutKeeps(l, n);
        DeadWithout(l, n);
        hide Dead;
        if n == q {
          GoneWithout(l, q, r);
          StaysGone(u, n, r);
        } else {
          q' := WalkReclaims(u, n, if n < q then q - 1 else q, r);
        }
      } else if l[n].state != RUNNING {
        q' := WalkReclaims(l, n, q, r);
      }
    }
  }

  /** One call unloads the thread or uses up patience. */
  lemma OneReclaim<R>(m: Machine<R>, q: nat, r: R, size: nat, unlock: bool) returns (q': nat)
    requires Quiet(m) && Lingers(m.list, q, r) && |m.list| <= size
    ensures var n := Schedule(m, unlock);
      && Quiet(n) && |n.list| <= size
      && (Gone(n.list, r)
          || (Lingers(n.list, q', r)
              && 1 <= Patience(Dead(n.list), size, n.index, q') < Patience(Dead(m.list), size, m.index, q)))
    ensures 1 <= Patience(Dead(m.list), size, m.index, q)
  {
    hide Schedule, Walk, Dead;
    var n := Schedule(m, unlock);
    CallQuiet(m, unlock);
    SwitchSelects(m, unlock);
    q' := WalkReclaims(m.list, m.index, q, r);
    Multiples(Dead(m.list), 0, size);
    if !Gone(n.list, r) {
      assert n.index != q';
      PatienceFalls(Dead(m.list), Dead(n.list), size, m.index, n.index, q, q');
    }
  }

  lemma {:induction false} ReclaimedInTime<R>(m: Machine<R>, q: nat, r: R, size: nat, unlocks: seq<bool>)
    returns (k: nat)
    requires Quiet(m) && Lingers(m.list, q, r) && |m.list| <= size
    requires 1 <= |unlocks| && Patience(Dead(m.list), size, m.index, q) <= |unlocks|
    ensures 1 <= k <= Patience(Dead(m.list), size, m.index, q)
    ensures Gone(Calls(m, unlocks[..k]).list, r)
    decreases |unlocks|
  {
    hide Patience, Quiet, Lingers, Gone, Schedule;
    var q' := OneReclaim(m, q, r, size, unlocks[0]);
    var n := Schedule(m, unlocks[0]);
    if Gone(n.list, r) {
      k := 1;
      assert unlocks[..1][1..] == [];
      assert Calls(n, []) == n;
    } else {
      var j := ReclaimedInTime(n, q', r, size, unlocks[1..]);
      k := j + 1;
      assert unlocks[..k][1..] == unlocks[1..][..j];
    }
  }

  /** With nothing else happening, every TERMINATED thread is unloaded within (T + 2) * n calls. */
  lemma Reclaimed<R>(m: Machine<R>, q: nat, r: R, unlocks: seq<bool>)
    requires Quiet(m) && Lingers(m.list, q, r)
    requires |unlocks| == (Dead(m.list) + 2) * |m.list|
    ensures exists k :: 1 <= k <= |unlocks| && Gone(Calls(m, unlocks[..k]).list, r)
  {
    var size := |m.list|;
    Multiples(Dead(m.list), 0, size);
    assert (Dead(m.list) + 2) * size == Dead(m.list) * size + 2 * size;
    var k := ReclaimedInTime(m, q, r, size, unlocks);
  }

  // ---------------------------------------------------------------- fairness under the timer

  lemma {:induction false} TicksSplit<R>(m: Machine<R>, a: nat, b: nat)
    ensures Ticks(m, a + b) == Ticks(Ticks(m, a), b)
    decreases a
  {
    if a > 0 { TicksSplit(Step(m, Tick), a - 1, b); }
  }

  /** When the interval runs out the timer is one call of the scheduler. */
  lemma IntervalIsCall<R>(m: Machine<R>)
    requires Quiet(m)
    ensures Ticks(m, SCHEDULER_INTERVAL - m.timer) == Schedule(m.(timer := 0), false)
  {
    var n := SCHEDULER_INTERVAL - 1 - m.timer;
    UnlockedKeepsUntil(m, n);
    TicksSplit(m, n, 1);
    hide Ticks, Schedule;
    LastTick(m.(timer := SCHEDULER_INTERVAL - 1));
  }

  lemma LastTick<R>(m: Machine<R>)
    requires m.ready && m.timer == SCHEDULER_INTERVAL - 1
    ensures Ticks(m, 1) == Schedule(m.(timer := 0), false)
  {
    hide Schedule;
    assert Ticks(m, 1) == Ticks(Step(m, Tick), 0);
  }

  /** `k` intervals of the timer make `k` calls. */
  lemma {:induction false} TimerCalls<R>(m: Machine<R>, unlocks: seq<bool>) returns (n: nat)
    requires Quiet(m) && forall i :: 0 <= i < |unlocks| ==> !unlocks[i]
    ensures (unlocks != [] ==> n >= 1) && n <= SCHEDULER_INTERVAL * |unlocks|
    ensures Ticks(m, n).cur == Calls(m.(timer := 0), unlocks).cur
    decreases |unlocks|
  {
    if unlocks == [] {
      n := 0;
    } else {
      var d := SCHEDULER_INTERVAL - m.timer;
      IntervalIsCall(m);
      CallQuiet(m.(timer := 0), false);
      var s := Schedule(m.(timer := 0), false);
      var rest := TimerCalls(s, unlocks[1..]);
      TicksSplit(m, d, rest);
      n := d + rest;
      assert s == s.(timer := 0);
    }
  }

  /** Preemption alone gives every RUNNING thread the processor within 30 * (T + 2) * n timer interrupts. */
  lemma TimerFair<R>(m: Machine<R>, q: nat, r: R)
    requires Quiet(m) && Waits(m.list, q, r)
    ensures exists n :: 1 <= n <= 30 * ((Dead(m.list) + 2) * |m.list|) && Ticks(m, n).cur == r
  {
    var unlocks := seq((Dead(m.list) + 2) * |m.list|, i => false);
    Fair(m.(timer := 0), q, r, unlocks);
    var k :| 1 <= k <= |unlocks| && Calls(m.(timer := 0), unlocks[..k]).cur == r;
    var n := TimerCalls(m, unlocks[..k]);
    assert n <= SCHEDULER_INTERVAL * |unlocks|;
  }
}
