/** The scheduler as a state machine over its thread list; `R` stands for a thread's address. */
module RoundRobin {
  import opened Words

  const KERNEL_UID: Word := 0x1000_0000
  const SCHEDULER_INTERVAL: nat := 30

  datatype ThreadState = HALTED | WAITING | RUNNING | TERMINATED

  datatype Thr<R> = Thr(ref: R, uid: Word, state: ThreadState, locked: bool)

  /** The loop of taskmgr_schedule from cursor `p`: the list it leaves and the index it selects. */
  ghost function Walk<R>(l: seq<Thr<R>>, p: nat): (r: (seq<Thr<R>>, nat))
    requires p <= |l| && 0 < |l|
    ensures 0 < |r.0| <= |l| && r.1 < |r.0|
    decreases |l| - p
  {
    var q := p + 1;
    if q >= |l| then (l, 0)
    else match l[q].state
      case HALTED => Walk(l, q)
      case WAITING => Walk(l, q)
      case TERMINATED => if l[q].uid == KERNEL_UID then Walk(l, q) else Walk(Without(l, q), q)
      case RUNNING => (l, q)
  }

  lemma WalkStep<R>(l: seq<Thr<R>>, p: nat)
    requires p <= |l| && 0 < |l|
    ensures p + 1 >= |l| ==> Walk(l, p) == (l, 0)
    ensures p + 1 < |l| && (l[p + 1].state == HALTED || l[p + 1].state == WAITING) ==> Walk(l, p) == Walk(l, p + 1)
    ensures p + 1 < |l| && l[p + 1].state == TERMINATED ==>
      Walk(l, p) == Walk(if l[p + 1].uid == KERNEL_UID then l else Without(l, p + 1), p + 1)
    ensures p + 1 < |l| && l[p + 1].state == RUNNING ==> Walk(l, p) == (l, p + 1)
  {
  }

  function Without<T>(s: seq<T>, k: nat): (r: seq<T>)
    requires k < |s|
    ensures |r| == |s| - 1
  {
    s[..k] + s[k + 1..]
  }

  /** The kernel's scheduling variables; `cur` is THIS_THREAD. */
  datatype Machine<R> = Machine(list: seq<Thr<R>>, index: nat, cur: R, timer: nat, ready: bool)

  datatype Event<R> =
    | Load(t: Thr<R>)
    | Start(ref: R)
    | Kill(ref: R)
    | Lock
    | Unlock
    | Tick
    | Yield
    | Toggle(on: bool)

  function SetState<R(==)>(l: seq<Thr<R>>, ref: R, s: ThreadState): (r: seq<Thr<R>>)
    ensures |r| == |l|
  {
    seq(|l|, i requires 0 <= i < |l| => if l[i].ref == ref then l[i].(state := s) else l[i])
  }

  function SetLock<R(==)>(l: seq<Thr<R>>, ref: R, on: bool): (r: seq<Thr<R>>)
    ensures |r| == |l|
  {
    seq(|l|, i requires 0 <= i < |l| => if l[i].ref == ref then l[i].(locked := on) else l[i])
  }

  /** taskmgr_schedule outside its own critical sections. */
  ghost function Schedule<R>(m: Machine<R>, unlock: bool): Machine<R>
  {
    if !m.ready then m
    else if m.index >= |m.list| then m.(index := 0)
    else
      var t := m.list[m.index];
      if t.locked && !unlock then m.(cur := t.ref)
      else
        var w := Walk(SetLock(m.list, t.ref, false), m.index);
        m.(list := w.0, index := w.1, cur := w.0[w.1].ref)
  }

  ghost function Step<R>(m: Machine<R>, e: Event<R>): Machine<R>
  {
    match e
    case Load(t) => m.(list := m.list + [t])
    case Start(r) => m.(list := SetState(m.list, r, RUNNING))
    case Kill(r) => m.(list := SetState(m.list, r, TERMINATED))
    case Lock => m.(list := SetLock(m.list, m.cur, true))
    case Unlock => m.(list := SetLock(m.list, m.cur, false))
    case Tick =>
      if !m.ready then m.(timer := 0)
      else if m.timer + 1 >= SCHEDULER_INTERVAL then Schedule(m.(timer := 0), false)
      else m.(timer := m.timer + 1)
    case Yield => Schedule(m, true)
    case Toggle(on) => m.(ready := on)
  }

  /** What loading asks of its caller: a thread not yet in the list, as thread_create makes it. */
  ghost predicate Allowed<R>(m: Machine<R>, e: Event<R>)
  {
    e.Load? ==> !e.t.locked && e.t.uid != KERNEL_UID && forall i :: 0 <= i < |m.list| ==> m.list[i].ref != e.t.ref
  }

  ghost function Run<R>(m: Machine<R>, es: seq<Event<R>>): Machine<R>
    decreases |es|
  {
    if es == [] then m else Run(Step(m, es[0]), es[1..])
  }

  ghost predicate RunAllowed<R>(m: Machine<R>, es: seq<Event<R>>)
    decreases |es|
  {
    es == [] || (Allowed(m, es[0]) && RunAllowed(Step(m, es[0]), es[1..]))
  }

  /** The machine taskmgr_init leaves, with the kernel thread alone. */
  function Boot<R>(kernel: R): Machine<R>
  {
    Machine([Thr(kernel, KERNEL_UID, RUNNING, false)], 0, kernel, 0, false)
  }

  // ---------------------------------------------------------------- the run invariant

  ghost predicate Distinct<R>(l: seq<Thr<R>>)
  {
    forall i, j :: 0 <= i < j < |l| ==> l[i].ref != l[j].ref
  }

  /** The kernel thread is first, and the only holder of its identifier. */
  ghost predicate KernelFirst<R>(l: seq<Thr<R>>)
  {
    |l| > 0 && l[0].uid == KERNEL_UID && forall i :: 0 < i < |l| ==> l[i].uid != KERNEL_UID
  }

  /** Only the running thread can hold the lock. */
  ghost predicate OthersUnlocked<R>(m: Machine<R>)
  {
    forall i :: 0 <= i < |m.list| && i != m.index ==> !m.list[i].locked
  }

  ghost predicate Inv<R>(m: Machine<R>)
  {
    && Distinct(m.list) && KernelFirst(m.list) && m.index < |m.list| && m.cur == m.list[m.index].ref
    && OthersUnlocked(m) && m.timer < SCHEDULER_INTERVAL
  }

  /** `u` comes from `l` by dropping TERMINATED threads; the first `k` entries stay in place. */
  ghost predicate Pruned<R>(l: seq<Thr<R>>, u: seq<Thr<R>>, k: nat)
  {
    && k <= |u| <= |l| && u[..k] == l[..k]
    && (forall t :: t in u ==> t in l)
    && (forall t :: t in l && t.state != TERMINATED ==> t in u)
  }

  lemma DistinctSetLock<R>(l: seq<Thr<R>>, ref: R, on: bool)
    requires Distinct(l)
    ensures Distinct(SetLock(l, ref, on))
  {
  }

  lemma DistinctWithout<R>(l: seq<Thr<R>>, q: nat)
    requires q < |l| && Distinct(l)
    ensures Distinct(Without(l, q))
  {
    var u := Without(l, q);
    assert forall i :: 0 <= i < |u| ==> u[i] == l[if i < q then i else i + 1];
  }

  lemma WithoutKeeps<R>(l: seq<Thr<R>>, q: nat)
    requires 0 < q < |l| && Distinct(l) && KernelFirst(l) && l[q].state == TERMINATED
    ensures Distinct(Without(l, q)) && KernelFirst(Without(l, q)) && Pruned(l, Without(l, q), q)
  {
    var u := Without(l, q);
    assert forall i :: 0 <= i < |u| ==> u[i] == l[if i < q then i else i + 1];
    forall t | t in l && t.state != TERMINATED ensures t in u {
      var i :| 0 <= i < |l| && l[i] == t;
      assert u[if i < q then i else i - 1] == t;
    }
  }

  lemma PrunedLess<R>(l: seq<Thr<R>>, u: seq<Thr<R>>, k: nat, j: nat)
    requires Pruned(l, u, k) && j <= k
    ensures Pruned(l, u, j)
  {
    assert u[..j] == u[..k][..j] && l[..j] == l[..k][..j];
  }

  lemma PrunedTwice<R>(l: seq<Thr<R>>, m: seq<Thr<R>>, u: seq<Thr<R>>, k: nat)
    requires Pruned(l, m, k) && Pruned(m, u, k)
    ensures Pruned(l, u, k)
  {
  }

  /** What a walk keeps: list order and shape, the kernel's place, every thread that is not TERMINATED, and the thread
      it starts from. */
  lemma {:induction false} WalkKeeps<R>(l: seq<Thr<R>>, p: nat)
    requires Distinct(l) && KernelFirst(l) && p <= |l|
    ensures var w := Walk(l, p);
      && Distinct(w.0) && KernelFirst(w.0)
      && Pruned(l, w.0, if p < |l| then p + 1 else p)
      && (w.1 == 0 || w.0[w.1].state == RUNNING)
    decreases |l| - p
  {
    WalkStep(l, p);
    var q := p + 1;
    if q < |l| {
      hide Walk;
      if l[q].state == TERMINATED {
        var m := Without(l, q);
        WithoutKeeps(l, q);
        WalkKeeps(m, q);
        hide Pruned;
        if q < |m| { PrunedLess(m, Walk(m, q).0, q + 1, q); }
        PrunedTwice(l, m, Walk(m, q).0, q);
      } else if l[q].state != RUNNING {
        WalkKeeps(l, q);
        PrunedLess(l, Walk(l, q).0, q + 1, q);
      }
    }
  }
}
