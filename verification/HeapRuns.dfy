/** Whole runs of the heap: allocations, frees, sweeps and collections in any order. */
module HeapRuns {
  import opened Words
  import opened Sums
  import opened HeapTable
  import opened HeapProofs
  import opened HeapCoalesce
  import opened HeapClear

  datatype Op =
    | AllocOp(sz: Word, owner: Word)
    | FreeOp(ptr: Word)
    | SweepOp(tasks: set<Word>)
    | CollectOp

  ghost function Step(R: Region, t: Table, op: Op): (r: Req)
    requires |t| > 0
    ensures r.Granted? ==> |r.t| == |t|
  {
    match op
    case AllocOp(sz, owner) => Alloc(R, t, sz, owner)
    case FreeOp(ptr) => Free(R, t, ptr)
    case SweepOp(tasks) => Sweep(R, t, tasks, 0)
    case CollectOp => Granted(Collect(t).0, 0)
  }

  /** The table after a run, or the outcome that ended it. */
  ghost function Run(R: Region, t: Table, ops: seq<Op>): (r: Req)
    requires |t| > 0
    ensures r.Granted? ==> |r.t| == |t|
    decreases |ops|
  {
    if ops == [] then Granted(t, 0)
    else
      var s := Step(R, t, ops[0]);
      if s.Granted? then Run(R, s.t, ops[1..]) else s
  }

  /** Every collection of the run makes touching merges only. */
  ghost predicate RunTouches(R: Region, t: Table, ops: seq<Op>)
    requires |t| > 0
    decreases |ops|
  {
    ops == [] ||
    (&& (ops[0].CollectOp? ==> PassTouches(t))
     && (Step(R, t, ops[0]).Granted? ==> RunTouches(R, Step(R, t, ops[0]).t, ops[1..])))
  }

  /** The table heap_init leaves: one FREE block over the whole region. */
  function Initial(R: Region, n: nat): Table
  {
    seq(n, i => if i == 0 then Blk(R.base, R.size, FREE, NULL) else NO_BLK)
  }

  lemma InitialInv(R: Region, n: nat)
    requires ValidRegion(R) && n > 0
    ensures HeapInv(R, Initial(R, n)) && forall a :: R.base <= a < R.base + R.size ==> FreeByte(Initial(R, n), a)
  {
    var t := Initial(R, n);
    SumZero(t[1..], LiveSz());
    forall a | R.base <= a < R.base + R.size ensures Covered(t, a) {
      assert Covers(t[0], a);
    }
  }

  lemma StepKeeps(R: Region, t: Table, op: Op)
    requires HeapInv(R, t) && (op.CollectOp? ==> PassTouches(t)) && Step(R, t, op).Granted?
    ensures HeapInv(R, Step(R, t, op).t)
  {
    match op
    case AllocOp(sz, owner) => AllocContract(R, t, sz, owner);
    case FreeOp(ptr) => FreeContract(R, t, ptr);
    case SweepOp(tasks) => SweepIsExact(R, t, tasks, 0);
    case CollectOp => TouchingPassKeeps(R, t);
  }

  // ---------------------------------------------------------------- the tiling over runs

  /** The descriptors tile the region before and after every step of the run, and all through every collection. */
  ghost predicate RunTilesThroughout(R: Region, t: Table, ops: seq<Op>)
    requires |t| > 0
    decreases |ops|
  {
    && Tiled(R, t)
    && (ops != [] ==>
          && (ops[0].CollectOp? ==> PassTilesThroughout(R, t))
          && (Step(R, t, ops[0]).Granted? ==> RunTilesThroughout(R, Step(R, t, ops[0]).t, ops[1..])))
  }

  /** A run keeps the tiling all the way through if and only if its collections merge touching blocks only. */
  lemma {:induction false} RunTilesIff(R: Region, t: Table, ops: seq<Op>)
    requires HeapInv(R, t)
    ensures RunTilesThroughout(R, t, ops) <==> RunTouches(R, t, ops)
    decreases |ops|
  {
    if ops != [] {
      if ops[0].CollectOp? { PassTilesIff(R, t); }
      if (ops[0].CollectOp? ==> PassTouches(t)) && Step(R, t, ops[0]).Granted? {
        StepKeeps(R, t, ops[0]);
        RunTilesIff(R, Step(R, t, ops[0]).t, ops[1..]);
      }
    }
  }

  /** Every collection of the run starts on a clear table, which its caller can see. */
  ghost predicate RunClear(R: Region, t: Table, ops: seq<Op>)
    requires |t| > 0
    decreases |ops|
  {
    ops != [] ==>
      && (ops[0].CollectOp? ==> Clear(t))
      && (Step(R, t, ops[0]).Granted? ==> RunClear(R, Step(R, t, ops[0]).t, ops[1..]))
  }

  lemma {:induction false} RunClearTouches(R: Region, t: Table, ops: seq<Op>)
    requires HeapInv(R, t) && RunClear(R, t, ops)
    ensures RunTouches(R, t, ops)
    decreases |ops|
  {
    if ops != [] {
      if ops[0].CollectOp? { ClearTouches(R, t); }
      if Step(R, t, ops[0]).Granted? {
        StepKeeps(R, t, ops[0]);
        RunClearTouches(R, Step(R, t, ops[0]).t, ops[1..]);
      }
    }
  }

  lemma {:induction false} TouchingRunTiles(R: Region, t: Table, ops: seq<Op>)
    requires HeapInv(R, t) && RunTouches(R, t, ops) && Run(R, t, ops).Granted?
    ensures HeapInv(R, Run(R, t, ops).t)
    decreases |ops|
  {
    if ops != [] {
      StepKeeps(R, t, ops[0]);
      TouchingRunTiles(R, Step(R, t, ops[0]).t, ops[1..]);
    }
  }

  /** Over every run that collects on clear tables only, the live descriptors tile the region. */
  lemma RunTiles(R: Region, t: Table, ops: seq<Op>)
    requires HeapInv(R, t) && RunClear(R, t, ops) && Run(R, t, ops).Granted?
    ensures HeapInv(R, Run(R, t, ops).t)
  {
    RunClearTouches(R, t, ops);
    TouchingRunTiles(R, t, ops);
  }

  /** From boot: the region is tiled after every run that collects on clear tables. */
  lemma BootRunTiles(R: Region, n: nat, ops: seq<Op>)
    requires ValidRegion(R) && n > 0
    requires RunClear(R, Initial(R, n), ops) && Run(R, Initial(R, n), ops).Granted?
    ensures HeapInv(R, Run(R, Initial(R, n), ops).t)
  {
    InitialInv(R, n);
    RunTiles(R, Initial(R, n), ops);
  }

  /** The initial heap is clear. */
  lemma InitialClear(R: Region, n: nat)
    requires ValidRegion(R) && n > 0
    ensures Clear(Initial(R, n))
  {
    var t := Initial(R, n);
    assert forall i :: 0 <= i < n && t[i].state == FREE ==> i == 0;
    assert Mirror(t[0].addr, End(t[0])) == R.base ==> R.size == WORD || R.size == 0;
  }

  /** A run without collections needs no condition. */
  lemma {:induction false} NoCollectClear(R: Region, t: Table, ops: seq<Op>)
    requires |t| > 0 && forall k :: 0 <= k < |ops| ==> !ops[k].CollectOp?
    ensures RunClear(R, t, ops)
    decreases |ops|
  {
    if ops != [] && Step(R, t, ops[0]).Granted? {
      NoCollectClear(R, Step(R, t, ops[0]).t, ops[1..]);
    }
  }

  lemma {:induction false} RunAppend(R: Region, t: Table, ops: seq<Op>, op: Op)
    requires |t| > 0 && Run(R, t, ops).Granted?
    ensures Run(R, t, ops + [op]) == (var s := Step(R, Run(R, t, ops).t, op); if s.Granted? then Granted(s.t, 0) else s)
    decreases |ops|
  {
    var all := ops + [op];
    if ops == [] {
      assert all[0] == op && all[1..] == [];
      assert Run(R, t, all) == (var s := Step(R, t, op); if s.Granted? then Run(R, s.t, []) else s);
    } else {
      assert all[0] == ops[0] && all[1..] == ops[1..] + [op];
      RunAppend(R, Step(R, t, ops[0]).t, ops[1..], op);
    }
  }
}
