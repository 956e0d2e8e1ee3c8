/** What every run of the heap keeps, whatever blocks its collections merge: byte totals, the region, whole pages. */
module HeapEveryRun {
  import opened Words
  import opened Search
  import opened Sums
  import opened HeapTable
  import opened HeapProofs
  import opened HeapCoalesce
  import opened HeapRuns
  import opened HeapAccounts

  /** Only state or owner of a block changes. */
  lemma RelabelAccounted(R: Region, t: Table, i: nat, s: BlkState, owner: Word)
    requires Accounted(R, t) && i < |t| && Live(t[i]) && s != INVALID
    ensures Accounted(R, t[i := t[i].(state := s, thread := owner)])
  {
    var b := t[i].(state := s, thread := owner);
    SumUpdate(t, LiveSz(), i, b);
    forall a | a >= R.base ensures BytesFrom(t[i := b], a) <= Room(R, a) {
      SumUpdate(t, StartsFrom(a), i, b);
      assert BytesFrom(t, a) <= Room(R, a);
    }
  }

  /** A block cut in two through an unused slot. */
  lemma CutAccounted(R: Region, t: Table, g: nat, k: nat, front: Blk, back: Blk)
    requires Accounted(R, t) && g < |t| && k < |t| && Live(t[g]) && !Live(t[k])
    requires Live(front) && Live(back) && front.sz > 0 && back.sz > 0
    requires front.addr == t[g].addr && End(front) == back.addr && End(back) == End(t[g])
    ensures Accounted(R, t[k := front][g := back])
  {
    var u := t[k := front][g := back];
    SumPair(t, LiveSz(), k, g, front, back);
    forall a | a >= R.base ensures BytesFrom(u, a) <= Room(R, a) {
      SumPair(t, StartsFrom(a), k, g, front, back);
      assert BytesFrom(t, a) <= Room(R, a);
      if t[g].addr < a <= back.addr {
        SumAtMost(t, StartsFrom(a), StartsFrom(t[g].addr), g);
        assert BytesFrom(t, t[g].addr) <= Room(R, t[g].addr);
      }
    }
  }

  lemma AllocAccounted(R: Region, t: Table, sz: Word, owner: Word)
    requires Accounted(R, t) && Alloc(R, t, sz, owner).Granted?
    ensures Accounted(R, Alloc(R, t, sz, owner).t)
  {
    AccountedInside(R, t);
    assert ValidRegion(R);
    hide Alloc, Accounted, AllInside, MemAlign;
    var r := Alloc(R, t, sz, owner);
    var g := AllocShape(R, t, sz, owner);
    if Live(t[r.i]) {
      RelabelAccounted(R, t, r.i, USED, owner);
    } else {
      CutAccounted(R, t, g, r.i, r.t[r.i], r.t[g]);
    }
  }

  lemma FreeAccounted(R: Region, t: Table, ptr: Word)
    requires Accounted(R, t) && Free(R, t, ptr).Granted?
    ensures Accounted(R, Free(R, t, ptr).t)
  {
    var i := First(t, UsedAt(ptr));
    assert UsedAt(ptr)(t[i]);
    RelabelAccounted(R, t, i, FREE, t[i].thread);
  }

  /** The dead-owner sweep never halts, overlaps or not, and keeps the accounts. */
  lemma {:induction false} SweepAccounted(R: Region, t: Table, tasks: set<Word>, i: nat)
    requires Accounted(R, t) && i <= |t|
    ensures Sweep(R, t, tasks, i).Granted? && Accounted(R, Sweep(R, t, tasks, i).t)
    decreases |t| - i
  {
    if i < |t| {
      if OwnerGone(t[i], tasks) {
        AccountedInside(R, t);
        FreeContract(R, t, t[i].addr);
        FreeAccounted(R, t, t[i].addr);
        SweepAccounted(R, Free(R, t, t[i].addr).t, tasks, i + 1);
      } else {
        SweepAccounted(R, t, tasks, i + 1);
      }
    }
  }

  lemma StepAccounted(R: Region, t: Table, op: Op)
    requires Accounted(R, t) && |t| > 0 && Step(R, t, op).Granted?
    ensures Accounted(R, Step(R, t, op).t)
  {
    match op
    case AllocOp(sz, owner) => AllocAccounted(R, t, sz, owner);
    case FreeOp(ptr) => FreeAccounted(R, t, ptr);
    case SweepOp(tasks) => SweepAccounted(R, t, tasks, 0);
    case CollectOp => CollectAccounted(R, t);
  }

  lemma {:induction false} RunAccounted(R: Region, t: Table, ops: seq<Op>)
    requires Accounted(R, t) && |t| > 0 && Run(R, t, ops).Granted?
    ensures Accounted(R, Run(R, t, ops).t)
    decreases |ops|
  {
    if ops != [] {
      StepAccounted(R, t, ops[0]);
      RunAccounted(R, Step(R, t, ops[0]).t, ops[1..]);
    }
  }

  /** Used and free amounts add up to the region. */
  lemma AmountsAddUp(R: Region, t: Table)
    requires Accounted(R, t)
    ensures SumBy(t, UsedSz()) + SumBy(t, FreeSz()) == R.size
  {
    SumSplit(t, UsedSz(), FreeSz(), LiveSz());
  }

  /** After every run from boot, whatever its collections merged: the amounts add up, no block leaves the region, and
      none is empty. */
  lemma EveryRunAddsUp(R: Region, n: nat, ops: seq<Op>)
    requires ValidRegion(R) && n > 0 && Run(R, Initial(R, n), ops).Granted?
    ensures var u := Run(R, Initial(R, n), ops).t;
            SumBy(u, UsedSz()) + SumBy(u, FreeSz()) == R.size && AllInside(R, u) && Sized(u)
  {
    InitialInv(R, n);
    InvAccounted(R, Initial(R, n));
    RunAccounted(R, Initial(R, n), ops);
    var u := Run(R, Initial(R, n), ops).t;
    AmountsAddUp(R, u);
    AccountedInside(R, u);
  }

  // ---------------------------------------------------------------- whole pages

  /** Sizes and offsets are whole pages. */
  ghost predicate Paged(R: Region, t: Table)
  {
    forall i :: 0 <= i < |t| && Live(t[i]) ==> t[i].sz % HEAP_ALIGN == 0 && (t[i].addr - R.base) % HEAP_ALIGN == 0
  }

  lemma JoinPaged(R: Region, t: Table, i: nat, j: nat, b: Blk)
    requires Paged(R, t) && i < |t| && j < |t| && Live(t[i]) && Live(t[j])
    requires b.sz == t[i].sz + t[j].sz && (b.addr == t[i].addr || b.addr == t[j].addr)
    ensures Paged(R, t[i := b][j := NO_BLK])
  {
  }

  lemma MergeStepPaged(R: Region, t: Table, i: nat)
    requires Accounted(R, t) && Paged(R, t) && i < |t|
    ensures Paged(R, MergeNearest(t, i).0)
  {
    NearestIsOther(t, i);
    var j := Nearest(t, t[i]);
    if !Live(t[i]) {
      UnusedStillFindsNothing(R, t, i);
    } else if j < |t| {
      MergeSums(t, i, j);
      JoinPaged(R, t, i, j, Merge(t, i, j)[i]);
    }
  }

  lemma {:induction false} LoopPaged(R: Region, t: Table, i: nat)
    requires Accounted(R, t) && Paged(R, t) && i <= |t|
    ensures Paged(R, CollectLoop(t, i).0)
    decreases |t| - i
  {
    if i < |t| {
      if t[i].state == FREE {
        MergeStepAccounted(R, t, i);
        MergeStepPaged(R, t, i);
      }
      LoopPaged(R, LoopStep(t, i).0, i + 1);
    }
  }

  lemma CutPaged(R: Region, t: Table, g: nat, k: nat, front: Blk, back: Blk)
    requires Paged(R, t) && g < |t| && k < |t| && Live(t[g])
    requires front.addr == t[g].addr && End(front) == back.addr && End(back) == End(t[g])
    requires front.sz % HEAP_ALIGN == 0
    ensures Paged(R, t[k := front][g := back])
  {
    assert back.sz == t[g].sz - front.sz;
    assert back.addr - R.base == t[g].addr - R.base + front.sz;
  }

  lemma RelabelPaged(R: Region, t: Table, i: nat, b: Blk)
    requires Paged(R, t) && i < |t| && Live(t[i]) && b.addr == t[i].addr && b.sz == t[i].sz
    ensures Paged(R, t[i := b])
  {
  }

  lemma AllocPaged(R: Region, t: Table, sz: Word, owner: Word)
    requires Accounted(R, t) && Paged(R, t) && Alloc(R, t, sz, owner).Granted?
    ensures Paged(R, Alloc(R, t, sz, owner).t)
  {
    AccountedInside(R, t);
    assert ValidRegion(R);
    hide Alloc, Accounted, AllInside, Paged, MemAlign;
    AlignedSize(sz);
    var r := Alloc(R, t, sz, owner);
    var g := AllocShape(R, t, sz, owner);
    if Live(t[r.i]) {
      RelabelPaged(R, t, r.i, r.t[r.i]);
    } else {
      CutPaged(R, t, g, r.i, r.t[r.i], r.t[g]);
    }
  }

  lemma {:induction false} SweepPaged(R: Region, t: Table, tasks: set<Word>, i: nat)
    requires Paged(R, t) && i <= |t| && Sweep(R, t, tasks, i).Granted?
    ensures Paged(R, Sweep(R, t, tasks, i).t)
    decreases |t| - i
  {
    if i < |t| {
      SweepPaged(R, if OwnerGone(t[i], tasks) then Free(R, t, t[i].addr).t else t, tasks, i + 1);
    }
  }

  lemma StepPaged(R: Region, t: Table, op: Op)
    requires Accounted(R, t) && |t| > 0 && Paged(R, t) && Step(R, t, op).Granted?
    ensures Paged(R, Step(R, t, op).t)
  {
    match op
    case AllocOp(sz, owner) => AllocPaged(R, t, sz, owner);
    case FreeOp(ptr) =>
    case SweepOp(tasks) => SweepPaged(R, t, tasks, 0);
    case CollectOp =>
      LoopAccounted(R, t, 0);
      LoopPaged(R, t, 0);
      MergeStepPaged(R, CollectLoop(t, 0).0, 0);
  }

  lemma {:induction false} RunPaged(R: Region, t: Table, ops: seq<Op>)
    requires Accounted(R, t) && |t| > 0 && Paged(R, t) && Run(R, t, ops).Granted?
    ensures Paged(R, Run(R, t, ops).t)
    decreases |ops|
  {
    if ops != [] {
      StepAccounted(R, t, ops[0]);
      StepPaged(R, t, ops[0]);
      RunPaged(R, Step(R, t, ops[0]).t, ops[1..]);
    }
  }

  lemma {:induction false} PagesAddUp(t: Table)
    requires forall i :: 0 <= i < |t| && Live(t[i]) ==> t[i].sz % HEAP_ALIGN == 0
    ensures SumBy(t, LiveSz()) % HEAP_ALIGN == 0
  {
    if t != [] { PagesAddUp(t[1..]); }
  }

  /** After every run from boot the blocks are whole pages at page offsets if and only if the region is whole pages. */
  lemma EveryRunPagedIff(R: Region, n: nat, ops: seq<Op>)
    requires ValidRegion(R) && n > 0 && Run(R, Initial(R, n), ops).Granted?
    ensures Paged(R, Run(R, Initial(R, n), ops).t) <==> R.size % HEAP_ALIGN == 0
  {
    var t := Initial(R, n);
    InitialInv(R, n);
    InvAccounted(R, t);
    RunAccounted(R, t, ops);
    if R.size % HEAP_ALIGN == 0 { RunPaged(R, t, ops); }
    if Paged(R, Run(R, t, ops).t) { PagesAddUp(Run(R, t, ops).t); }
  }
}
