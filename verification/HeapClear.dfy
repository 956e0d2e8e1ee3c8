/** A condition on the table as heap_collect finds it, under which its wrong comparison does no harm. */
module HeapClear {
  import opened Words
  import opened HeapTable
  import opened HeapProofs
  import opened HeapCoalesce

  /** Every byte from `lo` up to `hi` belongs to a FREE descriptor. */
  ghost predicate FreeRun(t: Table, lo: int, hi: int)
  {
    lo < hi && forall a :: lo <= a < hi ==> FreeByte(t, a)
  }

  /** The address the second comparison looks at, for a block from `lo` to `hi`. */
  function Mirror(lo: int, hi: int): Word { U32(2 * lo - hi) }

  /** A FREE block that starts at the mirror address of `lo` and `hi` touches what lies between them. */
  ghost predicate ClearOf(t: Table, lo: int, hi: int)
  {
    forall k :: 0 <= k < |t| && t[k].state == FREE && t[k].addr == Mirror(lo, hi) ==> End(t[k]) == lo || t[k].addr == hi
  }

  /** Nothing the pass can build out of FREE blocks, and not a USED slot 0 either, mistakes a FREE block for a
      neighbour. */
  ghost predicate Clear(t: Table)
    requires |t| > 0
  {
    && (forall i, j ::
          (0 <= i < |t| && 0 <= j < |t| && t[i].state == FREE && t[j].state == FREE && FreeRun(t, t[i].addr, End(t[j])))
          ==> ClearOf(t, t[i].addr, End(t[j])))
    && (t[0].state == USED ==> ClearOf(t, t[0].addr, End(t[0])))
  }

  lemma OwnRun(R: Region, t: Table, i: nat)
    requires HeapInv(R, t) && i < |t| && t[i].state == FREE
    ensures FreeRun(t, t[i].addr, End(t[i]))
  {
    assert Inside(R, t[i]);
    forall a | t[i].addr <= a < End(t[i]) ensures FreeByte(t, a) {
      assert Covers(t[i], a);
    }
  }

  lemma ClearStepTouches(R: Region, t: Table, i: nat)
    requires HeapInv(R, t) && i < |t| && t[i].state == FREE && Clear(t)
    ensures StepTouches(t, i)
  {
    OwnRun(R, t, i);
    FoundTouches(R, t, i);
  }

  /** A block with a clear mirror address merges only with a block it touches. */
  lemma FoundTouches(R: Region, t: Table, i: nat)
    requires HeapInv(R, t) && i < |t| && Live(t[i]) && ClearOf(t, t[i].addr, End(t[i]))
    ensures StepTouches(t, i)
  {
    var j := Nearest(t, t[i]);
    if j < |t| {
      assert NearTo(t[i])(t[j]);
      assert Inside(R, t[i]) && Inside(R, t[j]);
    }
  }

  /** After a touching merge every FREE block starts where one started, over the same first block, and ends where one
      ended. */
  lemma Origin(R: Region, t: Table, i: nat, q: nat) returns (s: nat, e: nat)
    requires HeapInv(R, t) && i < |t| && t[i].state == FREE && StepTouches(t, i)
    requires q < |t| && MergeNearest(t, i).0[q].state == FREE
    ensures var b := MergeNearest(t, i).0[q];
      && s < |t| && e < |t| && t[s].state == FREE && t[e].state == FREE
      && t[s].addr == b.addr && End(t[s]) <= End(b) && End(t[e]) == End(b)
  {
    NearestIsOther(t, i);
    var j := Nearest(t, t[i]);
    s, e := q, q;
    if j < |t| && q == i {
      TouchingMergeBytes(R, t, i, j);
      assert Inside(R, t[i]) && Inside(R, t[j]);
      if t[j].addr < t[i].addr { s := j; } else { e := j; }
    }
  }

  lemma ClearOfKept(R: Region, t: Table, i: nat, lo: int, hi: int, p: nat)
    requires HeapInv(R, t) && i < |t| && t[i].state == FREE && StepTouches(t, i)
    requires ClearOf(t, lo, hi)
    requires p < |t| && Live(MergeNearest(t, i).0[p]) && MergeNearest(t, i).0[p].addr == lo
    ensures ClearOf(MergeNearest(t, i).0, lo, hi)
  {
    var u := MergeNearest(t, i).0;
    MergeStepKeeps(R, t, i);
    forall k | 0 <= k < |u| && u[k].state == FREE && u[k].addr == Mirror(lo, hi)
      ensures End(u[k]) == lo || u[k].addr == hi
    {
      var s, e := Origin(R, t, i, k);
      assert Inside(R, u[k]) && Inside(R, u[p]) && Inside(R, t[s]);
      if End(t[s]) == lo { assert k != p && Apart(u[k], u[p]); }
    }
  }

  lemma RunStaysClear(R: Region, t: Table, i: nat, x: nat, y: nat)
    requires HeapInv(R, t) && i < |t| && t[i].state == FREE && Clear(t) && StepTouches(t, i)
    requires var u := MergeNearest(t, i).0;
      && x < |u| && y < |u| && u[x].state == FREE && u[y].state == FREE && FreeRun(u, u[x].addr, End(u[y]))
    ensures var u := MergeNearest(t, i).0; ClearOf(u, u[x].addr, End(u[y]))
  {
    hide HeapInv, ClearOf, FreeRun, MergeNearest, StepTouches;
    var u := MergeNearest(t, i).0;
    var s, _ := Origin(R, t, i, x);
    var _, e := Origin(R, t, i, y);
    RunBefore(R, t, i, u[x].addr, End(u[y]));
    ClearOfKept(R, t, i, t[s].addr, End(t[e]), x);
  }

  lemma StepKeepsClear(R: Region, t: Table, i: nat)
    requires HeapInv(R, t) && i < |t| && t[i].state == FREE && Clear(t)
    ensures StepTouches(t, i) && Clear(MergeNearest(t, i).0)
  {
    ClearStepTouches(R, t, i);
    var u := MergeNearest(t, i).0;
    forall x, y | 0 <= x < |u| && 0 <= y < |u| && u[x].state == FREE && u[y].state == FREE
                  && FreeRun(u, u[x].addr, End(u[y]))
      ensures ClearOf(u, u[x].addr, End(u[y]))
    {
      RunStaysClear(R, t, i, x, y);
    }
    hide HeapInv, MergeNearest, StepTouches, FreeRun;
    if u[0].state == USED {
      NearestIsOther(t, i);
      ClearOfKept(R, t, i, t[0].addr, End(t[0]), 0);
    }
  }

  lemma RunBefore(R: Region, t: Table, i: nat, lo: int, hi: int)
    requires HeapInv(R, t) && i < |t| && t[i].state == FREE && StepTouches(t, i)
    requires FreeRun(MergeNearest(t, i).0, lo, hi)
    ensures FreeRun(t, lo, hi)
  {
    forall a | lo <= a < hi ensures FreeByte(t, a) {
      TouchingMergeKeepsFreeBytes(R, t, i, a);
    }
  }

  lemma {:induction false} LoopKeepsClear(R: Region, t: Table, i: nat)
    requires HeapInv(R, t) && i <= |t| && Clear(t)
    ensures LoopTouches(t, i) && HeapInv(R, CollectLoop(t, i).0) && Clear(CollectLoop(t, i).0)
    decreases |t| - i
  {
    if i < |t| {
      if t[i].state == FREE {
        StepKeepsClear(R, t, i);
        MergeStepKeeps(R, t, i);
      }
      LoopKeepsClear(R, LoopStep(t, i).0, i + 1);
    }
  }

  /** On a clear table every merge of the pass is of touching blocks. */
  lemma ClearTouches(R: Region, t: Table)
    requires HeapInv(R, t) && Clear(t)
    ensures PassTouches(t)
  {
    LoopKeepsClear(R, t, 0);
    var u := CollectLoop(t, 0).0;
    hide CollectLoop;
    if Live(u[0]) {
      if u[0].state == FREE { OwnRun(R, u, 0); }
      FoundTouches(R, u, 0);
    } else {
      UnusedFindsNothing(R, u, 0);
    }
  }

  /** On a clear table the pass keeps the tiling, and moves a USED block if and only if slot 0 is exposed. */
  lemma CollectKeeps(R: Region, t: Table)
    requires HeapInv(R, t) && Clear(t)
    ensures HeapInv(R, Collect(t).0) && (SameUsed(t, Collect(t).0) <==> !SlotZeroExposed(t))
  {
    ClearTouches(R, t);
    TouchingPassKeeps(R, t);
    TouchingPassMovesUsedIff(R, t);
  }

  /** A pass keeps the same bytes FREE, and the table clear, when slot 0 is not exposed. */
  lemma CollectStaysClear(R: Region, t: Table)
    requires HeapInv(R, t) && Clear(t) && !SlotZeroExposed(t)
    ensures HeapInv(R, Collect(t).0) && Clear(Collect(t).0) && SameUsed(t, Collect(t).0)
    ensures forall a :: FreeByte(Collect(t).0, a) <==> FreeByte(t, a)
    ensures !SlotZeroExposed(Collect(t).0)
  {
    CollectKeeps(R, t);
    LoopKeepsClear(R, t, 0);
    ClearTouches(R, t);
    var u := CollectLoop(t, 0).0;
    forall a ensures FreeByte(u, a) <==> FreeByte(t, a) { LoopKeepsFreeBytes(R, t, 0, a); }
    InvIsSized(R, t);
    LoopDrops(t, 0);
    hide CollectLoop;
    if u[0].state == FREE {
      StepKeepsClear(R, u, 0);
      forall a ensures FreeByte(Collect(t).0, a) <==> FreeByte(u, a) { TouchingMergeKeepsFreeBytes(R, u, 0, a); }
    } else if u[0].state == USED {
      CollectKeepsUsedIff(t);
    } else {
      UnusedFindsNothing(R, u, 0);
    }
  }

  /** Repeating the pass then ends in a coalesced heap that is still tiled, with the same USED blocks and FREE bytes. */
  lemma {:induction false} SettleTiles(R: Region, t: Table)
    requires HeapInv(R, t) && Clear(t) && !SlotZeroExposed(t)
    ensures Sized(t) && HeapInv(R, Settle(t)) && SameUsed(t, Settle(t))
    ensures forall a :: FreeByte(Settle(t), a) <==> FreeByte(t, a)
    decreases LiveCount(t)
  {
    InvIsSized(R, t);
    CollectCounts(t);
    if Collect(t).1 != 0 {
      CollectStaysClear(R, t);
      SettleTiles(R, Collect(t).0);
    }
  }
}
