/** Coalescing: exactly when heap_collect keeps the tiling, and what it always guarantees. */
module HeapCoalesce {
  import opened Words
  import opened Sums
  import opened HeapTable
  import opened HeapProofs

  // ---------------------------------------------------------------- one merge

  /** Slot `i` never finds itself. */
  lemma NearestIsOther(t: Table, i: nat)
    requires i < |t| && (t[i].state == FREE ==> t[i].sz > 0)
    ensures Nearest(t, t[i]) < |t| ==> Nearest(t, t[i]) != i && t[Nearest(t, t[i])].state == FREE
  {
    var j := Nearest(t, t[i]);
    assert j < |t| ==> NearTo(t[i])(t[j]);
  }

  /** An unused slot finds nothing: no block starts at address 0 or ends at the top of the address space. */
  lemma UnusedFindsNothing(R: Region, t: Table, i: nat)
    requires HeapInv(R, t) && i < |t| && !Live(t[i])
    ensures Nearest(t, t[i]) == |t|
  {
    forall k | 0 <= k < |t| ensures !NearTo(t[i])(t[k]) {
      assert Live(t[k]) ==> Inside(R, t[k]);
    }
  }

  /** The merge heap_collect makes for a live slot keeps the tiling if and only if the blocks touch. */
  lemma MergeStepTilesIff(R: Region, t: Table, i: nat)
    requires HeapInv(R, t) && i < |t| && Live(t[i]) && Nearest(t, t[i]) < |t|
    ensures var u := MergeNearest(t, i).0;
            Tiled(R, u) <==> Touch(t[i], t[Nearest(t, t[i])])
  {
    NearestIsOther(t, i);
    var j := Nearest(t, t[i]);
    if Touch(t[i], t[j]) { TouchingMergeKeeps(R, t, i, j); } else { GapMergeBreaks(R, t, i, j); }
  }

  /** Touching means the first comparison matched; the second alone is right only for two 2 GiB halves. */
  lemma SecondComparisonIsWrong(R: Region, t: Table, i: nat)
    requires HeapInv(R, t) && i < |t| && Live(t[i]) && Nearest(t, t[i]) < |t|
    ensures var j := Nearest(t, t[i]);
            Touch(t[i], t[j]) <==> End(t[j]) == t[i].addr || (t[i].sz == 0x8000_0000 && End(t[i]) == t[j].addr)
  {
    var j := Nearest(t, t[i]);
    assert NearTo(t[i])(t[j]);
    assert Inside(R, t[i]) && Inside(R, t[j]);
  }

  /** The merge slot `i` is about to make, if any, is of touching blocks. */
  ghost predicate StepTouches(t: Table, i: nat)
    requires i < |t|
  {
    var j := Nearest(t, t[i]);
    j < |t| ==> Touch(t[i], t[j])
  }

  ghost predicate LoopTouches(t: Table, i: nat)
    requires i <= |t|
    decreases |t| - i
  {
    i < |t| ==> (t[i].state == FREE ==> StepTouches(t, i)) && LoopTouches(LoopStep(t, i).0, i + 1)
  }

  /** Every merge of the pass is of touching blocks. */
  ghost predicate PassTouches(t: Table)
    requires |t| > 0
  {
    LoopTouches(t, 0) && StepTouches(CollectLoop(t, 0).0, 0)
  }

  lemma MergeStepKeeps(R: Region, t: Table, i: nat)
    requires HeapInv(R, t) && i < |t| && StepTouches(t, i)
    ensures HeapInv(R, MergeNearest(t, i).0)
  {
    if !Live(t[i]) {
      UnusedFindsNothing(R, t, i);
    } else {
      NearestIsOther(t, i);
      var j := Nearest(t, t[i]);
      if j < |t| { TouchingMergeKeeps(R, t, i, j); }
    }
  }

  lemma {:induction false} LoopKeeps(R: Region, t: Table, i: nat)
    requires HeapInv(R, t) && i <= |t| && LoopTouches(t, i)
    ensures HeapInv(R, CollectLoop(t, i).0)
    decreases |t| - i
  {
    if i < |t| {
      if t[i].state == FREE { MergeStepKeeps(R, t, i); }
      LoopKeeps(R, LoopStep(t, i).0, i + 1);
    }
  }

  lemma TouchingPassKeeps(R: Region, t: Table)
    requires HeapInv(R, t) && PassTouches(t)
    ensures HeapInv(R, Collect(t).0)
  {
    LoopKeeps(R, t, 0);
    MergeStepKeeps(R, CollectLoop(t, 0).0, 0);
  }

  /** The descriptors tile the region before slot `i` is handled and after every slot from there on. */
  ghost predicate LoopTilesThroughout(R: Region, t: Table, i: nat)
    requires i <= |t|
    decreases |t| - i
  {
    Tiled(R, t) && (i < |t| ==> LoopTilesThroughout(R, LoopStep(t, i).0, i + 1))
  }

  /** They tile it before the pass, after each of its merges, and at its end. */
  ghost predicate PassTilesThroughout(R: Region, t: Table)
    requires |t| > 0
  {
    LoopTilesThroughout(R, t, 0) && Tiled(R, Collect(t).0)
  }

  /** One turn of the loop keeps the tiling if and only if the merge it makes, if any, touches. */
  lemma LoopStepTilesIff(R: Region, t: Table, i: nat)
    requires HeapInv(R, t) && i < |t|
    ensures Tiled(R, LoopStep(t, i).0) <==> (t[i].state == FREE ==> StepTouches(t, i))
    ensures Tiled(R, LoopStep(t, i).0) ==> HeapInv(R, LoopStep(t, i).0)
  {
    if t[i].state == FREE {
      if StepTouches(t, i) { MergeStepKeeps(R, t, i); } else { MergeStepTilesIff(R, t, i); }
    }
  }

  lemma {:induction false} LoopTilesIff(R: Region, t: Table, i: nat)
    requires HeapInv(R, t) && i <= |t|
    ensures LoopTilesThroughout(R, t, i) <==> LoopTouches(t, i)
    decreases |t| - i
  {
    assert Tiled(R, t);
    hide HeapInv, Tiled, LoopStep, StepTouches;
    if i < |t| {
      LoopStepTilesIff(R, t, i);
      var u := LoopStep(t, i).0;
      if Tiled(R, u) { LoopTilesIff(R, u, i + 1); }
    }
  }

  /** A pass keeps the tiling all the way through if and only if all its merges are of touching blocks. */
  lemma PassTilesIff(R: Region, t: Table)
    requires HeapInv(R, t)
    ensures PassTilesThroughout(R, t) <==> PassTouches(t)
  {
    LoopTilesIff(R, t, 0);
    if LoopTouches(t, 0) {
      LoopKeeps(R, t, 0);
      var u := CollectLoop(t, 0).0;
      hide CollectLoop;
      if StepTouches(u, 0) {
        MergeStepKeeps(R, u, 0);
      } else if Live(u[0]) {
        MergeStepTilesIff(R, u, 0);
      } else {
        UnusedFindsNothing(R, u, 0);
      }
    }
  }

  // ---------------------------------------------------------------- what a pass always guarantees

  /** Every live descriptor has bytes, and together they fit a machine word. */
  ghost predicate Sized(t: Table)
  {
    SumBy(t, LiveSz()) < WORD && forall i :: 0 <= i < |t| && Live(t[i]) ==> t[i].sz > 0
  }

  lemma InvIsSized(R: Region, t: Table)
    requires HeapInv(R, t)
    ensures Sized(t)
  {
    assert forall i :: 0 <= i < |t| && Live(t[i]) ==> Inside(R, t[i]);
  }

  /** The USED descriptors of `t` and `u` are the same, slot by slot. */
  ghost predicate SameUsed(t: Table, u: Table)
  {
    |t| == |u| && forall i :: 0 <= i < |t| && (t[i].state == USED || u[i].state == USED) ==> t[i] == u[i]
  }

  lemma MergeStepDrops(t: Table, i: nat)
    requires Sized(t) && i < |t|
    ensures var m := MergeNearest(t, i);
      && Sized(m.0) && LiveCount(m.0) + m.1 == LiveCount(t) && (m.1 == 0 ==> m.0 == t && Nearest(t, t[i]) == |t|)
      && (t[i].state != USED ==> SameUsed(t, m.0)) && (t[i].state == USED && m.1 != 0 ==> m.0[i] != t[i])
  {
    NearestIsOther(t, i);
    var j := Nearest(t, t[i]);
    if j < |t| {
      var u := Merge(t, i, j);
      SumPair(t, LiveOne(), i, j, u[i], NO_BLK);
      SumPair(t, LiveSz(), i, j, u[i], NO_BLK);
      if Live(t[i]) {
        MergeSums(t, i, j);
      }
    }
  }

  lemma MergeSums(t: Table, i: nat, j: nat)
    requires Sized(t) && i < |t| && j < |t| && i != j && Live(t[i]) && Live(t[j])
    ensures t[i].sz + t[j].sz < WORD
  {
    if i < j { SumTwo(t, LiveSz(), i, j); } else { SumTwo(t, LiveSz(), j, i); }
  }

  ghost predicate NoPairFrom(t: Table, from: nat)
  {
    forall i, j :: from <= i < |t| && 0 <= j < |t| && t[i].state == FREE && t[j].state == FREE
      ==> U32(End(t[j])) != t[i].addr
  }

  lemma {:induction false} LoopDrops(t: Table, i: nat)
    requires Sized(t) && i <= |t|
    ensures var r := CollectLoop(t, i);
      && Sized(r.0) && LiveCount(r.0) + r.1 == LiveCount(t) && SameUsed(t, r.0)
      && (r.1 == 0 ==> r.0 == t && NoPairFrom(t, i))
    decreases |t| - i
  {
    if i < |t| {
      var s := LoopStep(t, i);
      if t[i].state == FREE {
        MergeStepDrops(t, i);
        assert s.1 == 0 ==> forall j :: 0 <= j < |t| ==> !NearTo(t[i])(t[j]);
      }
      LoopDrops(s.0, i + 1);
    }
  }

  /** heap_collect returns exactly the drop in live descriptors; 0 means it changed nothing and no FREE block ends
      where another starts. */
  lemma CollectCounts(t: Table)
    requires Sized(t) && |t| > 0
    ensures var r := Collect(t);
      && Sized(r.0) && LiveCount(r.0) + r.1 == LiveCount(t)
      && (r.1 == 0 ==> r.0 == t && NoPairFrom(t, 0))
  {
    LoopDrops(t, 0);
    MergeStepDrops(CollectLoop(t, 0).0, 0);
  }

  /** USED blocks survive a pass if and only if slot 0 is not a USED block that finds a neighbour. */
  lemma CollectKeepsUsedIff(t: Table)
    requires Sized(t) && |t| > 0
    ensures SameUsed(t, Collect(t).0) <==> t[0].state != USED || Nearest(CollectLoop(t, 0).0, t[0]) == |t|
  {
    LoopDrops(t, 0);
    MergeStepDrops(CollectLoop(t, 0).0, 0);
  }

  /** Repeating heap_collect until it returns 0. */
  ghost function Settle(t: Table): (r: Table)
    requires Sized(t) && |t| > 0
    ensures |r| == |t| && Collect(r) == (r, 0)
    decreases LiveCount(t)
  {
    CollectCounts(t);
    if Collect(t).1 == 0 then t else Settle(Collect(t).0)
  }

  /** The repeated pass ends in a table where no two FREE blocks touch. */
  lemma SettledIsCoalesced(t: Table, i: nat, j: nat)
    requires Sized(t) && |t| > 0 && i < |t| && j < |t|
    requires Settle(t)[i].state == FREE && Settle(t)[j].state == FREE
    ensures U32(End(Settle(t)[j])) != Settle(t)[i].addr
  {
    SettledIsSized(t);
    CollectCounts(Settle(t));
  }

  lemma {:induction false} SettledIsSized(t: Table)
    requires Sized(t) && |t| > 0
    ensures Sized(Settle(t))
    decreases LiveCount(t)
  {
    CollectCounts(t);
    if Collect(t).1 != 0 { SettledIsSized(Collect(t).0); }
  }

  // ---------------------------------------------------------------- FREE bytes across a pass

  lemma TouchingMergeKeepsFreeBytes(R: Region, t: Table, i: nat, a: int)
    requires HeapInv(R, t) && i < |t| && t[i].state == FREE && StepTouches(t, i)
    ensures FreeByte(MergeNearest(t, i).0, a) <==> FreeByte(t, a)
  {
    NearestIsOther(t, i);
    var j := Nearest(t, t[i]);
    var u := MergeNearest(t, i).0;
    if j < |t| {
      TouchingMergeBytes(R, t, i, j);
      EditKeepsFreeBytes(t, u, i, j, a);
    }
  }

  lemma {:induction false} LoopKeepsFreeBytes(R: Region, t: Table, i: nat, a: int)
    requires HeapInv(R, t) && i <= |t| && LoopTouches(t, i)
    ensures FreeByte(CollectLoop(t, i).0, a) <==> FreeByte(t, a)
    decreases |t| - i
  {
    if i < |t| {
      if t[i].state == FREE {
        TouchingMergeKeepsFreeBytes(R, t, i, a);
        MergeStepKeeps(R, t, i);
      }
      LoopKeepsFreeBytes(R, LoopStep(t, i).0, i + 1, a);
    }
  }

  /** The byte under a block is FREE exactly when a FREE block ends there, so the block finds it. */
  lemma FreeUnderIsFound(R: Region, t: Table)
    requires HeapInv(R, t) && t[0].state == USED
    ensures FreeByte(t, t[0].addr - 1) <==> exists j :: 0 <= j < |t| && t[j].state == FREE && End(t[j]) == t[0].addr
    ensures FreeByte(t, End(t[0])) <==> exists j :: 0 <= j < |t| && t[j].state == FREE && t[j].addr == End(t[0])
  {
    assert Inside(R, t[0]);
    if FreeByte(t, t[0].addr - 1) {
      var j :| 0 <= j < |t| && t[j].state == FREE && Covers(t[j], t[0].addr - 1);
      assert Apart(t[0], t[j]);
    }
    if j :| 0 <= j < |t| && t[j].state == FREE && End(t[j]) == t[0].addr {
      assert Inside(R, t[j]) && Covers(t[j], t[0].addr - 1);
    }
    if FreeByte(t, End(t[0])) {
      var j :| 0 <= j < |t| && t[j].state == FREE && Covers(t[j], End(t[0]));
      assert Apart(t[0], t[j]);
    }
    if j :| 0 <= j < |t| && t[j].state == FREE && t[j].addr == End(t[0]) {
      assert Inside(R, t[j]) && Covers(t[j], End(t[0]));
    }
  }

  /** Slot 0 holds a USED block with a FREE block right below it (or above it, for a block of 2 GiB). */
  ghost predicate SlotZeroExposed(t: Table)
    requires |t| > 0
  {
    && t[0].state == USED
    && (FreeByte(t, t[0].addr - 1) || (t[0].sz == 0x8000_0000 && FreeByte(t, End(t[0]))))
  }

  lemma ExposedFindsIff(R: Region, u: Table)
    requires HeapInv(R, u) && u[0].state == USED && StepTouches(u, 0)
    ensures Nearest(u, u[0]) < |u| <==> SlotZeroExposed(u)
  {
    FreeUnderIsFound(R, u);
    var j := Nearest(u, u[0]);
    assert j < |u| ==> NearTo(u[0])(u[j]);
    if j < |u| {
      SecondComparisonIsWrong(R, u, 0);
    } else {
      forall k | 0 <= k < |u| && u[k].state == FREE
        ensures End(u[k]) != u[0].addr && (u[0].sz == 0x8000_0000 ==> u[k].addr != End(u[0]))
      {
        assert !NearTo(u[0])(u[k]);
      }
    }
  }

  /** A pass of touching merges moves a USED block exactly when slot 0 is exposed beforehand. */
  lemma TouchingPassMovesUsedIff(R: Region, t: Table)
    requires HeapInv(R, t) && PassTouches(t)
    ensures SameUsed(t, Collect(t).0) <==> !SlotZeroExposed(t)
  {
    var u := CollectLoop(t, 0).0;
    InvIsSized(R, t);
    LoopDrops(t, 0);
    CollectKeepsUsedIff(t);
    LoopKeeps(R, t, 0);
    if t[0].state == USED {
      assert u[0] == t[0];
      LoopKeepsFreeBytes(R, t, 0, t[0].addr - 1);
      LoopKeepsFreeBytes(R, t, 0, End(t[0]));
      ExposedFindsIff(R, u);
    }
  }

  /** A USED slot 0 still covers its first byte after a pass of touching merges. */
  lemma SlotZeroCovers(R: Region, t: Table)
    requires HeapInv(R, t) && PassTouches(t) && t[0].state == USED
    ensures HeapInv(R, Collect(t).0) && Covers(Collect(t).0[0], t[0].addr)
    ensures Collect(t).0[0].state == USED && Collect(t).0[0].thread == t[0].thread
  {
    var v := CollectLoop(t, 0).0;
    InvIsSized(R, t);
    LoopDrops(t, 0);
    LoopKeeps(R, t, 0);
    TouchingPassKeeps(R, t);
    assert v[0] == t[0];
    hide CollectLoop;
    NearestIsOther(v, 0);
    var j := Nearest(v, v[0]);
    assert Covers(v[0], t[0].addr);
    if j < |v| { TouchingMergeBytes(R, v, 0, j); }
  }

  /** A slot 0 that moved to a lower address is lost to its owner: freeing the old address stops the machine. */
  lemma MovedBlockCannotBeFreed(R: Region, t: Table)
    requires HeapInv(R, t) && PassTouches(t) && SlotZeroExposed(t)
    ensures var u := Collect(t).0;
            && u[0].state == USED && u[0].thread == t[0].thread
            && (u[0].addr == t[0].addr || Free(R, u, t[0].addr).Halted?)
  {
    hide Collect, PassTouches;
    SlotZeroCovers(R, t);
    var u, a := Collect(t).0, t[0].addr;
    FreeContract(R, u, a);
    hide Free;
    forall k | 0 <= k < |u| && u[k].state == USED && u[k].addr == a ensures k == 0 {
      assert Inside(R, u[k]) && Covers(u[k], a);
      OneOwner(u, 0, k, a);
    }
    assert Free(R, u, a).Granted? || Free(R, u, a).Halted?;
  }
}
