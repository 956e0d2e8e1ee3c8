/** The byte totals of the heap across merges, of touching blocks or not. */
module HeapAccounts {
  import opened Sums
  import opened HeapTable
  import opened HeapProofs
  import opened HeapCoalesce

  /** Bytes of a live block that starts at `a` or later. */
  function StartsFrom(a: int): Blk -> nat { (b: Blk) => if Live(b) && b.addr >= a then b.sz else 0 }

  ghost function BytesFrom(t: Table, a: int): nat { SumBy(t, StartsFrom(a)) }

  /** Bytes of the region from `a` on. */
  function Room(R: Region, a: int): nat { if a < R.base + R.size then R.base + R.size - a else 0 }

  /** Blocks that start in the upper part of the region have no more bytes than that part. */
  ghost predicate Spread(R: Region, t: Table)
  {
    forall a {:trigger BytesFrom(t, a)} :: a >= R.base ==> BytesFrom(t, a) <= Room(R, a)
  }

  /** What stays true of the totals after any merge, of touching blocks or not. */
  ghost predicate Accounted(R: Region, t: Table)
  {
    && ValidRegion(R) && Cleared(t) && SumBy(t, LiveSz()) == R.size && Spread(R, t)
    && forall i :: 0 <= i < |t| && Live(t[i]) ==> R.base <= t[i].addr && t[i].sz > 0
  }

  lemma {:induction false} SumSame(t: Table, v: Blk -> nat, w: Blk -> nat)
    requires forall k :: 0 <= k < |t| ==> v(t[k]) == w(t[k])
    ensures SumBy(t, v) == SumBy(t, w)
  {
    if t != [] { SumSame(t[1..], v, w); }
  }

  /** Sums that differ in slot `i` only. */
  lemma {:induction false} SumButOne(t: Table, v: Blk -> nat, w: Blk -> nat, i: nat)
    requires i < |t| && forall k :: 0 <= k < |t| && k != i ==> v(t[k]) == w(t[k])
    ensures SumBy(t, v) + w(t[i]) == SumBy(t, w) + v(t[i])
  {
    if i == 0 {
      SumSame(t[1..], v, w);
    } else {
      SumButOne(t[1..], v, w, i - 1);
    }
  }

  /** A smaller weight leaves out at least what it leaves out of slot `i`. */
  lemma {:induction false} SumAtMost(t: Table, v: Blk -> nat, w: Blk -> nat, i: nat)
    requires i < |t| && forall k :: 0 <= k < |t| ==> v(t[k]) <= w(t[k])
    ensures SumBy(t, v) + w(t[i]) <= SumBy(t, w) + v(t[i])
  {
    if |t| > 1 { SumAtMost(t[1..], v, w, if i == 0 then 0 else i - 1); }
  }

  /** Disjoint blocks inside the region cannot have more bytes than the part of it they start in. */
  lemma {:induction false} TiledSpread(R: Region, t: Table, a: int)
    requires AllInside(R, t) && AllApart(t) && a >= R.base
    ensures BytesFrom(t, a) <= Room(R, a)
    decreases Room(R, a)
  {
    if a >= R.base + R.size {
      assert forall k :: 0 <= k < |t| && Live(t[k]) ==> Inside(R, t[k]);
      SumZero(t, StartsFrom(a));
    } else if i :| 0 <= i < |t| && Live(t[i]) && t[i].addr == a {
      assert Inside(R, t[i]);
      forall k | 0 <= k < |t| && k != i ensures StartsFrom(a)(t[k]) == StartsFrom(End(t[i]))(t[k]) {
        assert Live(t[k]) ==> Apart(t[i], t[k]) && Inside(R, t[k]);
      }
      SumButOne(t, StartsFrom(a), StartsFrom(End(t[i])), i);
      TiledSpread(R, t, End(t[i]));
    } else {
      SumSame(t, StartsFrom(a), StartsFrom(a + 1));
      TiledSpread(R, t, a + 1);
    }
  }

  lemma InvAccounted(R: Region, t: Table)
    requires HeapInv(R, t)
    ensures Accounted(R, t)
  {
    forall a | a >= R.base ensures BytesFrom(t, a) <= Room(R, a) { TiledSpread(R, t, a); }
    assert forall i :: 0 <= i < |t| && Live(t[i]) ==> Inside(R, t[i]);
  }

  /** No block reaches past the region. */
  lemma AccountedInside(R: Region, t: Table)
    requires Accounted(R, t)
    ensures AllInside(R, t)
  {
    forall k | 0 <= k < |t| && Live(t[k]) ensures Inside(R, t[k]) {
      SumUpdate(t, StartsFrom(t[k].addr), k, NO_BLK);
      assert BytesFrom(t, t[k].addr) <= Room(R, t[k].addr);
    }
  }

  /** So an unused slot finds nothing. */
  lemma UnusedStillFindsNothing(R: Region, t: Table, i: nat)
    requires Accounted(R, t) && i < |t| && !Live(t[i])
    ensures Nearest(t, t[i]) == |t|
  {
    AccountedInside(R, t);
    forall k | 0 <= k < |t| ensures !NearTo(t[i])(t[k]) {
      assert Live(t[k]) ==> Inside(R, t[k]);
    }
  }

  lemma MergeStepAccounted(R: Region, t: Table, i: nat)
    requires Accounted(R, t) && i < |t|
    ensures Accounted(R, MergeNearest(t, i).0)
  {
    NearestIsOther(t, i);
    var j := Nearest(t, t[i]);
    if !Live(t[i]) {
      UnusedStillFindsNothing(R, t, i);
    } else if j < |t| {
      var u := Merge(t, i, j);
      MergeSums(t, i, j);
      SumPair(t, LiveSz(), i, j, u[i], NO_BLK);
      forall a | a >= R.base ensures BytesFrom(u, a) <= Room(R, a) {
        SumPair(t, StartsFrom(a), i, j, u[i], NO_BLK);
        assert BytesFrom(t, a) <= Room(R, a);
      }
    }
  }

  lemma {:induction false} LoopAccounted(R: Region, t: Table, i: nat)
    requires Accounted(R, t) && i <= |t|
    ensures Accounted(R, CollectLoop(t, i).0)
    decreases |t| - i
  {
    if i < |t| {
      if t[i].state == FREE { MergeStepAccounted(R, t, i); }
      LoopAccounted(R, LoopStep(t, i).0, i + 1);
    }
  }

  lemma CollectAccounted(R: Region, t: Table)
    requires Accounted(R, t) && |t| > 0
    ensures Accounted(R, Collect(t).0)
  {
    LoopAccounted(R, t, 0);
    MergeStepAccounted(R, CollectLoop(t, 0).0, 0);
  }
}
