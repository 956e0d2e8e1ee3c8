/** The kernel heap: the static descriptor table of heap.c and the loops over it. */
module Heap {
  import opened Words
  import opened Search
  import opened Sums
  import opened HeapTable
  import opened HeapProofs
  import opened HeapCoalesce
  import opened HeapClear
  import opened HeapRuns
  import opened HeapAccounts
  import opened HeapEveryRun

  /** How a request ends: with a block, with the machine halted, or with a store through a null descriptor. */
  datatype Outcome = Done | Halt | NullStore

  class KernelHeap {
    const region: Region
    const blks: array<Blk>
    var freeCount: Word

    ghost predicate Valid()
      reads this, blks
    {
      blks.Length == HEAP_COUNT && HeapInv(region, blks[..])
    }

    /** What holds of every table the kernel can reach, whatever was merged: nothing is lost, and nothing leaves the
        region. */
    ghost predicate Sound()
      reads this, blks
    {
      blks.Length == HEAP_COUNT && Accounted(region, blks[..])
    }

    /** heap_init: one FREE block over the region in a zeroed table. */
    constructor (r: Region)
      requires ValidRegion(r)
      ensures region == r && fresh(blks) && freeCount == 0
      ensures blks.Length == HEAP_COUNT && blks[..] == Initial(r, HEAP_COUNT)
      ensures blks.Length == 32768 && blks[0] == Blk(r.base, r.size, FREE, NULL)
      ensures Valid() && Sound()
    {
      region := r;
      blks := new Blk[HEAP_COUNT](i => NO_BLK);
      freeCount := 0;
      new;
      var i := HeapNext();
      FirstIs(blks[..], Unused(), 0);
      blks[i] := Blk(region.base, region.size, FREE, NULL);
      assert blks[..] == Initial(r, HEAP_COUNT);
      InitialInv(r, HEAP_COUNT);
      InvAccounted(r, blks[..]);
    }

    method HeapNext() returns (i: nat)
      ensures i == First(blks[..], Unused())
    {
      i := 0;
      while i < blks.Length
        invariant i <= blks.Length
        invariant forall k :: 0 <= k < i ==> !Unused()(blks[k])
      {
        if blks[i].state == INVALID { break; }
        i := i + 1;
      }
      FirstIs(blks[..], Unused(), i);
    }

    method HeapNearest(b: Blk) returns (i: nat)
      ensures i == Nearest(blks[..], b)
    {
      i := 0;
      while i < blks.Length
        invariant i <= blks.Length
        invariant forall k :: 0 <= k < i ==> !NearTo(b)(blks[k])
      {
        if blks[i].state == FREE {
          if U32(blks[i].addr + blks[i].sz) == b.addr { break; }
          if U32(b.addr - b.sz) == blks[i].addr { break; }
        }
        i := i + 1;
      }
      FirstIs(blks[..], NearTo(b), i);
    }

    method HeapMerge(i: nat, j: nat)
      requires i < blks.Length && j < blks.Length
      modifies blks
      ensures blks[..] == Merge(old(blks[..]), i, j)
    {
      if blks[i].addr > blks[j].addr { blks[i] := blks[i].(addr := blks[j].addr); }
      blks[i] := blks[i].(sz := U32(blks[i].sz + blks[j].sz));
      blks[j] := NO_BLK;
    }

    /** heap_request: a split without a spare descriptor stores through null, and nothing is said beyond that. */
    method HeapRequest(sz: Word) returns (out: Outcome, i: nat)
      modifies blks
      ensures out.Halt? == Request(region, old(blks[..]), sz).Halted?
      ensures out.NullStore? == Request(region, old(blks[..]), sz).NoDescriptor?
      ensures !out.Done? ==> blks[..] == old(blks[..])
      ensures out.Done? ==> Request(region, old(blks[..]), sz) == Granted(blks[..], i) && i < blks.Length
    {
      i := 0;
      if sz == 0 || sz > region.size { return Halt, 0; }
      while i < blks.Length
        invariant i <= blks.Length
        invariant forall k :: 0 <= k < i ==> !ExactFree(sz)(blks[k])
      {
        if blks[i].sz == sz && blks[i].state == FREE { break; }
        i := i + 1;
      }
      FirstIs(blks[..], ExactFree(sz), i);
      if i < blks.Length {
        blks[i] := blks[i].(state := USED);
        return Done, i;
      }
      var g := 0;
      while g < blks.Length
        invariant g <= blks.Length
        invariant forall k :: 0 <= k < g ==> !LargerFree(sz)(blks[k])
      {
        if blks[g].sz > sz && blks[g].state == FREE { break; }
        g := g + 1;
      }
      FirstIs(blks[..], LargerFree(sz), g);
      if g == blks.Length { return Halt, 0; }
      var b := Blk(blks[g].addr, sz, USED, NULL);
      if !Validate(region, b) { return Halt, 0; }
      i := HeapNext();
      if i == blks.Length { return NullStore, 0; }
      blks[i] := b;
      blks[g] := blks[g].(addr := U32(blks[g].addr + sz), sz := U32(blks[g].sz - sz));
      return Done, i;
    }

    /** heap_alloc: rounds up to pages and records the running thread as the owner. */
    method HeapAlloc(sz: Word, owner: Word) returns (out: Outcome, ptr: Word)
      modifies blks
      ensures old(Valid()) ==> Valid()
      ensures old(Sound()) ==> Sound()
      ensures out.Halt? == Alloc(region, old(blks[..]), sz, owner).Halted?
      ensures out.NullStore? == Alloc(region, old(blks[..]), sz, owner).NoDescriptor?
      ensures !out.Done? ==> blks[..] == old(blks[..])
      ensures out.Done? ==> exists i :: && 0 <= i < blks.Length && blks[i].addr == ptr
                                        && Alloc(region, old(blks[..]), sz, owner) == Granted(blks[..], i)
    {
      var t := blks[..];
      var i;
      out, i := HeapRequest(MemAlign(sz, HEAP_ALIGN));
      if !out.Done? { return out, NULL; }
      blks[i] := blks[i].(thread := owner);
      ptr := blks[i].addr;
      assert Alloc(region, t, sz, owner) == Granted(blks[..], i);
      if HeapInv(region, t) { AllocContract(region, t, sz, owner); }
      if Accounted(region, t) { AllocAccounted(region, t, sz, owner); }
    }

    method HeapFree(ptr: Word) returns (halted: bool)
      modifies blks, this`freeCount
      ensures old(Valid()) ==> Valid()
      ensures old(Sound()) ==> Sound()
      ensures halted == Free(region, old(blks[..]), ptr).Halted?
      ensures halted ==> blks[..] == old(blks[..]) && freeCount == old(freeCount)
      ensures !halted ==> blks[..] == Free(region, old(blks[..]), ptr).t && freeCount == U32(old(freeCount) + 1)
    {
      FreeKeeps(region, blks[..], ptr);
      hide HeapInv, Accounted;
      if ptr == NULL || ptr < region.base || ptr > U32(region.base + region.size) { return true; }
      var i := 0;
      while i < blks.Length
        invariant i <= blks.Length
        invariant forall k :: 0 <= k < i ==> !UsedAt(ptr)(blks[k])
      {
        if blks[i].addr == ptr && blks[i].state == USED {
          FirstIs(blks[..], UsedAt(ptr), i);
          blks[i] := blks[i].(state := FREE);
          freeCount := U32(freeCount + 1);
          return false;
        }
        i := i + 1;
      }
      FirstIs(blks[..], UsedAt(ptr), i);
      halted := true;
    }

    /** heap_collect: the table becomes that of `Collect`, the result is its merge count. */
    method HeapCollect() returns (c: nat)
      requires blks.Length == HEAP_COUNT
      modifies blks
      ensures (blks[..], c) == Collect(old(blks[..]))
      ensures old(Valid() && Clear(blks[..])) ==> Valid()
      ensures old(Valid()) && PassTilesThroughout(region, old(blks[..])) ==> Valid()
      ensures old(Sound()) ==> Sound()
    {
      CollectSafe(region, blks[..]);
      hide CollectLoop, HeapInv, PassTilesThroughout, Clear, Accounted;
      c := 0;
      var i := 0;
      while i < blks.Length
        invariant i <= blks.Length
        invariant CollectLoop(old(blks[..]), 0).0 == CollectLoop(blks[..], i).0
        invariant CollectLoop(old(blks[..]), 0).1 == c + CollectLoop(blks[..], i).1
      {
        ghost var t := blks[..];
        Unroll(t, i);
        if blks[i].state == FREE {
          var j := HeapNearest(blks[i]);
          if j < blks.Length {
            HeapMerge(i, j);
            c := c + 1;
          }
        }
        assert blks[..] == LoopStep(t, i).0;
        i := i + 1;
      }
      Unroll(blks[..], i);
      var j := HeapNearest(blks[0]);
      if j < blks.Length {
        HeapMerge(0, j);
        c := c + 1;
      }
    }

    /** heap_collect_dead: releases through heap_free every block whose owner is not in the task list; on every table
        the kernel can reach it gets to the end. */
    method HeapCollectDead(tasks: set<Word>) returns (halted: bool)
      modifies blks, this`freeCount
      ensures old(Valid()) ==> Valid()
      ensures old(Sound()) ==> Sound() && !halted
      ensures halted == Sweep(region, old(blks[..]), tasks, 0).Halted?
      ensures !halted ==> Sweep(region, old(blks[..]), tasks, 0) == Granted(blks[..], blks.Length)
    {
      SweepSafe(region, blks[..], tasks);
      hide Sweep, HeapInv, Accounted, Free;
      var i := 0;
      while i < blks.Length
        invariant i <= blks.Length
        invariant old(Valid()) ==> Valid()
        invariant old(Sound()) ==> Sound()
        invariant Sweep(region, old(blks[..]), tasks, 0) == Sweep(region, blks[..], tasks, i)
      {
        SweepUnroll(region, blks[..], tasks, i);
        if OwnerGone(blks[i], tasks) {
          var stopped := HeapFree(blks[i].addr);
          if stopped { return true; }
        }
        i := i + 1;
      }
      SweepUnroll(region, blks[..], tasks, i);
      halted := false;
    }

    method AmountOf(state: BlkState) returns (bytes: Word)
      requires state != INVALID
      ensures bytes == U32(SumBy(blks[..], if state == FREE then FreeSz() else UsedSz()))
      ensures Sound() ==> bytes == SumBy(blks[..], if state == FREE then FreeSz() else UsedSz())
    {
      ghost var w := if state == FREE then FreeSz() else UsedSz();
      if Sound() { AmountsAddUp(region, blks[..]); }
      hide Sound, U32;
      bytes := 0;
      var i := 0;
      while i < blks.Length
        invariant i <= blks.Length
        invariant bytes == U32(SumBy(blks[..i], w))
      {
        SumAppend(blks[..i], [blks[i]], w);
        assert blks[..i + 1] == blks[..i] + [blks[i]];
        SumSmall(blks[i], blks[i], w);
        U32Early(SumBy(blks[..i], w), blks[i].sz);
        if blks[i].state == state { bytes := U32(bytes + blks[i].sz); }
        i := i + 1;
      }
      assert blks[..i] == blks[..];
    }
  }

  lemma CollectSafe(R: Region, t: Table)
    requires |t| > 0
    ensures HeapInv(R, t) && (Clear(t) || PassTilesThroughout(R, t)) ==> HeapInv(R, Collect(t).0)
    ensures Accounted(R, t) ==> Accounted(R, Collect(t).0)
  {
    if HeapInv(R, t) {
      PassTilesIff(R, t);
      if Clear(t) { ClearTouches(R, t); }
      if PassTouches(t) { TouchingPassKeeps(R, t); }
    }
    if Accounted(R, t) { CollectAccounted(R, t); }
  }

  lemma FreeKeeps(R: Region, t: Table, ptr: Word)
    ensures Free(R, t, ptr).Granted? && HeapInv(R, t) ==> HeapInv(R, Free(R, t, ptr).t)
    ensures Free(R, t, ptr).Granted? && Accounted(R, t) ==> Accounted(R, Free(R, t, ptr).t)
  {
    if HeapInv(R, t) { FreeContract(R, t, ptr); }
    if Accounted(R, t) && Free(R, t, ptr).Granted? { FreeAccounted(R, t, ptr); }
  }

  lemma SweepSafe(R: Region, t: Table, tasks: set<Word>)
    ensures Accounted(R, t) ==> Sweep(R, t, tasks, 0).Granted?
  {
    if Accounted(R, t) { SweepAccounted(R, t, tasks, 0); }
  }

  /** One turn of the sweep. */
  lemma SweepUnroll(R: Region, t: Table, tasks: set<Word>, i: nat)
    requires i <= |t|
    ensures i == |t| ==> Sweep(R, t, tasks, i) == Granted(t, i)
    ensures i < |t| && !OwnerGone(t[i], tasks) ==> Sweep(R, t, tasks, i) == Sweep(R, t, tasks, i + 1)
    ensures i < |t| && OwnerGone(t[i], tasks) ==>
      Sweep(R, t, tasks, i)
      == if Free(R, t, t[i].addr).Granted? then Sweep(R, Free(R, t, t[i].addr).t, tasks, i + 1) else Halted
  {
  }
}
