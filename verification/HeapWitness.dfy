/** Runs from the initial heap on which heap_collect does not do what it is for. */
module HeapWitness {
  import opened Words
  import opened Search
  import opened HeapTable
  import opened HeapProofs
  import opened HeapCoalesce
  import opened HeapRuns

  const P: Word := 0x1000
  const B: Word := 0x10_0000

  /** A region of up to 16 pages. */
  function Reg(pages: nat): Region
    requires pages <= 16
  {
    Region(B, pages * P)
  }

  /** A FREE block that never had an owner, a USED block, and one that was used and freed; in pages. */
  function F(page: nat, pages: nat): Blk
    requires page <= 16 && pages <= 16
  {
    Blk(B + page * P, pages * P, FREE, NULL)
  }

  function U(page: nat, pages: nat): Blk
    requires page <= 16 && pages <= 16
  {
    Blk(B + page * P, pages * P, USED, 1)
  }

  function G(page: nat, pages: nat): Blk
    requires page <= 16 && pages <= 16
  {
    Blk(B + page * P, pages * P, FREE, 1)
  }

  /** A table that starts with these five descriptors and has no other live one. */
  ghost predicate Five(t: Table, a: Blk, b: Blk, c: Blk, d: Blk, e: Blk)
  {
    && |t| >= 5 && t[0] == a && t[1] == b && t[2] == c && t[3] == d && t[4] == e
    && forall q :: 5 <= q < |t| ==> t[q] == NO_BLK
  }

  // ---------------------------------------------------------------- building a run

  /** The run `ops` from the table `t0` leads to `t`. */
  ghost predicate Reaches(R: Region, t0: Table, ops: seq<Op>, t: Table)
  {
    |t0| > 0 && Run(R, t0, ops) == Granted(t, 0)
  }

  lemma StartsAt(R: Region, t0: Table)
    requires |t0| > 0
    ensures Reaches(R, t0, [], t0)
  {
  }

  lemma Extend(R: Region, t0: Table, ops: seq<Op>, t: Table, op: Op, u: Table) returns (more: seq<Op>)
    requires Reaches(R, t0, ops, t) && |t| > 0 && Step(R, t, op).Granted? && Step(R, t, op).t == u
    ensures more == ops + [op] && Reaches(R, t0, more, u)
  {
    more := ops + [op];
    RunAppend(R, t0, ops, op);
  }

  /** Slot 0 is the only FREE block, slots 1 to k-1 are taken and the others unused. */
  ghost predicate Front(R: Region, t: Table, k: nat)
  {
    && |t| >= 5 && 0 < k < 5 && t[0].state == FREE && Inside(R, t[0])
    && (forall q :: 1 <= q < k ==> t[q].state == USED)
    && (forall q :: k <= q < |t| ==> t[q] == NO_BLK)
  }

  lemma FrontSearches(R: Region, t: Table, k: nat, sz: Word)
    requires Front(R, t, k) && 0 < sz < t[0].sz
    ensures IsFirst(t, ExactFree(sz), |t|) && IsFirst(t, LargerFree(sz), 0) && IsFirst(t, Unused(), k)
  {
  }

  lemma CarveAlloc(R: Region, t: Table, k: nat, sz: Word) returns (u: Table)
    requires ValidRegion(R) && Front(R, t, k) && 0 < sz < t[0].sz && sz % P == 0
    ensures Alloc(R, t, sz, 1) == Granted(u, k)
    ensures u == t[k := Blk(t[0].addr, sz, USED, 1)][0 := t[0].(addr := t[0].addr + sz, sz := t[0].sz - sz)]
  {
    hide Alloc, IsFirst;
    FrontSearches(R, t, k, sz);
    AllocCuts(R, t, 0, k, sz, 1);
    u := Alloc(R, t, sz, 1).t;
  }

  /** An allocation that cuts slot 0. */
  lemma CarveNext(R: Region, t0: Table, ops: seq<Op>, t: Table, k: nat, sz: Word) returns (more: seq<Op>, u: Table)
    requires ValidRegion(R) && Reaches(R, t0, ops, t)
    requires Front(R, t, k) && 0 < sz < t[0].sz && sz % P == 0
    ensures var b := Blk(t[0].addr, sz, USED, 1);
      Five(u, t[0].(addr := t[0].addr + sz, sz := t[0].sz - sz), if k == 1 then b else t[1], if k == 2 then b else t[2],
        if k == 3 then b else t[3], if k == 4 then b else t[4])
    ensures Reaches(R, t0, more, u) && |u| == |t|
  {
    hide Run, Alloc, Free, Sweep, Collect, Reaches;
    u := CarveAlloc(R, t, k, sz);
    more := Extend(R, t0, ops, t, AllocOp(sz, 1), u);
  }

  /** An allocation of all that slot 0 has. */
  lemma TakeNext(R: Region, t0: Table, ops: seq<Op>, t: Table, k: nat) returns (more: seq<Op>, u: Table)
    requires ValidRegion(R) && Reaches(R, t0, ops, t)
    requires Front(R, t, k) && t[0].sz % P == 0 && t[0].sz <= R.size
    ensures u == t[0 := t[0].(state := USED, thread := 1)] && Reaches(R, t0, more, u)
  {
    hide Run, Free, Sweep, Collect, Reaches, ValidRegion;
    FirstIs(t, ExactFree(t[0].sz), 0);
    u := t[0 := t[0].(state := USED, thread := 1)];
    assert MemAlign(t[0].sz, HEAP_ALIGN) == t[0].sz;
    hide MemAlign, IsFirst;
    assert Request(R, t, t[0].sz) == Granted(t[0 := t[0].(state := USED)], 0);
    hide Request;
    assert Alloc(R, t, t[0].sz, 1).t == u;
    more := Extend(R, t0, ops, t, AllocOp(t[0].sz, 1), u);
  }

  lemma ReleaseNext(R: Region, t0: Table, ops: seq<Op>, t: Table, i: nat) returns (more: seq<Op>, u: Table)
    requires ValidRegion(R) && Reaches(R, t0, ops, t)
    requires i < |t| && t[i].state == USED && Inside(R, t[i])
    requires forall q :: 0 <= q < i ==> t[q].state == USED ==> t[q].addr != t[i].addr
    ensures u == t[i := t[i].(state := FREE)] && Reaches(R, t0, more, u)
  {
    hide Run, Reaches;
    FirstIs(t, UsedAt(t[i].addr), i);
    u := t[i := t[i].(state := FREE)];
    more := Extend(R, t0, ops, t, FreeOp(t[i].addr), u);
  }

  lemma CollectNext(R: Region, t0: Table, ops: seq<Op>, t: Table) returns (more: seq<Op>)
    requires Reaches(R, t0, ops, t) && |t| > 0
    ensures Reaches(R, t0, more, Collect(t).0)
  {
    hide Run, Reaches, Collect;
    more := Extend(R, t0, ops, t, CollectOp, Collect(t).0);
  }

  /** Where no FREE block is left the loop changes nothing. */
  lemma {:induction false} QuietTail(t: Table, i: nat)
    requires i <= |t| && forall q :: i <= q < |t| ==> t[q].state != FREE
    ensures CollectLoop(t, i) == (t, 0)
    decreases |t| - i
  {
    Unroll(t, i);
    if i < |t| { QuietTail(t, i + 1); }
  }

  /** One turn of the loop, for a FREE slot `i` whose first match is the lower block `j`. */
  lemma LoopMerges(t: Table, i: nat, j: nat, b: Blk)
    requires i < |t| && j < |t| && i != j && t[i].state == FREE && IsFirst(t, NearTo(t[i]), j)
    requires b.addr == t[j].addr <= t[i].addr && b.sz == t[i].sz + t[j].sz && b.state == FREE && b.thread == t[i].thread
    ensures CollectLoop(t, i).0 == CollectLoop(t[i := b][j := NO_BLK], i + 1).0
  {
    Unroll(t, i);
    hide CollectLoop;
    FirstIs(t, NearTo(t[i]), j);
    assert Merge(t, i, j) == t[i := b][j := NO_BLK];
  }

  /** One turn that merges nothing. */
  lemma LoopPasses(t: Table, i: nat)
    requires i < |t| && (t[i].state == FREE ==> IsFirst(t, NearTo(t[i]), |t|))
    ensures CollectLoop(t, i).0 == CollectLoop(t, i + 1).0
  {
    Unroll(t, i);
    hide CollectLoop;
    if t[i].state == FREE { FirstIs(t, NearTo(t[i]), |t|); }
  }

  // ---------------------------------------------------------------- a merge across a USED block

  /** Allocate 4, 4, 8 and 4 KiB. */
  lemma Carved(n: nat) returns (ops: seq<Op>, t: Table)
    requires n >= 5
    ensures Five(t, F(5, 11), U(0, 1), U(1, 1), U(2, 2), U(4, 1)) && Reaches(Reg(16), Initial(Reg(16), n), ops, t)
  {
    hide Reaches;
    var R, t0 := Reg(16), Initial(Reg(16), n);
    StartsAt(R, t0);
    var t1, t2, t3;
    ops, t1 := CarveNext(R, t0, [], t0, 1, P);
    ops, t2 := CarveNext(R, t0, ops, t1, 2, P);
    ops, t3 := CarveNext(R, t0, ops, t2, 3, 2 * P);
    ops, t := CarveNext(R, t0, ops, t3, 4, P);
  }

  /** Collecting the heap with two holes merges slot 3 into slot 1 across the USED block between them. */
  lemma Gathers(t: Table)
    requires Five(t, F(5, 11), G(0, 1), U(1, 1), G(2, 2), U(4, 1))
    ensures Five(Collect(t).0, F(5, 11), NO_BLK, U(1, 1), G(0, 3), U(4, 1)) && !Tiled(Reg(16), Collect(t).0)
  {
    hide CollectLoop;
    var u := t[3 := G(0, 3)][1 := NO_BLK];
    LoopPasses(t, 0);
    LoopPasses(t, 1);
    LoopPasses(t, 2);
    LoopMerges(t, 3, 1, G(0, 3));
    QuietTail(u, 4);
    FirstIs(u, NearTo(u[0]), |u|);
    assert !Apart(u[2], u[3]);
  }

  /** Allocate 4, 4, 8 and 4 KiB, free the first and the third, collect: the descriptors no longer tile the heap. */
  lemma BreakingRun(n: nat) returns (ops: seq<Op>)
    requires n >= 5
    ensures var r := Run(Reg(16), Initial(Reg(16), n), ops);
            r.Granted? && !Tiled(Reg(16), r.t)
  {
    var R, t0 := Reg(16), Initial(Reg(16), n);
    var t4, t5, t6;
    ops, t4 := Carved(n);
    ops, t5 := ReleaseNext(R, t0, ops, t4, 1);
    ops, t6 := ReleaseNext(R, t0, ops, t5, 3);
    hide Run, Collect, Tiled;
    Gathers(t6);
    ops := CollectNext(R, t0, ops, t6);
  }

  // ---------------------------------------------------------------- two wrong merges

  /** Allocate 4, 4 and 8 KiB of 16, the last one being all there is left, and free all three. */
  lemma ThreeFreed(n: nat) returns (ops: seq<Op>, t: Table)
    requires n >= 5
    ensures Five(t, G(2, 2), G(0, 1), G(1, 1), NO_BLK, NO_BLK) && Reaches(Reg(4), Initial(Reg(4), n), ops, t)
  {
    hide Reaches;
    var R, t0 := Reg(4), Initial(Reg(4), n);
    StartsAt(R, t0);
    var t1, t2, t3, t4, t5;
    ops, t1 := CarveNext(R, t0, [], t0, 1, P);
    ops, t2 := CarveNext(R, t0, ops, t1, 2, P);
    ops, t3 := TakeNext(R, t0, ops, t2, 3);
    ops, t4 := ReleaseNext(R, t0, ops, t3, 0);
    ops, t5 := ReleaseNext(R, t0, ops, t4, 1);
    ops, t := ReleaseNext(R, t0, ops, t5, 2);
  }

  lemma CancelLoop(t: Table) returns (u: Table)
    requires Five(t, G(2, 2), G(0, 1), G(1, 1), NO_BLK, NO_BLK)
    ensures CollectLoop(t, 0).0 == u && Five(u, NO_BLK, NO_BLK, G(0, 4), NO_BLK, NO_BLK) && |u| == |t|
  {
    hide CollectLoop;
    var v := t[0 := G(0, 3)][1 := NO_BLK];
    u := v[2 := G(0, 4)][0 := NO_BLK];
    LoopMerges(t, 0, 1, G(0, 3));
    LoopPasses(v, 1);
    LoopMerges(v, 2, 0, G(0, 4));
    QuietTail(u, 3);
  }

  lemma Cancels(t: Table)
    requires Five(t, G(2, 2), G(0, 1), G(1, 1), NO_BLK, NO_BLK)
    ensures Five(Collect(t).0, NO_BLK, NO_BLK, G(0, 4), NO_BLK, NO_BLK)
  {
    hide CollectLoop;
    var u := CancelLoop(t);
    LowestFindsNothing(u, u[0]);
    hide Nearest, G;
  }

  lemma LowestFindsNothing(t: Table, b: Blk)
    requires b.addr == 0 && b.sz == 0 && forall q :: 0 <= q < |t| && Live(t[q]) ==> t[q].addr > 0 && End(t[q]) < WORD
    ensures Nearest(t, b) == |t|
  {
    assert forall q :: 0 <= q < |t| ==> !NearTo(b)(t[q]);
  }

  lemma WholeTiles(u: Table)
    requires Five(u, NO_BLK, NO_BLK, G(0, 4), NO_BLK, NO_BLK)
    ensures Tiled(Reg(4), u)
  {
    forall a | B <= a < B + 4 * P ensures Covered(u, a) {
      assert Covers(u[2], a);
    }
  }

  /** Two wrong merges can cancel: a run whose last pass merges across a gap and still ends in a tiling. */
  lemma WrongMergesCanCancel(n: nat) returns (ops: seq<Op>)
    requires n >= 5
    ensures var r := Run(Reg(4), Initial(Reg(4), n), ops);
            r.Granted? && |r.t| == n && !PassTouches(r.t) && Tiled(Reg(4), Collect(r.t).0)
  {
    var t;
    ops, t := ThreeFreed(n);
    hide Run, Collect, Tiled;
    assert !LoopTouches(t, 0) by {
      FirstIs(t, NearTo(t[0]), 1);
      assert !StepTouches(t, 0);
    }
    hide LoopTouches;
    Cancels(t);
    WholeTiles(Collect(t).0);
  }

  // ---------------------------------------------------------------- a USED slot 0

  /** Allocate 4 KiB and then exactly the rest, and free the first. */
  lemma RestTaken(n: nat) returns (ops: seq<Op>, t: Table)
    requires n >= 5
    ensures Five(t, U(1, 15), G(0, 1), NO_BLK, NO_BLK, NO_BLK) && Reaches(Reg(16), Initial(Reg(16), n), ops, t)
  {
    hide Reaches;
    var R, t0 := Reg(16), Initial(Reg(16), n);
    StartsAt(R, t0);
    var t1, t2;
    ops, t1 := CarveNext(R, t0, [], t0, 1, P);
    ops, t2 := TakeNext(R, t0, ops, t1, 2);
    ops, t := ReleaseNext(R, t0, ops, t2, 1);
  }

  lemma Swallows(t: Table)
    requires Five(t, U(1, 15), G(0, 1), NO_BLK, NO_BLK, NO_BLK)
    ensures Free(Reg(16), Collect(t).0, B + P).Halted?
  {
    hide CollectLoop;
    LoopPasses(t, 0);
    LoopPasses(t, 1);
    QuietTail(t, 2);
    FirstIs(t, NearTo(t[0]), 1);
    var u := Collect(t).0;
    assert Five(u, U(0, 16), NO_BLK, NO_BLK, NO_BLK, NO_BLK);
    FirstIs(u, UsedAt(B + P), |u|);
  }

  /** The collection then moves the USED block, and its owner's own call of free stops the machine. */
  lemma StolenBlockRun(n: nat) returns (ops: seq<Op>)
    requires n >= 5
    ensures var r := Run(Reg(16), Initial(Reg(16), n), ops);
      && r.Granted? && |r.t| == n && (exists k :: 0 <= k < n && r.t[k].state == USED && r.t[k].addr == B + P)
      && Free(Reg(16), Collect(r.t).0, B + P).Halted?
  {
    var t;
    ops, t := RestTaken(n);
    hide Run, Collect, Free;
    Swallows(t);
    assert t[0].state == USED && t[0].addr == B + P;
  }
}
