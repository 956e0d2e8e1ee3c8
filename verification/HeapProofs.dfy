/** The heap's run invariant, and what each operation does to it. */
module HeapProofs {
  import opened Words
  import opened Search
  import opened Sums
  import opened HeapTable

  /** A region the kernel can manage: above address 0 and below the top of the address space. */
  ghost predicate ValidRegion(R: Region)
  {
    R.base > 0 && R.size > 0 && R.base + R.size < WORD
  }

  ghost predicate Inside(R: Region, b: Blk)
  {
    R.base <= b.addr && b.sz > 0 && End(b) <= R.base + R.size
  }

  ghost predicate Apart(b: Blk, c: Blk)
  {
    End(b) <= c.addr || End(c) <= b.addr
  }

  ghost predicate Covers(b: Blk, a: int)
  {
    Live(b) && b.addr <= a < End(b)
  }

  ghost predicate Covered(t: Table, a: int)
  {
    exists i :: 0 <= i < |t| && Covers(t[i], a)
  }

  ghost predicate AllInside(R: Region, t: Table)
  {
    forall i :: 0 <= i < |t| && Live(t[i]) ==> Inside(R, t[i])
  }

  ghost predicate AllApart(t: Table)
  {
    forall i, j :: 0 <= i < j < |t| && Live(t[i]) && Live(t[j]) ==> Apart(t[i], t[j])
  }

  ghost predicate AllCovered(R: Region, t: Table)
  {
    forall a :: R.base <= a < R.base + R.size ==> Covered(t, a)
  }

  /** The live descriptors are inside the region, pairwise disjoint, and leave no byte out. */
  ghost predicate Tiled(R: Region, t: Table)
  {
    AllInside(R, t) && AllApart(t) && AllCovered(R, t)
  }

  /** Unused descriptors are all zero, as at boot and after heap_remove. */
  ghost predicate Cleared(t: Table)
  {
    forall i :: 0 <= i < |t| && !Live(t[i]) ==> t[i] == NO_BLK
  }

  ghost predicate HeapInv(R: Region, t: Table)
  {
    ValidRegion(R) && |t| > 0 && Cleared(t) && Tiled(R, t) && SumBy(t, LiveSz()) == R.size
  }

  /** Byte `a` belongs to a FREE descriptor. */
  ghost predicate FreeByte(t: Table, a: int)
  {
    exists i :: 0 <= i < |t| && t[i].state == FREE && Covers(t[i], a)
  }

  /** A byte lies in at most one live descriptor. */
  lemma OneOwner(t: Table, i: nat, j: nat, a: int)
    requires AllApart(t) && i < |t| && j < |t| && Covers(t[i], a) && Covers(t[j], a)
    ensures i == j
  {
  }

  // ---------------------------------------------------------------- table edits

  /** `u` differs from `t` in slots `i` and `k` only, and those two cover the same bytes as before. */
  ghost predicate SameBytes(t: Table, u: Table, i: nat, k: nat)
    requires i < |t| && k < |t|
  {
    && |u| == |t| && i != k
    && (forall q :: 0 <= q < |t| && q != i && q != k ==> u[q] == t[q])
    && (forall a :: Covers(u[i], a) || Covers(u[k], a) <==> Covers(t[i], a) || Covers(t[k], a))
  }

  lemma ApartFromRest(R: Region, t: Table, u: Table, i: nat, k: nat, q: nat)
    requires AllInside(R, t) && AllApart(t) && i < |t| && k < |t| && SameBytes(t, u, i, k)
    requires q < |t| && q != i && q != k && Live(t[q])
    requires Live(u[i]) && Inside(R, u[i])
    ensures Apart(u[i], u[q])
  {
    assert Inside(R, t[q]);
    if !Apart(u[i], u[q]) {
      var a := if u[i].addr < u[q].addr then u[q].addr else u[i].addr;
      assert Covers(u[i], a) && Covers(t[q], a);
      if Covers(t[i], a) { OneOwner(t, i, q, a); } else { OneOwner(t, k, q, a); }
    }
  }

  /** Exchanging two slots for others that cover the same bytes keeps the tiling. */
  lemma EditTiles(R: Region, t: Table, u: Table, i: nat, k: nat)
    requires Tiled(R, t) && i < |t| && k < |t| && SameBytes(t, u, i, k)
    requires (Live(u[i]) ==> Inside(R, u[i])) && (Live(u[k]) ==> Inside(R, u[k]))
    requires Live(u[i]) && Live(u[k]) ==> Apart(u[i], u[k])
    ensures Tiled(R, u)
  {
    forall x, y | 0 <= x < y < |u| && Live(u[x]) && Live(u[y]) ensures Apart(u[x], u[y]) {
      if x == i || x == k {
        if y != i && y != k { ApartFromRest(R, t, u, x, if x == i then k else i, y); }
      } else if y == i || y == k {
        ApartFromRest(R, t, u, y, if y == i then k else i, x);
      }
    }
    forall a | R.base <= a < R.base + R.size ensures Covered(u, a) {
      assert Covered(t, a);
      var q :| 0 <= q < |t| && Covers(t[q], a);
      assert Covers(u[q], a) || Covers(u[i], a) || Covers(u[k], a);
    }
  }

  /** Only state or owner of slot `i` changes, and it stays live. */
  lemma RelabelKeeps(R: Region, t: Table, i: nat, b: Blk)
    requires HeapInv(R, t) && i < |t| && Live(t[i]) && Live(b)
    requires b.addr == t[i].addr && b.sz == t[i].sz
    ensures HeapInv(R, t[i := b])
  {
    var u := t[i := b];
    SumUpdate(t, LiveSz(), i, b);
    forall a | R.base <= a < R.base + R.size ensures Covered(u, a) {
      assert Covered(t, a);
      var k :| 0 <= k < |t| && Covers(t[k], a);
      assert Covers(u[k], a);
    }
  }

  /** The front of slot `g` moves into the unused slot `k`. */
  lemma SplitKeeps(R: Region, t: Table, g: nat, k: nat, front: Blk, back: Blk)
    requires HeapInv(R, t) && g < |t| && k < |t| && Live(t[g]) && !Live(t[k])
    requires Live(front) && Live(back) && front.sz > 0 && back.sz > 0
    requires front.addr == t[g].addr && End(front) == back.addr && End(back) == End(t[g])
    ensures HeapInv(R, t[k := front][g := back])
  {
    SumPair(t, LiveSz(), k, g, front, back);
    assert Inside(R, t[g]);
    EditTiles(R, t, t[k := front][g := back], g, k);
  }

  ghost predicate Touch(b: Blk, c: Blk)
  {
    End(b) == c.addr || End(c) == b.addr
  }

  lemma TwoFit(R: Region, t: Table, i: nat, j: nat)
    requires HeapInv(R, t) && i < |t| && j < |t| && i != j && Live(t[i]) && Live(t[j])
    ensures t[i].sz + t[j].sz <= R.size
  {
    if i < j { SumTwo(t, LiveSz(), i, j); } else { SumTwo(t, LiveSz(), j, i); }
  }

  /** A merge of touching blocks, read without the 32-bit arithmetic. */
  lemma TouchingMergeBytes(R: Region, t: Table, i: nat, j: nat)
    requires HeapInv(R, t) && i < |t| && j < |t| && i != j && Live(t[i]) && Live(t[j])
    requires Touch(t[i], t[j])
    ensures var u := Merge(t, i, j);
      && SameBytes(t, u, i, j) && u[j] == NO_BLK && Inside(R, u[i]) && Live(u[i])
      && u[i].sz == t[i].sz + t[j].sz && u[i].state == t[i].state
  {
    TwoFit(R, t, i, j);
    assert Inside(R, t[i]) && Inside(R, t[j]);
  }

  /** Merging two live blocks that touch keeps the invariant. */
  lemma TouchingMergeKeeps(R: Region, t: Table, i: nat, j: nat)
    requires HeapInv(R, t) && i < |t| && j < |t| && i != j && Live(t[i]) && Live(t[j])
    requires Touch(t[i], t[j])
    ensures HeapInv(R, Merge(t, i, j))
    ensures Merge(t, i, j)[i].state == t[i].state && Merge(t, i, j)[i].thread == t[i].thread
  {
    TouchingMergeBytes(R, t, i, j);
    SumPair(t, LiveSz(), i, j, Merge(t, i, j)[i], NO_BLK);
    EditTiles(R, t, Merge(t, i, j), i, j);
  }

  /** Merging two live blocks that do not touch loses the last byte of the higher one. */
  lemma GapMergeBreaks(R: Region, t: Table, i: nat, j: nat)
    requires HeapInv(R, t) && i < |t| && j < |t| && i != j && Live(t[i]) && Live(t[j])
    requires !Touch(t[i], t[j])
    ensures !Tiled(R, Merge(t, i, j))
  {
    var u := Merge(t, i, j);
    TwoFit(R, t, i, j);
    assert Apart(t[i], t[j]);
    var high := if t[i].addr > t[j].addr then i else j;
    var last := End(t[high]) - 1;
    assert Covers(t[high], last);
    if Tiled(R, u) {
      assert Covered(u, last);
      var k :| 0 <= k < |u| && Covers(u[k], last);
      if k != i { OneOwner(t, k, high, last); }
    }
  }

  // ---------------------------------------------------------------- allocation and release

  lemma AlignedSize(sz: Word)
    ensures var m := MemAlign(sz, HEAP_ALIGN);
            if sz <= WORD - 4096 then m % 4096 == 0 && sz <= m < sz + 4096 else m == 0
  {
  }

  ghost predicate UsedKept(t: Table, u: Table)
  {
    |t| == |u| && forall i :: 0 <= i < |t| && t[i].state == USED ==> u[i] == t[i]
  }

  /** A granted block has the exact size asked for and disturbs no USED block; on a tiled heap it overlaps none
      either. */
  lemma RequestGrants(R: Region, t: Table, sz: Word)
    requires ValidRegion(R) && AllInside(R, t) && Request(R, t, sz).Granted?
    ensures var r := Request(R, t, sz);
      && UsedKept(t, r.t) && t[r.i].state != USED && r.t[r.i].state == USED && r.t[r.i].sz == sz
      && (forall k :: 0 <= k < |t| && r.t[k].state == USED && k != r.i ==> t[k].state == USED)
      && (HeapInv(R, t) ==> HeapInv(R, r.t) && forall k :: 0 <= k < |t| && t[k].state == USED ==> Apart(t[k], r.t[r.i]))
  {
    var r := Request(R, t, sz);
    var e := First(t, ExactFree(sz));
    var g := First(t, LargerFree(sz));
    if e < |t| {
      assert ExactFree(sz)(t[e]);
      if HeapInv(R, t) { RelabelKeeps(R, t, e, r.t[e]); }
    } else {
      assert LargerFree(sz)(t[g]) && Inside(R, t[g]);
      var k := First(t, Unused());
      assert Unused()(t[k]);
      if HeapInv(R, t) { SplitKeeps(R, t, g, k, r.t[k], r.t[g]); }
    }
  }

  /** heap_request fails only when nothing is large enough; a split also needs an unused descriptor. */
  lemma RequestFailsIff(R: Region, t: Table, sz: Word)
    requires ValidRegion(R) && AllInside(R, t)
    ensures Request(R, t, sz).Halted?
      <==> sz == 0 || forall k :: 0 <= k < |t| && t[k].state == FREE ==> t[k].sz < sz
    ensures Request(R, t, sz).NoDescriptor?
      <==> && sz > 0
           && (forall k :: 0 <= k < |t| ==> Live(t[k]))
           && (forall k :: 0 <= k < |t| && t[k].state == FREE ==> t[k].sz != sz)
           && (exists k :: 0 <= k < |t| && t[k].state == FREE && t[k].sz > sz)
  {
    if 0 < sz <= R.size {
      var e := First(t, ExactFree(sz));
      var g := First(t, LargerFree(sz));
      var u := First(t, Unused());
      assert forall q :: 0 <= q < e ==> !ExactFree(sz)(t[q]);
      assert forall q :: 0 <= q < g ==> !LargerFree(sz)(t[q]);
      assert forall q :: 0 <= q < u ==> !Unused()(t[q]);
      assert e < |t| ==> ExactFree(sz)(t[e]);
      assert g < |t| ==> LargerFree(sz)(t[g]);
      assert u < |t| ==> Unused()(t[u]);
      if e == |t| && g == |t| {
        forall k | 0 <= k < |t| && t[k].state == FREE ensures t[k].sz < sz {
          assert !ExactFree(sz)(t[k]) && !LargerFree(sz)(t[k]);
        }
      }
    } else if sz > R.size {
      assert forall k :: 0 <= k < |t| && t[k].state == FREE ==> Inside(R, t[k]);
    }
  }

  /** Any exact fit beats any split, and the earliest one wins; a split takes the front of the earliest larger block. */
  lemma RequestPlacement(R: Region, t: Table, sz: Word, k: nat)
    requires ValidRegion(R) && AllInside(R, t)
    requires Request(R, t, sz).Granted? && k < |t| && t[k].state == FREE
    ensures var r := Request(R, t, sz);
      && (t[k].sz == sz ==> r.i <= k && t[r.i] == r.t[r.i].(state := FREE))
      && (!Live(t[r.i]) && t[k].sz > sz ==>
           exists g :: 0 <= g <= k && t[g].state == FREE && t[g].sz > sz && r.t[r.i].addr == t[g].addr
             && r.t[g] == t[g].(addr := t[g].addr + sz, sz := t[g].sz - sz)
             && r.t == t[r.i := r.t[r.i]][g := r.t[g]])
  {
    var e := First(t, ExactFree(sz));
    var g := First(t, LargerFree(sz));
    assert forall q :: 0 <= q < e ==> !ExactFree(sz)(t[q]);
    assert forall q :: 0 <= q < g ==> !LargerFree(sz)(t[q]);
    if e == |t| {
      assert LargerFree(sz)(t[g]) && Inside(R, t[g]);
      assert Unused()(t[First(t, Unused())]);
    } else {
      assert ExactFree(sz)(t[e]);
    }
  }

  /** The two shapes of a granted request, without 32-bit arithmetic: an exact fit, or the front of slot `g`. */
  lemma RequestShape(R: Region, t: Table, m: Word) returns (g: nat)
    requires ValidRegion(R) && AllInside(R, t) && Request(R, t, m).Granted?
    ensures var r := Request(R, t, m);
      if Live(t[r.i]) then
        t[r.i].state == FREE && t[r.i].sz == m && r.t == t[r.i := t[r.i].(state := USED)]
      else
        && g < |t| && g != r.i && t[g].state == FREE && 0 < m < t[g].sz
        && r.t == t[r.i := Blk(t[g].addr, m, USED, NULL)][g := t[g].(addr := t[g].addr + m, sz := t[g].sz - m)]
  {
    var r := Request(R, t, m);
    var e := First(t, ExactFree(m));
    g := First(t, LargerFree(m));
    if e < |t| {
      assert ExactFree(m)(t[e]);
    } else {
      assert LargerFree(m)(t[g]) && Inside(R, t[g]);
      assert Unused()(t[r.i]);
    }
  }

  lemma AllocShape(R: Region, t: Table, sz: Word, owner: Word) returns (g: nat)
    requires ValidRegion(R) && AllInside(R, t) && Alloc(R, t, sz, owner).Granted?
    ensures var r := Alloc(R, t, sz, owner);
            var m := MemAlign(sz, HEAP_ALIGN);
      if Live(t[r.i]) then
        t[r.i].state == FREE && t[r.i].sz == m && r.t == t[r.i := t[r.i].(state := USED, thread := owner)]
      else
        && g < |t| && g != r.i && t[g].state == FREE && 0 < m < t[g].sz
        && r.t == t[r.i := Blk(t[g].addr, m, USED, owner)][g := t[g].(addr := t[g].addr + m, sz := t[g].sz - m)]
  {
    g := RequestShape(R, t, MemAlign(sz, HEAP_ALIGN));
    hide Request, MemAlign;
  }

  /** With no exact fit, slot `g` the first larger FREE block and `k` the first unused slot, `k` takes the front of
      `g`. */
  lemma RequestCuts(R: Region, t: Table, g: nat, k: nat, sz: Word)
    requires ValidRegion(R) && 0 < sz <= R.size
    requires g < |t| && k < |t| && g != k && Inside(R, t[g])
    requires IsFirst(t, ExactFree(sz), |t|) && IsFirst(t, LargerFree(sz), g) && IsFirst(t, Unused(), k)
    ensures Request(R, t, sz) == Granted(
      t[k := Blk(t[g].addr, sz, USED, NULL)][g := t[g].(addr := t[g].addr + sz, sz := t[g].sz - sz)], k)
  {
    FirstIs(t, ExactFree(sz), |t|);
    FirstIs(t, LargerFree(sz), g);
    FirstIs(t, Unused(), k);
  }

  lemma AllocCuts(R: Region, t: Table, g: nat, k: nat, sz: Word, owner: Word)
    requires ValidRegion(R) && 0 < sz <= R.size && sz % HEAP_ALIGN == 0
    requires g < |t| && k < |t| && g != k && Inside(R, t[g])
    requires IsFirst(t, ExactFree(sz), |t|) && IsFirst(t, LargerFree(sz), g) && IsFirst(t, Unused(), k)
    ensures Alloc(R, t, sz, owner) == Granted(
      t[k := Blk(t[g].addr, sz, USED, owner)][g := t[g].(addr := t[g].addr + sz, sz := t[g].sz - sz)], k)
  {
    RequestCuts(R, t, g, k, sz);
    assert MemAlign(sz, HEAP_ALIGN) == sz;
    hide Request, MemAlign, ValidRegion, IsFirst;
    assert Alloc(R, t, sz, owner).t
      == t[k := Blk(t[g].addr, sz, USED, owner)][g := t[g].(addr := t[g].addr + sz, sz := t[g].sz - sz)];
  }

  /** An allocation records its owner and is the least page multiple that holds the size. */
  lemma AllocContract(R: Region, t: Table, sz: Word, owner: Word)
    requires ValidRegion(R) && AllInside(R, t) && Alloc(R, t, sz, owner).Granted?
    ensures var r := Alloc(R, t, sz, owner);
      && UsedKept(t, r.t) && t[r.i].state != USED && r.t[r.i].state == USED && r.t[r.i].thread == owner
      && r.t[r.i].sz % 4096 == 0 && sz <= r.t[r.i].sz < sz + 4096
      && (forall k :: 0 <= k < |t| && r.t[k].state == USED && k != r.i ==> t[k].state == USED)
      && (HeapInv(R, t) ==> HeapInv(R, r.t) && forall k :: 0 <= k < |t| && t[k].state == USED ==> Apart(t[k], r.t[r.i]))
  {
    AlignedSize(sz);
    var m := MemAlign(sz, HEAP_ALIGN);
    RequestGrants(R, t, m);
    var q := Request(R, t, m);
    hide Request, MemAlign;
    if HeapInv(R, t) { RelabelKeeps(R, q.t, q.i, Alloc(R, t, sz, owner).t[q.i]); }
  }

  /** Disjointness makes an address name at most one live descriptor, so free releases exactly that one. */
  lemma FreeIsExact(R: Region, t: Table, i: nat)
    requires HeapInv(R, t) && i < |t| && t[i].state == USED
    ensures Free(R, t, t[i].addr) == Granted(t[i := t[i].(state := FREE)], i)
    ensures HeapInv(R, t[i := t[i].(state := FREE)])
  {
    var k := First(t, UsedAt(t[i].addr));
    assert UsedAt(t[i].addr)(t[i]);
    assert UsedAt(t[i].addr)(t[k]);
    OneOwner(t, i, k, t[i].addr);
    RelabelKeeps(R, t, i, t[i].(state := FREE));
  }

  lemma FreeContract(R: Region, t: Table, ptr: Word)
    requires ValidRegion(R) && AllInside(R, t)
    ensures Free(R, t, ptr).Granted? <==> exists i :: 0 <= i < |t| && t[i].state == USED && t[i].addr == ptr
    ensures Free(R, t, ptr).Granted? ==>
      var r := Free(R, t, ptr);
      && (HeapInv(R, t) ==> HeapInv(R, r.t))
      && t[r.i].state == USED && t[r.i].addr == ptr && r.t == t[r.i := t[r.i].(state := FREE)]
  {
    var i := First(t, UsedAt(ptr));
    if i < |t| {
      assert UsedAt(ptr)(t[i]) && Inside(R, t[i]);
      if HeapInv(R, t) { FreeIsExact(R, t, i); }
    } else {
      assert forall k :: 0 <= k < |t| ==> !UsedAt(ptr)(t[k]);
    }
  }

  /** An edit that covers the same bytes, with both slots FREE or unused before and after, keeps the FREE bytes. */
  lemma EditKeepsFreeBytes(t: Table, u: Table, i: nat, k: nat, a: int)
    requires i < |t| && k < |t| && SameBytes(t, u, i, k)
    requires t[i].state != USED && t[k].state != USED && u[i].state != USED && u[k].state != USED
    ensures FreeByte(u, a) <==> FreeByte(t, a)
  {
    if FreeByte(t, a) {
      var q :| 0 <= q < |t| && t[q].state == FREE && Covers(t[q], a);
      assert Covers(u[i], a) || Covers(u[k], a) || u[q] == t[q];
    }
    if FreeByte(u, a) {
      var q :| 0 <= q < |u| && u[q].state == FREE && Covers(u[q], a);
      assert Covers(t[i], a) || Covers(t[k], a) || u[q] == t[q];
    }
  }

  lemma SameShapeKeepsFreeBytes(t: Table, u: Table, a: int)
    requires |t| == |u|
    requires forall k :: 0 <= k < |t| ==> u[k] == t[k].(thread := u[k].thread)
    ensures FreeByte(u, a) <==> FreeByte(t, a)
  {
    assert forall k :: 0 <= k < |t| ==> Covers(u[k], a) == Covers(t[k], a);
  }

  /** Allocating and freeing again gives back exactly the same FREE bytes. */
  lemma AllocFreeRestores(R: Region, t: Table, sz: Word, owner: Word, a: int)
    requires HeapInv(R, t) && Alloc(R, t, sz, owner).Granted?
    ensures var r := Alloc(R, t, sz, owner);
            var f := Free(R, r.t, r.t[r.i].addr);
            f.Granted? && HeapInv(R, f.t) && (FreeByte(f.t, a) <==> FreeByte(t, a))
  {
    AllocContract(R, t, sz, owner);
    var r := Alloc(R, t, sz, owner);
    FreeIsExact(R, r.t, r.i);
    var u := r.t[r.i := r.t[r.i].(state := FREE)];
    var g := AllocShape(R, t, sz, owner);
    if Live(t[r.i]) {
      SameShapeKeepsFreeBytes(t, u, a);
    } else {
      assert Inside(R, t[g]);
      EditKeepsFreeBytes(t, u, g, r.i, a);
    }
  }

  // ---------------------------------------------------------------- the dead-owner sweep

  ghost function Swept(b: Blk, tasks: set<Word>): Blk
  {
    if OwnerGone(b, tasks) then b.(state := FREE) else b
  }

  /** The sweep never halts and changes exactly the blocks whose owner is gone, each in its own slot. */
  lemma {:induction false} SweepIsExact(R: Region, t: Table, tasks: set<Word>, i: nat)
    requires HeapInv(R, t) && i <= |t|
    ensures var r := Sweep(R, t, tasks, i);
      && r.Granted? && HeapInv(R, r.t)
      && (forall k :: 0 <= k < i ==> r.t[k] == t[k])
      && (forall k :: i <= k < |t| ==> r.t[k] == Swept(t[k], tasks))
    decreases |t| - i
  {
    if i < |t| {
      if OwnerGone(t[i], tasks) {
        FreeIsExact(R, t, i);
        SweepIsExact(R, t[i := t[i].(state := FREE)], tasks, i + 1);
      } else {
        SweepIsExact(R, t, tasks, i + 1);
      }
    }
  }

  /** After the sweep every USED block has a listed owner, and blocks of listed owners are untouched. */
  lemma SweepContract(R: Region, t: Table, tasks: set<Word>)
    requires HeapInv(R, t)
    ensures var r := Sweep(R, t, tasks, 0);
      && r.Granted?
      && (forall k :: 0 <= k < |t| && r.t[k].state == USED ==> r.t[k].thread != NULL && r.t[k].thread in tasks)
      && (forall k :: 0 <= k < |t| && t[k].state == USED && t[k].thread != NULL && t[k].thread in tasks
            ==> r.t[k] == t[k])
  {
    SweepIsExact(R, t, tasks, 0);
    assert forall k :: 0 <= k < |t| && t[k].state == USED ==> Inside(R, t[k]);
  }
}
