/** The physical memory map: what memmgr.c does to its table of memory blocks. */
module MemMap {
  import opened Words
  import opened Search
  import opened Sums

  const MEM_INVALID: Word := 0
  const MEM_FREE: Word := 1
  const MEM_RESERVED: Word := 2
  const MEM_KERNEL: Word := 7
  const MEM_MODULE: Word := 8
  const MEMBLK_COUNT: nat := 2048

  const QUAD: int := 0x1_0000_0000_0000_0000

  type Quad = x: int | 0 <= x < QUAD

  datatype MemBlk = MemBlk(addr: Word, sz: Word, kind: Word)

  const NO_MEM := MemBlk(0, 0, MEM_INVALID)

  type Table = seq<MemBlk>

  predicate Live(b: MemBlk) { b.kind != MEM_INVALID }

  function End(b: MemBlk): int { b.addr + b.sz }

  ghost predicate Apart(b: MemBlk, c: MemBlk)
  {
    End(b) <= c.addr || End(c) <= b.addr
  }

  /** Live blocks are pairwise disjoint. */
  ghost predicate Disjoint(t: Table)
  {
    forall i, j :: 0 <= i < j < |t| && Live(t[i]) && Live(t[j]) ==> Apart(t[i], t[j])
  }

  function LiveSz(): MemBlk -> nat { (b: MemBlk) => if Live(b) then b.sz else 0 }

  function LiveOne(): MemBlk -> nat { (b: MemBlk) => if Live(b) then 1 else 0 }

  /** Bytes in live blocks. */
  ghost function Bytes(t: Table): nat { SumBy(t, LiveSz()) }

  ghost function LiveCount(t: Table): nat { SumBy(t, LiveOne()) }

  function Vacant(): MemBlk -> bool { (b: MemBlk) => b.kind == MEM_INVALID }

  function FreeFor(sz: Word): MemBlk -> bool { (b: MemBlk) => b.kind == MEM_FREE && b.sz >= sz }

  function SameAs(c: MemBlk): MemBlk -> bool { (b: MemBlk) => b == c }

  /** The result of an operation that halts the machine when it fails. */
  datatype Req = Granted(t: Table, i: nat) | Halted

  ghost function Map(t: Table, b: MemBlk): (r: Req)
    ensures r.Granted? ==> |r.t| == |t| && r.i < |t|
  {
    var k := First(t, Vacant());
    if b.sz == 0 || b.kind == MEM_INVALID || k == |t| then Halted else Granted(t[k := b], k)
  }

  ghost function Unmap(t: Table, b: MemBlk): (r: Req)
    ensures r.Granted? ==> |r.t| == |t| && r.i < |t|
  {
    var k := First(t, SameAs(b));
    if k == |t| then Halted else Granted(t[k := NO_MEM], k)
  }

  ghost function Alloc(t: Table, sz: Word, kind: Word): (r: Req)
    ensures r.Granted? ==> |r.t| == |t| && r.i < |t|
  {
    var g := First(t, FreeFor(sz));
    if sz == 0 || kind == MEM_INVALID || kind == MEM_FREE || g == |t| then Halted
    else if t[g].sz > sz then
      var m := Map(t, MemBlk(t[g].addr, sz, kind));
      if m.Halted? then m
      else Granted(m.t[g := m.t[g].(addr := U32(m.t[g].addr + sz), sz := U32(m.t[g].sz - sz))], m.i)
    else Granted(t[g := t[g].(kind := kind)], g)
  }

  // ---------------------------------------------------------------- the allocator

  lemma UpdateDisjoint(t: Table, k: nat, b: MemBlk)
    requires Disjoint(t) && k < |t|
    requires forall i :: 0 <= i < |t| && i != k && Live(t[i]) && Live(b) ==> Apart(t[i], b)
    ensures Disjoint(t[k := b])
  {
  }

  /** Mapping a range that no live block touches keeps the blocks disjoint and adds exactly its bytes. */
  lemma MapContract(t: Table, b: MemBlk)
    requires Map(t, b).Granted?
    ensures var r := Map(t, b);
      && !Live(t[r.i]) && r.t == t[r.i := b]
      && Bytes(r.t) == Bytes(t) + b.sz && LiveCount(r.t) == LiveCount(t) + 1
      && (Disjoint(t) && (forall i :: 0 <= i < |t| && Live(t[i]) ==> Apart(t[i], b)) ==> Disjoint(r.t))
  {
    var k := First(t, Vacant());
    assert Vacant()(t[k]);
    SumUpdate(t, LiveSz(), k, b);
    SumUpdate(t, LiveOne(), k, b);
    if Disjoint(t) && forall i :: 0 <= i < |t| && Live(t[i]) ==> Apart(t[i], b) {
      UpdateDisjoint(t, k, b);
    }
  }

  lemma MapFailsIff(t: Table, b: MemBlk)
    ensures Map(t, b).Halted? <==> b.sz == 0 || b.kind == 0 || forall i :: 0 <= i < |t| ==> t[i].kind != 0
  {
    var k := First(t, Vacant());
    assert forall i :: 0 <= i < k ==> !Vacant()(t[i]);
    assert k < |t| ==> Vacant()(t[k]);
  }

  /** Blocks end below the top of the address space. */
  ghost predicate Bounded(t: Table)
  {
    forall i :: 0 <= i < |t| && Live(t[i]) ==> End(t[i]) < WORD
  }

  /** An allocated block has exactly the bytes asked for, from the front of the first FREE block that is large enough.
      */
  lemma AllocContract(t: Table, sz: Word, kind: Word)
    requires Disjoint(t) && Bounded(t) && Alloc(t, sz, kind).Granted?
    ensures var r := Alloc(t, sz, kind);
            var g := First(t, FreeFor(sz));
      && Disjoint(r.t) && Bounded(r.t) && Bytes(r.t) == Bytes(t)
      && g < |t| && r.t[r.i] == MemBlk(t[g].addr, sz, kind)
      && (r.i != g ==> !Live(t[r.i]) && r.t[g] == MemBlk(t[g].addr + sz, t[g].sz - sz, MEM_FREE))
      && LiveCount(r.t) == LiveCount(t) + (if r.i == g then 0 else 1)
      && (forall k :: 0 <= k < |t| && k != g && k != r.i ==> r.t[k] == t[k])
  {
    var g := First(t, FreeFor(sz));
    assert FreeFor(sz)(t[g]) && End(t[g]) < WORD;
    hide Disjoint, Bounded, Bytes, LiveCount;
    if t[g].sz > sz {
      AllocCut(t, g, sz, kind);
    } else {
      AllocWhole(t, g, kind);
    }
  }

  lemma AllocWhole(t: Table, g: nat, kind: Word)
    requires Disjoint(t) && Bounded(t) && g < |t| && Live(t[g]) && kind != MEM_INVALID
    ensures var u := t[g := t[g].(kind := kind)];
            Disjoint(u) && Bounded(u) && Bytes(u) == Bytes(t) && LiveCount(u) == LiveCount(t)
  {
    var b := t[g].(kind := kind);
    SumUpdate(t, LiveSz(), g, b);
    SumUpdate(t, LiveOne(), g, b);
    UpdateDisjoint(t, g, b);
  }

  lemma AllocCut(t: Table, g: nat, sz: Word, kind: Word)
    requires Disjoint(t) && Bounded(t) && g < |t| && t[g].kind == MEM_FREE && 0 < sz < t[g].sz
    requires kind != MEM_INVALID && Map(t, MemBlk(t[g].addr, sz, kind)).Granted?
    ensures var m := Map(t, MemBlk(t[g].addr, sz, kind));
            var u := m.t[g := MemBlk(t[g].addr + sz, t[g].sz - sz, MEM_FREE)];
      && m.i != g && !Live(t[m.i]) && Disjoint(u) && Bounded(u) && Bytes(u) == Bytes(t)
      && LiveCount(u) == LiveCount(t) + 1
  {
    var front := MemBlk(t[g].addr, sz, kind);
    var k := First(t, Vacant());
    assert Vacant()(t[k]);
    var back := MemBlk(t[g].addr + sz, t[g].sz - sz, MEM_FREE);
    SumPair(t, LiveSz(), k, g, front, back);
    SumPair(t, LiveOne(), k, g, front, back);
    UpdateDisjoint(t, g, back);
    assert t[k := front][g := back] == t[g := back][k := front];
    UpdateDisjoint(t[g := back], k, front);
  }

  lemma AllocFailsIff(t: Table, sz: Word, kind: Word)
    ensures Alloc(t, sz, kind).Halted? <==>
      || sz == 0 || kind == MEM_INVALID || kind == MEM_FREE
      || (forall i :: 0 <= i < |t| && t[i].kind == MEM_FREE ==> t[i].sz < sz)
      || (t[First(t, FreeFor(sz))].sz > sz && forall i :: 0 <= i < |t| ==> Live(t[i]))
  {
    var g := First(t, FreeFor(sz));
    assert forall i :: 0 <= i < g ==> !FreeFor(sz)(t[i]);
    assert g < |t| ==> FreeFor(sz)(t[g]);
    var k := First(t, Vacant());
    assert forall i :: 0 <= i < k ==> !Vacant()(t[i]);
    assert k < |t| ==> Vacant()(t[k]);
  }

  // ---------------------------------------------------------------- unmapping

  ghost predicate Cleared(t: Table)
  {
    forall i :: 0 <= i < |t| && !Live(t[i]) ==> t[i] == NO_MEM
  }

  /** memmgr_unmap drops the count by one; that matches the table if and only if the block was mapped. */
  lemma UnmapCountsIff(t: Table, b: MemBlk)
    requires Cleared(t) && Unmap(t, b).Granted?
    ensures LiveCount(Unmap(t, b).t) == LiveCount(t) - 1 <==> b.kind != MEM_INVALID
    ensures Cleared(Unmap(t, b).t) && (Disjoint(t) ==> Disjoint(Unmap(t, b).t))
  {
    var k := First(t, SameAs(b));
    assert SameAs(b)(t[k]);
    SumUpdate(t, LiveOne(), k, NO_MEM);
    if Disjoint(t) { UpdateDisjoint(t, k, NO_MEM); }
  }

  /** Unmapping an unused descriptor succeeds and changes nothing but the counter. */
  lemma UnmapUnusedMiscounts(t: Table, k: nat)
    requires Cleared(t) && k < |t| && !Live(t[k])
    ensures Unmap(t, NO_MEM).Granted? && Unmap(t, NO_MEM).t == t
  {
    var i := First(t, SameAs(NO_MEM));
    assert t[k] == NO_MEM;
    assert SameAs(NO_MEM)(t[k]);
    assert i < |t| ==> SameAs(NO_MEM)(t[i]);
  }

  /** Unmapping what was just mapped gives the table back. */
  lemma MapUnmap(t: Table, b: MemBlk)
    requires Cleared(t) && b !in t && Map(t, b).Granted?
    ensures Unmap(Map(t, b).t, b) == Granted(t, Map(t, b).i)
  {
    var k := First(t, Vacant());
    assert Vacant()(t[k]);
    FirstIs(t[k := b], SameAs(b), k);
    assert t[k := b][k := NO_MEM] == t;
  }

  // ---------------------------------------------------------------- the firmware map

  /** One entry of the firmware's memory map. */
  datatype Entry = Entry(size: Quad, address: Quad, kind: Word)

  const NO_ENTRY := Entry(0, 0, 0)

  datatype Kernel = Kernel(addr: Word, size: Word)

  predicate Eligible(K: Kernel, e: Entry)
  {
    && e.size != 0 && e.kind != MEM_INVALID && e.kind != MEM_RESERVED
    && e.address >= K.addr && (e.address + e.size) % QUAD <= 0xFFFF_FFFF
  }

  /** The blocks one entry becomes; the kernel's entry is split in the kernel and what is left. */
  function Images(K: Kernel, e: Entry): seq<MemBlk>
  {
    if !Eligible(K, e) then []
    else if e.address == K.addr then
      [MemBlk(K.addr, K.size, MEM_KERNEL), MemBlk(U32(K.addr + K.size), U32(U32(e.size) - K.size), MEM_FREE)]
    else [MemBlk(U32(e.address), U32(e.size), e.kind)]
  }

  /** The whole map in index order. */
  function Scan(K: Kernel, es: seq<Entry>): seq<MemBlk>
  {
    if es == [] then [] else Scan(K, es[..|es| - 1]) + Images(K, es[|es| - 1])
  }

  /** What the scan leaves of an entry. */
  function Spent(K: Kernel, e: Entry): Entry
  {
    if Eligible(K, e) then NO_ENTRY else e
  }

  /** A map as the firmware promises it: no entry wraps, entries do not overlap, and the kernel's entry is larger than
      the kernel. */
  ghost predicate Sane(K: Kernel, es: seq<Entry>)
  {
    && K.size > 0
    && (forall i :: 0 <= i < |es| ==> es[i].address + es[i].size < QUAD)
    && (forall i :: 0 <= i < |es| && es[i].size > 0 && es[i].address == K.addr ==> es[i].size > K.size)
    && (forall i, j :: 0 <= i < j < |es| && es[i].size > 0 && es[j].size > 0 ==>
          es[i].address + es[i].size <= es[j].address || es[j].address + es[j].size <= es[i].address)
  }

  ghost predicate Within(b: MemBlk, e: Entry)
  {
    e.address <= b.addr && b.sz > 0 && End(b) <= e.address + e.size
  }

  lemma ImagesWithin(K: Kernel, e: Entry)
    requires K.size > 0 && e.address + e.size < QUAD && (e.address == K.addr && e.size > 0 ==> e.size > K.size)
    ensures var im := Images(K, e);
      && (forall k :: 0 <= k < |im| ==> Within(im[k], e) && Live(im[k]) && End(im[k]) < WORD)
      && (|im| == 2 ==> End(im[0]) == im[1].addr)
      && Bytes(im) == if Eligible(K, e) then e.size else 0
  {
    var im := Images(K, e);
    if |im| > 0 {
      SumSmall(im[0], im[|im| - 1], LiveSz());
      assert im == [im[0]] || im == [im[0], im[1]];
    }
  }

  function EligibleSz(K: Kernel): Entry -> nat { (e: Entry) => if Eligible(K, e) then e.size else 0 }

  /** The block lies in one of the entries. */
  ghost predicate Placed(b: MemBlk, es: seq<Entry>)
  {
    Live(b) && End(b) < WORD && exists i :: 0 <= i < |es| && es[i].size > 0 && Within(b, es[i])
  }

  lemma SanePrefix(K: Kernel, es: seq<Entry>, n: nat)
    requires Sane(K, es) && n <= |es|
    ensures Sane(K, es[..n])
  {
  }

  lemma {:induction false} ScanPlaced(K: Kernel, es: seq<Entry>)
    requires Sane(K, es)
    ensures forall b :: b in Scan(K, es) ==> Placed(b, es)
  {
    if es != [] {
      var n := |es| - 1;
      SanePrefix(K, es, n);
      ScanPlaced(K, es[..n]);
      ImagesWithin(K, es[n]);
      forall b | b in Scan(K, es) ensures Placed(b, es) {
        if b in Scan(K, es[..n]) {
          var i :| 0 <= i < n && es[..n][i].size > 0 && Within(b, es[..n][i]);
          assert Within(b, es[i]);
        } else {
          assert b in Images(K, es[n]) && Within(b, es[n]);
        }
      }
    }
  }

  /** The blocks of a sane map are disjoint. */
  lemma {:induction false} ScanDisjoint(K: Kernel, es: seq<Entry>)
    requires Sane(K, es)
    ensures Disjoint(Scan(K, es))
  {
    if es != [] {
      var n := |es| - 1;
      var s, im := Scan(K, es[..n]), Images(K, es[n]);
      SanePrefix(K, es, n);
      ScanDisjoint(K, es[..n]);
      ScanPlaced(K, es[..n]);
      ImagesWithin(K, es[n]);
      forall i, j | 0 <= i < |s| && 0 <= j < |im| ensures Apart(s[i], im[j]) {
        assert s[i] in s && Placed(s[i], es[..n]);
        var q :| 0 <= q < n && es[..n][q].size > 0 && Within(s[i], es[..n][q]);
        assert Within(im[j], es[n]);
      }
      hide Scan;
      JoinDisjoint(s, im);
    }
  }

  lemma JoinDisjoint(s: Table, im: Table)
    requires Disjoint(s) && (|im| == 2 ==> End(im[0]) == im[1].addr) && |im| <= 2
    requires forall i, j :: 0 <= i < |s| && 0 <= j < |im| ==> Apart(s[i], im[j])
    ensures Disjoint(s + im)
  {
  }

  /** The blocks of a sane map have exactly the bytes of its eligible entries. */
  lemma {:induction false} ScanConserves(K: Kernel, es: seq<Entry>)
    requires Sane(K, es)
    ensures Bytes(Scan(K, es)) == SumBy(es, EligibleSz(K))
  {
    if es != [] {
      var n := |es| - 1;
      SanePrefix(K, es, n);
      ScanConserves(K, es[..n]);
      ImagesWithin(K, es[n]);
      SumAppend(Scan(K, es[..n]), Images(K, es[n]), LiveSz());
      hide Scan, Images, Eligible, SumBy, Sane;
      SumLast(es, EligibleSz(K));
    }
  }

  // ---------------------------------------------------------------- boot modules

  /** A boot module's memory range. */
  datatype Module = Module(start: Word, end: Word)

  /** The modules lie in `[lo, hi]`, in order, without overlap, none empty. */
  ghost predicate InOrder(ms: seq<Module>, lo: int, hi: int)
  {
    if ms == [] then lo <= hi
    else lo <= ms[0].start < ms[0].end && InOrder(ms[1..], ms[0].end, hi)
  }

  function ModuleBlk(m: Module): MemBlk { MemBlk(m.start, U32(m.end - m.start), MEM_MODULE) }

  /** Sum of module sizes, as memmgr_scan_mods adds them up. */
  function ModulesSz(ms: seq<Module>): int
  {
    if ms == [] then 0 else ModulesSz(ms[..|ms| - 1]) + (ms[|ms| - 1].end - ms[|ms| - 1].start)
  }

  /** Bytes between `lo` and the end of the last module that no module covers. */
  ghost function Gaps(ms: seq<Module>, lo: int): int
  {
    if ms == [] then 0 else ms[0].start - lo + Gaps(ms[1..], ms[0].end)
  }

  /** The modules start at `lo` and follow one another without a gap. */
  ghost predicate TileFront(ms: seq<Module>, lo: int)
  {
    ms == [] || (ms[0].start == lo && TileFront(ms[1..], ms[0].end))
  }

  function LastEnd(ms: seq<Module>, lo: Word): Word
  {
    if ms == [] then lo else ms[|ms| - 1].end
  }

  /** The free block after the modules were taken out of it. */
  function Carved(f: MemBlk, ms: seq<Module>): MemBlk
  {
    f.(addr := LastEnd(ms, U32(f.addr + f.sz)), sz := U32(f.sz - ModulesSz(ms)))
  }

  ghost function MapMods(t: Table, ms: seq<Module>): (r: Req)
    ensures r.Granted? ==> |r.t| == |t|
    decreases |ms|
  {
    if ms == [] then Granted(t, 0)
    else
      var m := Map(t, ModuleBlk(ms[0]));
      if m.Halted? then m else MapMods(m.t, ms[1..])
  }

  lemma {:induction false} GapsTile(ms: seq<Module>, lo: int, hi: int)
    requires InOrder(ms, lo, hi)
    ensures 0 <= Gaps(ms, lo) <= hi - lo && (Gaps(ms, lo) == 0 <==> TileFront(ms, lo))
  {
    if ms != [] { GapsTile(ms[1..], ms[0].end, hi); }
  }

  lemma {:induction false} ModulesSzFront(ms: seq<Module>)
    requires ms != []
    ensures ModulesSz(ms) == ms[0].end - ms[0].start + ModulesSz(ms[1..])
    decreases |ms|
  {
    var n := |ms| - 1;
    if n == 0 {
      assert ms[..0] == [] && ms[1..] == [];
    } else {
      ModulesSzFront(ms[..n]);
      assert ms[..n][1..] == ms[1..][..n - 1];
    }
  }

  /** Module bytes and gaps add up to the distance covered. */
  lemma {:induction false} ModulesSpan(ms: seq<Module>, lo: Word, hi: int)
    requires InOrder(ms, lo, hi) && ms != []
    ensures ModulesSz(ms) + Gaps(ms, lo) == LastEnd(ms, lo) - lo
    ensures lo < LastEnd(ms, lo) <= hi && ModulesSz(ms) > 0
  {
    ModulesSzFront(ms);
    if |ms| > 1 {
      ModulesSpan(ms[1..], ms[0].end, hi);
    } else {
      assert ms[1..] == [];
    }
  }

  /** The free block overhangs its old end by exactly the gaps; with no module at all it moves past its end
      altogether. */
  lemma CarvedOverhang(f: MemBlk, ms: seq<Module>)
    requires End(f) < WORD && f.sz > 0 && InOrder(ms, f.addr, End(f))
    ensures var c := Carved(f, ms);
      if ms == [] then c.addr == End(f) && c.sz == f.sz
      else c.addr == ms[|ms| - 1].end && End(c) == End(f) + Gaps(ms, f.addr)
    ensures f.addr <= Carved(f, ms).addr && End(Carved(f, ms)) <= End(f) <==> ms != [] && TileFront(ms, f.addr)
  {
    if ms != [] {
      ModulesSpan(ms, f.addr, End(f));
      GapsTile(ms, f.addr, End(f));
    }
  }

  /** No live block has a byte in `[lo, hi)`. */
  ghost predicate Open(t: Table, lo: int, hi: int)
  {
    forall i :: 0 <= i < |t| && Live(t[i]) ==> End(t[i]) <= lo || hi <= t[i].addr
  }

  lemma {:induction false} ModsFill(t: Table, ms: seq<Module>, lo: Word, hi: int)
    requires Disjoint(t) && InOrder(ms, lo, hi) && Open(t, lo, hi) && MapMods(t, ms).Granted?
    ensures Disjoint(MapMods(t, ms).t) && Bytes(MapMods(t, ms).t) == Bytes(t) + ModulesSz(ms)
    decreases |ms|
  {
    if ms != [] {
      var b := ModuleBlk(ms[0]);
      var u := Map(t, b).t;
      ModulesSzFront(ms);
      InOrderFits(ms, lo, hi);
      MapContract(t, b);
      assert Open(u, ms[0].end, hi);
      ModsFill(u, ms[1..], ms[0].end, hi);
    }
  }

  lemma {:induction false} InOrderFits(ms: seq<Module>, lo: int, hi: int)
    requires InOrder(ms, lo, hi)
    ensures lo <= hi && (ms != [] ==> ms[0].end <= hi)
  {
    if ms != [] { InOrderFits(ms[1..], ms[0].end, hi); }
  }

  /** Mapping the modules and changing the free block's descriptor commute. */
  lemma {:induction false} ModsCommute(t: Table, ms: seq<Module>, f: nat, c: MemBlk)
    requires f < |t| && Live(t[f]) && Live(c) && MapMods(t, ms).Granted?
    ensures MapMods(t[f := c], ms).Granted? && MapMods(t[f := c], ms).t == MapMods(t, ms).t[f := c]
    ensures MapMods(t, ms).t[f] == t[f]
    decreases |ms|
  {
    if ms != [] {
      var b := ModuleBlk(ms[0]);
      var k := First(t, Vacant());
      assert Vacant()(t[k]);
      FirstIs(t[f := c], Vacant(), k);
      assert t[f := c][k := b] == t[k := b][f := c];
      ModsCommute(t[k := b], ms[1..], f, c);
    }
  }

  /** Mapping the modules adds exactly their bytes, and leaves live blocks where they are. */
  lemma {:induction false} ModsAdd(t: Table, ms: seq<Module>, lo: int, hi: int)
    requires InOrder(ms, lo, hi) && 0 <= lo && MapMods(t, ms).Granted?
    ensures Bytes(MapMods(t, ms).t) == Bytes(t) + ModulesSz(ms)
    ensures forall k :: 0 <= k < |t| && Live(t[k]) ==> MapMods(t, ms).t[k] == t[k]
    decreases |ms|
  {
    if ms != [] {
      var u := Map(t, ModuleBlk(ms[0])).t;
      ModulesSzFront(ms);
      InOrderFits(ms, lo, hi);
      MapContract(t, ModuleBlk(ms[0]));
      ModsAdd(u, ms[1..], ms[0].end, hi);
    }
  }

  /** Every module gets a block of type 8 with its own range. */
  lemma {:induction false} ModsMapped(t: Table, ms: seq<Module>, lo: int, hi: int, i: nat) returns (k: nat)
    requires InOrder(ms, lo, hi) && 0 <= lo && MapMods(t, ms).Granted? && i < |ms|
    ensures k < |t| && !Live(t[k]) && ms[i].start < ms[i].end
    ensures MapMods(t, ms).t[k] == MemBlk(ms[i].start, ms[i].end - ms[i].start, 8)
    decreases |ms|
  {
    var b := ModuleBlk(ms[0]);
    var u := Map(t, b).t;
    InOrderFits(ms, lo, hi);
    MapContract(t, b);
    if i == 0 {
      k := Map(t, b).i;
      ModsAdd(u, ms[1..], ms[0].end, hi);
    } else {
      k := ModsMapped(u, ms[1..], ms[0].end, hi, i - 1);
    }
  }

  lemma ModulesFit(f: MemBlk, ms: seq<Module>)
    requires End(f) < WORD && InOrder(ms, f.addr, End(f))
    ensures 0 <= ModulesSz(ms) <= f.sz && f.addr <= LastEnd(ms, f.addr) <= End(f)
    ensures ms != [] ==> InOrder(ms, f.addr, LastEnd(ms, f.addr))
  {
    if ms != [] {
      ModulesSpan(ms, f.addr, End(f));
      GapsTile(ms, f.addr, End(f));
      OrderUpToLast(ms, f.addr, End(f));
    }
  }

  /** Taking the modules out of the free block conserves all bytes, and keeps the blocks disjoint if and only if the
      free block's new range meets no other block. */
  lemma ScanModsContract(t: Table, ms: seq<Module>, f: nat)
    requires Disjoint(t) && Bounded(t) && f < |t| && t[f].kind == MEM_FREE
    requires InOrder(ms, t[f].addr, End(t[f])) && MapMods(t, ms).Granted?
    ensures var r, c := MapMods(t, ms).t[f := Carved(t[f], ms)], Carved(t[f], ms);
      && Bytes(r) == Bytes(t)
      && (Disjoint(r) <==> forall k :: 0 <= k < |t| && k != f && Live(t[k]) ==> Apart(t[k], c))
  {
    var c, m := Carved(t[f], ms), MapMods(t, ms).t;
    var r := m[f := c];
    ModulesFit(t[f], ms);
    ModsAdd(t, ms, t[f].addr, End(t[f]));
    SumUpdate(m, LiveSz(), f, c);
    if Disjoint(r) {
      forall k | 0 <= k < |t| && k != f && Live(t[k]) ensures Apart(t[k], c) {
        assert r[k] == t[k] && r[f] == c;
        if k < f { assert Apart(r[k], r[f]); } else { assert Apart(r[f], r[k]); }
      }
    }
    if forall k :: 0 <= k < |t| && k != f && Live(t[k]) ==> Apart(t[k], c) {
      UpdateDisjoint(t, f, c);
      ModsCommute(t, ms, f, c);
      if ms != [] {
        var u, last := t[f := c], LastEnd(ms, t[f].addr);
        assert Open(u, t[f].addr, last);
        ModsFill(u, ms, t[f].addr, last);
      }
    }
  }

  /** Modules that tile the front of the free block keep the blocks disjoint. */
  lemma TilingModsDisjoint(t: Table, ms: seq<Module>, f: nat)
    requires Disjoint(t) && Bounded(t) && f < |t| && t[f].kind == MEM_FREE && t[f].sz > 0
    requires InOrder(ms, t[f].addr, End(t[f])) && ms != [] && TileFront(ms, t[f].addr)
    requires MapMods(t, ms).Granted?
    ensures Disjoint(MapMods(t, ms).t[f := Carved(t[f], ms)])
  {
    ScanModsContract(t, ms, f);
    CarvedOverhang(t[f], ms);
    assert forall k :: 0 <= k < |t| && k != f && Live(t[k]) ==> Apart(t[k], t[f]);
  }

  lemma {:induction false} OrderUpToLast(ms: seq<Module>, lo: int, hi: int)
    requires InOrder(ms, lo, hi) && ms != []
    ensures InOrder(ms, lo, ms[|ms| - 1].end)
    decreases |ms|
  {
    if |ms| > 1 { OrderUpToLast(ms[1..], ms[0].end, hi); } else { assert ms[1..] == []; }
  }

  // ---------------------------------------------------------------- tables filled from the front

  /** `s` followed by unused slots. */
  ghost function Filled(s: Table, n: nat): Table
    requires |s| <= n
  {
    s + seq(n - |s|, i => NO_MEM)
  }

  lemma FilledMap(s: Table, n: nat, b: MemBlk)
    requires |s| <= n && forall k :: 0 <= k < |s| ==> Live(s[k])
    ensures if b.sz == 0 || b.kind == MEM_INVALID || |s| == n then Map(Filled(s, n), b) == Halted
            else Map(Filled(s, n), b) == Granted(Filled(s + [b], n), |s|)
  {
    FirstIs(Filled(s, n), Vacant(), |s|);
    if |s| < n { assert Filled(s, n)[|s| := b] == Filled(s + [b], n); }
  }

  /** The index of the free block left by the kernel's entry, or `n` when the map has no such entry. */
  function FreeIndex(K: Kernel, es: seq<Entry>, n: nat): nat
  {
    if es == [] then n
    else
      var k := |es| - 1;
      if Eligible(K, es[k]) && es[k].address == K.addr then |Scan(K, es[..k])| + 1 else FreeIndex(K, es[..k], n)
  }

  predicate Sized(s: Table)
  {
    forall k :: 0 <= k < |s| ==> s[k].sz > 0 && Live(s[k])
  }
}
