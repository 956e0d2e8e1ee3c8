/** From the firmware's memory map to the table the allocator starts with. */
module MemBoot {
  import opened Words
  import opened Sums
  import opened MemMap

  // ---------------------------------------------------------------- entry by entry

  /** One turn of memmgr_scan_mmap on any entry at all: the sum of address and size is taken in 64 bits, and what is
      mapped is cut to 32. */
  lemma EntryTurn(K: Kernel, es: seq<Entry>, i: nat)
    requires i < |es|
    ensures var e := es[i];
      Scan(K, es[..i + 1]) == Scan(K, es[..i]) +
        if e.size == 0 || e.kind == 0 || e.kind == 2 || e.address < K.addr
           || (e.address + e.size) % 0x1_0000_0000_0000_0000 > 0xFFFF_FFFF then []
        else if e.address == K.addr then
          [MemBlk(K.addr, K.size, 7), MemBlk(U32(K.addr + K.size), U32(U32(e.size) - K.size), 1)]
        else [MemBlk(U32(e.address), U32(e.size), e.kind)]
  {
    assert es[..i + 1][..i] == es[..i] && es[..i + 1][i] == es[i];
  }

  /** The entry is memory the kernel may manage: not empty, of a type that is neither 0 nor reserved, not below the
      kernel, and inside 32 bits. */
  ghost predicate Usable(K: Kernel, e: Entry)
  {
    e.size != 0 && e.kind != 0 && e.kind != 2 && K.addr <= e.address && e.address + e.size <= 0xFFFF_FFFF
  }

  lemma UsableFits(K: Kernel, e: Entry)
    requires e.address + e.size < QUAD && (e.address == K.addr && e.size > 0 ==> e.size > K.size)
    ensures (e.address + e.size) % 0x1_0000_0000_0000_0000 == e.address + e.size
    ensures Usable(K, e) ==> U32(e.address) == e.address && U32(e.size) == e.size
    ensures Usable(K, e) && e.address == K.addr ==>
      U32(K.addr + K.size) == K.addr + K.size && U32(e.size - K.size) == e.size - K.size
  {
  }

  /** What the scan makes of entry `i`: its own range and type, and out of the one that starts with the kernel the
      kernel's block, of type 7, and a free one, of type 1, for the rest. */
  lemma EntryYields(K: Kernel, es: seq<Entry>, i: nat)
    requires Sane(K, es) && i < |es|
    ensures var e := es[i];
      Scan(K, es[..i + 1]) == Scan(K, es[..i]) +
        if !Usable(K, e) then []
        else if e.address == K.addr then
          [MemBlk(K.addr, K.size, 7), MemBlk(K.addr + K.size, e.size - K.size, 1)]
        else [MemBlk(e.address, e.size, e.kind)]
  {
    var e := es[i];
    assert e.address + e.size < QUAD && (e.address == K.addr && e.size > 0 ==> e.size > K.size);
    hide Scan, Eligible, Images, Sane, U32;
    UsableFits(K, e);
    EntryTurn(K, es, i);
  }

  /** The block is one that the entry yields. */
  ghost predicate Yields(K: Kernel, e: Entry, b: MemBlk)
  {
    && Usable(K, e)
    && if e.address == K.addr then
         (b.addr == K.addr && b.sz == K.size && b.kind == 7)
         || (b.addr == K.addr + K.size && b.sz == e.size - K.size && b.kind == 1)
       else b.addr == e.address && b.sz == e.size && b.kind == e.kind
  }

  lemma LastYields(K: Kernel, es: seq<Entry>, n: nat, b: MemBlk)
    requires Sane(K, es) && n + 1 == |es|
    ensures b in Scan(K, es) <==> b in Scan(K, es[..n]) || Yields(K, es[n], b)
  {
    EntryYields(K, es, n);
    assert es[..n + 1] == es;
    hide Scan, Usable;
  }

  ghost predicate SomeYields(K: Kernel, es: seq<Entry>, b: MemBlk)
  {
    exists i :: 0 <= i < |es| && Yields(K, es[i], b)
  }

  lemma SomeStep(K: Kernel, es: seq<Entry>, n: nat, b: MemBlk)
    requires n + 1 == |es|
    ensures SomeYields(K, es, b) <==> SomeYields(K, es[..n], b) || Yields(K, es[n], b)
  {
    hide Yields;
    var front := es[..n];
    if SomeYields(K, front, b) {
      var i :| 0 <= i < n && Yields(K, front[i], b);
      assert Yields(K, es[i], b);
    }
    if SomeYields(K, es, b) {
      var i :| 0 <= i < |es| && Yields(K, es[i], b);
      if i < n { assert Yields(K, front[i], b); }
    }
  }

  /** The blocks of a sane map are exactly those its entries yield. */
  lemma {:induction false} ScanYieldsIff(K: Kernel, es: seq<Entry>, b: MemBlk)
    requires Sane(K, es)
    ensures b in Scan(K, es) <==> SomeYields(K, es, b)
    decreases |es|
  {
    if es != [] {
      var n := |es| - 1;
      SanePrefix(K, es, n);
      ScanYieldsIff(K, es[..n], b);
      LastYields(K, es, n, b);
      SomeStep(K, es, n, b);
      hide Scan, SomeYields, Yields, Sane;
    }
  }

  /** Nothing below the kernel, nothing reserved and nothing beyond 32 bits ever becomes a block. */
  lemma ScanStaysAbove(K: Kernel, es: seq<Entry>, b: MemBlk)
    requires Sane(K, es) && b in Scan(K, es)
    ensures b.addr >= K.addr && b.kind != 2 && b.addr + b.sz <= 0xFFFF_FFFF && b.sz > 0
  {
    ScanYieldsIff(K, es, b);
    var i :| 0 <= i < |es| && Yields(K, es[i], b);
    assert es[i].address == K.addr ==> es[i].size > K.size;
  }

  /** The map has an entry that starts with the kernel. */
  ghost predicate HasKernel(K: Kernel, es: seq<Entry>)
  {
    exists i :: 0 <= i < |es| && Eligible(K, es[i]) && es[i].address == K.addr
  }

  /** The free block that memmgr_scan_mmap remembers is a FREE block of its table. */
  lemma {:induction false} FreeIndexNames(K: Kernel, es: seq<Entry>, n: nat)
    requires HasKernel(K, es)
    ensures FreeIndex(K, es, n) < |Scan(K, es)| && Scan(K, es)[FreeIndex(K, es, n)].kind == MEM_FREE
    ensures Scan(K, es)[FreeIndex(K, es, n)].addr == U32(K.addr + K.size)
    decreases |es|
  {
    var k := |es| - 1;
    var e := es[k];
    if Eligible(K, e) && e.address == K.addr {
      assert Images(K, e)[1].kind == MEM_FREE;
    } else {
      var i :| 0 <= i < |es| && Eligible(K, es[i]) && es[i].address == K.addr;
      assert i < k && es[..k][i] == es[i];
      FreeIndexNames(K, es[..k], n);
    }
  }

  lemma FilledSlots(s: Table, n: nat)
    requires |s| <= n
    ensures var t := Filled(s, n);
            |t| == n && (forall k :: 0 <= k < |s| ==> t[k] == s[k]) && forall k :: |s| <= k < n ==> t[k] == NO_MEM
  {
  }

  lemma ScanIsLive(K: Kernel, es: seq<Entry>)
    requires Sane(K, es)
    ensures forall k :: 0 <= k < |Scan(K, es)| ==> Live(Scan(K, es)[k])
  {
    ScanPlaced(K, es);
    forall k | 0 <= k < |Scan(K, es)| ensures Live(Scan(K, es)[k]) { assert Scan(K, es)[k] in Scan(K, es); }
  }

  lemma FilledBytes(s: Table, n: nat)
    requires |s| <= n
    ensures Bytes(Filled(s, n)) == Bytes(s)
  {
    var rest := seq(n - |s|, i => NO_MEM);
    SumAppend(s, rest, LiveSz());
    SumZero(rest, LiveSz());
  }

  lemma KernelFits(K: Kernel, es: seq<Entry>)
    requires Sane(K, es) && HasKernel(K, es)
    ensures K.addr + K.size < WORD
  {
  }

  /** A sane map gives a table of disjoint, bounded blocks with exactly the eligible bytes, and a free block in it. */
  lemma ScannedTable(K: Kernel, es: seq<Entry>, n: nat)
    requires Sane(K, es) && HasKernel(K, es) && |Scan(K, es)| <= n
    ensures var t, f := Filled(Scan(K, es), n), FreeIndex(K, es, n);
      && Disjoint(t) && Bounded(t) && Bytes(t) == SumBy(es, EligibleSz(K))
      && f < |t| && t[f].kind == MEM_FREE && t[f].sz > 0 && t[f].addr == K.addr + K.size
  {
    var s := Scan(K, es);
    ScanDisjoint(K, es);
    ScanPlaced(K, es);
    ScanConserves(K, es);
    FilledBytes(s, n);
    FreeIndexNames(K, es, n);
    hide Scan, FreeIndex, Eligible;
    FilledSlots(s, n);
    KernelFits(K, es);
    forall i | 0 <= i < |s| ensures Placed(s[i], es) { assert s[i] in s; }
  }

  /** The table memmgr_init leaves, when the modules could be mapped. */
  ghost function Booted(K: Kernel, es: seq<Entry>, ms: seq<Module>, n: nat): Table
    requires HasKernel(K, es) && |Scan(K, es)| <= n && MapMods(Filled(Scan(K, es), n), ms).Granted?
  {
    FreeIndexNames(K, es, n);
    var t, f := Filled(Scan(K, es), n), FreeIndex(K, es, n);
    MapMods(t, ms).t[f := Carved(t[f], ms)]
  }

  /** From a sane map and modules in order inside the free block: the booted table has exactly the eligible bytes, and
      its blocks are disjoint if and only if what is left of the free block meets no other block. */
  lemma BootedContract(K: Kernel, es: seq<Entry>, ms: seq<Module>, n: nat)
    requires Sane(K, es) && HasKernel(K, es) && |Scan(K, es)| <= n && MapMods(Filled(Scan(K, es), n), ms).Granted?
    requires var s, f := Scan(K, es), FreeIndex(K, es, n); f < |s| && InOrder(ms, s[f].addr, End(s[f]))
    ensures var s, f, u := Scan(K, es), FreeIndex(K, es, n), Booted(K, es, ms, n);
      && Bytes(u) == SumBy(es, EligibleSz(K))
      && (Disjoint(u) <==> forall k :: 0 <= k < |s| && k != f ==> Apart(s[k], Carved(s[f], ms)))
      && (ms != [] && TileFront(ms, s[f].addr) ==> Disjoint(u))
  {
    var s, f := Scan(K, es), FreeIndex(K, es, n);
    var t := Filled(s, n);
    ScannedTable(K, es, n);
    ScanIsLive(K, es);
    FilledSlots(s, n);
    hide Scan, FreeIndex, MapMods, Carved, TileFront, InOrder, Filled;
    ScanModsContract(t, ms, f);
    if ms != [] && TileFront(ms, s[f].addr) { TilingModsDisjoint(t, ms, f); }
  }
}
