/** The physical memory manager: the static block table of memmgr.c and the loops over it. */
module MemMgr {
  import opened Words
  import opened Search
  import opened Sums
  import opened MemMap
  import opened MemBoot

  /** Blocks the table can take: none empty or without a type, and not too many. */
  ghost predicate Mappable(s: Table)
  {
    Sized(s) && |s| <= MEMBLK_COUNT
  }

  /** Entries before `p` were handled, the others are as the firmware left them. */
  ghost predicate SpentUpTo(K: Kernel, E: seq<Entry>, c: seq<Entry>, p: nat)
  {
    |c| == |E| && forall k :: 0 <= k < |E| ==> c[k] == if k < p then Spent(K, E[k]) else E[k]
  }

  lemma ScanNothing(K: Kernel, E: seq<Entry>)
    ensures Scan(K, E[..0]) == [] && Mappable([]) && FreeIndex(K, E[..0], MEMBLK_COUNT) == MEMBLK_COUNT
    ensures SpentUpTo(K, E, E, 0)
  {
  }

  lemma SpentStep(K: Kernel, E: seq<Entry>, c: seq<Entry>, p: nat, i: nat)
    requires SpentUpTo(K, E, c, p) && i <= p && i < |E|
    ensures i < p ==> !Eligible(K, c[i])
    ensures i == p ==> c[i] == E[p]
    ensures i == p && !Eligible(K, E[p]) ==> SpentUpTo(K, E, c, p + 1)
    ensures i == p && Eligible(K, E[p]) ==> SpentUpTo(K, E, c[i := NO_ENTRY], p + 1)
  {
  }

  class Manager {
    const blks: array<MemBlk>
    var count: Word
    var fblk: nat

    /** The counter agrees with the table. */
    ghost predicate Valid()
      reads this, blks
    {
      blks.Length == MEMBLK_COUNT && Cleared(blks[..]) && count == LiveCount(blks[..])
    }

    /** The table before the scan: all unused. */
    constructor ()
      ensures Valid() && fresh(blks) && blks[..] == Filled([], MEMBLK_COUNT) && fblk == MEMBLK_COUNT
      ensures blks.Length == 2048
    {
      blks := new MemBlk[MEMBLK_COUNT](i => NO_MEM);
      count, fblk := 0, MEMBLK_COUNT;
      new;
      SumZero(blks[..], LiveOne());
      assert blks[..] == Filled([], MEMBLK_COUNT);
    }

    method MapBlk(addr: Word, sz: Word, kind: Word) returns (halted: bool, i: nat)
      requires Valid()
      modifies this`count, blks
      ensures Valid()
      ensures Map(old(blks[..]), MemBlk(addr, sz, kind)) == if halted then Halted else Granted(blks[..], i)
      ensures halted ==> blks[..] == old(blks[..])
    {
      ghost var t, b := blks[..], MemBlk(addr, sz, kind);
      i := 0;
      if sz == 0 || kind == MEM_INVALID { return true, 0; }
      while i < blks.Length
        invariant i <= blks.Length && forall k :: 0 <= k < i ==> !Vacant()(blks[k])
      {
        if blks[i].kind == MEM_INVALID {
          FirstIs(t, Vacant(), i);
          MapContract(t, b);
          CountFits(Map(t, b).t);
          blks[i] := MemBlk(addr, sz, kind);
          count := U32(count + 1);
          return false, i;
        }
        i := i + 1;
      }
      FirstIs(t, Vacant(), i);
      halted := true;
    }

    /** memmgr_unmap: the first slot with this content, which for an unused one breaks the counter. */
    method UnmapBlk(b: MemBlk) returns (halted: bool)
      requires Valid()
      modifies this`count, blks
      ensures halted == Unmap(old(blks[..]), b).Halted?
      ensures blks[..] == if halted then old(blks[..]) else Unmap(old(blks[..]), b).t
      ensures count == if halted then old(count) else U32(old(count) - 1)
      ensures !halted ==> (Valid() <==> b.kind != MEM_INVALID)
    {
      ghost var t := blks[..];
      var i := 0;
      while i < blks.Length
        invariant i <= blks.Length && forall k :: 0 <= k < i ==> !SameAs(b)(blks[k])
      {
        if blks[i] == b {
          FirstIs(t, SameAs(b), i);
          UnmapCountsIff(t, b);
          CountFits(Unmap(t, b).t);
          CountFits(t);
          count := U32(count - 1);
          blks[i] := NO_MEM;
          assert blks[..] == Unmap(t, b).t;
          return false;
        }
        i := i + 1;
      }
      FirstIs(t, SameAs(b), i);
      halted := true;
    }

    /** A mapped block's range changes in place. */
    method Resize(g: nat, addr: Word, sz: Word)
      requires Valid() && g < blks.Length && Live(blks[g])
      modifies blks
      ensures Valid() && blks[..] == old(blks[..])[g := old(blks[g]).(addr := addr, sz := sz)]
    {
      ghost var t := blks[..];
      SumUpdate(t, LiveOne(), g, t[g].(addr := addr, sz := sz));
      blks[g] := blks[g].(addr := addr, sz := sz);
      assert blks[..] == t[g := t[g].(addr := addr, sz := sz)];
    }

    method AllocBlk(sz: Word, kind: Word) returns (halted: bool, i: nat)
      requires Valid()
      modifies this`count, blks
      ensures Valid()
      ensures Alloc(old(blks[..]), sz, kind) == if halted then Halted else Granted(blks[..], i)
      ensures halted ==> blks[..] == old(blks[..])
    {
      ghost var t := blks[..];
      i := 0;
      if sz == 0 { return true, 0; }
      if kind == MEM_INVALID || kind == MEM_FREE { return true, 0; }
      while i < blks.Length
        invariant i <= blks.Length && forall k :: 0 <= k < i ==> !FreeFor(sz)(blks[k])
      {
        if blks[i].kind == MEM_FREE && blks[i].sz >= sz { break; }
        i := i + 1;
      }
      FirstIs(t, FreeFor(sz), i);
      if i == blks.Length { return true, 0; }
      if blks[i].sz > sz {
        var g := i;
        halted, i := MapBlk(blks[g].addr, sz, kind);
        if halted { return true, 0; }
        Resize(g, U32(blks[g].addr + sz), U32(blks[g].sz - sz));
      } else {
        SumUpdate(t, LiveOne(), i, t[i].(kind := kind));
        blks[i] := blks[i].(kind := kind);
        assert blks[..] == t[i := t[i].(kind := kind)];
      }
      halted := false;
    }

    method FirstOf(kind: Word, minsz: Word) returns (i: nat)
      ensures i == First(blks[..], (b: MemBlk) => b.kind == kind && b.sz >= minsz)
    {
      ghost var p := (b: MemBlk) => b.kind == kind && b.sz >= minsz;
      i := 0;
      while i < blks.Length
        invariant i <= blks.Length && forall k :: 0 <= k < i ==> !p(blks[k])
      {
        if blks[i].kind == kind && blks[i].sz >= minsz { break; }
        i := i + 1;
      }
      FirstIs(blks[..], p, i);
    }

    /** What one eligible entry of the firmware map adds to a table filled with `s`. */
    method MapEntry(K: Kernel, e: Entry, ghost s: Table) returns (halted: bool, k: nat)
      requires Valid() && Mappable(s) && blks[..] == Filled(s, MEMBLK_COUNT) && Eligible(K, e)
      modifies this`count, blks
      ensures Valid() && (halted <==> !Mappable(s + Images(K, e)))
      ensures !halted ==> blks[..] == Filled(s + Images(K, e), MEMBLK_COUNT)
      ensures !halted && e.address == K.addr ==> k == |s| + 1
    {
      ghost var im := Images(K, e);
      FilledMap(s, MEMBLK_COUNT, im[0]);
      if e.address == K.addr {
        halted, k := MapBlk(K.addr, K.size, MEM_KERNEL);
        assert (s + im)[|s|] == im[0] && (s + im)[|s| + 1] == im[1];
        if halted { return; }
        FilledMap(s + [im[0]], MEMBLK_COUNT, im[1]);
        assert s + im == s + [im[0]] + [im[1]];
        halted, k := MapBlk(U32(K.addr + K.size), U32(U32(e.size) - K.size), MEM_FREE);
      } else {
        assert (s + im)[|s|] == im[0];
        halted, k := MapBlk(U32(e.address), U32(e.size), e.kind);
      }
    }

    /** memmgr_scan_mmap: maps the firmware's entries, starting over after the kernel's. */
    method ScanMmap(K: Kernel, es: array<Entry>) returns (halted: bool)
      requires Valid() && blks[..] == Filled([], MEMBLK_COUNT) && fblk == MEMBLK_COUNT
      modifies this, blks, es
      ensures Valid() && (halted <==> !Mappable(Scan(K, old(es[..]))))
      ensures !halted ==> blks[..] == Filled(Scan(K, old(es[..])), MEMBLK_COUNT)
      ensures !halted ==> fblk == FreeIndex(K, old(es[..]), MEMBLK_COUNT)
      ensures !halted ==> SpentUpTo(K, old(es[..]), es[..], es.Length)
    {
      ghost var E, p := es[..], 0;
      ScanNothing(K, E);
      hide Images, Filled, Scan, FreeIndex, Eligible, SpentUpTo, Mappable;
      var i := 0;
      while i < es.Length
        invariant 0 <= i <= p <= |E| == es.Length && Valid()
        invariant Mappable(Scan(K, E[..p])) && blks[..] == Filled(Scan(K, E[..p]), MEMBLK_COUNT)
        invariant fblk == FreeIndex(K, E[..p], MEMBLK_COUNT)
        invariant SpentUpTo(K, E, es[..], p)
        decreases es.Length - p, es.Length - i
      {
        ghost var c := es[..];
        SpentStep(K, E, c, p, i);
        if i == p { ScanNext(K, E, p); }
        if !Eligible(K, es[i]) {
          if i == p { p := p + 1; }
          i := i + 1;
        } else {
          assert i == p;
          var m, k := MapEntry(K, es[i], Scan(K, E[..p]));
          if m { return true; }
          var kernel := es[i].address == K.addr;
          es[i] := NO_ENTRY;
          assert es[..] == c[i := NO_ENTRY];
          p := p + 1;
          if kernel {
            fblk := k;
            i := 0;
          } else {
            i := i + 1;
          }
        }
      }
      assert E[..p] == E;
      halted := false;
    }

    /** memmgr_scan_mods: carves the modules out of the free block left by the kernel's entry. */
    method ScanMods(ms: seq<Module>) returns (halted: bool)
      requires Valid() && fblk < blks.Length && Live(blks[fblk])
      modifies this`count, blks
      ensures Valid()
      ensures halted == MapMods(old(blks[..]), ms).Halted?
      ensures !halted ==> blks[..] == MapMods(old(blks[..]), ms).t[fblk := Carved(old(blks[fblk]), ms)]
    {
      ghost var t, f := blks[..], fblk;
      var end := U32(blks[fblk].addr + blks[fblk].sz);
      var sz: Word := 0;
      var i := 0;
      ModsStart(t, ms, f);
      hide Map, MapMods, ModsUpTo, Valid, U32, Carved;
      while i < |ms|
        invariant i <= |ms| && Valid() && |blks[..]| == MEMBLK_COUNT
        invariant ModsUpTo(t, ms, f, i, blks[..], end, sz)
      {
        ModsStep(t, ms, f, i, blks[..], end, sz);
        sz := U32(sz + (ms[i].end - ms[i].start));
        var m, k := MapBlk(ms[i].start, U32(ms[i].end - ms[i].start), MEM_MODULE);
        if m { return true; }
        end := ms[i].end;
        i := i + 1;
      }
      ModsDone(t, ms, f, blks[..], end, sz);
      Resize(fblk, end, U32(blks[fblk].sz - sz));
      halted := false;
    }
  }

  /** memmgr_init, for a map with an entry that starts with the kernel. */
  method Init(K: Kernel, es: array<Entry>, ms: seq<Module>) returns (m: Manager, halted: bool)
    requires HasKernel(K, es[..])
    modifies es
    ensures fresh(m) && m.Valid()
    ensures halted <==> !Mappable(Scan(K, old(es[..])))
                        || MapMods(Filled(Scan(K, old(es[..])), MEMBLK_COUNT), ms).Halted?
    ensures !halted ==> m.blks[..] == Booted(K, old(es[..]), ms, MEMBLK_COUNT)
  {
    ghost var E := es[..];
    FreeIndexNames(K, E, MEMBLK_COUNT);
    hide Scan, FreeIndex, MapMods, Carved, HasKernel;
    m := new Manager();
    halted := m.ScanMmap(K, es);
    if halted { return; }
    FilledSlots(Scan(K, E), MEMBLK_COUNT);
    halted := m.ScanMods(ms);
  }

  /** The module loop after `i` turns: what is left to map, where the last module ended, the bytes taken. */
  ghost predicate ModsUpTo(t: Table, ms: seq<Module>, f: nat, i: nat, u: Table, end: Word, sz: Word)
  {
    && f < |t| == |u| && i <= |ms| && Live(t[f]) && u[f] == t[f]
    && MapMods(t, ms) == MapMods(u, ms[i..])
    && end == LastEnd(ms[..i], U32(t[f].addr + t[f].sz)) && sz == U32(ModulesSz(ms[..i]))
  }

  lemma ModsStart(t: Table, ms: seq<Module>, f: nat)
    requires f < |t| && Live(t[f])
    ensures ModsUpTo(t, ms, f, 0, t, U32(t[f].addr + t[f].sz), 0)
  {
    assert ms[0..] == ms && ms[..0] == [];
  }

  lemma ModsStep(t: Table, ms: seq<Module>, f: nat, i: nat, u: Table, end: Word, sz: Word)
    requires ModsUpTo(t, ms, f, i, u, end, sz) && i < |ms|
    ensures var m := Map(u, MemBlk(ms[i].start, U32(ms[i].end - ms[i].start), MEM_MODULE));
      if m.Halted? then MapMods(t, ms).Halted?
      else ModsUpTo(t, ms, f, i + 1, m.t, ms[i].end, U32(sz + (ms[i].end - ms[i].start)))
  {
    assert ms[i..][1..] == ms[i + 1..] && ms[..i + 1][..i] == ms[..i];
    U32Early(ModulesSz(ms[..i]), ms[i].end - ms[i].start);
    var k := First(u, Vacant());
    assert k < |u| ==> Vacant()(u[k]);
  }

  lemma CarvedIs(b: MemBlk, ms: seq<Module>, end: Word, sz: Word)
    requires end == LastEnd(ms, U32(b.addr + b.sz)) && sz == U32(ModulesSz(ms))
    ensures b.(addr := end, sz := U32(b.sz - sz)) == Carved(b, ms)
  {
    U32Early(ModulesSz(ms), b.sz);
    hide U32, ModulesSz, LastEnd;
  }

  lemma ModsDone(t: Table, ms: seq<Module>, f: nat, u: Table, end: Word, sz: Word)
    requires ModsUpTo(t, ms, f, |ms|, u, end, sz)
    ensures f < |t| == |u| && Live(u[f]) && MapMods(t, ms) == Granted(u, 0)
    ensures u[f].(addr := end, sz := U32(u[f].sz - sz)) == Carved(t[f], ms)
  {
    hide ModulesSz, LastEnd, U32, Carved, MapMods;
    assert ms[..|ms|] == ms && ms[|ms|..] == [];
    NoneLeft(u);
    CarvedIs(t[f], ms, end, sz);
  }

  lemma NoneLeft(u: Table)
    ensures MapMods(u, []) == Granted(u, 0)
  {
  }

  lemma {:induction false} ScanGrows(K: Kernel, es: seq<Entry>, n: nat)
    requires n <= |es|
    ensures Scan(K, es[..n]) <= Scan(K, es)
    decreases |es|
  {
    if n == |es| {
      assert es[..n] == es;
    } else {
      var m := |es| - 1;
      ScanGrows(K, es[..m], n);
      assert es[..m][..n] == es[..n];
    }
  }

  /** One turn of the scan adds the images of one entry; what cannot be mapped then cannot be mapped later. */
  lemma ScanNext(K: Kernel, es: seq<Entry>, p: nat)
    requires p < |es|
    ensures Scan(K, es[..p + 1]) == Scan(K, es[..p]) + Images(K, es[p])
    ensures !Eligible(K, es[p]) ==> Scan(K, es[..p + 1]) == Scan(K, es[..p])
    ensures Mappable(Scan(K, es)) ==> Mappable(Scan(K, es[..p + 1]))
    ensures FreeIndex(K, es[..p + 1], MEMBLK_COUNT) == if Eligible(K, es[p]) && es[p].address == K.addr
      then |Scan(K, es[..p])| + 1 else FreeIndex(K, es[..p], MEMBLK_COUNT)
  {
    assert es[..p + 1][..p] == es[..p];
    ScanGrows(K, es, p + 1);
  }

  lemma {:induction false} CountBelow(t: Table)
    ensures LiveCount(t) <= |t|
  {
    if t != [] { CountBelow(t[1..]); }
  }

  lemma CountFits(t: Table)
    requires |t| == MEMBLK_COUNT
    ensures LiveCount(t) < WORD
  {
    CountBelow(t);
  }
}
