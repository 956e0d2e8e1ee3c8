/** A firmware map and modules with which memmgr_scan_mods lets the free block run into its neighbour. */
module MemWitness {
  import opened Search
  import opened MemMap

  /** The kernel takes one page of a range of sixteen, and the firmware owns the sixteen pages after it. */
  const K := Kernel(0x10_0000, 0x1000)
  const RAM := Entry(0x1_0000, 0x10_0000, MEM_FREE)
  const ACPI := Entry(0x1_0000, 0x11_0000, 3)

  const KERNEL_BLK := MemBlk(0x10_0000, 0x1000, MEM_KERNEL)
  const FREE_BLK := MemBlk(0x10_1000, 0xF000, MEM_FREE)
  const ACPI_BLK := MemBlk(0x11_0000, 0x1_0000, 3)

  lemma Scanned()
    ensures Scan(K, [RAM, ACPI]) == [KERNEL_BLK, FREE_BLK, ACPI_BLK]
    ensures FreeIndex(K, [RAM, ACPI], MEMBLK_COUNT) == 1 && Sane(K, [RAM, ACPI])
  {
    assert Images(K, RAM) == [KERNEL_BLK, FREE_BLK] && Images(K, ACPI) == [ACPI_BLK];
    assert [RAM, ACPI][..1] == [RAM] && [RAM][..0] == [];
    assert Scan(K, [RAM]) == Images(K, RAM);
    assert FreeIndex(K, [RAM], MEMBLK_COUNT) == 1;
  }

  /** The table the scan leaves for this map. */
  ghost function Booted(): Table { Filled([KERNEL_BLK, FREE_BLK, ACPI_BLK], MEMBLK_COUNT) }

  lemma BootedShape()
    ensures var t := Booted();
      && |t| == MEMBLK_COUNT && t[0] == KERNEL_BLK && t[1] == FREE_BLK && t[2] == ACPI_BLK
      && forall k :: 3 <= k < |t| ==> t[k] == NO_MEM
  {
  }

  /** No module at all, or one that leaves a gap in front of it. */
  predicate Gappy(ms: seq<Module>)
  {
    ms == [] || (|ms| == 1 && FREE_BLK.addr < ms[0].start < ms[0].end <= End(FREE_BLK))
  }

  lemma BootedTakes(ms: seq<Module>)
    requires Gappy(ms)
    ensures MapMods(Booted(), ms).Granted? && InOrder(ms, FREE_BLK.addr, End(FREE_BLK))
  {
    var t := Booted();
    BootedShape();
    hide Booted;
    if ms != [] {
      FirstIs(t, Vacant(), 3);
      assert Map(t, ModuleBlk(ms[0])).Granted?;
      assert ms[1..] == [];
    }
  }

  lemma CarvedRunsOver(ms: seq<Module>)
    requires Gappy(ms)
    ensures !Apart(ACPI_BLK, Carved(FREE_BLK, ms))
  {
    if ms != [] {
      assert ms[..0] == [];
      assert ModulesSz(ms) == ms[0].end - ms[0].start;
    }
  }

  /** The scan leaves disjoint blocks; taking such modules out makes the free block run into the next one. */
  lemma OverhangRun(ms: seq<Module>)
    requires Gappy(ms)
    ensures |Scan(K, [RAM, ACPI])| <= MEMBLK_COUNT
    ensures var t, f := Filled(Scan(K, [RAM, ACPI]), MEMBLK_COUNT), FreeIndex(K, [RAM, ACPI], MEMBLK_COUNT);
      && f < |t| && Disjoint(t) && MapMods(t, ms).Granted?
      && !Disjoint(MapMods(t, ms).t[f := Carved(t[f], ms)])
  {
    Scanned();
    var t := Booted();
    BootedShape();
    BootedTakes(ms);
    CarvedRunsOver(ms);
    hide Booted, Scan, FreeIndex, MapMods, Carved, Gappy, InOrder;
    ScanModsContract(t, ms, 1);
    assert Live(t[2]) && t[2] == ACPI_BLK;
  }
}
