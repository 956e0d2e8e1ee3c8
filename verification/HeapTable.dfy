/** The heap's descriptor table as a value: what each operation of heap.c does to it. */
module HeapTable {
  import opened Words
  import opened Search
  import opened Sums

  const HEAP_ALIGN: Word := 0x1000
  const HEAP_COUNT: nat := 32768

  datatype BlkState = INVALID | FREE | USED

  /** A heap descriptor; `thread` is the owner's address, NULL when there is none. */
  datatype Blk = Blk(addr: Word, sz: Word, state: BlkState, thread: Word)

  const NO_BLK := Blk(0, 0, INVALID, NULL)

  /** The address range the heap manages. */
  datatype Region = Region(base: Word, size: Word)

  type Table = seq<Blk>

  predicate Live(b: Blk) { b.state != INVALID }

  function End(b: Blk): int { b.addr + b.sz }

  // The tests of the table loops, named so that methods and functions share them.
  function ExactFree(sz: Word): Blk -> bool { (b: Blk) => b.sz == sz && b.state == FREE }

  function LargerFree(sz: Word): Blk -> bool { (b: Blk) => b.sz > sz && b.state == FREE }

  function Unused(): Blk -> bool { (b: Blk) => b.state == INVALID }

  function UsedAt(ptr: Word): Blk -> bool { (b: Blk) => b.addr == ptr && b.state == USED }

  /** The test of heap_nearest with both of its comparisons, in 32-bit arithmetic. */
  function NearTo(c: Blk): Blk -> bool
  {
    (b: Blk) => b.state == FREE && (U32(b.addr + b.sz) == c.addr || U32(c.addr - c.sz) == b.addr)
  }

  /** memalign, for an alignment that is a power of two: clears the low bits, then adds one unit if that lost anything;
      wraps at 32 bits. */
  function MemAlign(val: Word, align: Word): Word
    requires align > 0
  {
    var out := val - val % align;
    if out < val then U32(out + align) else out
  }

  /** The result of an operation that may halt the machine, or store through a null descriptor. */
  datatype Req = Granted(t: Table, i: nat) | Halted | NoDescriptor

  predicate Validate(R: Region, b: Blk)
  {
    R.base <= b.addr <= U32(R.base + R.size) && b.sz != 0 && b.state != INVALID
  }

  ghost function Create(R: Region, t: Table, b: Blk): (r: Req)
    ensures r.Granted? ==> |r.t| == |t| && r.i < |t|
  {
    if !Validate(R, b) then Halted
    else
      var k := First(t, Unused());
      if k == |t| then NoDescriptor else Granted(t[k := b], k)
  }

  ghost function Request(R: Region, t: Table, sz: Word): (r: Req)
    ensures r.Granted? ==> |r.t| == |t| && r.i < |t|
  {
    if sz == 0 || sz > R.size then Halted
    else
      var e := First(t, ExactFree(sz));
      if e < |t| then Granted(t[e := t[e].(state := USED)], e)
      else
        var g := First(t, LargerFree(sz));
        if g == |t| then Halted
        else
          var c := Create(R, t, Blk(t[g].addr, sz, USED, NULL));
          if c.Granted? then
            Granted(c.t[g := c.t[g].(addr := U32(c.t[g].addr + sz), sz := U32(c.t[g].sz - sz))], c.i)
          else c
  }

  ghost function Alloc(R: Region, t: Table, sz: Word, owner: Word): (r: Req)
    ensures r.Granted? ==> |r.t| == |t| && r.i < |t|
  {
    var r := Request(R, t, MemAlign(sz, HEAP_ALIGN));
    if r.Granted? then Granted(r.t[r.i := r.t[r.i].(thread := owner)], r.i) else r
  }

  ghost function Free(R: Region, t: Table, ptr: Word): (r: Req)
    ensures r.Granted? ==> |r.t| == |t| && r.i < |t|
  {
    if ptr == NULL || ptr < R.base || ptr > U32(R.base + R.size) then Halted
    else
      var i := First(t, UsedAt(ptr));
      if i == |t| then Halted else Granted(t[i := t[i].(state := FREE)], i)
  }

  predicate OwnerGone(b: Blk, tasks: set<Word>)
  {
    b.state == USED && b.sz != 0 && (b.thread == NULL || b.thread !in tasks)
  }

  /** The dead-owner sweep from slot `i` on; every release goes through the address. */
  ghost function Sweep(R: Region, t: Table, tasks: set<Word>, i: nat): (r: Req)
    requires i <= |t|
    ensures r.Granted? ==> |r.t| == |t|
    decreases |t| - i
  {
    if i == |t| then Granted(t, i)
    else if OwnerGone(t[i], tasks) then
      var f := Free(R, t, t[i].addr);
      if f.Granted? then Sweep(R, f.t, tasks, i + 1) else f
    else Sweep(R, t, tasks, i + 1)
  }

  ghost function Nearest(t: Table, b: Blk): (j: nat)
    ensures j <= |t|
  {
    First(t, NearTo(b))
  }

  /** heap_merge: the second descriptor is absorbed by the first. */
  function Merge(t: Table, i: nat, j: nat): (r: Table)
    requires i < |t| && j < |t|
    ensures |r| == |t|
  {
    var low := if t[i].addr > t[j].addr then t[j].addr else t[i].addr;
    t[i := t[i].(addr := low, sz := U32(t[i].sz + t[j].sz))][j := NO_BLK]
  }

  /** One step of heap_collect: merge slot `i` with its nearest FREE block, if it has one. */
  ghost function MergeNearest(t: Table, i: nat): (r: (Table, nat))
    requires i < |t|
    ensures |r.0| == |t|
  {
    var j := Nearest(t, t[i]);
    if j == |t| then (t, 0) else (Merge(t, i, j), 1)
  }

  ghost function LoopStep(t: Table, i: nat): (r: (Table, nat))
    requires i < |t|
    ensures |r.0| == |t|
  {
    if t[i].state != FREE then (t, 0) else MergeNearest(t, i)
  }

  /** The loop of heap_collect from slot `i` on, with the number of merges it makes. */
  ghost function CollectLoop(t: Table, i: nat): (r: (Table, nat))
    requires i <= |t|
    ensures |r.0| == |t|
    decreases |t| - i
  {
    if i == |t| then (t, 0)
    else
      var s := LoopStep(t, i);
      var r := CollectLoop(s.0, i + 1);
      (r.0, s.1 + r.1)
  }

  lemma Unroll(t: Table, i: nat)
    requires i <= |t|
    ensures i == |t| ==> CollectLoop(t, i) == (t, 0)
    ensures i < |t| ==> CollectLoop(t, i).0 == CollectLoop(LoopStep(t, i).0, i + 1).0
    ensures i < |t| ==> CollectLoop(t, i).1 == LoopStep(t, i).1 + CollectLoop(LoopStep(t, i).0, i + 1).1
  {
  }

  /** heap_collect: the loop, then slot 0 once more whatever its state. */
  ghost function Collect(t: Table): (r: (Table, nat))
    requires |t| > 0
    ensures |r.0| == |t|
  {
    var s := CollectLoop(t, 0);
    var m := MergeNearest(s.0, 0);
    (m.0, s.1 + m.1)
  }

  // Weights for the three amounts the heap reports.
  function FreeSz(): Blk -> nat { (b: Blk) => if b.state == FREE then b.sz else 0 }

  function UsedSz(): Blk -> nat { (b: Blk) => if b.state == USED then b.sz else 0 }

  function LiveSz(): Blk -> nat { (b: Blk) => if Live(b) then b.sz else 0 }

  function LiveOne(): Blk -> nat { (b: Blk) => if Live(b) then 1 else 0 }

  function LiveCount(t: Table): nat { SumBy(t, LiveOne()) }
}
