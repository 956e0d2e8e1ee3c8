/** memcpy and memset of string.c, on a flat array of bytes. */
module MemOps {
  import opened Words

  // ---------------------------------------------------------------- memcpy

  /** The bytes after `n` bytes are copied from `src` to `dest` at once. */
  function Move(m: seq<Byte>, dest: nat, src: nat, n: nat): (r: seq<Byte>)
    requires dest + n <= |m| && src + n <= |m|
    ensures |r| == |m|
    ensures forall k :: 0 <= k < |m| ==> r[k] == if dest <= k < dest + n then m[src + (k - dest)] else m[k]
  {
    seq(|m|, k requires 0 <= k < |m| => if dest <= k < dest + n then m[src + (k - dest)] else m[k])
  }

  /** rep movs: `len` bytes forwards, `w` at a time, and a remainder shorter than `w` left alone. */
  function Steps(m: seq<Byte>, dest: nat, src: nat, len: nat, w: nat): (r: seq<Byte>)
    requires dest + len <= |m| && src + len <= |m| && w > 0
    ensures |r| == |m|
    decreases len
  {
    if len < w then m else Steps(Move(m, dest, src, w), dest + w, src + w, len - w, w)
  }

  /** What memcpy leaves: the whole dwords first, then the bytes after them. */
  function Copied(m: seq<Byte>, dest: nat, src: nat, size: nat): seq<Byte>
    requires dest + size <= |m| && src + size <= |m|
  {
    var d := size / 4 * 4;
    Steps(Steps(m, dest, src, d, 4), dest + d, src + d, size - d, 1)
  }

  /** One movsl. */
  method MovDword(mem: array<Byte>, dest: nat, src: nat)
    requires dest + 4 <= mem.Length && src + 4 <= mem.Length
    modifies mem
    ensures mem[..] == Move(old(mem[..]), dest, src, 4)
  {
    var b0, b1, b2, b3 := mem[src], mem[src + 1], mem[src + 2], mem[src + 3];
    mem[dest], mem[dest + 1], mem[dest + 2], mem[dest + 3] := b0, b1, b2, b3;
  }

  /** cld; rep movsl. */
  method RepMovsl(mem: array<Byte>, dest: nat, src: nat, count: nat)
    requires dest + 4 * count <= mem.Length && src + 4 * count <= mem.Length
    modifies mem
    ensures mem[..] == Steps(old(mem[..]), dest, src, 4 * count, 4)
  {
    hide Steps, Move;
    var edi, esi, ecx := dest, src, count;
    while ecx > 0
      invariant edi + 4 * ecx == dest + 4 * count && esi + 4 * ecx == src + 4 * count
      invariant Steps(old(mem[..]), dest, src, 4 * count, 4) == Steps(mem[..], edi, esi, 4 * ecx, 4)
    {
      StepsUnroll(mem[..], edi, esi, 4 * ecx, 4);
      MovDword(mem, edi, esi);
      edi, esi, ecx := edi + 4, esi + 4, ecx - 1;
    }
    StepsUnroll(mem[..], edi, esi, 0, 4);
  }

  /** cld; rep movsb. */
  method RepMovsb(mem: array<Byte>, dest: nat, src: nat, count: nat)
    requires dest + count <= mem.Length && src + count <= mem.Length
    modifies mem
    ensures mem[..] == Steps(old(mem[..]), dest, src, count, 1)
  {
    hide Steps;
    var edi, esi, ecx := dest, src, count;
    while ecx > 0
      invariant edi + ecx == dest + count && esi + ecx == src + count
      invariant Steps(old(mem[..]), dest, src, count, 1) == Steps(mem[..], edi, esi, ecx, 1)
    {
      StepsUnroll(mem[..], edi, esi, ecx, 1);
      ghost var was := mem[..];
      mem[edi] := mem[esi];
      assert mem[..] == Move(was, edi, esi, 1);
      edi, esi, ecx := edi + 1, esi + 1, ecx - 1;
    }
    StepsUnroll(mem[..], edi, esi, 0, 1);
  }

  method MemCpy(mem: array<Byte>, dest: nat, src: nat, size: nat)
    requires dest + size <= mem.Length && src + size <= mem.Length
    modifies mem
    ensures mem[..] == Copied(old(mem[..]), dest, src, size)
  {
    hide Steps;
    var dwords, bytes := size / 4, size % 4;
    RepMovsl(mem, dest, src, dwords);
    RepMovsb(mem, dest + dwords * 4, src + dwords * 4, bytes);
  }

  lemma StepsUnroll(m: seq<Byte>, dest: nat, src: nat, len: nat, w: nat)
    requires dest + len <= |m| && src + len <= |m| && w > 0
    ensures len < w ==> Steps(m, dest, src, len, w) == m
    ensures len >= w ==> Steps(m, dest, src, len, w) == Steps(Move(m, dest, src, w), dest + w, src + w, len - w, w)
  {
  }

  /** Forward copying is copying at once when nothing is read after it was written. */
  lemma {:induction false} StepsMove(m: seq<Byte>, dest: nat, src: nat, len: nat, w: nat)
    requires dest + len <= |m| && src + len <= |m| && (w == 1 || (w == 4 && len % 4 == 0))
    requires dest <= src || src + len <= dest
    ensures Steps(m, dest, src, len, w) == Move(m, dest, src, len)
    decreases len
  {
    StepsUnroll(m, dest, src, len, w);
    if len < w {
      assert Move(m, dest, src, 0) == m;
    } else {
      var n := Move(m, dest, src, w);
      StepsMove(n, dest + w, src + w, len - w, w);
      hide Steps;
      assert Move(n, dest + w, src + w, len - w) == Move(m, dest, src, len);
    }
  }

  /** The overlap memcpy tolerates, whatever the bytes are: moving down, no overlap, or exactly one dword. */
  predicate Tolerated(dest: nat, src: nat, size: nat)
  {
    dest <= src || src + size <= dest || size == 4
  }

  lemma OneDword(m: seq<Byte>, dest: nat, src: nat)
    requires dest + 4 <= |m| && src + 4 <= |m|
    ensures Copied(m, dest, src, 4) == Move(m, dest, src, 4)
  {
    hide Steps, Move;
    var n := Move(m, dest, src, 4);
    StepsUnroll(m, dest, src, 4, 4);
    StepsUnroll(n, dest + 4, src + 4, 0, 4);
    StepsUnroll(n, dest + 4, src + 4, 0, 1);
  }

  lemma ToleratedCopies(m: seq<Byte>, dest: nat, src: nat, size: nat)
    requires dest + size <= |m| && src + size <= |m| && Tolerated(dest, src, size)
    ensures Copied(m, dest, src, size) == Move(m, dest, src, size)
  {
    hide Steps;
    if size == 4 {
      OneDword(m, dest, src);
    } else {
      var d := size / 4 * 4;
      StepsMove(m, dest, src, d, 4);
      StepsMove(Move(m, dest, src, d), dest + d, src + d, size - d, 1);
    }
  }

  /** A byte that no later step writes keeps the value the first steps left there. */
  lemma {:induction false} StepsFrame(m: seq<Byte>, dest: nat, src: nat, len: nat, w: nat, k: nat)
    requires dest + len <= |m| && src + len <= |m| && w > 0 && k < |m| && !(dest <= k < dest + len)
    ensures Steps(m, dest, src, len, w)[k] == m[k]
    decreases len
  {
    if len >= w { StepsFrame(Move(m, dest, src, w), dest + w, src + w, len - w, w, k); }
  }

  /** Memory of zeros with one byte set. */
  function OneSet(n: nat, at: nat): (m: seq<Byte>)
    ensures |m| == n && forall k :: 0 <= k < n ==> m[k] == if k == at then 1 else 0
  {
    seq(n, k => if k == at then 1 else 0)
  }

  /** A byte whose source no step writes is copied from the memory as it was. */
  lemma {:induction false} StepsEarlier(m: seq<Byte>, dest: nat, src: nat, len: nat, w: nat, j: nat)
    requires dest + len <= |m| && src + len <= |m| && (w == 1 || (w == 4 && len % 4 == 0))
    requires j < len && src + j < dest
    ensures Steps(m, dest, src, len, w)[dest + j] == m[src + j]
    decreases len
  {
    hide Steps;
    StepsUnroll(m, dest, src, len, w);
    var n := Move(m, dest, src, w);
    if j < w {
      StepsFrame(n, dest + w, src + w, len - w, w, dest + j);
    } else {
      StepsEarlier(n, dest + w, src + w, len - w, w, j - w);
    }
  }

  /** The first byte that is read after the copy has overwritten it, counted from `src`. */
  function Late(dest: nat, src: nat, size: nat): nat
    requires !Tolerated(dest, src, size)
  {
    if size > 4 && dest - src < 4 then 4 else dest - src
  }

  /** The late byte is copied within the dwords. */
  lemma LateInDwords(m: seq<Byte>, dest: nat, src: nat, len: nat, w: nat, j: nat)
    requires dest + len <= |m| && src + len <= |m| && (w == 1 || (w == 4 && len % 4 == 0))
    requires w <= j < len && dest <= src + j < dest + w && src < dest
    ensures Steps(m, dest, src, len, w)[dest + j] == m[src + j - (dest - src)]
  {
    hide Steps;
    StepsUnroll(m, dest, src, len, w);
    var n := Move(m, dest, src, w);
    StepsEarlier(n, dest + w, src + w, len - w, w, j - w);
    assert n[src + j] == m[src + j - (dest - src)];
  }

  /** The late byte is copied after the dwords, and one of the first dword's bytes is its source. */
  lemma LateInTail(m: seq<Byte>, dest: nat, src: nat, d: nat, j: nat, rest: nat)
    requires dest + d + rest <= |m| && src + d + rest <= |m| && d >= 4 && d % 4 == 0
    requires d <= j < d + rest && dest <= src + j < dest + 4 && src < dest
    ensures Steps(Steps(m, dest, src, d, 4), dest + d, src + d, rest, 1)[dest + j] == m[src + j - (dest - src)]
  {
    hide Steps;
    StepsUnroll(m, dest, src, d, 4);
    var n, s := Move(m, dest, src, 4), Steps(m, dest, src, d, 4);
    StepsFrame(n, dest + 4, src + 4, d - 4, 4, src + j);
    StepsEarlier(s, dest + d, src + d, rest, 1, j - d);
    assert n[src + j] == m[src + j - (dest - src)];
  }

  lemma LateRead(m: seq<Byte>, dest: nat, src: nat, size: nat)
    requires dest + size <= |m| && src + size <= |m| && !Tolerated(dest, src, size)
    ensures var j := Late(dest, src, size);
            0 <= j - (dest - src) < j < size && Copied(m, dest, src, size)[dest + j] == m[src + j - (dest - src)]
  {
    var d, j := size / 4 * 4, Late(dest, src, size);
    hide Steps;
    if size < 4 {
      StepsUnroll(m, dest, src, 0, 4);
      LateInDwords(m, dest, src, size, 1, j);
    } else if j < d {
      LateInDwords(m, dest, src, d, 4, j);
      StepsFrame(Steps(m, dest, src, d, 4), dest + d, src + d, size - d, 1, dest + j);
    } else {
      LateInTail(m, dest, src, d, j, size - d);
    }
  }

  /** memcpy copies at once, whatever the memory holds, if and only if the overlap is tolerated. */
  lemma MemCpyMovesIff(n: nat, dest: nat, src: nat, size: nat)
    requires dest + size <= n && src + size <= n
    ensures (forall m: seq<Byte> | |m| == n :: Copied(m, dest, src, size) == Move(m, dest, src, size))
            <==> Tolerated(dest, src, size)
  {
    hide Copied, Tolerated;
    if Tolerated(dest, src, size) {
      forall m: seq<Byte> | |m| == n ensures Copied(m, dest, src, size) == Move(m, dest, src, size) {
        ToleratedCopies(m, dest, src, size);
      }
    } else {
      var m := OneSet(n, src + Late(dest, src, size));
      LateRead(m, dest, src, size);
      assert Copied(m, dest, src, size) != Move(m, dest, src, size);
    }
  }

  // ---------------------------------------------------------------- memset

  /** Byte `k` of the dword `data` in memory. */
  function ByteOf(data: Word, k: nat): Byte
    requires k < 4
  {
    LE32(data)[k]
  }

  /** What memset stores at offset `k`: the whole dword over and over, then its low byte. */
  function FillByte(data: Word, size: nat, k: nat): Byte
  {
    if k < size / 4 * 4 then ByteOf(data, k % 4) else ByteOf(data, 0)
  }

  function FilledAt(m: seq<Byte>, dest: nat, data: Word, size: nat, k: nat): Byte
    requires k < |m|
  {
    if dest <= k < dest + size then FillByte(data, size, k - dest) else m[k]
  }

  function Filled(m: seq<Byte>, dest: nat, data: Word, size: nat): (r: seq<Byte>)
    requires dest + size <= |m|
    ensures |r| == |m|
    ensures forall k :: 0 <= k < |m| ==> r[k] == FilledAt(m, dest, data, size, k)
  {
    seq(|m|, k requires 0 <= k < |m| => FilledAt(m, dest, data, size, k))
  }

  /** The dword loop and the byte loop of memset. */
  method MemSet(mem: array<Byte>, dest: nat, data: Word, size: nat)
    requires dest + size <= mem.Length
    modifies mem
    ensures mem[..] == Filled(old(mem[..]), dest, data, size)
  {
    hide ByteOf;
    ghost var was := mem[..];
    var dwords, bytes := size / 4, size % 4;
    var edi, ecx := dest, dwords;
    while ecx > 0
      invariant 0 <= ecx <= dwords && edi == dest + 4 * (dwords - ecx)
      invariant forall k :: 0 <= k < mem.Length ==>
        mem[k] == if dest <= k < edi then FillByte(data, size, k - dest) else was[k]
    {
      mem[edi], mem[edi + 1], mem[edi + 2], mem[edi + 3] :=
        ByteOf(data, 0), ByteOf(data, 1), ByteOf(data, 2), ByteOf(data, 3);
      edi, ecx := edi + 4, ecx - 1;
    }
    ecx := bytes;
    while ecx > 0
      invariant 0 <= ecx <= bytes && edi == dest + size - ecx
      invariant forall k :: 0 <= k < mem.Length ==>
        mem[k] == if dest <= k < edi then FillByte(data, size, k - dest) else was[k]
    {
      mem[edi] := ByteOf(data, 0);
      edi, ecx := edi + 1, ecx - 1;
    }
    assert mem[..] == Filled(was, dest, data, size);
  }

  /** Every whole dword of the range reads as the one that was given, and the bytes after them hold its low byte. */
  lemma FilledReads(m: seq<Byte>, dest: nat, data: Word, size: nat, j: nat)
    requires dest + size <= |m| && j < size
    ensures var r := Filled(m, dest, data, size);
      if j + 4 <= size / 4 * 4 && j % 4 == 0 then Rd32(r, dest + j) == data
      else j >= size / 4 * 4 ==> r[dest + j] == data % 0x100
  {
    var r := Filled(m, dest, data, size);
    if j + 4 <= size / 4 * 4 && j % 4 == 0 {
      assert (j + 1) % 4 == 1 && (j + 2) % 4 == 2 && (j + 3) % 4 == 3;
      assert r[dest + j..dest + j + 4] == LE32(data);
      Rd32OfLE32(r, dest + j, data);
    }
  }

  /** memset fills with one byte, as its name promises, if and only if the dword it is given repeats that byte. */
  lemma MemSetFillsIff(data: Word, size: nat)
    ensures var b := ByteOf(data, 0);
            (forall k :: 0 <= k < size ==> FillByte(data, size, k) == b) <==> size < 4 || data == Rd32([b, b, b, b], 0)
  {
    var b := ByteOf(data, 0);
    LE32OfRd32([b, b, b, b]);
    Rd32OfLE32(LE32(data), 0, data);
    hide LE32, Rd32;
    if size >= 4 && forall k :: 0 <= k < size ==> FillByte(data, size, k) == b {
      assert FillByte(data, size, 1) == b && FillByte(data, size, 2) == b && FillByte(data, size, 3) == b;
    }
  }

  /** The dword memset16 passes on. */
  function Twice(c: int): Word
    requires 0 <= c < 0x1_0000
  {
    c * 0x1_0000 + c
  }

  lemma TwiceBytes(c: int)
    requires 0 <= c < 0x1_0000
    ensures ByteOf(Twice(c), 0) == ByteOf(Twice(c), 2) == c % 0x100
    ensures ByteOf(Twice(c), 1) == ByteOf(Twice(c), 3) == c / 0x100
  {
    var lo, hi := c % 0x100, c / 0x100;
    LE32OfRd32([lo, hi, lo, hi]);
    hide LE32;
    assert c == lo + 0x100 * hi;
    assert Twice(c) == Rd32([lo, hi, lo, hi], 0);
  }

  lemma Halves(k: nat, h: nat, b: nat)
    requires k == 2 * h + b && b < 2
    ensures k % 2 == b
  {
  }

  lemma OddOfFour(k: nat, q: nat, m: nat)
    requires k == 4 * q + m && m < 4
    ensures k % 2 == 1 <==> m == 1 || m == 3
  {
    if m < 2 { Halves(k, 2 * q, m); } else { Halves(k, 2 * q + 1, m - 2); }
  }

  lemma TwiceAt(c: int, size: nat, k: nat)
    requires 0 <= c < 0x1_0000
    ensures FillByte(Twice(c), size, k) == if k < size / 4 * 4 && k % 2 == 1 then c / 0x100 else c % 0x100
  {
    hide ByteOf, Twice;
    TwiceBytes(c);
    OddOfFour(k, k / 4, k % 4);
  }

  /** Offset `k` of what memset16 fills holds the byte its pattern has there. */
  predicate PatternAt(c: int, size: nat, k: nat)
    requires 0 <= c < 0x1_0000
  {
    FillByte(Twice(c), size, k) == if k % 2 == 0 then c % 0x100 else c / 0x100
  }

  /** memset16 fills an even number of bytes with the two-byte pattern if and only if they are whole dwords or the
      pattern repeats one byte. */
  lemma MemSet16FillsIff(c: int, size: nat)
    requires 0 <= c < 0x1_0000 && size % 2 == 0
    ensures (forall k :: 0 <= k < size ==> PatternAt(c, size, k)) <==> size % 4 == 0 || c % 0x100 == c / 0x100
  {
    hide FillByte, Twice;
    if size % 4 == 0 || c % 0x100 == c / 0x100 {
      forall k | 0 <= k < size ensures PatternAt(c, size, k) {
        TwiceAt(c, size, k);
      }
    } else {
      TwiceAt(c, size, size - 1);
      assert !PatternAt(c, size, size - 1);
    }
  }

  method MemSet16(mem: array<Byte>, dest: nat, c: int, size: nat)
    requires 0 <= c < 0x1_0000 && dest + size <= mem.Length
    modifies mem
    ensures mem[..] == Filled(old(mem[..]), dest, Twice(c), size)
  {
    MemSet(mem, dest, Twice(c), size);
  }
}
