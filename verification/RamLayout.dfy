/** The image format byte by byte: where RAMFS.cs puts every field, and where ramfs.h has the kernel look for it. */
module RamLayout {
  import opened Words
  import opened RamImage

  /** A word lies low byte first. */
  lemma WordBytes(d: seq<Byte>, at: nat)
    requires at + 4 <= |d|
    ensures d[at] == Rd32(d, at) % 0x100 && d[at + 1] == Rd32(d, at) / 0x100 % 0x100
    ensures d[at + 2] == Rd32(d, at) / 0x1_0000 % 0x100 && d[at + 3] == Rd32(d, at) / 0x100_0000
  {
    var w := Rd32(d, at);
    var x2: int := d[at + 2] as int + 0x100 * d[at + 3] as int;
    var x1: int := d[at + 1] as int + 0x100 * x2;
    assert w == d[at] as int + 0x100 * x1;
    assert w / 0x100 == x1 && x1 / 0x100 == x2;
    assert w / 0x1_0000 == x2 && w / 0x100_0000 == d[at + 3];
  }

  /** Four bytes are the bytes of a word if and only if they read as that word. */
  lemma WordIsIff(d: seq<Byte>, at: nat, x: Word)
    requires at + 4 <= |d|
    ensures d[at..at + 4] == LE32(x) <==> Rd32(d, at) == x
  {
    var r := d[at..at + 4];
    if r == LE32(x) { Rd32OfLE32(d, at, x); }
    LE32OfRd32(r);
    assert Rd32(r, 0) == Rd32(d, at);
  }

  /** The header's seven words, each in its place. */
  ghost predicate HeaderWords(d: seq<Byte>, h: Header)
    requires |d| >= 28
  {
    && Rd32(d, 0) == h.tableOffset && Rd32(d, 4) == h.tableSize
    && Rd32(d, 8) == h.dataOffset && Rd32(d, 12) == h.dataSize && Rd32(d, 16) == h.dataPosition
    && Rd32(d, 20) == h.count && Rd32(d, 24) == h.countMax
  }

  /** Seven slices of four make up the front. */
  lemma SevenSlices(d: seq<Byte>, w: seq<Byte>)
    requires |d| >= 28 && |w| == 28
    ensures d[..28] == w <==>
      && d[0..4] == w[0..4] && d[4..8] == w[4..8] && d[8..12] == w[8..12] && d[12..16] == w[12..16]
      && d[16..20] == w[16..20] && d[20..24] == w[20..24] && d[24..28] == w[24..28]
  {
    assert d[..28] == d[0..4] + d[4..8] + d[8..12] + d[12..16] + d[16..20] + d[20..24] + d[24..28];
    assert w == w[0..4] + w[4..8] + w[8..12] + w[12..16] + w[16..20] + w[20..24] + w[24..28];
    if d[..28] == w {
      assert d[0..28] == w;
      SubSlice(d, 0, 28, 0, 4);
      SubSlice(d, 0, 28, 4, 8);
      SubSlice(d, 0, 28, 8, 12);
      SubSlice(d, 0, 28, 12, 16);
      SubSlice(d, 0, 28, 16, 20);
      SubSlice(d, 0, 28, 20, 24);
      SubSlice(d, 0, 28, 24, 28);
    }
  }

  /** An image starts with the bytes of a header if and only if it has the header's words. */
  lemma HeaderBytesIff(d: seq<Byte>, h: Header)
    requires |d| >= 28
    ensures d[..28] == h.Write() <==> HeaderWords(d, h)
  {
    var w := h.Write();
    SevenSlices(d, w);
    assert w[0..4] == LE32(h.tableOffset) && w[4..8] == LE32(h.tableSize) && w[8..12] == LE32(h.dataOffset);
    assert w[12..16] == LE32(h.dataSize) && w[16..20] == LE32(h.dataPosition);
    assert w[20..24] == LE32(h.count) && w[24..28] == LE32(h.countMax);
    hide Header.Write, Rd32, LE32;
    WordIsIff(d, 0, h.tableOffset);
    WordIsIff(d, 4, h.tableSize);
    WordIsIff(d, 8, h.dataOffset);
    WordIsIff(d, 12, h.dataSize);
    WordIsIff(d, 16, h.dataPosition);
    WordIsIff(d, 20, h.count);
    WordIsIff(d, 24, h.countMax);
  }

  /** An entry's fields: 64 characters of name, a flag byte, the offset and the size. */
  ghost predicate EntryFields(d: seq<Byte>, at: nat, f: RamFile)
    requires at + 73 <= |d|
  {
    && d[at..at + 64] == f.name && d[at + 64] == (if f.hidden then 1 else 0)
    && Rd32(d, at + 65) == f.offset && Rd32(d, at + 69) == f.size
  }

  lemma EntryBytesIff(d: seq<Byte>, at: nat, f: RamFile)
    requires at + 73 <= |d| && |f.name| == 64
    ensures d[at..at + 73] == f.Write() <==> EntryFields(d, at, f)
  {
    var e, w := d[at..at + 73], f.Write();
    assert w[..64] == f.name && w[64] == (if f.hidden then 1 else 0);
    assert w[65..69] == LE32(f.offset) && w[69..73] == LE32(f.size);
    hide RamFile.Write, LE32, Rd32;
    SubSlice(d, at, 73, 0, 64);
    SubSlice(d, at, 73, 65, 69);
    SubSlice(d, at, 73, 69, 73);
    assert e[64] == d[at + 64];
    assert e == e[0..64] + [e[64]] + e[65..69] + e[69..73] && w == w[..64] + [w[64]] + w[65..69] + w[69..73];
    WordIsIff(d, at + 65, f.offset);
    WordIsIff(d, at + 69, f.size);
  }

  /** File `i` in the image: its entry 28 + 73 * i bytes from the front, with the name zero-padded to 64 characters, and
      its data at the offset the entry names, counted from the end of the table. */
  ghost predicate FileLaid(s: Shape, fs: seq<File>, d: seq<Byte>, i: nat)
    requires i < |fs|
  {
    var at, f := 28 + 73 * i, fs[i];
    && at + 73 <= |d| && at + 73 <= 28 + 73 * s.max
    && (forall k :: 0 <= k < 64 ==> d[at + k] == if k < |f.name| then f.name[k] else 0)
    && d[at + 64] == (if f.hidden then 1 else 0)
    && Rd32(d, at + 65) == DataSize(fs[..i]) && Rd32(d, at + 69) == |f.data|
    && var pos := 28 + 73 * s.max + Rd32(d, at + 65);
       pos + |f.data| <= |d| && d[pos..pos + |f.data|] == f.data
  }

  /** Entry `i` has no name. */
  ghost predicate Unnamed(d: seq<Byte>, i: nat) { 28 + 73 * i < |d| && d[28 + 73 * i] == 0 }

  /** The whole image in numbers. */
  ghost predicate Laid(s: Shape, fs: seq<File>, d: seq<Byte>)
  {
    && |d| == 73 * s.max + s.sz && |d| >= 28
    && Rd32(d, 0) == 28 && Rd32(d, 4) == 73 * s.max
    && Rd32(d, 8) == 28 + 73 * s.max && Rd32(d, 12) == s.sz && Rd32(d, 16) == DataSize(fs)
    && Rd32(d, 20) == |fs| && Rd32(d, 24) == s.max
    && (forall i :: 0 <= i < |fs| ==> FileLaid(s, fs, d, i))
    && (forall i :: |fs| <= i < s.max ==> Unnamed(d, i))
  }

  lemma PaddedIff(name: seq<Code>, n: seq<Byte>)
    requires |name| < 64 && |n| == 64
    ensures n == PadName(name) <==> forall k :: 0 <= k < 64 ==> n[k] == if k < |name| then name[k] else 0
  {
    var p := PadName(name);
    assert forall k :: 0 <= k < 64 ==> p[k] == if k < |name| then name[k] else 0;
  }

  /** The entry of file `i` in numbers. */
  lemma EntryIs(s: Shape, fs: seq<File>, d: seq<Byte>, i: nat)
    requires Fits(s, fs) && i < |fs| && 28 + 73 * i + 73 <= |d|
    ensures DataSize(fs[..i]) < WORD && |fs[i].data| < WORD
    ensures var at, f := 28 + 73 * i, fs[i];
      d[at..at + 73] == EntryOf(fs, i).Write() <==>
        && (forall k :: 0 <= k < 64 ==> d[at + k] == if k < |f.name| then f.name[k] else 0)
        && d[at + 64] == (if f.hidden then 1 else 0)
        && Rd32(d, at + 65) == DataSize(fs[..i]) && Rd32(d, at + 69) == |f.data|
  {
    var at, n := 28 + 73 * i, fs[i].name;
    PrefixFits(fs, i);
    hide DataSize, PadName, RamFile.Write, Rd32;
    EntryBytesIff(d, at, EntryOf(fs, i));
    var field := d[at..at + 64];
    PaddedIff(n, field);
    if forall k :: 0 <= k < 64 ==> d[at + k] == if k < |n| then n[k] else 0 {
      assert forall k :: 0 <= k < 64 ==> field[k] == if k < |n| then n[k] else 0;
    }
    if forall k :: 0 <= k < 64 ==> field[k] == if k < |n| then n[k] else 0 {
      forall k | 0 <= k < 64 ensures d[at + k] == if k < |n| then n[k] else 0 { assert field[k] == d[at + k]; }
    }
  }

  lemma FileLaidIff(s: Shape, fs: seq<File>, d: seq<Byte>, i: nat)
    requires Fits(s, fs) && i < |fs| && |d| == s.max * ENTRY_SZ + s.sz
    ensures EntryHolds(s, fs, d, i) <==> FileLaid(s, fs, d, i)
  {
    PrefixFits(fs, i);
    assert 28 + 73 * i + 73 <= 28 + 73 * s.max <= |d|;
    EntryIs(s, fs, d, i);
    DataRoom(s, fs, i);
    hide DataSize, EntryOf, RamFile.Write, Rd32, Fits, PadName;
  }

  lemma DataRoom(s: Shape, fs: seq<File>, i: nat)
    requires Fits(s, fs) && i < |fs|
    ensures 28 + 73 * s.max + DataSize(fs[..i]) == DataPos(s, fs[..i])
    ensures DataPos(s, fs[..i]) + |fs[i].data| <= s.max * ENTRY_SZ + s.sz
  {
    PrefixFits(fs, i);
    hide DataSize;
  }

  /** An image holds these files if and only if every byte of header, table and data is in its place. */
  lemma RepresentsIff(s: Shape, fs: seq<File>, d: seq<Byte>)
    requires Fits(s, fs)
    ensures Represents(s, fs, d) <==> Laid(s, fs, d)
  {
    if |d| == s.max * ENTRY_SZ + s.sz {
      HeaderBytesIff(d, HeaderOf(s, fs));
      hide FileLaid, EntryHolds, DataSize, Header.Write, Rd32;
      forall i | 0 <= i < |fs| ensures EntryHolds(s, fs, d, i) <==> FileLaid(s, fs, d, i) {
        FileLaidIff(s, fs, d, i);
      }
      forall i | |fs| <= i < s.max ensures Unnamed(d, i) <==> d[TableAt(i)] == 0 {}
    }
  }

  /** The offset field of entry `i`. */
  ghost function OffsetAt(d: seq<Byte>, i: nat): int
    requires 28 + 73 * i + 73 <= |d|
  {
    Rd32(d, 28 + 73 * i + 65)
  }

  /** File data lies end to end, from the end of the table on, and the header says where it ends. */
  lemma DataFollows(s: Shape, fs: seq<File>, d: seq<Byte>, i: nat)
    requires Represents(s, fs, d) && i < |fs|
    ensures 28 + 73 * i + 73 <= |d| && (i == 0 ==> OffsetAt(d, 0) == 0)
    ensures var next := OffsetAt(d, i) + |fs[i].data|;
      if i + 1 < |fs| then 28 + 73 * (i + 1) + 73 <= |d| && OffsetAt(d, i + 1) == next else Rd32(d, 16) == next
  {
    RepresentsIff(s, fs, d);
    hide Represents, Fits, Rd32;
    assert FileLaid(s, fs, d, i);
    if i + 1 < |fs| { assert FileLaid(s, fs, d, i + 1); }
    DataStep(fs, i);
  }

  lemma DataStep(fs: seq<File>, i: nat)
    requires i < |fs|
    ensures (i == 0 ==> DataSize(fs[..i]) == 0) && DataSize(fs[..i + 1]) == DataSize(fs[..i]) + |fs[i].data|
    ensures i + 1 == |fs| ==> DataSize(fs[..i + 1]) == DataSize(fs)
  {
    assert fs[..i + 1][..i] == fs[..i];
    if i + 1 == |fs| { assert fs[..i + 1] == fs; }
  }
}
