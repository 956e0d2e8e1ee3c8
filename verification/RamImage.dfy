/** The RAM disk image: a 28-byte header, a table of 73-byte entries, then file data; all little-endian. */
module RamImage {
  import opened Words
  import opened Search
  import opened CStrings

  /** An ASCII code. */
  type Code = x: int | 0 <= x < 128

  const ENTRY_SZ: nat := 73
  const NAME_LEN: nat := 64
  const HEADER_SZ: nat := 28

  datatype Header = Header(tableOffset: Word, tableSize: Word, dataOffset: Word, dataSize: Word, dataPosition: Word,
    count: Word, countMax: Word)
  {
    function Write(): (r: seq<Byte>)
      ensures |r| == HEADER_SZ
    {
      LE32(tableOffset) + LE32(tableSize) + LE32(dataOffset) + LE32(dataSize) + LE32(dataPosition) + LE32(count)
      + LE32(countMax)
    }

    static function Read(d: seq<Byte>): Header
      requires HEADER_SZ <= |d|
    {
      Header(Rd32(d, 0), Rd32(d, 4), Rd32(d, 8), Rd32(d, 12), Rd32(d, 16), Rd32(d, 20), Rd32(d, 24))
    }
  }

  lemma HeaderRoundTrip(h: Header, d: seq<Byte>)
    requires HEADER_SZ <= |d| && d[..HEADER_SZ] == h.Write()
    ensures Header.Read(d) == h
  {
    var w := h.Write();
    assert d[0..4] == w[0..4] == LE32(h.tableOffset);
    assert d[4..8] == w[4..8] == LE32(h.tableSize);
    assert d[8..12] == w[8..12] == LE32(h.dataOffset);
    assert d[12..16] == w[12..16] == LE32(h.dataSize);
    assert d[16..20] == w[16..20] == LE32(h.dataPosition);
    assert d[20..24] == w[20..24] == LE32(h.count);
    assert d[24..28] == w[24..28] == LE32(h.countMax);
    Rd32OfLE32(d, 0, h.tableOffset);
    Rd32OfLE32(d, 4, h.tableSize);
    Rd32OfLE32(d, 8, h.dataOffset);
    Rd32OfLE32(d, 12, h.dataSize);
    Rd32OfLE32(d, 16, h.dataPosition);
    Rd32OfLE32(d, 20, h.count);
    Rd32OfLE32(d, 24, h.countMax);
  }

  function Zeros(n: nat): (r: seq<Byte>)
    ensures |r| == n
  {
    seq(n, i => 0)
  }

  /** SetName: the name in a zeroed 64-character field. */
  function PadName(name: seq<Code>): (r: seq<Byte>)
    requires |name| < NAME_LEN
    ensures |r| == NAME_LEN
  {
    name + Zeros(NAME_LEN - |name|)
  }

  /** A table entry; the name is its full 64-byte field. */
  datatype RamFile = RamFile(name: seq<Byte>, hidden: bool, offset: Word, size: Word)
  {
    function Write(): (r: seq<Byte>)
      requires |name| == NAME_LEN
      ensures |r| == ENTRY_SZ
    {
      name + [if hidden then 1 else 0] + LE32(offset) + LE32(size)
    }

    static function Read(d: seq<Byte>, at: nat): RamFile
      requires at + ENTRY_SZ <= |d|
    {
      RamFile(d[at..at + 64], d[at + 64] != 0, Rd32(d, at + 65), Rd32(d, at + 69))
    }
  }

  lemma SubSlice(d: seq<Byte>, at: nat, n: nat, i: nat, j: nat)
    requires at + n <= |d| && i <= j <= n
    ensures d[at..at + n][i..j] == d[at + i..at + j]
  {
    var a, b := d[at..at + n][i..j], d[at + i..at + j];
    assert forall k :: 0 <= k < |a| ==> a[k] == b[k];
  }

  lemma EntryRoundTrip(f: RamFile, d: seq<Byte>, at: nat)
    requires |f.name| == NAME_LEN && at + ENTRY_SZ <= |d| && d[at..at + ENTRY_SZ] == f.Write()
    ensures RamFile.Read(d, at) == f
  {
    var e := d[at..at + ENTRY_SZ];
    assert e[64] == d[at + 64];
    SubSlice(d, at, ENTRY_SZ, 0, 64);
    SubSlice(d, at, ENTRY_SZ, 65, 69);
    SubSlice(d, at, ENTRY_SZ, 69, 73);
    assert e[0..64] == f.name && e[65..69] == LE32(f.offset) && e[69..73] == LE32(f.size);
    Rd32OfLE32(d, at + 65, f.offset);
    Rd32OfLE32(d, at + 69, f.size);
  }

  /** The bytes of `s` written over `d` at `at`. */
  function Blit(d: seq<Byte>, at: nat, s: seq<Byte>): (r: seq<Byte>)
    requires at + |s| <= |d|
    ensures |r| == |d|
  {
    d[..at] + s + d[at + |s|..]
  }

  lemma BlitAt(d: seq<Byte>, at: nat, s: seq<Byte>)
    requires at + |s| <= |d|
    ensures Blit(d, at, s)[at..at + |s|] == s
  {
  }

  /** A range that a write does not reach. */
  lemma BlitElsewhere(d: seq<Byte>, at: nat, s: seq<Byte>, lo: nat, hi: nat)
    requires at + |s| <= |d| && lo <= hi <= |d| && (hi <= at || at + |s| <= lo)
    ensures Blit(d, at, s)[lo..hi] == d[lo..hi]
  {
  }

  /** Three writes in a row; the last one at the front. */
  function Stack(d: seq<Byte>, a: nat, e: seq<Byte>, p: nat, x: seq<Byte>, h: seq<Byte>): (r: seq<Byte>)
    requires a + |e| <= |d| && p + |x| <= |d| && |h| <= |d|
    ensures |r| == |d|
  {
    Blit(Blit(Blit(d, a, e), p, x), 0, h)
  }

  lemma StackElsewhere(d: seq<Byte>, a: nat, e: seq<Byte>, p: nat, x: seq<Byte>, h: seq<Byte>, lo: nat, hi: nat)
    requires a + |e| <= |d| && p + |x| <= |d| && |h| <= lo <= hi <= |d|
    requires (hi <= a || a + |e| <= lo) && (hi <= p || p + |x| <= lo)
    ensures Stack(d, a, e, p, x, h)[lo..hi] == d[lo..hi]
  {
    var d1 := Blit(d, a, e);
    var d2 := Blit(d1, p, x);
    BlitElsewhere(d, a, e, lo, hi);
    BlitElsewhere(d1, p, x, lo, hi);
    BlitElsewhere(d2, 0, h, lo, hi);
  }

  lemma StackAt(d: seq<Byte>, a: nat, e: seq<Byte>, p: nat, x: seq<Byte>, h: seq<Byte>)
    requires |h| <= a && a + |e| <= p && p + |x| <= |d|
    ensures var r := Stack(d, a, e, p, x, h);
            r[..|h|] == h && r[a..a + |e|] == e && r[p..p + |x|] == x
  {
    var d1 := Blit(d, a, e);
    var d2 := Blit(d1, p, x);
    BlitAt(d, a, e);
    BlitElsewhere(d1, p, x, a, a + |e|);
    BlitElsewhere(d2, 0, h, a, a + |e|);
    BlitAt(d1, p, x);
    BlitElsewhere(d2, 0, h, p, p + |x|);
    BlitAt(d2, 0, h);
  }

  // ---------------------------------------------------------------- what an image means

  /** A file as its author sees it. */
  datatype File = File(name: seq<Code>, hidden: bool, data: seq<Byte>)

  predicate Named(name: seq<Code>)
  {
    0 < |name| && forall k :: 0 <= k < |name| ==> name[k] != 0
  }

  predicate WellFormed(f: File)
  {
    Named(f.name) && |f.name| < NAME_LEN && f.data != []
  }

  function DataSize(fs: seq<File>): nat
  {
    if fs == [] then 0 else DataSize(fs[..|fs| - 1]) + |fs[|fs| - 1].data|
  }

  datatype Shape = Shape(max: nat, sz: nat)

  /** The sizes the writer can lay out: the data area must at least make up for the header it does not count. */
  predicate ValidShape(s: Shape)
  {
    HEADER_SZ <= s.sz && s.max * ENTRY_SZ + s.sz + HEADER_SZ < 0x8000_0000
  }

  function TableAt(i: nat): nat { HEADER_SZ + i * ENTRY_SZ }

  function DataAt(s: Shape): nat { TableAt(s.max) }

  /** Where the file added after `fs` puts its data. */
  function DataPos(s: Shape, fs: seq<File>): nat { DataAt(s) + DataSize(fs) }

  function HeaderOf(s: Shape, fs: seq<File>): Header
    requires ValidShape(s) && DataSize(fs) + HEADER_SZ <= s.sz && |fs| <= s.max
  {
    Header(HEADER_SZ, s.max * ENTRY_SZ, DataAt(s), s.sz, DataSize(fs), |fs|, s.max)
  }

  function EntryOf(fs: seq<File>, i: nat): RamFile
    requires i < |fs| && |fs[i].name| < NAME_LEN && DataSize(fs[..i]) < WORD && |fs[i].data| < WORD
  {
    RamFile(PadName(fs[i].name), fs[i].hidden, DataSize(fs[..i]), |fs[i].data|)
  }

  lemma {:induction false} PrefixFits(fs: seq<File>, i: nat)
    requires i < |fs|
    ensures DataSize(fs[..i]) + |fs[i].data| <= DataSize(fs)
    decreases |fs|
  {
    var n := |fs| - 1;
    if i < n {
      PrefixFits(fs[..n], i);
      assert fs[..n][..i] == fs[..i];
    }
  }

  /** The files fit the shape. */
  ghost predicate Fits(s: Shape, fs: seq<File>)
  {
    && ValidShape(s) && |fs| <= s.max && DataSize(fs) + HEADER_SZ <= s.sz
    && forall i :: 0 <= i < |fs| ==> WellFormed(fs[i])
  }

  ghost predicate EntryHolds(s: Shape, fs: seq<File>, d: seq<Byte>, i: nat)
    requires Fits(s, fs) && i < |fs| && |d| == s.max * ENTRY_SZ + s.sz
  {
    PrefixFits(fs, i);
    var at := TableAt(i);
    var pos := DataPos(s, fs[..i]);
    && at + ENTRY_SZ <= DataAt(s)
    && d[at..at + ENTRY_SZ] == EntryOf(fs, i).Write()
    && d[pos..pos + |fs[i].data|] == fs[i].data
  }

  /** The image holds exactly these files, in this order: header, packed table, consecutive data. */
  ghost predicate Represents(s: Shape, fs: seq<File>, d: seq<Byte>)
  {
    && Fits(s, fs) && |d| == s.max * ENTRY_SZ + s.sz
    && d[..HEADER_SZ] == HeaderOf(s, fs).Write()
    && (forall i :: 0 <= i < |fs| ==> EntryHolds(s, fs, d, i))
    && (forall i :: |fs| <= i < s.max ==> d[TableAt(i)] == 0)
  }

  // ---------------------------------------------------------------- adding a file

  /** RAMFileSystem(max, sz): zeroed storage with the header at the front. */
  function Empty(s: Shape): (d: seq<Byte>)
    requires ValidShape(s)
    ensures |d| == s.max * ENTRY_SZ + s.sz
  {
    Blit(Zeros(s.max * ENTRY_SZ + s.sz), 0, HeaderOf(s, []).Write())
  }

  lemma EmptyRepresents(s: Shape)
    requires ValidShape(s)
    ensures Represents(s, [], Empty(s))
  {
    BlitAt(Zeros(s.max * ENTRY_SZ + s.sz), 0, HeaderOf(s, []).Write());
  }

  /** AddFile's three writes: the entry, the data, the header. */
  function Added(s: Shape, fs: seq<File>, d: seq<Byte>, f: File): (r: seq<Byte>)
    requires Fits(s, fs + [f]) && |d| == s.max * ENTRY_SZ + s.sz
    ensures |r| == |d|
  {
    var gs := fs + [f];
    assert gs[..|fs|] == fs;
    Stack(d, TableAt(|fs|), EntryOf(gs, |fs|).Write(), DataPos(s, fs), f.data, HeaderOf(s, gs).Write())
  }

  /** The three writes of AddFile, with their places in order. */
  lemma AddedIsStack(s: Shape, fs: seq<File>, d: seq<Byte>, f: File) returns (e: seq<Byte>, h: seq<Byte>, p: nat)
    requires Fits(s, fs + [f]) && |d| == s.max * ENTRY_SZ + s.sz
    ensures (fs + [f])[..|fs|] == fs && p == DataPos(s, fs)
    ensures e == EntryOf(fs + [f], |fs|).Write() && h == HeaderOf(s, fs + [f]).Write()
    ensures |e| == ENTRY_SZ && |h| == HEADER_SZ
    ensures HEADER_SZ <= TableAt(|fs|) && TableAt(|fs|) + ENTRY_SZ <= p && p + |f.data| <= |d|
    ensures Added(s, fs, d, f) == Stack(d, TableAt(|fs|), e, p, f.data, h)
  {
    var gs := fs + [f];
    assert gs[..|fs|] == fs;
    e := EntryOf(gs, |fs|).Write();
    h := HeaderOf(s, gs).Write();
    p := DataPos(s, fs);
  }

  /** Adding a file leaves every earlier entry and every earlier content as it was. */
  lemma AddedRange(s: Shape, fs: seq<File>, d: seq<Byte>, f: File, lo: nat, hi: nat)
    requires Fits(s, fs + [f]) && |d| == s.max * ENTRY_SZ + s.sz && HEADER_SZ <= lo <= hi
    requires hi <= TableAt(|fs|) || (TableAt(|fs| + 1) <= lo && hi <= DataPos(s, fs))
    ensures hi <= |d| && Added(s, fs, d, f)[lo..hi] == d[lo..hi]
  {
    var e, h, p := AddedIsStack(s, fs, d, f);
    StackElsewhere(d, TableAt(|fs|), e, p, f.data, h, lo, hi);
  }

  lemma AddedNew(s: Shape, fs: seq<File>, d: seq<Byte>, f: File)
    requires Fits(s, fs + [f]) && |d| == s.max * ENTRY_SZ + s.sz
    ensures (fs + [f])[..|fs|] == fs
    ensures var r := Added(s, fs, d, f);
            var at, pos := TableAt(|fs|), DataPos(s, fs);
      && r[..HEADER_SZ] == HeaderOf(s, fs + [f]).Write()
      && r[at..at + ENTRY_SZ] == EntryOf(fs + [f], |fs|).Write()
      && r[pos..pos + |f.data|] == f.data
  {
    hide EntryOf, HeaderOf, DataPos, Added, Stack;
    var e, h, p := AddedIsStack(s, fs, d, f);
    StackAt(d, TableAt(|fs|), e, p, f.data, h);
  }

  lemma OldRangesHold(s: Shape, fs: seq<File>, d: seq<Byte>, f: File, i: nat)
    requires Represents(s, fs, d) && Fits(s, fs + [f]) && i < |fs|
    ensures var r := Added(s, fs, d, f);
            var at, pos := TableAt(i), DataPos(s, fs[..i]);
      && at + ENTRY_SZ <= DataAt(s) && pos + |fs[i].data| <= |d|
      && r[at..at + ENTRY_SZ] == d[at..at + ENTRY_SZ] && r[pos..pos + |fs[i].data|] == d[pos..pos + |fs[i].data|]
  {
    PrefixFits(fs, i);
    var pos := DataPos(s, fs[..i]);
    AddedRange(s, fs, d, f, TableAt(i), TableAt(i) + ENTRY_SZ);
    AddedRange(s, fs, d, f, pos, pos + |fs[i].data|);
  }

  lemma OldEntryHolds(s: Shape, fs: seq<File>, d: seq<Byte>, f: File, i: nat)
    requires Represents(s, fs, d) && Fits(s, fs + [f]) && i < |fs|
    ensures EntryHolds(s, fs + [f], Added(s, fs, d, f), i)
  {
    assert EntryHolds(s, fs, d, i);
    assert (fs + [f])[..i] == fs[..i];
    OldRangesHold(s, fs, d, f, i);
    hide Added, DataSize, PadName;
    PrefixFits(fs + [f], i);
  }

  /** Adding one file to an image of `fs` gives an image of `fs` and that file. */
  lemma AddedRepresents(s: Shape, fs: seq<File>, d: seq<Byte>, f: File)
    requires Represents(s, fs, d) && Fits(s, fs + [f])
    ensures Represents(s, fs + [f], Added(s, fs, d, f))
  {
    var gs := fs + [f];
    var r := Added(s, fs, d, f);
    AddedNew(s, fs, d, f);
    forall i | 0 <= i < |gs| ensures EntryHolds(s, gs, r, i) {
      if i < |fs| { OldEntryHolds(s, fs, d, f, i); }
    }
    forall i | |gs| <= i < s.max ensures r[TableAt(i)] == 0 {
      AddedRange(s, fs, d, f, TableAt(i), TableAt(i) + 1);
      assert r[TableAt(i)] == r[TableAt(i)..TableAt(i) + 1][0] == d[TableAt(i)..TableAt(i) + 1][0];
    }
  }

  /** The image after adding all of `fs` to an empty one. */
  function Build(s: Shape, fs: seq<File>): (d: seq<Byte>)
    requires Fits(s, fs)
    ensures |d| == s.max * ENTRY_SZ + s.sz
  {
    if fs == [] then Empty(s)
    else
      var n := |fs| - 1;
      assert fs == fs[..n] + [fs[n]];
      Added(s, fs[..n], Build(s, fs[..n]), fs[n])
  }

  lemma {:induction false} BuildRepresents(s: Shape, fs: seq<File>)
    requires Fits(s, fs)
    ensures Represents(s, fs, Build(s, fs))
  {
    if fs == [] {
      EmptyRepresents(s);
    } else {
      var n := |fs| - 1;
      assert fs == fs[..n] + [fs[n]];
      BuildRepresents(s, fs[..n]);
      AddedRepresents(s, fs[..n], Build(s, fs[..n]), fs[n]);
    }
  }

  // ---------------------------------------------------------------- reading an image

  lemma CStrOfPadded(name: seq<Code>, rest: seq<Byte>)
    requires |name| < NAME_LEN && forall k :: 0 <= k < |name| ==> name[k] != 0
    ensures CStr(PadName(name) + rest) == name
  {
    var s := PadName(name) + rest;
    assert forall k :: 0 <= k < |name| ==> s[k] == name[k];
    assert s[|name|] == 0;
    FirstIs(s, IsZero(), |name|);
  }

  /** The table as the kernel sees it: at a fixed offset after the header, `countMax` entries long. */
  ghost predicate Readable(d: seq<Byte>)
  {
    HEADER_SZ <= |d| && TableAt(Header.Read(d).countMax) <= |d|
  }

  ghost function Table(d: seq<Byte>): (t: seq<RamFile>)
    requires Readable(d)
    ensures |t| == Header.Read(d).countMax
    ensures forall i :: 0 <= i < |t| ==> TableAt(i) + ENTRY_SZ <= |d| && t[i] == RamFile.Read(d, TableAt(i))
  {
    seq(Header.Read(d).countMax, i requires 0 <= i < Header.Read(d).countMax => RamFile.Read(d, TableAt(i)))
  }

  ghost function Called(name: seq<Byte>): RamFile -> bool
  {
    (f: RamFile) => |f.name| > 0 && f.name[0] != 0 && CStr(f.name) == name
  }

  lemma ImageTable(s: Shape, fs: seq<File>, d: seq<Byte>)
    requires Represents(s, fs, d)
    ensures Header.Read(d) == HeaderOf(s, fs) && Readable(d) && |Table(d)| == s.max && |fs| <= s.max
    ensures forall i :: 0 <= i < |fs| ==>
      && DataSize(fs[..i]) < WORD && |fs[i].data| < WORD && Table(d)[i] == EntryOf(fs, i)
      && CStr(Table(d)[i].name) == fs[i].name && Table(d)[i].name[0] != 0
    ensures forall i :: |fs| <= i < |Table(d)| ==> Table(d)[i].name[0] == 0
  {
    HeaderRoundTrip(HeaderOf(s, fs), d);
    forall i | 0 <= i < |fs|
      ensures DataSize(fs[..i]) < WORD && |fs[i].data| < WORD && Table(d)[i] == EntryOf(fs, i)
      ensures CStr(Table(d)[i].name) == fs[i].name && Table(d)[i].name[0] != 0
    {
      PrefixFits(fs, i);
      assert EntryHolds(s, fs, d, i);
      EntryRoundTrip(EntryOf(fs, i), d, TableAt(i));
      CStrOfPadded(fs[i].name, []);
      assert PadName(fs[i].name) + [] == PadName(fs[i].name);
      assert PadName(fs[i].name)[0] == fs[i].name[0];
    }
  }

  /** ramfs_fopen: the index of the entry, or the table length. */
  ghost function Lookup(d: seq<Byte>, name: seq<Byte>): nat
    requires Readable(d)
  {
    First(Table(d), Called(name))
  }

  /** Where the data of an entry lies. */
  ghost predicate Contents(d: seq<Byte>, f: RamFile, data: seq<Byte>)
    requires HEADER_SZ <= |d|
  {
    var pos := Header.Read(d).dataOffset + f.offset;
    pos + f.size <= |d| && d[pos..pos + f.size] == data
  }

  ghost predicate DistinctNames(fs: seq<File>)
  {
    forall i, j :: 0 <= i < j < |fs| ==> fs[i].name != fs[j].name
  }

  lemma ContentsHold(s: Shape, fs: seq<File>, d: seq<Byte>, i: nat)
    requires Represents(s, fs, d) && i < |fs| && DataSize(fs[..i]) < WORD && |fs[i].data| < WORD
    ensures Contents(d, EntryOf(fs, i), fs[i].data)
  {
    hide DataSize, PadName;
    HeaderRoundTrip(HeaderOf(s, fs), d);
    PrefixFits(fs, i);
    assert EntryHolds(s, fs, d, i);
    assert Header.Read(d).dataOffset + EntryOf(fs, i).offset == DataPos(s, fs[..i]);
  }

  lemma StoredData(s: Shape, fs: seq<File>, d: seq<Byte>, i: nat)
    requires Represents(s, fs, d) && i < |fs|
    ensures Header.Read(d) == HeaderOf(s, fs) && Readable(d) && i < |Table(d)|
    ensures Contents(d, Table(d)[i], fs[i].data)
  {
    ImageTable(s, fs, d);
    ContentsHold(s, fs, d, i);
  }

  lemma ImageRoundTrip(s: Shape, fs: seq<File>, d: seq<Byte>, i: nat)
    requires Represents(s, fs, d) && DistinctNames(fs) && i < |fs|
    ensures Readable(d) && |Table(d)| == s.max && Lookup(d, fs[i].name) == i
    ensures Table(d)[i].hidden == fs[i].hidden && Table(d)[i].size == |fs[i].data|
    ensures Contents(d, Table(d)[i], fs[i].data)
  {
    ImageTable(s, fs, d);
    ContentsHold(s, fs, d, i);
    hide EntryHolds, DataSize, Contents;
    FirstIs(Table(d), Called(fs[i].name), i);
  }

  /** Written by AddFile, read by the kernel: every file is found under its name, with its size, flag and bytes. */
  lemma RoundTrip(s: Shape, fs: seq<File>, i: nat)
    requires Fits(s, fs) && DistinctNames(fs) && i < |fs|
    ensures var d := Build(s, fs);
      && Readable(d) && |Table(d)| == s.max && Lookup(d, fs[i].name) == i
      && Table(d)[i].hidden == fs[i].hidden && Table(d)[i].size == |fs[i].data|
      && Contents(d, Table(d)[i], fs[i].data)
  {
    BuildRepresents(s, fs);
    ImageRoundTrip(s, fs, Build(s, fs), i);
  }

  /** No other name is found. */
  lemma NoOtherName(s: Shape, fs: seq<File>, name: seq<Byte>)
    requires Fits(s, fs) && forall i :: 0 <= i < |fs| ==> fs[i].name != name
    ensures Readable(Build(s, fs)) && Lookup(Build(s, fs), name) == |Table(Build(s, fs))|
  {
    var d := Build(s, fs);
    BuildRepresents(s, fs);
    ImageTable(s, fs, d);
    FirstIs(Table(d), Called(name), s.max);
  }

  /** The table is packed: the named entries are exactly the first `count`. */
  lemma Packed(s: Shape, fs: seq<File>, d: seq<Byte>)
    requires Represents(s, fs, d)
    ensures Header.Read(d) == HeaderOf(s, fs) && Readable(d) && |Table(d)| == s.max && |fs| <= s.max
    ensures forall i :: 0 <= i < |Table(d)| ==> (Table(d)[i].name[0] != 0 <==> i < |fs|)
  {
    ImageTable(s, fs, d);
  }

  /** An image the kernel can search: every name field holds a NUL. */
  ghost predicate Mounted(d: seq<Byte>)
  {
    Readable(d) && forall i :: 0 <= i < |Table(d)| ==> 0 in Table(d)[i].name
  }

  lemma ImageMounts(s: Shape, fs: seq<File>, d: seq<Byte>)
    requires Represents(s, fs, d)
    ensures Mounted(d)
  {
    ImageTable(s, fs, d);
    forall i | 0 <= i < |Table(d)| ensures 0 in Table(d)[i].name {
      if i < |fs| {
        assert PadName(fs[i].name)[|fs[i].name|] == 0;
      } else {
        assert Table(d)[i].name[0] == 0;
      }
    }
  }

  /** The request AddFile can store: one more entry, and data within the room the header leaves. */
  lemma FitsOneMore(s: Shape, fs: seq<File>, f: File)
    requires Fits(s, fs) && |fs| < s.max && WellFormed(f)
    ensures Fits(s, fs + [f]) <==> DataSize(fs) + |f.data| + HEADER_SZ <= s.sz
    ensures DataAt(s) + DataSize(fs) + |f.data| <= s.max * ENTRY_SZ + s.sz <==> Fits(s, fs + [f])
    ensures DataSize(fs) < WORD && |f.data| < WORD ==>
      (fs + [f])[..|fs|] == fs && EntryOf(fs + [f], |fs|) == RamFile(PadName(f.name), f.hidden, DataSize(fs), |f.data|)
    ensures Fits(s, fs + [f]) ==>
      HeaderOf(s, fs + [f]) == HeaderOf(s, fs).(dataPosition := DataSize(fs) + |f.data|, count := |fs| + 1)
  {
    assert (fs + [f])[..|fs|] == fs;
    assert DataSize(fs + [f]) == DataSize(fs) + |f.data|;
  }

  /** The writes AddFile makes, in terms of the header it holds, and what they amount to. */
  lemma AddPlan(s: Shape, fs: seq<File>, d: seq<Byte>, h: Header, f: File)
    requires Represents(s, fs, d) && h == HeaderOf(s, fs) && |fs| < s.max && WellFormed(f) && |f.data| < WORD
    ensures |d| == s.max * ENTRY_SZ + s.sz && h.count == |fs| && |fs| + 1 < WORD && HEADER_SZ <= |d|
    ensures h.tableOffset + |fs| * ENTRY_SZ == TableAt(|fs|) && TableAt(|fs|) + ENTRY_SZ <= |d|
    ensures h.dataPosition == DataSize(fs) && h.dataOffset + h.dataPosition == DataPos(s, fs)
    ensures h.dataOffset + h.dataPosition + |f.data| <= |d| <==> h.dataPosition + |f.data| + HEADER_SZ <= s.sz
    ensures h.dataPosition + |f.data| + HEADER_SZ <= s.sz ==>
      var file := RamFile(PadName(f.name), f.hidden, h.dataPosition, |f.data|);
      var h' := h.(dataPosition := h.dataPosition + |f.data|, count := |fs| + 1);
      && Fits(s, fs + [f]) && h' == HeaderOf(s, fs + [f])
      && Added(s, fs, d, f)
         == Stack(d, TableAt(|fs|), file.Write(), DataPos(s, fs), f.data, h'.Write())
  {
    FitsOneMore(s, fs, f);
    if h.dataPosition + |f.data| + HEADER_SZ <= s.sz {
      var e, h', p := AddedIsStack(s, fs, d, f);
    }
  }

  /** What AddFile leaves when nothing goes wrong. */
  lemma StoredIs(s: Shape, fs: seq<File>, d: seq<Byte>, f: File)
    requires Represents(s, fs, d) && Fits(s, fs + [f])
    ensures var r := Added(s, fs, d, f);
      && Represents(s, fs + [f], r)
      && (fs + [f])[..|fs|] == fs && TableAt(|fs|) + ENTRY_SZ <= |r|
      && RamFile.Read(r, TableAt(|fs|)) == EntryOf(fs + [f], |fs|)
  {
    AddedRepresents(s, fs, d, f);
    AddedNew(s, fs, d, f);
    var e, h, p := AddedIsStack(s, fs, d, f);
    hide Added;
    EntryRoundTrip(EntryOf(fs + [f], |fs|), Added(s, fs, d, f), TableAt(|fs|));
  }
}
