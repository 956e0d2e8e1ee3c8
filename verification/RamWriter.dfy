/** The image builder of RAMFS.cs. */
module RamWriter {
  import opened Words
  import opened CStrings
  import opened RamImage

  /** How AddFile ends: the process exits on a bad request, or an array copy throws, or the file is stored. */
  datatype AddResult = Exited | Threw | Stored(file: RamFile)

  /** The outcome of AddFile on an image of `fs`: why it exits, when it throws and what it leaves behind, what it
      stores. */
  ghost predicate AddSpec(s: Shape, fs: seq<File>, d: seq<Byte>, f: File, r: AddResult, gs: seq<File>, e: seq<Byte>)
    requires Represents(s, fs, d) && |f.data| < 0x8000_0000
  {
    if f.data == [] || |fs| == s.max || |f.name| >= NAME_LEN then
      r == Exited && gs == fs && e == d
    else
      var file := RamFile(PadName(f.name), f.hidden, DataSize(fs), |f.data|);
      if DataSize(fs) + |f.data| + HEADER_SZ > s.sz then
        r == Threw && gs == fs && TableAt(|fs|) + ENTRY_SZ <= |d| && e == Blit(d, TableAt(|fs|), file.Write())
      else
        r == Stored(file) && gs == fs + [f] && Fits(s, gs) && e == Added(s, fs, d, f)
  }

  /** The three writes: all of them when the data has room, else only the entry. */
  ghost predicate Written(s: Shape, fs: seq<File>, d: seq<Byte>, h: Header, f: File, ok: bool, e: seq<Byte>, g: Header)
    requires Represents(s, fs, d) && h == HeaderOf(s, fs) && |fs| < s.max && WellFormed(f) && |f.data| < WORD
  {
    if DataSize(fs) + |f.data| + HEADER_SZ <= s.sz then
      ok && Fits(s, fs + [f]) && e == Added(s, fs, d, f) && g == HeaderOf(s, fs + [f])
    else
      var file := RamFile(PadName(f.name), f.hidden, DataSize(fs), |f.data|);
      !ok && g == h && TableAt(|fs|) + ENTRY_SZ <= |d| && e == Blit(d, TableAt(|fs|), file.Write())
  }

  lemma EntryOnly(s: Shape, fs: seq<File>, d: seq<Byte>, h: Header, f: File)
    requires Represents(s, fs, d) && h == HeaderOf(s, fs) && |fs| < s.max && WellFormed(f) && |f.data| < WORD
    requires DataSize(fs) + |f.data| + HEADER_SZ > s.sz && TableAt(|fs|) + ENTRY_SZ <= |d|
    ensures Written(s, fs, d, h, f, false,
      Blit(d, TableAt(|fs|), RamFile(PadName(f.name), f.hidden, h.dataPosition, |f.data|).Write()), h)
  {
  }

  lemma AllWrites(s: Shape, fs: seq<File>, d: seq<Byte>, h: Header, f: File)
    requires Represents(s, fs, d) && h == HeaderOf(s, fs) && |fs| < s.max && WellFormed(f) && |f.data| < WORD
    requires Fits(s, fs + [f])
    ensures Written(s, fs, d, h, f, true, Added(s, fs, d, f), HeaderOf(s, fs + [f]))
  {
    FitsOneMore(s, fs, f);
  }

  /** The entry at index `i` of an image. */
  ghost predicate IsEntry(d: seq<Byte>, i: nat, file: RamFile)
  {
    Readable(d) && i < |Table(d)| && file == Table(d)[i]
  }

  lemma EntryPoints(s: Shape, fs: seq<File>, d: seq<Byte>, h: Header, i: nat, file: RamFile)
    requires Represents(s, fs, d) && h == HeaderOf(s, fs) && i < |fs| && IsEntry(d, i, file)
    ensures var pos := U32(h.dataOffset + file.offset);
            pos + file.size <= |d| && d[pos..pos + file.size] == fs[i].data
  {
    StoredData(s, fs, d, i);
    hide Table, Header.Read, HeaderOf;
    assert |d| < WORD;
  }

  method Copy(src: seq<Byte>, dst: array<Byte>, at: nat)
    requires at + |src| <= dst.Length
    modifies dst
    ensures dst[..] == Blit(old(dst[..]), at, src)
  {
    forall i | 0 <= i < |src| { dst[at + i] := src[i]; }
  }

  class RAMFileSystem {
    const data: array<Byte>
    var header: Header
    ghost const shape: Shape
    ghost var files: seq<File>

    ghost predicate Valid()
      reads this, data
    {
      Represents(shape, files, data[..]) && header == HeaderOf(shape, files)
    }

    constructor (max: nat, sz: nat)
      requires ValidShape(Shape(max, sz))
      ensures Valid() && shape == Shape(max, sz) && files == [] && fresh(data)
      ensures data[..] == Empty(shape)
    {
      data := new Byte[max * ENTRY_SZ + sz](i => 0);
      header := Header(HEADER_SZ, max * ENTRY_SZ, HEADER_SZ + max * ENTRY_SZ, sz, 0, 0, max);
      shape := Shape(max, sz);
      files := [];
      new;
      assert data[..] == Zeros(max * ENTRY_SZ + sz);
      EmptyRepresents(shape);
      Copy(header.Write(), data, 0);
    }

    /** GetNextIndex: re-reads the header, then the first entry without a name; -1 when there is none. */
    method GetNextIndex() returns (i: int)
      requires Valid()
      modifies this`header
      ensures Valid() && header == old(header)
      ensures i == if |files| < shape.max then |files| else -1
    {
      ghost var d := data[..];
      Packed(shape, files, d);
      ghost var t, n := Table(d), |files|;
      header := Header.Read(data[..]);
      hide Represents, HeaderOf;
      i := 0;
      while i < header.countMax
        invariant 0 <= i <= n <= |t|
      {
        var file := GetFile(i);
        assert file == t[i];
        if file.name[0] == 0 { return i; }
        i := i + 1;
      }
      i := -1;
    }

    /** The three writes of AddFile, for the free index `i`; false when the data copy throws. */
    method WriteFile(i: nat, file: RamFile, bytes: seq<Byte>, ghost f: File) returns (ok: bool)
      requires Valid() && i == |files| < shape.max && WellFormed(f) && f.data == bytes && |bytes| < 0x8000_0000
      requires file == RamFile(PadName(f.name), f.hidden, header.dataPosition, |bytes|)
      modifies this`header, data
      ensures Written(shape, files, old(data[..]), old(header), f, ok, data[..], header)
    {
      hide Represents, Fits, Added, HeaderOf, Blit, Header.Write, RamFile.Write, PadName, DataSize, DataPos;
      hide TableAt, Written;
      ghost var d, h := data[..], header;
      AddPlan(shape, files, d, h, f);
      var at, pos := header.tableOffset + i * ENTRY_SZ, header.dataOffset + header.dataPosition;
      assert at == TableAt(i) && pos == DataPos(shape, files);
      Copy(file.Write(), data, at);
      if pos + |bytes| > data.Length {
        EntryOnly(shape, files, d, h, f);
        return false;
      }
      Copy(bytes, data, pos);
      header := header.(dataPosition := header.dataPosition + |bytes|, count := header.count + 1);
      Copy(header.Write(), data, 0);
      AllWrites(shape, files, d, h, f);
      assert data[..] == Added(shape, files, d, f);
      ok := true;
    }

    /** AddFile, for a name that is not empty and has no NUL in it. */
    method AddFile(name: seq<Code>, bytes: seq<Byte>, hidden: bool) returns (r: AddResult)
      requires Valid() && Named(name) && |bytes| < 0x8000_0000
      modifies this, data
      ensures AddSpec(shape, old(files), old(data[..]), File(name, hidden, bytes), r, files, data[..])
      ensures if r.Threw? then header == old(header) else Valid()
    {
      if |bytes| == 0 { return Exited; }
      var i := GetNextIndex();
      if i == -1 || |name| >= NAME_LEN { return Exited; }
      var file := RamFile(PadName(name), hidden, header.dataPosition, |bytes|);
      ghost var f, d := File(name, hidden, bytes), data[..];
      var ok := WriteFile(i, file, bytes, f);
      if !ok { return Threw; }
      StoredIs(shape, files, d, f);
      hide Represents, Added, PadName, RamFile.Read;
      files := files + [f];
      r := Stored(GetFile(i));
    }

    /** GetFile by index: the entry as stored. */
    function GetFile(i: nat): RamFile
      requires TableAt(i) + ENTRY_SZ <= data.Length
      reads data
    {
      RamFile.Read(data[..], TableAt(i))
    }

    /** GetFiles: the entries of the added files, in order. */
    method GetFiles() returns (r: seq<RamFile>)
      requires Valid()
      modifies this`header
      ensures Valid() && header == old(header)
      ensures Readable(data[..]) && |files| <= |Table(data[..])| && r == Table(data[..])[..|files|]
    {
      ghost var d := data[..];
      Packed(shape, files, d);
      ghost var t, n := Table(d), |files|;
      header := Header.Read(data[..]);
      hide Represents, HeaderOf;
      r := [];
      var i := 0;
      while i < header.countMax
        invariant 0 <= i <= |t| && |r| == (if i < n then i else n) && forall k :: 0 <= k < |r| ==> r[k] == t[k]
      {
        var file := GetFile(i);
        assert file == t[i];
        if file.name[0] != 0 { r := r + [file]; }
        i := i + 1;
      }
    }

    /** GetFileData: the bytes the entry points at, or an exception when they are not all in the image; for a stored
        entry, the bytes that were added. */
    method GetFileData(file: RamFile) returns (threw: bool, bytes: seq<Byte>)
      requires Valid()
      ensures threw <==> U32(header.dataOffset + file.offset) + file.size > data.Length
      ensures !threw ==>
        var pos := U32(header.dataOffset + file.offset);
        pos + file.size <= data.Length && bytes == data[pos..pos + file.size]
      ensures forall i :: 0 <= i < |files| && IsEntry(data[..], i, file) ==> !threw && bytes == files[i].data
    {
      hide Represents, HeaderOf, IsEntry, U32;
      var pos := U32(header.dataOffset + file.offset);
      forall i | 0 <= i < |files| && IsEntry(data[..], i, file)
        ensures pos + file.size <= data.Length && data[pos..pos + file.size] == files[i].data
      {
        EntryPoints(shape, files, data[..], header, i, file);
      }
      if pos + file.size > data.Length { return true, []; }
      threw := false;
      bytes := data[pos..pos + file.size];
    }
  }

  /** A file that fits the advertised data area but not the array behind it leaves an entry that the header does not
      count. */
  lemma FullSizeFileThrows(s: Shape, f: File, r: AddResult, gs: seq<File>, e: seq<Byte>)
    requires ValidShape(s) && s.max > 0 && WellFormed(f) && s.sz - HEADER_SZ < |f.data| <= s.sz
    requires Represents(s, [], Empty(s)) && AddSpec(s, [], Empty(s), f, r, gs, e)
    ensures r == Threw && Readable(e) && Header.Read(e).count == 0 && |Table(e)| == s.max
    ensures CStr(Table(e)[0].name) == f.name && Table(e)[0].size == |f.data|
  {
    hide Header.Write, RamFile.Write, PadName, LE32, Rd32, Represents;
    var d, file := Empty(s), RamFile(PadName(f.name), f.hidden, 0, |f.data|);
    ImageTable(s, [], d);
    BlitElsewhere(d, TableAt(0), file.Write(), 0, HEADER_SZ);
    HeaderRoundTrip(HeaderOf(s, []), e);
    BlitAt(d, TableAt(0), file.Write());
    EntryRoundTrip(file, e, TableAt(0));
    CStrOfPadded(f.name, []);
    assert PadName(f.name) + [] == PadName(f.name);
  }
}
