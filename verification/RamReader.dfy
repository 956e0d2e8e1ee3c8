/** The kernel's side of the RAM disk: ramfs.c over the image in memory, and virtfs.c above it. */
module RamReader {
  import opened Words
  import opened Search
  import opened CStrings
  import opened RamImage

  /** A string that ends inside a field reads the same from the field and from the memory around it. */
  lemma CStrOfField(d: seq<Byte>, at: nat, n: nat)
    requires at + n <= |d| && 0 in d[at..at + n]
    ensures 0 in d[at..] && CStr(d[at..]) == CStr(d[at..at + n])
  {
    var f := d[at..at + n];
    FirstZero(f);
    var m := First(f, IsZero());
    assert forall k :: 0 <= k < n ==> d[at..][k] == f[k];
    FirstIs(d[at..], IsZero(), m);
  }

  /** The first character of an entry's name, in memory and in the entry. */
  lemma NameInPlace(d: seq<Byte>, i: nat)
    requires Readable(d) && i < |Table(d)|
    ensures TableAt(i) < |d| && |Table(d)[i].name| > 0 && d[TableAt(i)] == Table(d)[i].name[0]
  {
  }

  /** A name that is shorter than a name field, or an image whose name fields all end: comparing stays in bounds. */
  ghost predicate Comparable(d: seq<Byte>, name: seq<Byte>)
  {
    Readable(d) && (|name| < NAME_LEN || Mounted(d))
  }

  /** Comparing a name with an entry in memory is comparing it with the entry's name field. */
  lemma EntryCompares(d: seq<Byte>, i: nat, name: seq<Byte>)
    requires Comparable(d, name) && i < |Table(d)|
    ensures TableAt(i) < |d| && |Table(d)[i].name| > 0 && d[TableAt(i)] == Table(d)[i].name[0]
    ensures 0 in d[TableAt(i)..] || |d[TableAt(i)..]| > |name|
    ensures CStr(d[TableAt(i)..]) == name <==> CStr(Table(d)[i].name) == name
  {
    var at := TableAt(i);
    var s, field := d[at..], Table(d)[i].name;
    assert field == d[at..at + 64];
    if 0 in field {
      CStrOfField(d, at, 64);
    } else {
      var m := First(s, IsZero());
      assert forall k :: 0 <= k < 64 ==> s[k] == field[k] && field[k] in field;
      assert m < |s| ==> IsZero()(s[m]);
      FirstIs(field, IsZero(), 64);
    }
  }

  /** A field that holds a comparable name ends inside. */
  lemma NameEnds(d: seq<Byte>, i: nat, name: seq<Byte>)
    requires Comparable(d, name) && i < |Table(d)| && CStr(Table(d)[i].name) == name
    ensures 0 in Table(d)[i].name
  {
    var field := Table(d)[i].name;
    assert |name| < 64 ==> IsZero()(field[|name|]);
  }

  /** The indices below `n` whose entry has a name, in order. */
  ghost function NamedUpTo(t: seq<RamFile>, n: nat): seq<nat>
    requires n <= |t|
  {
    if n == 0 then []
    else NamedUpTo(t, n - 1) + if |t[n - 1].name| > 0 && t[n - 1].name[0] != 0 then [n - 1] else []
  }

  lemma NamedNext(t: seq<RamFile>, n: nat)
    requires n < |t| && |t[n].name| > 0
    ensures NamedUpTo(t, n + 1) == if t[n].name[0] != 0 then NamedUpTo(t, n) + [n] else NamedUpTo(t, n)
  {
  }

  function UpTo(n: nat): seq<nat>
  {
    if n == 0 then [] else UpTo(n - 1) + [n - 1]
  }

  lemma {:induction false} PackedNames(t: seq<RamFile>, c: nat, n: nat)
    requires n <= |t| && forall k :: 0 <= k < |t| ==> |t[k].name| > 0 && (t[k].name[0] != 0 <==> k < c)
    ensures NamedUpTo(t, n) == UpTo(if n < c then n else c)
  {
    if n > 0 { PackedNames(t, c, n - 1); }
  }

  /** Listing an image lists its files in the order they were added. */
  lemma ListsFiles(s: Shape, fs: seq<File>, d: seq<Byte>)
    requires Represents(s, fs, d)
    ensures Readable(d) && NamedUpTo(Table(d), |Table(d)|) == UpTo(|fs|)
  {
    Packed(s, fs, d);
    PackedNames(Table(d), |fs|, |Table(d)|);
  }

  // ---------------------------------------------------------------- ramfs.c

  /** A mounted image: the bytes of the loaded module, which the kernel only reads. */
  class RamFs {
    const data: seq<Byte>

    constructor (data: seq<Byte>)
      ensures this.data == data
    {
      this.data := data;
    }

    ghost predicate Valid()
    {
      Readable(data)
    }

    /** Whether entry `i` has a name and it is this one. */
    method Matches(i: nat, name: seq<Byte>) returns (found: bool)
      requires Valid() && i < |Table(data)| && 0 in name && CStr(name) != [] && Comparable(data, CStr(name))
      ensures found <==> Called(CStr(name))(Table(data)[i])
    {
      hide Rd32, Header.Read, RamFile.Read, TableAt, CStr, Table, Comparable, Readable;
      EntryCompares(data, i, CStr(name));
      var at := TableAt(i);
      if data[at] == 0 { return false; }
      var c := StrCmp(data[at..], name);
      found := c == 0;
    }

    /** ramfs_fopen: the index of the entry with that name, or the table length for NULL. */
    method FOpen(name: seq<Byte>) returns (i: nat)
      requires Valid() && 0 in name && Comparable(data, CStr(name))
      ensures i == if CStr(name) == [] then |Table(data)| else Lookup(data, CStr(name))
    {
      hide Rd32, Header.Read, RamFile.Read, TableAt, CStr, Called;
      ghost var t, p := Table(data), Called(CStr(name));
      var max := Header.Read(data).countMax;
      assert |t| == max;
      hide Table, Comparable;
      var len := StrLen(name);
      if len == 0 { return max; }
      i := 0;
      while i < max
        invariant i <= max && forall k :: 0 <= k < i ==> !p(t[k])
      {
        var found := Matches(i, name);
        if found { break; }
        i := i + 1;
      }
      FirstIs(t, p, i);
    }

    /** ramfs_getfiles: the indices of the named entries, in order. */
    method GetFiles() returns (r: seq<nat>)
      requires Valid()
      ensures r == NamedUpTo(Table(data), |Table(data)|)
    {
      assert NamedUpTo(Table(data), 0) == [];
      hide Rd32, Header.Read, RamFile.Read, TableAt, CStr, NamedUpTo;
      ghost var t := Table(data);
      var max := Header.Read(data).countMax;
      hide Table, Readable;
      r := [];
      var i: nat := 0;
      while i < max
        invariant i <= max == |t| && r == NamedUpTo(t, i)
      {
        NameInPlace(data, i);
        NamedNext(t, i);
        if data[TableAt(i)] != 0 { r := r + [i]; }
        i := i + 1;
      }
    }
  }

  // ---------------------------------------------------------------- virtfs.c

  datatype VfsType = VFS_INVALID | VFS_RAMFS | VFS_FAT

  class Vfs {
    const kind: VfsType
    const letter: Byte
    const fs: RamFs

    constructor (kind: VfsType, letter: Byte, fs: RamFs)
      ensures this.kind == kind && this.letter == letter && this.fs == fs
    {
      this.kind, this.letter, this.fs := kind, letter, fs;
    }
  }

  /** An open file; `None` stands for a null pointer. */
  datatype Handle = None | Open(name: seq<Byte>, hidden: bool, vfs: Vfs, sz: Word, offset: Word)

  predicate IsAlpha(c: Byte)
  {
    'a' as int <= c <= 'z' as int || 'A' as int <= c <= 'Z' as int
  }

  ghost function WithLetter(letter: Byte): Vfs -> bool { (v: Vfs) => v.letter == letter }

  /** The part of a path after the drive, when it starts with a letter, a colon and a slash. */
  predicate HasDrive(p: seq<Byte>)
  {
    |p| >= 3 && p[1] == ':' as int && p[2] == '/' as int && IsAlpha(p[0])
  }

  /** A drive is one of the 26 letters, small or capital, with a colon and a slash after it. */
  lemma DriveIff(p: seq<Byte>)
    ensures HasDrive(p) <==> |p| >= 3 && (65 <= p[0] < 65 + 26 || 97 <= p[0] < 97 + 26) && p[1..3] == [58, 47]
  {
    assert |p| >= 3 ==> p[1..3] == [p[1], p[2]];
  }

  class VirtFs {
    var list: seq<Vfs>

    ghost predicate Valid()
      reads this
    {
      forall v :: v in list && v.kind == VFS_RAMFS ==> v.fs.Valid()
    }

    constructor ()
      ensures Valid() && list == []
    {
      list := [];
    }

    /** virtfs_init: the boot image as drive A. */
    constructor Boot(image: seq<Byte>)
      requires Readable(image)
      ensures Valid() && list != [] && Mount('A' as int) != null
      ensures forall v :: v in list ==> v.fs.data == image
      ensures Mount('A' as int).kind == VFS_RAMFS && Mount('A' as int).fs.data == image
    {
      var fs := new RamFs(image);
      var vfs := new Vfs(VFS_RAMFS, 'A' as int, fs);
      list := [vfs];
      new;
      FirstIs(list, WithLetter('A' as int), 0);
    }

    method Register(vfs: Vfs?) returns (halted: bool)
      requires Valid() && (vfs != null && vfs.kind == VFS_RAMFS ==> vfs.fs.Valid())
      modifies this
      ensures Valid() && (halted <==> vfs == null)
      ensures list == if vfs == null then old(list) else old(list) + [vfs]
    {
      if vfs == null { return true; }
      list := list + [vfs];
      halted := false;
    }

    /** virtfs_from_letter: the first filesystem registered under the letter. */
    method FromLetter(letter: Byte) returns (vfs: Vfs?)
      ensures vfs == Mount(letter)
    {
      var i := 0;
      while i < |list|
        invariant i <= |list| && forall k :: 0 <= k < i ==> !WithLetter(letter)(list[k])
      {
        if list[i].letter == letter {
          FirstIs(list, WithLetter(letter), i);
          return list[i];
        }
        i := i + 1;
      }
      FirstIs(list, WithLetter(letter), i);
      vfs := null;
    }

    ghost function Mount(letter: Byte): (v: Vfs?)
      reads this
    {
      var k := First(list, WithLetter(letter));
      if k < |list| then list[k] else null
    }

    /** The first file system registered under the letter, or none. */
    lemma MountIs(letter: Byte) returns (k: nat)
      ensures k <= |list| && forall j :: 0 <= j < k ==> list[j].letter != letter
      ensures if k == |list| then Mount(letter) == null else Mount(letter) == list[k] && list[k].letter == letter
    {
      k := First(list, WithLetter(letter));
      assert forall j :: 0 <= j < k ==> !WithLetter(letter)(list[j]);
      assert k < |list| ==> WithLetter(letter)(list[k]);
    }

    method FromPath(path: seq<Byte>) returns (vfs: Vfs?)
      requires 0 in path
      ensures vfs == if HasDrive(CStr(path)) then Mount(CStr(path)[0]) else null
    {
      FirstZero(path);
      var len := StrLen(path);
      if len < 3 || path[1] != ':' as int || path[2] != '/' as int { return null; }
      if !IsAlpha(path[0]) { return null; }
      vfs := FromLetter(path[0]);
    }

    /** virtfs_fopen: drive, then name; the handle carries what the entry says. */
    method FOpen(fname: seq<Byte>) returns (h: Handle)
      requires Valid() && 0 in fname
      requires |CStr(fname)| < NAME_LEN + 3 || forall v :: v in list && v.kind == VFS_RAMFS ==> Mounted(v.fs.data)
      ensures OpenSpec(CStr(fname), h)
    {
      FirstZero(fname);
      var vfs := FromPath(fname);
      if vfs == null { return None; }
      var len := StrLen(fname);
      var path := fname[3..len] + Zeros(3);
      FirstIs(path, IsZero(), len - 3);
      assert CStr(path) == CStr(fname)[3..] && path[len - 3] == 0;
      if vfs.kind != VFS_RAMFS { return None; }
      assert vfs in list;
      var i := vfs.fs.FOpen(path);
      ghost var t := Table(vfs.fs.data);
      if i == Header.Read(vfs.fs.data).countMax { return None; }
      var file := RamFile.Read(vfs.fs.data, TableAt(i));
      assert file == t[i] && Called(CStr(path))(t[i]);
      NameEnds(vfs.fs.data, i, CStr(path));
      var n := StrLen(file.name);
      h := Open(file.name[..n], file.hidden, vfs, file.size, file.offset);
    }

    /** virtfs_fread: copies sz * nmemb bytes, a 32-bit product, from the start of the file's data. */
    method FRead(dst: array<Byte>, sz: Word, nmemb: Word, file: Handle) returns (written: Word)
      requires file.Open? && file.vfs.kind == VFS_RAMFS ==>
        && U32(sz * nmemb) <= dst.Length && HEADER_SZ <= |file.vfs.fs.data|
        && Header.Read(file.vfs.fs.data).dataOffset + file.offset + U32(sz * nmemb) <= |file.vfs.fs.data|
      modifies dst
      ensures written == if file.None? || file.vfs.kind != VFS_RAMFS then 0 else U32(sz * nmemb)
      ensures written <= dst.Length && dst[written..] == old(dst[written..])
      ensures written > 0 ==>
        var src := Header.Read(file.vfs.fs.data).dataOffset + file.offset;
        dst[..written] == file.vfs.fs.data[src..src + written]
    {
      if file.None? || sz == 0 || nmemb == 0 { return 0; }
      written := 0;
      if file.vfs.kind == VFS_RAMFS {
        var data := file.vfs.fs.data;
        var src := Header.Read(data).dataOffset + file.offset;
        while written < U32(sz * nmemb)
          invariant written <= U32(sz * nmemb)
          invariant forall k :: 0 <= k < written ==> dst[k] == data[src + k]
          invariant forall k :: written <= k < dst.Length ==> dst[k] == old(dst[k])
        {
          dst[written] := data[src + written];
          written := written + 1;
        }
      }
    }

    /** What opening path `p` must give. */
    ghost predicate OpenSpec(p: seq<Byte>, h: Handle)
      requires Valid()
      reads this
    {
      if !HasDrive(p) || Mount(p[0]) == null || Mount(p[0]).kind != VFS_RAMFS || |p| == 3 then h == None
      else
        var v := Mount(p[0]);
        var d := v.fs.data;
        var i := Lookup(d, p[3..]);
        if i == |Table(d)| then h == None
        else h == Open(p[3..], Table(d)[i].hidden, v, Table(d)[i].size, Table(d)[i].offset)
    }
  }

  lemma OpenFound(v: VirtFs, p: seq<Byte>, d: seq<Byte>, i: nat, h: Handle)
    requires v.Valid() && HasDrive(p) && |p| > 3 && v.OpenSpec(p, h)
    requires v.Mount(p[0]) != null && v.Mount(p[0]).kind == VFS_RAMFS && v.Mount(p[0]).fs.data == d
    requires Readable(d) && i < |Table(d)| && Lookup(d, p[3..]) == i
    ensures h == Open(p[3..], Table(d)[i].hidden, v.Mount(p[0]), Table(d)[i].size, Table(d)[i].offset)
  {
  }

  lemma ContentsOnlyRange(d: seq<Byte>, f: RamFile, g: RamFile, data: seq<Byte>)
    requires HEADER_SZ <= |d| && Contents(d, f, data) && f.offset == g.offset && f.size == g.size
    ensures Contents(d, g, data)
  {
  }

  /** A file added by the image builder opens under its drive path, with a handle on exactly its bytes. */
  lemma AddedFileOpens(v: VirtFs, s: Shape, fs: seq<File>, d: seq<Byte>, i: nat, p: seq<Byte>, h: Handle)
    requires v.Valid() && Represents(s, fs, d) && DistinctNames(fs) && i < |fs|
    requires HasDrive(p) && p[3..] == fs[i].name
    requires v.Mount(p[0]) != null && v.Mount(p[0]).kind == VFS_RAMFS && v.Mount(p[0]).fs.data == d
    requires v.OpenSpec(p, h)
    ensures h.Open? && h.name == fs[i].name && h.hidden == fs[i].hidden && h.sz == |fs[i].data|
    ensures h.vfs == v.Mount(p[0])
    ensures HEADER_SZ <= |d| && Contents(d, RamFile([], false, h.offset, h.sz), fs[i].data)
  {
    ImageRoundTrip(s, fs, d, i);
    assert WellFormed(fs[i]) && HEADER_SZ <= |d|;
    hide Represents, Lookup, Table, Contents, Header.Read;
    OpenFound(v, p, d, i, h);
    ContentsOnlyRange(d, Table(d)[i], RamFile([], false, h.offset, h.sz), fs[i].data);
  }

  lemma ContentsRange(d: seq<Byte>, f: RamFile, data: seq<Byte>)
    requires HEADER_SZ <= |d| && Contents(d, f, data)
    ensures Header.Read(d).dataOffset + f.offset + f.size <= |d| && |data| == f.size
    ensures var src := Header.Read(d).dataOffset + f.offset; d[src..src + f.size] == data
  {
  }

  /** The handle reads the range of the image that holds `bytes`. */
  ghost predicate ReadsAs(h: Handle, image: seq<Byte>, bytes: seq<Byte>)
  {
    && h.Open? && h.vfs.kind == VFS_RAMFS && h.vfs.fs.data == image && HEADER_SZ <= |image| && h.sz == |bytes|
    && Header.Read(image).dataOffset + h.offset + h.sz <= |image|
    && image[Header.Read(image).dataOffset + h.offset..Header.Read(image).dataOffset + h.offset + h.sz] == bytes
  }

  lemma HandleReads(v: VirtFs, s: Shape, fs: seq<File>, d: seq<Byte>, i: nat, p: seq<Byte>, h: Handle)
    requires v.Valid() && Represents(s, fs, d) && DistinctNames(fs) && i < |fs|
    requires HasDrive(p) && p[3..] == fs[i].name
    requires v.Mount(p[0]) != null && v.Mount(p[0]).kind == VFS_RAMFS && v.Mount(p[0]).fs.data == d
    requires v.OpenSpec(p, h)
    ensures ReadsAs(h, d, fs[i].data)
  {
    AddedFileOpens(v, s, fs, d, i, p, h);
    hide Represents, Contents, Header.Read;
    ContentsRange(d, RamFile([], false, h.offset, h.sz), fs[i].data);
  }

  /** Boots from an image and opens a file that was added to it. */
  method OpenAdded(image: seq<Byte>, path: seq<Byte>, ghost s: Shape, ghost fs: seq<File>, ghost i: nat)
    returns (v: VirtFs, h: Handle)
    requires Represents(s, fs, image) && DistinctNames(fs) && i < |fs|
    requires 0 in path && CStr(path) == ['A' as int, ':' as int, '/' as int] + fs[i].name
    ensures ReadsAs(h, image, fs[i].data)
  {
    hide Represents, ReadsAs, Mounted;
    ImageMounts(s, fs, image);
    v := new VirtFs.Boot(image);
    h := v.FOpen(path);
    assert CStr(path)[3..] == fs[i].name && HasDrive(CStr(path));
    HandleReads(v, s, fs, image, i, CStr(path), h);
  }

  /** One read of the whole file. */
  method ReadAll(v: VirtFs, dst: array<Byte>, h: Handle, ghost image: seq<Byte>, ghost bytes: seq<Byte>)
    requires ReadsAs(h, image, bytes) && dst.Length == |bytes| > 0
    modifies dst
    ensures dst[..] == bytes
  {
    hide Header.Read;
    var n := v.FRead(dst, h.sz, 1, h);
    assert dst[..] == dst[..n];
  }

  /** From the tool to the kernel: booted from an image, the kernel reads back exactly the bytes of a file added to
      it. */
  method ReadBack(image: seq<Byte>, path: seq<Byte>, dst: array<Byte>,
                  ghost s: Shape, ghost fs: seq<File>, ghost i: nat)
    requires Represents(s, fs, image) && DistinctNames(fs) && i < |fs|
    requires 0 in path && CStr(path) == ['A' as int, ':' as int, '/' as int] + fs[i].name
    requires dst.Length == |fs[i].data|
    modifies dst
    ensures dst[..] == fs[i].data
  {
    assert WellFormed(fs[i]);
    hide Represents, Header.Read;
    var v, h := OpenAdded(image, path, s, fs, i);
    ReadAll(v, dst, h, image, fs[i].data);
  }
}
