/** The initrd image: the packer that writes it and the kernel's reader, which must undo it. */
module Initrd {
  import opened Bytes

  const HEADER_SIZE: nat := 8
  const ENTRY_SIZE: nat := 40
  const NAME_SIZE: nat := 32
  const SLASH: byte := 47
  const MAGIC: seq<byte> := [68, 70, 83, 49]

  datatype File = File(path: seq<byte>, data: seq<byte>)

  // ---------------------------------------------------------------- the image

  /** The cast to `uint32_t`. */
  function Low32(n: nat): (r: nat)
    ensures r < U32
  {
    n % U32
  }

  /** What follows the last slash of the path. */
  function BaseName(path: seq<byte>): seq<byte> {
    if |path| == 0 || path[|path| - 1] == SLASH then []
    else BaseName(path[..|path| - 1]) + [path[|path| - 1]]
  }

  /** The base name is the longest end of the path without a slash. */
  lemma {:induction false} BaseNameIsLast(path: seq<byte>)
    ensures var b := BaseName(path);
      && |b| <= |path| && b == path[|path| - |b|..] && 47 !in b
      && (|b| < |path| ==> path[|path| - |b| - 1] == 47)
  {
    if |path| > 0 && path[|path| - 1] != SLASH {
      BaseNameIsLast(path[..|path| - 1]);
    }
  }

  /** At most 31 bytes of the name, filled up with zeros to 32. */
  function Padded(name: seq<byte>): (s: seq<byte>)
    ensures |s| == NAME_SIZE
  {
    var n := if |name| < NAME_SIZE then |name| else NAME_SIZE - 1;
    name[..n] + Zeros(NAME_SIZE - n)
  }

  function EntryBytes(f: File, offset: nat): (s: seq<byte>)
    ensures |s| == ENTRY_SIZE
  {
    Padded(BaseName(f.path)) + EncodeLE(Low32(offset), 4) + EncodeLE(Low32(|f.data|), 4)
  }

  function Table(files: seq<File>, offset: nat): (s: seq<byte>)
    ensures |s| == 40 * |files|
    decreases files
  {
    if |files| == 0 then []
    else EntryBytes(files[0], offset) + Table(files[1..], offset + |files[0].data|)
  }

  function Data(files: seq<File>): seq<byte> {
    if |files| == 0 then [] else files[0].data + Data(files[1..])
  }

  /** Where the bytes of file `i` start in the data part. */
  function Offset(files: seq<File>, i: nat): nat
    requires i <= |files|
  {
    |Data(files[..i])|
  }

  function Image(files: seq<File>): seq<byte> {
    MAGIC + EncodeLE(Low32(|files|), 4) + Table(files, 0) + Data(files)
  }

  /** The address of entry `i` of a table. */
  function Slot(table: nat, i: nat): nat {
    table + 40 * i
  }

  /** The three fields of an entry at `p`. */
  function NameField(m: seq<byte>, p: nat): seq<byte>
    requires p + ENTRY_SIZE <= |m|
  {
    m[p..p + NAME_SIZE]
  }

  function OffsetField(m: seq<byte>, p: nat): nat
    requires p + ENTRY_SIZE <= |m|
  {
    DecodeLE(m[p + 32..p + 36])
  }

  function SizeField(m: seq<byte>, p: nat): nat
    requires p + ENTRY_SIZE <= |m|
  {
    DecodeLE(m[p + 36..p + 40])
  }

  // ---------------------------------------------------------------- facts about the image

  lemma {:induction false} DataConcat(x: seq<File>, y: seq<File>)
    ensures Data(x + y) == Data(x) + Data(y)
  {
    if |x| == 0 {
      assert x + y == y;
    } else {
      assert (x + y)[1..] == x[1..] + y;
      DataConcat(x[1..], y);
    }
  }

  /** The bytes of file `i` are in the data part, at its offset. */
  lemma DataAt(files: seq<File>, i: nat)
    requires i < |files|
    ensures var o := Offset(files, i);
      o + |files[i].data| <= |Data(files)| && Data(files)[o..o + |files[i].data|] == files[i].data
  {
    var pre, f, post := files[..i], files[i], files[i + 1..];
    assert files == pre + ([f] + post);
    DataConcat(pre, [f] + post);
    assert ([f] + post)[1..] == post;
    assert Data([f] + post) == f.data + Data(post);
  }

  /** Entry `i` of the table is that of file `i`, with its offset modulo 2^32. */
  lemma {:induction false} TableAt(files: seq<File>, offset: nat, i: nat)
    requires i < |files|
    ensures Table(files, offset)[40 * i..40 * i + ENTRY_SIZE]
         == EntryBytes(files[i], offset + Offset(files, i))
    decreases files
  {
    hide Table, EntryBytes, Data, Offset;
    var e, t' := EntryBytes(files[0], offset), Table(files[1..], offset + |files[0].data|);
    TableUnfold(files, offset);
    OffsetStep(files, i);
    EntrySlice(e, t', i, |files|);
    if i > 0 {
      TableAt(files[1..], offset + |files[0].data|, i - 1);
    }
  }

  lemma TableUnfold(files: seq<File>, offset: nat)
    requires |files| > 0
    ensures Table(files, offset) == EntryBytes(files[0], offset) + Table(files[1..], offset + |files[0].data|)
  {
  }

  lemma EntrySlice(e: seq<byte>, t: seq<byte>, i: nat, n: nat)
    requires i < n && |e| == ENTRY_SIZE && |t| == 40 * (n - 1)
    ensures (e + t)[40 * i..40 * i + ENTRY_SIZE]
         == if i == 0 then e else t[40 * (i - 1)..40 * (i - 1) + ENTRY_SIZE]
  {
    if i == 0 {
      assert (e + t)[0..ENTRY_SIZE] == e;
    } else {
      TailSlice(e, t, 40 * (i - 1), 40 * i);
    }
  }

  lemma OffsetStep(files: seq<File>, i: nat)
    requires i < |files|
    ensures Offset(files, i) == if i == 0 then 0 else |files[0].data| + Offset(files[1..], i - 1)
  {
    if i > 0 {
      assert files[..i][1..] == files[1..][..i - 1];
    }
  }

  lemma TailSlice(x: seq<byte>, y: seq<byte>, a: nat, b: nat)
    requires a <= b <= |y|
    ensures (x + y)[|x| + a..|x| + b] == y[a..b]
  {
  }

  /** Two parts in a row in memory. */
  lemma TwoParts(m: seq<byte>, addr: nat, x: seq<byte>, y: seq<byte>)
    requires addr + |x| + |y| <= |m| && m[addr..addr + |x| + |y|] == x + y
    ensures m[addr..addr + |x|] == x
    ensures m[addr + |x|..addr + |x| + |y|] == y
  {
    var n := |x| + |y|;
    SliceOfSlice(m, addr, addr + n, 0, |x|);
    SliceOfSlice(m, addr, addr + n, |x|, n);
    assert (x + y)[0..|x|] == x && (x + y)[|x|..n] == y;
  }

  lemma EntryFields(f: File, offset: nat)
    ensures var e := EntryBytes(f, offset);
      && NameField(e, 0) == Padded(BaseName(f.path))
      && OffsetField(e, 0) == Low32(offset)
      && SizeField(e, 0) == Low32(|f.data|)
  {
    hide EncodeLE, DecodeLE, Padded, BaseName, Low32;
    var a, b, c := Padded(BaseName(f.path)), EncodeLE(Low32(offset), 4), EncodeLE(Low32(|f.data|), 4);
    FieldSlices(a, b, c);
    DecodeEncode32(Low32(offset));
    DecodeEncode32(Low32(|f.data|));
  }

  lemma FieldSlices(a: seq<byte>, b: seq<byte>, c: seq<byte>)
    requires |a| == 32 && |b| == 4 && |c| == 4
    ensures (a + b + c)[0..32] == a && (a + b + c)[32..36] == b && (a + b + c)[36..40] == c
  {
  }

  lemma PaddedShorter(a: seq<byte>, b: seq<byte>)
    requires |a| < |b| < NAME_SIZE && 0 !in b
    ensures Padded(a) != Padded(b)
  {
    assert Padded(a)[|a|] == 0;
    assert Padded(b)[|a|] == b[|a|] && b[|a|] in b;
  }

  /** Names without zero bytes and of at most 31 bytes are told apart by their padded form. */
  lemma PaddedInjective(a: seq<byte>, b: seq<byte>)
    requires |a| < NAME_SIZE && |b| < NAME_SIZE && 0 !in a && 0 !in b
    ensures Padded(a) == Padded(b) <==> a == b
  {
    if |a| < |b| {
      PaddedShorter(a, b);
    } else if |b| < |a| {
      PaddedShorter(b, a);
    } else {
      assert a == Padded(a)[..|a|] && b == Padded(b)[..|b|];
    }
  }

  // ---------------------------------------------------------------- the packer

  /** Appends a file in pieces of at most 4096 bytes. */
  method AppendFile(image: seq<byte>, data: seq<byte>) returns (out: seq<byte>)
    ensures out == image + data
  {
    out := image;
    var done := 0;
    while done < |data|
      invariant 0 <= done <= |data| && out == image + data[..done]
    {
      var n := if |data| - done < 4096 then |data| - done else 4096;
      assert data[..done + n] == data[..done] + data[done..done + n];
      out := out + data[done..done + n];
      done := done + n;
    }
    assert data[..done] == data;
  }

  method WriteTable(image: seq<byte>, files: seq<File>) returns (out: seq<byte>)
    ensures out == image + Table(files, 0)
  {
    hide Table, EntryBytes;
    out := image;
    var runningOffset := 0;
    ghost var total := 0;
    assert files[0..] == files;
    for i := 0 to |files|
      invariant 0 <= total && runningOffset == Low32(total)
      invariant out + Table(files[i..], total) == image + Table(files, 0)
    {
      var entry := OneEntry(files[i], runningOffset, total);
      TableStep(files, i, total);
      Regroup(out, entry, Table(files[i + 1..], total + |files[i].data|));
      out := out + entry;
      ModSum(total, |files[i].data|);
      runningOffset := Low32(runningOffset + Low32(|files[i].data|));
      total := total + |files[i].data|;
    }
    NoTable(files[|files|..], total);
    assert out + [] == out;
  }

  /** A table entry: name, running offset and size, the numbers cut to 32 bits. */
  method OneEntry(f: File, runningOffset: nat, ghost total: nat) returns (entry: seq<byte>)
    requires runningOffset == Low32(total)
    ensures entry == EntryBytes(f, total)
  {
    entry := Padded(BaseName(f.path)) + EncodeLE(runningOffset, 4) + EncodeLE(Low32(|f.data|), 4);
  }

  lemma NoTable(files: seq<File>, total: nat)
    requires |files| == 0
    ensures Table(files, total) == []
  {
  }

  lemma Regroup(x: seq<byte>, y: seq<byte>, z: seq<byte>)
    ensures x + (y + z) == (x + y) + z
  {
  }

  lemma TableStep(files: seq<File>, i: nat, total: nat)
    requires i < |files|
    ensures Table(files[i..], total)
         == EntryBytes(files[i], total) + Table(files[i + 1..], total + |files[i].data|)
  {
    hide Table, EntryBytes;
    assert files[i..][0] == files[i] && files[i..][1..] == files[i + 1..];
    TableUnfold(files[i..], total);
  }

  lemma ModSum(a: nat, b: nat)
    ensures Low32(Low32(a) + Low32(b)) == Low32(a + b)
  {
  }

  lemma DataStep(files: seq<File>, i: nat)
    requires i < |files|
    ensures Data(files[i..]) == files[i].data + Data(files[i + 1..])
  {
    assert files[i..][0] == files[i] && files[i..][1..] == files[i + 1..];
  }

  lemma DataEnds(files: seq<File>)
    ensures Data(files[|files|..]) == []
  {
  }

  /** `main` of the packer: header, table, data. */
  method Pack(files: seq<File>) returns (out: seq<byte>)
    ensures out == Image(files)
  {
    hide Data, Table, EncodeLE;
    out := WriteTable(MAGIC + EncodeLE(Low32(|files|), 4), files);
    assert files[0..] == files;
    ghost var front := out;
    for i := 0 to |files|
      invariant out + Data(files[i..]) == front + Data(files)
    {
      DataStep(files, i);
      Regroup(out, files[i].data, Data(files[i + 1..]));
      out := AppendFile(out, files[i].data);
    }
    DataEnds(files);
    assert out + [] == out;
  }

  // ---------------------------------------------------------------- the reader

  /** `memcmp` up to its sign: the index of the first difference decides. */
  method Memcmp(a: seq<byte>, b: seq<byte>, n: nat) returns (r: int)
    requires n <= |a| && n <= |b|
    ensures r == 0 <==> a[..n] == b[..n]
    ensures r > 0 ==> exists k :: 0 <= k < n && a[..k] == b[..k] && a[k] > b[k]
    ensures r < 0 ==> exists k :: 0 <= k < n && a[..k] == b[..k] && a[k] < b[k]
  {
    for i := 0 to n
      invariant a[..i] == b[..i]
    {
      if a[i] > b[i] {
        assert a[..n][i] != b[..n][i];
        return 1;
      } else if a[i] < b[i] {
        assert a[..n][i] != b[..n][i];
        return -1;
      }
    }
    return 0;
  }

  /** Entry `j` of the table at `table` has the name `name`. */
  predicate Named(m: seq<byte>, table: nat, j: nat, name: seq<byte>) {
    Slot(table, j) + ENTRY_SIZE <= |m| && NameField(m, Slot(table, j)) == name
  }

  /** Entry `i` is the first one with this name. */
  ghost predicate FirstMatch(m: seq<byte>, table: nat, name: seq<byte>, i: nat) {
    Named(m, table, i, name) && forall j: nat :: j < i ==> !Named(m, table, j, name)
  }

  class FileSystem {
    /** Memory as the kernel sees it; the reader changes none of it. */
    const mem: seq<byte>
    var entries: nat
    var data: nat
    var count: nat

    constructor (memory: seq<byte>)
      ensures mem == memory && count == 0
    {
      mem := memory;
      entries, data, count := 0, 0, 0;
    }

    /** Mounts the image at `addr`, if it has the right magic. */
    method FsInit(addr: nat)
      requires addr + HEADER_SIZE <= |mem|
      modifies this
      ensures mem[addr..addr + 4] != [68, 70, 83, 49] ==> count == 0 && entries == old(entries) && data == old(data)
      ensures mem[addr..addr + 4] == [68, 70, 83, 49] ==>
        && count == DecodeLE(mem[addr + 4..addr + 8]) == HalfWord(mem[addr + 4..addr + 8])
        && entries == addr + 8 && data == entries + 40 * count
    {
      var differs := Memcmp(mem[addr..addr + 4], MAGIC, 4);
      assert mem[addr..addr + 4][..4] == mem[addr..addr + 4] && MAGIC[..4] == MAGIC;
      if differs != 0 {
        count := 0;
        return;
      }
      DecodeFour(mem[addr + 4..addr + 8]);
      count := DecodeLE(mem[addr + 4..addr + 8]);
      entries := addr + HEADER_SIZE;
      data := entries + 40 * count;
    }

    /** The address of the first entry with this name, or none. */
    method FsRead(name: seq<byte>) returns (found: bool, entry: nat)
      requires |name| == NAME_SIZE && entries + 40 * count <= |mem|
      ensures found ==> exists i: nat :: i < count && entry == Slot(entries, i) && FirstMatch(mem, entries, name, i)
      ensures !found ==> forall j: nat :: j < count ==> !Named(mem, entries, j, name)
    {
      var current := entries;
      for i := 0 to count
        invariant current == entries + 40 * i
        invariant forall j: nat :: j < i ==> !Named(mem, entries, j, name)
      {
        var field := mem[current..current + NAME_SIZE];
        var differs := Memcmp(field, name, NAME_SIZE);
        assert field[..NAME_SIZE] == field && name[..NAME_SIZE] == name;
        if differs == 0 {
          assert FirstMatch(mem, entries, name, i);
          return true, current;
        }
        current := current + ENTRY_SIZE;
      }
      return false, 0;
    }

    function FsGetData(entry: nat): nat
      requires entry + ENTRY_SIZE <= |mem|
      reads this
    {
      data + OffsetField(mem, entry)
    }

    function EntrySize(entry: nat): nat
      requires entry + ENTRY_SIZE <= |mem|
    {
      SizeField(mem, entry)
    }
  }

  // ---------------------------------------------------------------- round trip

  /** The image of `files` lies in memory at `addr`. */
  predicate Loaded(m: seq<byte>, addr: nat, files: seq<File>) {
    |files| < U32 && addr + |Image(files)| <= |m| && m[addr..addr + |Image(files)|] == Image(files)
  }

  lemma ImageParts(m: seq<byte>, addr: nat, files: seq<File>)
    requires Loaded(m, addr, files)
    ensures var t := addr + HEADER_SIZE; var d := t + 40 * |files|;
      && d + |Data(files)| <= |m|
      && m[addr..addr + 4] == MAGIC && DecodeLE(m[addr + 4..addr + 8]) == |files|
      && m[t..d] == Table(files, 0) && m[d..d + |Data(files)|] == Data(files)
  {
    hide Table, Data, EncodeLE, DecodeLE;
    FourParts(m, addr, MAGIC, EncodeLE(Low32(|files|), 4), Table(files, 0), Data(files));
    DecodeEncode32(|files|);
  }

  lemma FourParts(m: seq<byte>, addr: nat, a: seq<byte>, b: seq<byte>, c: seq<byte>, d: seq<byte>)
    requires addr + |a + b + c + d| <= |m| && m[addr..addr + |a + b + c + d|] == a + b + c + d
    ensures m[addr..addr + |a|] == a
    ensures m[addr + |a|..addr + |a| + |b|] == b
    ensures m[addr + |a| + |b|..addr + |a| + |b| + |c|] == c
    ensures m[addr + |a| + |b| + |c|..addr + |a| + |b| + |c| + |d|] == d
  {
    TwoParts(m, addr, a + b + c, d);
    TwoParts(m, addr, a + b, c);
    TwoParts(m, addr, a, b);
  }

  /** The fields of entry `i` in memory. */
  lemma EntryInMemory(m: seq<byte>, addr: nat, files: seq<File>, i: nat)
    requires Loaded(m, addr, files) && i < |files|
    ensures var p := Slot(addr + HEADER_SIZE, i);
      && p + ENTRY_SIZE <= Slot(addr + HEADER_SIZE, |files|) <= |m|
      && NameField(m, p) == Padded(BaseName(files[i].path))
      && OffsetField(m, p) == Low32(Offset(files, i))
      && SizeField(m, p) == Low32(|files[i].data|)
  {
    hide Image, Loaded, EntryBytes, Offset, Padded, BaseName, Low32, NameField, OffsetField, SizeField, Slot;
    EntryAt(m, addr, files, i);
    EntryFields(files[i], Offset(files, i));
    FieldsOf(m, Slot(addr + HEADER_SIZE, i), EntryBytes(files[i], Offset(files, i)));
  }

  /** Entry `i` in memory, as one piece. */
  lemma EntryAt(m: seq<byte>, addr: nat, files: seq<File>, i: nat)
    requires Loaded(m, addr, files) && i < |files|
    ensures var p := Slot(addr + HEADER_SIZE, i);
      && p + ENTRY_SIZE <= Slot(addr + HEADER_SIZE, |files|) <= |m|
      && m[p..p + ENTRY_SIZE] == EntryBytes(files[i], Offset(files, i))
  {
    hide Image, Loaded, EntryBytes, Offset, Table, Data, DecodeLE;
    var t, a, n := addr + HEADER_SIZE, 40 * i, 40 * |files|;
    assert a + 40 <= n;
    ImageParts(m, addr, files);
    TableAt(files, 0, i);
    SliceOfSlice(m, t, t + n, a, a + ENTRY_SIZE);
  }

  lemma FieldsOf(m: seq<byte>, p: nat, e: seq<byte>)
    requires p + ENTRY_SIZE <= |m| && m[p..p + ENTRY_SIZE] == e
    ensures NameField(m, p) == NameField(e, 0)
    ensures OffsetField(m, p) == OffsetField(e, 0) && SizeField(m, p) == SizeField(e, 0)
  {
    hide DecodeLE;
    SliceOfSlice(m, p, p + ENTRY_SIZE, 0, NAME_SIZE);
    SliceOfSlice(m, p, p + ENTRY_SIZE, 32, 36);
    SliceOfSlice(m, p, p + ENTRY_SIZE, 36, 40);
  }

  /** The bytes of file `i` lie at its offset behind the table. */
  lemma DataInMemory(m: seq<byte>, addr: nat, files: seq<File>, i: nat)
    requires Loaded(m, addr, files) && i < |files|
    ensures var d := Slot(addr + HEADER_SIZE, |files|); var o := d + Offset(files, i);
      o + |files[i].data| <= |m| && m[o..o + |files[i].data|] == files[i].data
  {
    hide Table, Data, Image, Offset, DecodeLE;
    ImageParts(m, addr, files);
    DataAt(files, i);
    var d, o, n := addr + HEADER_SIZE + 40 * |files|, Offset(files, i), |files[i].data|;
    SliceOfSlice(m, d, d + |Data(files)|, o, o + n);
  }

  /** The four fields of an entry, byte by byte: at most 31 bytes of the name and zeros, then offset and size. */
  ghost predicate EntryLayout(m: seq<byte>, p: nat, name: seq<byte>, offset: nat, size: nat) {
    && p + 40 <= |m|
    && (forall k :: 0 <= k < 32 ==> m[p..p + 32][k] == if k < |name| && k < 31 then name[k] else 0)
    && HalfWord(m[p + 32..p + 36]) == offset % 0x1_0000_0000
    && HalfWord(m[p + 36..p + 40]) == size % 0x1_0000_0000
  }

  /** The sizes of the files before file `i`, added up. */
  function SizeBefore(files: seq<File>, i: nat): nat
    requires i <= |files|
  {
    if i == 0 then 0 else SizeBefore(files, i - 1) + |files[i - 1].data|
  }

  lemma {:induction false} OffsetIsSum(files: seq<File>, i: nat)
    requires i <= |files|
    ensures Offset(files, i) == SizeBefore(files, i)
  {
    if i > 0 {
      OffsetIsSum(files, i - 1);
      var pre, f := files[..i - 1], files[i - 1];
      assert files[..i] == pre + [f];
      DataConcat(pre, [f]);
      assert [f][1..] == [];
      assert Data([f]) == f.data;
    }
  }

  /**
   The image byte by byte: "DFS1", the number of files, an entry of 40 bytes for each file, and behind the last entry
   the files one after the other.
   */
  lemma ImageLayout(m: seq<byte>, addr: nat, files: seq<File>, i: nat)
    requires Loaded(m, addr, files) && i < |files|
    ensures addr + 8 + 40 * |files| + SizeBefore(files, i) + |files[i].data| <= |m|
    ensures m[addr..addr + 4] == [68, 70, 83, 49] && HalfWord(m[addr + 4..addr + 8]) == |files|
    ensures EntryLayout(m, addr + 8 + 40 * i, BaseName(files[i].path), SizeBefore(files, i), |files[i].data|)
    ensures var d := addr + 8 + 40 * |files| + SizeBefore(files, i);
      m[d..d + |files[i].data|] == files[i].data
  {
    hide Image, Loaded, EntryBytes, Offset, Table, Data, DecodeLE, BaseName, HalfWord, EntryLayout, SizeBefore;
    ImageParts(m, addr, files);
    DecodeFour(m[addr + 4..addr + 8]);
    OffsetIsSum(files, i);
    DataInMemory(m, addr, files, i);
    EntryInMemory(m, addr, files, i);
    hide Padded, NameField, OffsetField, SizeField;
    FieldLayout(m, Slot(addr + HEADER_SIZE, i), BaseName(files[i].path), Offset(files, i), |files[i].data|);
  }

  lemma FieldLayout(m: seq<byte>, p: nat, name: seq<byte>, offset: nat, size: nat)
    requires p + 40 <= |m| && NameField(m, p) == Padded(name)
    requires OffsetField(m, p) == Low32(offset) && SizeField(m, p) == Low32(size)
    ensures EntryLayout(m, p, name, offset, size)
  {
    hide Padded, DecodeLE, HalfWord;
    DecodeFour(m[p + 32..p + 36]);
    DecodeFour(m[p + 36..p + 40]);
    PaddedBytes(name);
  }

  lemma PaddedBytes(name: seq<byte>)
    ensures forall k :: 0 <= k < 32 ==> Padded(name)[k] == if k < |name| && k < 31 then name[k] else 0
  {
  }

  /** Files before `i` have other (padded) names. */
  predicate FirstNamed(files: seq<File>, i: nat) {
    i < |files| && forall j :: 0 <= j < i ==> Padded(BaseName(files[j].path)) != Padded(BaseName(files[i].path))
  }

  /** Different base names of at most 31 bytes make every file the first of its name. */
  lemma DistinctNames(files: seq<File>, i: nat)
    requires i < |files|
    requires forall j :: 0 <= j < |files| ==> |BaseName(files[j].path)| < NAME_SIZE && 0 !in BaseName(files[j].path)
    requires forall j, k :: 0 <= j < k < |files| ==> BaseName(files[j].path) != BaseName(files[k].path)
    ensures FirstNamed(files, i)
  {
    forall j | 0 <= j < i
      ensures Padded(BaseName(files[j].path)) != Padded(BaseName(files[i].path))
    {
      PaddedInjective(BaseName(files[j].path), BaseName(files[i].path));
    }
  }

  /**
   Packing, loading at `addr`, mounting and reading: looking up the padded name of file `i` finds its entry, and
   the entry's size and data are those of the file.
   */
  method RoundTrip(files: seq<File>, before: seq<byte>, after: seq<byte>, i: nat)
    returns (size: nat, bytes: seq<byte>)
    requires |files| < U32 && FirstNamed(files, i)
    requires Offset(files, i) + |files[i].data| < U32
    ensures size == |files[i].data| && bytes == files[i].data
  {
    hide Image, Padded, BaseName, Offset, DecodeLE, EncodeLE;
    var image := Pack(files);
    var memory, addr := before + image + after, |before|;
    LoadedHere(before, image, after, files);
    var entry;
    size, bytes, entry := Mounted(memory, addr, files, i);
  }

  lemma LoadedHere(before: seq<byte>, image: seq<byte>, after: seq<byte>, files: seq<File>)
    requires image == Image(files) && |files| < U32
    ensures Loaded(before + image + after, |before|, files)
  {
    hide Image;
    var m := before + image + after;
    assert m[|before|..|before| + |image|] == image;
  }

  /** Entry, size and data of a file that ends below 2^32, without the modulus. */
  lemma MountedEntry(m: seq<byte>, addr: nat, files: seq<File>, i: nat)
    requires Loaded(m, addr, files) && i < |files|
    requires Offset(files, i) + |files[i].data| < U32
    ensures var d, p := Slot(addr + HEADER_SIZE, |files|), Slot(addr + HEADER_SIZE, i);
      && p + ENTRY_SIZE <= d <= |m|
      && SizeField(m, p) == |files[i].data| && d + OffsetField(m, p) + |files[i].data| <= |m|
      && m[d + OffsetField(m, p)..d + OffsetField(m, p) + |files[i].data|] == files[i].data
  {
    hide Image, Loaded, EntryBytes, Offset, Padded, BaseName, Low32, NameField, OffsetField, SizeField, Slot;
    SmallMod(|files[i].data|);
    SmallMod(Offset(files, i));
    EntryInMemory(m, addr, files, i);
    DataInMemory(m, addr, files, i);
  }

  lemma SmallMod(n: nat)
    requires n < U32
    ensures Low32(n) == n
  {
  }

  /** Looking a mounted file up by its padded name. */
  method FindFirst(fs: FileSystem, addr: nat, files: seq<File>, i: nat) returns (entry: nat)
    requires Loaded(fs.mem, addr, files) && i < |files| && FirstNamed(files, i)
    requires fs.count == |files| && fs.entries == addr + HEADER_SIZE
    ensures entry == Slot(addr + HEADER_SIZE, i)
  {
    hide Image, Padded, BaseName, Loaded, Named, FirstNamed, FirstMatch;
    Lookup(fs.mem, addr, files, i);
    FirstIsNamed(fs.mem, fs.entries, Padded(BaseName(files[i].path)), i);
    var name := Padded(BaseName(files[i].path));
    var found;
    found, entry := fs.FsRead(name);
    assert found;
    ghost var k: nat :| k < fs.count && entry == Slot(fs.entries, k) && FirstMatch(fs.mem, fs.entries, name, k);
    FirstIsUnique(fs.mem, fs.entries, name, i, k);
  }

  lemma FirstIsNamed(m: seq<byte>, table: nat, name: seq<byte>, i: nat)
    requires FirstMatch(m, table, name, i)
    ensures Named(m, table, i, name)
  {
    hide Named;
  }

  method ReadEntry(fs: FileSystem, addr: nat, files: seq<File>, i: nat, entry: nat)
    returns (size: nat, bytes: seq<byte>)
    requires Loaded(fs.mem, addr, files) && i < |files| && Offset(files, i) + |files[i].data| < U32
    requires entry == Slot(addr + HEADER_SIZE, i)
    requires fs.data == Slot(addr + HEADER_SIZE, |files|)
    ensures size == |files[i].data| && bytes == files[i].data
  {
    hide Image, Loaded, EntryBytes, Offset, Padded, BaseName, Low32, NameField, OffsetField, SizeField, Slot;
    MountedEntry(fs.mem, addr, files, i);
    size := fs.EntrySize(entry);
    var start := fs.FsGetData(entry);
    bytes := fs.mem[start..start + size];
  }

  /** Mounting the image at `addr` and reading file `i` by name. */
  method Mounted(memory: seq<byte>, addr: nat, files: seq<File>, i: nat)
    returns (size: nat, bytes: seq<byte>, entry: nat)
    requires Loaded(memory, addr, files) && FirstNamed(files, i)
    requires Offset(files, i) + |files[i].data| < U32
    ensures size == |files[i].data| && bytes == files[i].data
    ensures entry == Slot(addr + HEADER_SIZE, i)
  {
    hide Image, Padded, BaseName, Offset, DecodeLE, EncodeLE;
    var fs := new FileSystem(memory);
    ImageParts(memory, addr, files);
    fs.FsInit(addr);
    assert fs.count == |files|;
    entry := FindFirst(fs, addr, files, i);
    size, bytes := ReadEntry(fs, addr, files, i, entry);
  }

  lemma FirstIsUnique(m: seq<byte>, table: nat, name: seq<byte>, i: nat, k: nat)
    requires FirstMatch(m, table, name, i) && FirstMatch(m, table, name, k)
    ensures i == k
  {
    hide Named;
  }

  /** Among the entries in memory, the one of a first-named file is the first with its name. */
  lemma Lookup(m: seq<byte>, addr: nat, files: seq<File>, i: nat)
    requires Loaded(m, addr, files) && FirstNamed(files, i)
    ensures Slot(addr + HEADER_SIZE, |files|) <= |m|
    ensures FirstMatch(m, addr + HEADER_SIZE, Padded(BaseName(files[i].path)), i)
  {
    hide Image, Padded, BaseName, Loaded, Named;
    var table, name := addr + HEADER_SIZE, Padded(BaseName(files[i].path));
    NamedInMemory(m, addr, files, i, name);
    forall j: nat | j < i
      ensures !Named(m, table, j, name)
    {
      NamedInMemory(m, addr, files, j, name);
    }
  }

  lemma NamedInMemory(m: seq<byte>, addr: nat, files: seq<File>, j: nat, name: seq<byte>)
    requires Loaded(m, addr, files) && j < |files|
    ensures Slot(addr + HEADER_SIZE, |files|) <= |m|
    ensures Named(m, addr + HEADER_SIZE, j, name) <==> name == Padded(BaseName(files[j].path))
  {
    hide Image, Padded, BaseName, Loaded, NameField, OffsetField, SizeField, Low32, Slot;
    EntryInMemory(m, addr, files, j);
  }
}
