/** The file layout of ELF32 and ELF64 images (gABI, chapters "ELF Header" and "Program Header"), written down
    without the readers of the loader, and what the loader makes of a file laid out so. */
module ElfLayout {
  import opened ElfImage
  import opened Options

  // ---------------------------------------------------------------- fields

  /** The n low bytes of v, least significant first. */
  function LE(v: nat, n: nat): (b: seq<Byte>)
    ensures |b| == n
  {
    if n == 0 then [] else [v % 256] + LE(v / 256, n - 1)
  }

  /** `part` stands in d at p. */
  predicate At(d: seq<Byte>, p: nat, part: seq<Byte>) {
    p + |part| <= |d| && d[p..p + |part|] == part
  }

  lemma Within(d: seq<Byte>, p: nat, part: seq<Byte>, q: nat, sub: seq<Byte>)
    requires At(d, p, part) && At(part, q, sub)
    ensures At(d, p + q, sub)
  {
    forall i | 0 <= i < |sub|
      ensures d[p + q..p + q + |sub|][i] == sub[i]
    {
      assert d[p..p + |part|][q + i] == part[q..q + |sub|][i];
    }
  }

  lemma {:induction false} FirstByte(d: seq<Byte>, p: nat, v: nat, n: nat)
    requires n > 0 && At(d, p, LE(v, n))
    ensures p < |d| && d[p] == v % 256 && At(d, p + 1, LE(v / 256, n - 1))
  {
    var rest := LE(v / 256, n - 1);
    assert LE(v, n) == [v % 256] + rest;
    hide LE;
    assert d[p] == d[p..p + n][0];
    assert d[p + 1..p + n] == d[p..p + n][1..] == rest;
  }

  lemma {:induction false} Read2(d: seq<Byte>, p: nat, v: nat)
    requires At(d, p, LE(v, 2)) && v < 0x1_0000
    ensures p + 2 <= |d| && U16(d, p) == v
  {
    FirstByte(d, p, v, 2);
    FirstByte(d, p + 1, v / 256, 1);
    hide At, LE;
  }

  /** The four low bytes, and those that follow. */
  lemma {:induction false} ReadLow4(d: seq<Byte>, p: nat, v: nat, n: nat) returns (rest: nat)
    requires n >= 4 && At(d, p, LE(v, n))
    ensures p + 4 <= |d| && U32(d, p) + 0x1_0000_0000 * rest == v && At(d, p + 4, LE(rest, n - 4))
  {
    hide At, LE;
    var v1 := v / 256;
    var v2 := v1 / 256;
    var v3 := v2 / 256;
    rest := v3 / 256;
    FirstByte(d, p, v, n);
    FirstByte(d, p + 1, v1, n - 1);
    FirstByte(d, p + 2, v2, n - 2);
    FirstByte(d, p + 3, v3, n - 3);
    assert v == 256 * v1 + v % 256;
    assert v1 == 256 * v2 + v1 % 256;
    assert v2 == 256 * v3 + v2 % 256;
    assert v3 == 256 * rest + v3 % 256;
  }

  lemma {:induction false} Read4(d: seq<Byte>, p: nat, v: nat)
    requires At(d, p, LE(v, 4)) && v < 0x1_0000_0000
    ensures p + 4 <= |d| && U32(d, p) == v
  {
    var rest := ReadLow4(d, p, v, 4);
    hide At, LE, U32;
  }

  lemma {:induction false} Read8(d: seq<Byte>, p: nat, v: nat)
    requires At(d, p, LE(v, 8)) && v < TWO64
    ensures p + 8 <= |d| && U64(d, p) == v
  {
    var high := ReadLow4(d, p, v, 8);
    var rest := ReadLow4(d, p + 4, high, 4);
    hide At, LE, U32;
  }

  // ---------------------------------------------------------------- the file

  type Ident = s: seq<Byte> | |s| == 10 witness seq(10, _ => 0)

  /** The header fields the loader has no use for; `ident` is e_ident from EI_VERSION on. */
  datatype Rest = Rest(ident: Ident, kind: nat, machine: nat, version: nat, entry: nat, shoff: nat, flags: nat,
                       ehsize: nat, shentsize: nat, shnum: nat, shstrndx: nat)

  /** A program header table entry. */
  datatype Phdr = Phdr(kind: nat, flags: nat, offset: nat, vaddr: nat, paddr: nat, filesz: nat, memsz: nat, align: nat)

  /** `gap` lies between header and table, `pad` zero bytes after the fields of each entry, `data` after the table. */
  datatype File = File(is64: bool, rest: Rest, gap: seq<Byte>, pad: nat, entries: seq<Phdr>, data: seq<Byte>)

  function Width(is64: bool): nat {
    if is64 then 8 else 4
  }

  function HeaderSize(is64: bool): nat {
    if is64 then 64 else 52
  }

  function EntrySize(f: File): nat {
    (if f.is64 then 56 else 32) + f.pad
  }

  function TableStart(f: File): nat {
    HeaderSize(f.is64) + |f.gap|
  }

  /** e_ident, e_type, e_machine, e_version and e_entry */
  function Front(f: File): (b: seq<Byte>)
    ensures |b| == 24 + Width(f.is64)
    ensures b[0] == 0x7f && b[1] == 0x45 && b[2] == 0x4c && b[3] == 0x46
    ensures b[4] == (if f.is64 then 2 else 1) && b[5] == 1
  {
    [0x7f, 0x45, 0x4c, 0x46, if f.is64 then 2 else 1, 1] + f.rest.ident
    + LE(f.rest.kind, 2) + LE(f.rest.machine, 2) + LE(f.rest.version, 4) + LE(f.rest.entry, Width(f.is64))
  }

  /** e_shoff, e_flags and e_ehsize */
  function Middle(f: File): (b: seq<Byte>)
    ensures |b| == Width(f.is64) + 6
  {
    LE(f.rest.shoff, Width(f.is64)) + LE(f.rest.flags, 4) + LE(f.rest.ehsize, 2)
  }

  /** e_shentsize, e_shnum and e_shstrndx */
  function Back(f: File): (b: seq<Byte>)
    ensures |b| == 6
  {
    LE(f.rest.shentsize, 2) + LE(f.rest.shnum, 2) + LE(f.rest.shstrndx, 2)
  }

  function HeaderBytes(f: File): (b: seq<Byte>)
    ensures |b| == HeaderSize(f.is64)
  {
    Front(f) + LE(TableStart(f), Width(f.is64)) + Middle(f) + LE(EntrySize(f), 2) + LE(|f.entries|, 2) + Back(f)
  }

  function EntryBytes(is64: bool, e: Phdr): (b: seq<Byte>)
    ensures |b| == if is64 then 56 else 32
  {
    if is64 then
      LE(e.kind, 4) + LE(e.flags, 4) + LE(e.offset, 8) + LE(e.vaddr, 8) + LE(e.paddr, 8) + LE(e.filesz, 8)
      + LE(e.memsz, 8) + LE(e.align, 8)
    else
      LE(e.kind, 4) + LE(e.offset, 4) + LE(e.vaddr, 4) + LE(e.paddr, 4) + LE(e.filesz, 4) + LE(e.memsz, 4)
      + LE(e.flags, 4) + LE(e.align, 4)
  }

  function TableBytes(f: File, n: nat): (b: seq<Byte>)
    requires n <= |f.entries|
    ensures |b| == n * EntrySize(f)
  {
    if n == 0 then []
    else
      assert n * EntrySize(f) == (n - 1) * EntrySize(f) + EntrySize(f);
      TableBytes(f, n - 1) + (EntryBytes(f.is64, f.entries[n - 1]) + Zeros(f.pad))
  }

  function FileBytes(f: File): seq<Byte> {
    HeaderBytes(f) + f.gap + TableBytes(f, |f.entries|) + f.data
  }

  /** Every field fits its width. */
  predicate Encodable(f: File) {
    var limit := if f.is64 then TWO64 else 0x1_0000_0000;
    && TableStart(f) < limit && EntrySize(f) < 0x1_0000 && |f.entries| < 0x1_0000
    && forall e | e in f.entries ::
         e.kind < 0x1_0000_0000 && e.offset < limit && e.paddr < limit && e.filesz < limit && e.memsz < limit
  }

  // ---------------------------------------------------------------- what the loader reads

  lemma {:induction false} HeaderFields(f: File)
    requires Encodable(f)
    ensures var b, w := HeaderBytes(f), Width(f.is64);
            && At(b, 0, Front(f)) && At(b, 24 + w, LE(TableStart(f), w))
            && At(b, 30 + 3 * w, LE(EntrySize(f), 2)) && At(b, 32 + 3 * w, LE(|f.entries|, 2))
  {
    hide LE, Front, Middle, Back;
  }

  lemma {:induction false} TableIsRead(f: File)
    requires Encodable(f) && |FileBytes(f)| >= 0x40
    ensures ReadTable(FileBytes(f)) == Ok(Table(f.is64, TableStart(f), EntrySize(f), |f.entries|))
  {
    var d, b, w := FileBytes(f), HeaderBytes(f), Width(f.is64);
    HeaderFields(f);
    hide LE, Front, HeaderBytes, TableBytes;
    assert At(d, 0, b);
    Within(d, 0, b, 0, Front(f));
    Within(d, 0, b, 24 + w, LE(TableStart(f), w));
    Within(d, 0, b, 30 + 3 * w, LE(EntrySize(f), 2));
    Within(d, 0, b, 32 + 3 * w, LE(|f.entries|, 2));
    assert forall i | 0 <= i < 6 :: d[i] == d[0..|Front(f)|][i];
    Read2(d, 30 + 3 * w, EntrySize(f));
    Read2(d, 32 + 3 * w, |f.entries|);
    hide At, FileBytes, U16, U32, U64;
    if f.is64 {
      Read8(d, 32, TableStart(f));
    } else {
      Read4(d, 28, TableStart(f));
    }
  }

  lemma {:induction false} EntryStands(f: File, n: nat, i: nat)
    requires i < n <= |f.entries|
    ensures At(TableBytes(f, n), i * EntrySize(f), EntryBytes(f.is64, f.entries[i]) + Zeros(f.pad))
  {
    hide EntryBytes, Zeros;
    var sz := EntrySize(f);
    var last := EntryBytes(f.is64, f.entries[n - 1]) + Zeros(f.pad);
    LastLength(f, n - 1);
    assert n * sz == (n - 1) * sz + sz;
    if i < n - 1 {
      EntryStands(f, n - 1, i);
      var part := EntryBytes(f.is64, f.entries[i]) + Zeros(f.pad);
      assert TableBytes(f, n)[i * sz..i * sz + |part|] == TableBytes(f, n - 1)[i * sz..i * sz + |part|];
    } else {
      assert TableBytes(f, n)[(n - 1) * sz..(n - 1) * sz + |last|] == last;
    }
  }

  lemma LastLength(f: File, i: nat)
    requires i < |f.entries|
    ensures |EntryBytes(f.is64, f.entries[i]) + Zeros(f.pad)| == EntrySize(f)
  {
  }

  lemma {:induction false} FieldsOf64(e: Phdr)
    ensures var b := EntryBytes(true, e);
            && At(b, 0, LE(e.kind, 4)) && At(b, 8, LE(e.offset, 8)) && At(b, 24, LE(e.paddr, 8))
            && At(b, 32, LE(e.filesz, 8)) && At(b, 40, LE(e.memsz, 8))
  {
    hide LE;
  }

  lemma {:induction false} FieldsOf32(e: Phdr)
    ensures var b := EntryBytes(false, e);
            && At(b, 0, LE(e.kind, 4)) && At(b, 4, LE(e.offset, 4)) && At(b, 12, LE(e.paddr, 4))
            && At(b, 16, LE(e.filesz, 4)) && At(b, 20, LE(e.memsz, 4))
  {
    hide LE;
  }

  /** Where entry i stands in the file. */
  lemma {:induction false} EntryInTable(f: File, i: nat, at: nat)
    requires i < |f.entries| && at == i * EntrySize(f)
    ensures At(FileBytes(f), TableStart(f) + at, EntryBytes(f.is64, f.entries[i]))
    ensures TableStart(f) + at + EntrySize(f) <= |FileBytes(f)|
  {
    hide EntryBytes, HeaderBytes, TableBytes, Zeros, LE;
    var d, table := FileBytes(f), TableBytes(f, |f.entries|);
    EntryStands(f, |f.entries|, i);
    LastLength(f, i);
    assert At(d, TableStart(f), table);
    var entry, pad := EntryBytes(f.is64, f.entries[i]), Zeros(f.pad);
    Within(d, TableStart(f), table, at, entry + pad);
    assert At(entry + pad, 0, entry);
    AtLength(d, TableStart(f) + at, entry + pad);
    Within(d, TableStart(f) + at, entry + pad, 0, entry);
    hide At;
  }

  lemma AtLength(d: seq<Byte>, p: nat, part: seq<Byte>)
    requires At(d, p, part)
    ensures p + |part| <= |d|
  {
  }

  lemma {:induction false} SegmentIsRead(d: seq<Byte>, t: Table, at: nat, e: Phdr)
    requires At(d, at, EntryBytes(t.is64, e)) && e.kind < 0x1_0000_0000
    requires var limit := if t.is64 then TWO64 else 0x1_0000_0000;
             e.offset < limit && e.paddr < limit && e.filesz < limit && e.memsz < limit
    ensures at + Needed(t) <= |d| && U32(d, at) == e.kind
    ensures ReadSegment(d, t, at) == Segment(e.offset, e.paddr, e.filesz, e.memsz)
  {
    var b := EntryBytes(t.is64, e);
    if t.is64 {
      FieldsOf64(e);
      hide EntryBytes, LE, U32, U64, At;
      Within(d, at, b, 0, LE(e.kind, 4));
      Within(d, at, b, 8, LE(e.offset, 8));
      Within(d, at, b, 24, LE(e.paddr, 8));
      Within(d, at, b, 32, LE(e.filesz, 8));
      Within(d, at, b, 40, LE(e.memsz, 8));
      Read4(d, at, e.kind);
      Read8(d, at + 8, e.offset);
      Read8(d, at + 24, e.paddr);
      Read8(d, at + 32, e.filesz);
      Read8(d, at + 40, e.memsz);
    } else {
      FieldsOf32(e);
      hide EntryBytes, LE, U32, U64, At;
      Within(d, at, b, 0, LE(e.kind, 4));
      Within(d, at, b, 4, LE(e.offset, 4));
      Within(d, at, b, 12, LE(e.paddr, 4));
      Within(d, at, b, 16, LE(e.filesz, 4));
      Within(d, at, b, 20, LE(e.memsz, 4));
      Read4(d, at, e.kind);
      Read4(d, at + 4, e.offset);
      Read4(d, at + 12, e.paddr);
      Read4(d, at + 16, e.filesz);
      Read4(d, at + 20, e.memsz);
    }
  }

  function TableOf(f: File): Table {
    Table(f.is64, TableStart(f), EntrySize(f), |f.entries|)
  }

  lemma TableFits(f: File)
    ensures TableStart(f) + |f.entries| * EntrySize(f) <= |FileBytes(f)|
  {
    hide HeaderBytes, TableBytes;
  }

  lemma {:induction false} EntryIsRead(f: File, i: nat)
    requires Encodable(f) && i < |f.entries| && |FileBytes(f)| < TWO64
    ensures var e := f.entries[i];
            ReadEntry(FileBytes(f), TableOf(f), i)
            == Ok(if e.kind == 1 then Some(Segment(e.offset, e.paddr, e.filesz, e.memsz)) else None)
    ensures TableStart(f) + (i + 1) * EntrySize(f) <= |FileBytes(f)|
  {
    hide FileBytes, EntryBytes, At, U32, ReadSegment, EntryAt, Wrap64;
    var d, t, e := FileBytes(f), TableOf(f), f.entries[i];
    EntryInTable(f, i, i * EntrySize(f));
    assert e in f.entries;
    SegmentIsRead(d, t, TableStart(f) + i * EntrySize(f), e);
    hide Encodable;
    TableFits(f);
    EntryBounds(t, i);
    assert (i + 1) * EntrySize(f) == i * EntrySize(f) + EntrySize(f);
    hide EntrySize, TableStart;
  }

  // ---------------------------------------------------------------- the round trip

  /** Entry e is a PT_LOAD that fits the memory and writes its byte a. */
  predicate Loads(e: Phdr, base: nat, size: nat, a: nat) {
    e.kind == 1 && base <= e.paddr && e.paddr + e.memsz <= base + size && e.paddr <= base + a < e.paddr + e.memsz
  }

  /** `image` is `mem` overlaid by the segments of f in order: the last that writes a byte decides it, with file data
      or, beyond them, zero. */
  ghost predicate ImageOf(f: File, d: seq<Byte>, base: nat, mem: seq<Byte>, image: seq<Byte>) {
    && |image| == |mem|
    && (forall a: nat, i: nat | a < |mem| && i < |f.entries| && Loads(f.entries[i], base, |mem|, a)
                                && (forall j | i < j < |f.entries| :: !Loads(f.entries[j], base, |mem|, a)) ::
          var e := f.entries[i];
          var k := base + a - e.paddr;
          image[a] == if k < e.filesz && e.offset + k < |d| then d[e.offset + k] else 0)
    && (forall a: nat | a < |mem| && (forall i | 0 <= i < |f.entries| :: !Loads(f.entries[i], base, |mem|, a)) ::
          image[a] == mem[a])
  }

  /** What the ELF specification asks of a loadable entry. */
  predicate WellMade(e: Phdr) {
    e.kind == 1 ==> e.offset + e.filesz < TWO64 && e.paddr + e.memsz < TWO64 && e.filesz <= e.memsz
  }

  lemma {:induction false} FileIsSane(f: File)
    requires Encodable(f) && |FileBytes(f)| < TWO64 && forall e | e in f.entries :: WellMade(e)
    ensures Sane(FileBytes(f), TableOf(f))
    ensures forall i | 0 <= i < |f.entries| ::
              EntryInFile(FileBytes(f), TableOf(f), i)
              <==> (f.entries[i].kind == 1 ==> f.entries[i].offset + f.entries[i].filesz <= |FileBytes(f)|)
  {
    var d, t := FileBytes(f), TableOf(f);
    hide ReadEntry, FileBytes, Encodable;
    TableFits(f);
    forall i: nat | i < |f.entries|
      ensures var e := f.entries[i];
              ReadEntry(d, t, i)
              == Ok(if e.kind == 1 then Some(Segment(e.offset, e.paddr, e.filesz, e.memsz)) else None)
      ensures t.phoff + (i + 1) * t.entrySize <= |d| && WellMade(f.entries[i])
    {
      EntryIsRead(f, i);
    }
  }

  lemma {:induction false} CoversIs(f: File, base: nat, size: nat, i: nat, a: nat)
    requires Encodable(f) && |FileBytes(f)| < TWO64 && i < |f.entries|
    ensures Covers(FileBytes(f), TableOf(f), base, size, i, a) <==> Loads(f.entries[i], base, size, a)
    ensures Loads(f.entries[i], base, size, a) ==>
              var d, e := FileBytes(f), f.entries[i];
              var k := base + a - e.paddr;
              ByteOf(d, TableOf(f), base, size, i, a)
              == if k < e.filesz && e.offset + k < |d| then d[e.offset + k] else 0
  {
    hide ReadEntry, FileBytes, Encodable;
    EntryIsRead(f, i);
    hide EntrySize, TableStart;
  }

  /** Loading a file so laid out, of at least 64 bytes, succeeds if and only if the data of every PT_LOAD lie in the
      file, wherever; the memory is then overlaid by exactly the file's segments. */
  lemma {:induction false} LoadsWhatIsEncoded(f: File, base: nat, mem: seq<Byte>)
    requires Encodable(f) && 0x40 <= |FileBytes(f)| < 0x8000_0000_0000_0000 && |mem| < TWO64
    requires forall e | e in f.entries :: WellMade(e)
    ensures var d := FileBytes(f);
            var r := Load(d, base, mem);
            && (r.Ok? <==> forall e | e in f.entries && e.kind == 1 :: e.offset + e.filesz <= |d|)
            && (r.Err? ==> r.error == DataOutOfRange)
            && (r.Ok? ==> ImageOf(f, d, base, mem, r.value))
  {
    var d, t := FileBytes(f), TableOf(f);
    TableIsRead(f);
    FileIsSane(f);
    hide ReadTable, FileBytes, Sane, Encodable, EntryInFile, LoadEntries, Overlaid;
    LoadedImageIsOverlay(d, base, mem);
    var r := Load(d, base, mem);
    if r.Ok? {
      OverlayIsImage(f, base, mem, r.value);
      forall e | e in f.entries && e.kind == 1
        ensures e.offset + e.filesz <= |d|
      {
        var i :| 0 <= i < |f.entries| && f.entries[i] == e;
        assert EntryInFile(d, t, i);
      }
    } else {
      var i :| 0 <= i < t.count && !EntryInFile(d, t, i);
      assert f.entries[i] in f.entries;
      OnlyDataFails(f, base, mem, i);
    }
  }

  lemma {:induction false} OnlyDataFails(f: File, base: nat, mem: seq<Byte>, i: nat)
    requires Encodable(f) && 0x40 <= |FileBytes(f)| < TWO64 && |mem| < TWO64 && i < |f.entries|
    requires (forall e | e in f.entries :: WellMade(e)) && !EntryInFile(FileBytes(f), TableOf(f), i)
    ensures Load(FileBytes(f), base, mem) == Err(DataOutOfRange)
  {
    var d, t := FileBytes(f), TableOf(f);
    FileIsSane(f);
    TableIsRead(f);
    EntryIsRead(f, i);
    hide ReadTable, FileBytes, Sane, Encodable, EntryInFile;
    if j :| 0 <= j < i && !EntryInFile(d, t, j) {
      OnlyDataFails(f, base, mem, j);
    } else {
      FirstBadEntryIsReported(d, base, mem, i);
    }
  }

  lemma {:induction false} ImageByte(f: File, base: nat, mem: seq<Byte>, image: seq<Byte>, i: nat, a: nat)
    requires Encodable(f) && |FileBytes(f)| < TWO64 && a < |mem| && i < |f.entries|
    requires Overlaid(FileBytes(f), TableOf(f), base, mem, |f.entries|, image)
    requires Loads(f.entries[i], base, |mem|, a)
    requires forall j | i < j < |f.entries| :: !Loads(f.entries[j], base, |mem|, a)
    ensures var d, e := FileBytes(f), f.entries[i];
            var k := base + a - e.paddr;
            k >= 0 && image[a] == if k < e.filesz && e.offset + k < |d| then d[e.offset + k] else 0
  {
    hide Covers, ByteOf, FileBytes, Encodable, Loads;
    CoversIs(f, base, |mem|, i, a);
    LoadsAbove(f.entries[i], base, |mem|, a);
    forall j | i < j < |f.entries|
      ensures !Covers(FileBytes(f), TableOf(f), base, |mem|, j, a)
    {
      CoversIs(f, base, |mem|, j, a);
    }
    assert LastCover(FileBytes(f), TableOf(f), base, |mem|, |f.entries|, i, a);
  }

  lemma {:induction false} ImageRest(f: File, base: nat, mem: seq<Byte>, image: seq<Byte>, a: nat)
    requires Encodable(f) && |FileBytes(f)| < TWO64 && a < |mem|
    requires Overlaid(FileBytes(f), TableOf(f), base, mem, |f.entries|, image)
    requires forall i | 0 <= i < |f.entries| :: !Loads(f.entries[i], base, |mem|, a)
    ensures image[a] == mem[a]
  {
    hide Covers, ByteOf, FileBytes, Encodable, Loads, LastCover;
    forall i | 0 <= i < |f.entries|
      ensures !Covers(FileBytes(f), TableOf(f), base, |mem|, i, a)
    {
      CoversIs(f, base, |mem|, i, a);
    }
  }

  lemma OverlaidLength(d: seq<Byte>, t: Table, base: nat, mem: seq<Byte>, n: nat, image: seq<Byte>)
    requires Overlaid(d, t, base, mem, n, image)
    ensures |image| == |mem|
  {
  }

  lemma {:induction false} OverlayIsImage(f: File, base: nat, mem: seq<Byte>, image: seq<Byte>)
    requires Encodable(f) && |FileBytes(f)| < TWO64
    requires Overlaid(FileBytes(f), TableOf(f), base, mem, |f.entries|, image)
    ensures ImageOf(f, FileBytes(f), base, mem, image)
  {
    hide Overlaid, FileBytes, Encodable, Loads;
    OverlaidLength(FileBytes(f), TableOf(f), base, mem, |f.entries|, image);
    var n, size := |f.entries|, |mem|;
    forall a: nat, i: nat | a < size && i < n && Loads(f.entries[i], base, size, a)
                            && (forall j | i < j < n :: !Loads(f.entries[j], base, size, a))
      ensures var d, e := FileBytes(f), f.entries[i];
              var k := base + a - e.paddr;
              k >= 0 && image[a] == if k < e.filesz && e.offset + k < |d| then d[e.offset + k] else 0
    {
      ImageByte(f, base, mem, image, i, a);
    }
    forall a: nat | a < size && (forall i | 0 <= i < n :: !Loads(f.entries[i], base, size, a))
      ensures image[a] == mem[a]
    {
      ImageRest(f, base, mem, image, a);
    }
  }

  lemma LoadsAbove(e: Phdr, base: nat, size: nat, a: nat)
    requires Loads(e, base, size, a)
    ensures base + a - e.paddr >= 0
  {
  }

  /** A header is taken exactly when the file has 64 bytes, starts with the magic number, and names a little-endian
      32- or 64-bit class. */
  lemma HeaderTakenIff(d: seq<Byte>)
    ensures ReadTable(d).Ok?
            <==> && |d| >= 64 && d[..4] == [0x7f, 0x45, 0x4c, 0x46] && d[5] == 1 && (d[4] == 1 || d[4] == 2)
  {
    if |d| >= 64 {
      assert d[..4] == [d[0], d[1], d[2], d[3]];
    }
    hide U16, U32, U64;
  }
}
