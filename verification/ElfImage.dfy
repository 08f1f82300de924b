/** The ELF image loader (load_elf_segments in src/cosim/spike_simulator.cc): the program header table is
    walked once and each PT_LOAD segment that fits the memory is copied into it in place. */
module ElfImage {
  import opened Multiplication
  import opened Options

  type Byte = x: nat | x < 256

  const PT_LOAD: nat := 1
  const TWO64: nat := 0x1_0000_0000_0000_0000

  function Wrap64(x: nat): nat {
    x % TWO64
  }

  // ---------------------------------------------------------------- little-endian fields

  function U16(d: seq<Byte>, p: nat): (v: nat)
    requires p + 2 <= |d|
    ensures v < 0x1_0000
  {
    var b0: nat, b1: nat := d[p], d[p + 1];
    b0 + 0x100 * b1
  }

  function U32(d: seq<Byte>, p: nat): (v: nat)
    requires p + 4 <= |d|
    ensures v < 0x1_0000_0000
  {
    var b0: nat, b1: nat, b2: nat, b3: nat := d[p], d[p + 1], d[p + 2], d[p + 3];
    b0 + 0x100 * b1 + 0x1_0000 * b2 + 0x100_0000 * b3
  }

  function U64(d: seq<Byte>, p: nat): (v: nat)
    requires p + 8 <= |d|
    ensures v < TWO64
  {
    U32(d, p) + 0x1_0000_0000 * U32(d, p + 4)
  }

  // ---------------------------------------------------------------- headers

  datatype Error = InvalidSize | BadMagic | BadEndian | BadClass | HeaderOutOfRange | DataOutOfRange | OutsideBuffer

  datatype Result<+T> = Ok(value: T) | Err(error: Error)

  datatype Table = Table(is64: bool, phoff: nat, entrySize: nat, count: nat)

  datatype Segment = Segment(offset: nat, paddr: nat, filesz: nat, memsz: nat)

  function ReadTable(d: seq<Byte>): (r: Result<Table>)
    ensures r.Ok? ==> |d| >= 0x40 && r.value.phoff < TWO64 && r.value.entrySize < 0x1_0000 && r.value.count < 0x1_0000
  {
    if |d| == 0 then Err(InvalidSize)
    else if |d| < 0x40 || d[0] != 0x7f || d[1] != 0x45 || d[2] != 0x4c || d[3] != 0x46 then Err(BadMagic)
    else if d[5] != 1 then Err(BadEndian)
    else if d[4] == 2 then Ok(Table(true, U64(d, 32), U16(d, 54), U16(d, 56)))
    else if d[4] == 1 then Ok(Table(false, U32(d, 28), U16(d, 42), U16(d, 44)))
    else Err(BadClass)
  }

  /** Where entry i starts, in the 64-bit arithmetic of the source. */
  function EntryAt(t: Table, i: nat): nat {
    Wrap64(t.phoff + i * t.entrySize)
  }

  /** The bytes of an entry up to the last field the loader reads. */
  function Needed(t: Table): nat {
    if t.is64 then 48 else 24
  }

  function ReadSegment(d: seq<Byte>, t: Table, at: nat): (s: Segment)
    requires at + Needed(t) <= |d|
    ensures s.offset < TWO64 && s.paddr < TWO64 && s.filesz < TWO64 && s.memsz < TWO64
  {
    if t.is64 then Segment(U64(d, at + 8), U64(d, at + 24), U64(d, at + 32), U64(d, at + 40))
    else Segment(U32(d, at + 4), U32(d, at + 12), U32(d, at + 16), U32(d, at + 20))
  }

  /** Entry i: None unless it is a PT_LOAD. OutsideBuffer stands for a read beyond the file. */
  function ReadEntry(d: seq<Byte>, t: Table, i: nat): Result<Option<Segment>> {
    var at := EntryAt(t, i);
    if Wrap64(at + t.entrySize) > |d| then Err(HeaderOutOfRange)
    else if at + 4 > |d| then Err(OutsideBuffer)
    else if U32(d, at) != PT_LOAD then Ok(None)
    else if at + Needed(t) > |d| then Err(OutsideBuffer)
    else Ok(Some(ReadSegment(d, t, at)))
  }

  // ---------------------------------------------------------------- one segment

  /** The segment is copied rather than skipped. */
  predicate Placed(s: Segment, base: nat, size: nat) {
    s.paddr >= base && Wrap64(s.paddr - base + s.memsz) <= size
  }

  /** Copying a segment over `mem`: filesz bytes of the file, then zeros up to memsz. OutsideBuffer stands
      for a copy that would leave the file or the memory. */
  function Copy(d: seq<Byte>, s: Segment, base: nat, mem: seq<Byte>): Result<seq<Byte>> {
    if Wrap64(s.offset + s.filesz) > |d| then Err(DataOutOfRange)
    else if !Placed(s, base, |mem|) then Ok(mem)
    else
      var at := s.paddr - base;
      if s.filesz > 0 && (s.offset + s.filesz > |d| || at + s.filesz > |mem|) then Err(OutsideBuffer)
      else if s.memsz > s.filesz && at + s.memsz > |mem| then Err(OutsideBuffer)
      else Ok(Moved(mem, at, d, s))
  }

  function Moved(mem: seq<Byte>, at: nat, d: seq<Byte>, s: Segment): seq<Byte>
    requires s.filesz > 0 ==> s.offset + s.filesz <= |d| && at + s.filesz <= |mem|
    requires s.memsz > s.filesz ==> at + s.memsz <= |mem|
  {
    var copied := if s.filesz > 0 then mem[..at] + d[s.offset..s.offset + s.filesz] + mem[at + s.filesz..] else mem;
    if s.memsz > s.filesz then copied[..at + s.filesz] + Zeros(s.memsz - s.filesz) + copied[at + s.memsz..] else copied
  }

  function Zeros(n: nat): seq<Byte> {
    seq(n, _ => 0)
  }

  /** Entries 0 .. n-1 in order. */
  function LoadEntries(d: seq<Byte>, t: Table, base: nat, mem: seq<Byte>, n: nat): Result<seq<Byte>> {
    if n == 0 then Ok(mem)
    else
      var before := LoadEntries(d, t, base, mem, n - 1);
      if before.Err? then before
      else
        var e := ReadEntry(d, t, n - 1);
        if e.Err? then Err(e.error)
        else if e.value.None? then before
        else Copy(d, e.value.value, base, before.value)
  }

  function Load(d: seq<Byte>, base: nat, mem: seq<Byte>): Result<seq<Byte>> {
    var t := ReadTable(d);
    if t.Err? then Err(t.error) else LoadEntries(d, t.value, base, mem, t.value.count)
  }

  // ---------------------------------------------------------------- the loader itself

  /** memcpy of n bytes of the file */
  method CopyBytes(mem: array<Byte>, at: nat, d: seq<Byte>, from: nat, n: nat)
    requires at + n <= mem.Length && from + n <= |d|
    modifies mem
    ensures mem[..] == old(mem[..at]) + d[from..from + n] + old(mem[at + n..])
  {
    var i := 0;
    while i < n
      invariant i <= n
      invariant forall k | 0 <= k < mem.Length ::
                  mem[k] == if at <= k < at + i then d[from + (k - at)] else old(mem[k])
    {
      mem[at + i] := d[from + i];
      i := i + 1;
    }
    assert mem[..] == old(mem[..at]) + d[from..from + n] + old(mem[at + n..]);
  }

  /** memset of n zero bytes */
  method ZeroBytes(mem: array<Byte>, at: nat, n: nat)
    requires at + n <= mem.Length
    modifies mem
    ensures mem[..] == old(mem[..at]) + Zeros(n) + old(mem[at + n..])
  {
    var i := 0;
    while i < n
      invariant i <= n
      invariant forall k | 0 <= k < mem.Length :: mem[k] == if at <= k < at + i then 0 else old(mem[k])
    {
      mem[at + i] := 0;
      i := i + 1;
    }
    assert mem[..] == old(mem[..at]) + Zeros(n) + old(mem[at + n..]);
  }

  method CopySegment(mem: array<Byte>, base: nat, d: seq<Byte>, s: Segment) returns (error: Option<Error>)
    modifies mem
    ensures match Copy(d, s, base, old(mem[..]))
            case Ok(m) => error == None && mem[..] == m
            case Err(e) => error == Some(e) && mem[..] == old(mem[..])
  {
    if Wrap64(s.offset + s.filesz) > |d| {
      return Some(DataOutOfRange);
    }
    if s.paddr < base {
      return None;
    }
    var at := s.paddr - base;
    if Wrap64(at + s.memsz) > mem.Length {
      return None;
    }
    if s.filesz > 0 && (s.offset + s.filesz > |d| || at + s.filesz > mem.Length) {
      return Some(OutsideBuffer);
    }
    if s.memsz > s.filesz && at + s.memsz > mem.Length {
      return Some(OutsideBuffer);
    }
    MoveSegment(mem, at, d, s);
    error := None;
  }

  method MoveSegment(mem: array<Byte>, at: nat, d: seq<Byte>, s: Segment)
    requires s.filesz > 0 ==> s.offset + s.filesz <= |d| && at + s.filesz <= mem.Length
    requires s.memsz > s.filesz ==> at + s.memsz <= mem.Length
    modifies mem
    ensures mem[..] == Moved(old(mem[..]), at, d, s)
  {
    ghost var was := mem[..];
    if s.filesz > 0 {
      CopyBytes(mem, at, d, s.offset, s.filesz);
    }
    ghost var mid := mem[..];
    if s.memsz > s.filesz {
      ZeroBytes(mem, at + s.filesz, s.memsz - s.filesz);
      assert s.filesz > 0 ==> mid[..at + s.filesz] == was[..at] + d[s.offset..s.offset + s.filesz];
      assert mid[at + s.memsz..] == was[at + s.memsz..];
    }
  }

  method LoadElfSegments(mem: array<Byte>, base: nat, d: seq<Byte>) returns (error: Option<Error>)
    modifies mem
    ensures match Load(d, base, old(mem[..]))
            case Ok(m) => error == None && mem[..] == m
            case Err(e) => error == Some(e)
  {
    var table := ReadTable(d);
    if table.Err? {
      return Some(table.error);
    }
    var t := table.value;
    var i := 0;
    while i < t.count
      invariant i <= t.count
      invariant LoadEntries(d, t, base, old(mem[..]), i) == Ok(mem[..])
    {
      var e := ReadEntry(d, t, i);
      if e.Err? {
        StaysFailed(d, t, base, old(mem[..]), i + 1, t.count);
        return Some(e.error);
      }
      if e.value.Some? {
        error := CopySegment(mem, base, d, e.value.value);
        if error.Some? {
          StaysFailed(d, t, base, old(mem[..]), i + 1, t.count);
          return;
        }
      }
      i := i + 1;
    }
    error := None;
  }

  lemma {:induction false} StaysFailed(d: seq<Byte>, t: Table, base: nat, mem: seq<Byte>, n: nat, m: nat)
    requires n <= m && LoadEntries(d, t, base, mem, n).Err?
    ensures LoadEntries(d, t, base, mem, m) == LoadEntries(d, t, base, mem, n)
  {
    hide ReadEntry, Copy;
    if n < m {
      StaysFailed(d, t, base, mem, n, m - 1);
    }
  }

  // ---------------------------------------------------------------- what a loaded image is

  /** No wrapping sums, and no more file bytes than memory bytes. */
  predicate SaneSegment(s: Segment) {
    s.offset + s.filesz < TWO64 && s.paddr + s.memsz < TWO64 && s.filesz <= s.memsz
  }

  /** What gABI chapter 5 asks of a program header table: full entries at addresses that do not wrap, and
      sane segments. */
  predicate Sane(d: seq<Byte>, t: Table) {
    && t.entrySize >= Needed(t)
    && t.phoff + t.count * t.entrySize < TWO64
    && forall i {:trigger ReadEntry(d, t, i)} |
         0 <= i < t.count && ReadEntry(d, t, i).Ok? && ReadEntry(d, t, i).value.Some? ::
         SaneSegment(ReadEntry(d, t, i).value.value)
  }

  predicate EntryInFile(d: seq<Byte>, t: Table, i: nat) {
    && t.phoff + (i + 1) * t.entrySize <= |d|
    && var e := ReadEntry(d, t, i);
       e.Ok? && e.value.Some? ==> e.value.value.offset + e.value.value.filesz <= |d|
  }

  /** The segment lies inside the memory and covers its byte a. */
  predicate Spans(s: Segment, base: nat, size: nat, a: nat) {
    s.paddr >= base && s.paddr - base + s.memsz <= size && s.paddr - base <= a < s.paddr - base + s.memsz
  }

  /** The byte a segment puts at a: file data, or zero in the tail. */
  function SegmentByte(d: seq<Byte>, s: Segment, base: nat, size: nat, a: nat): Byte
    requires Spans(s, base, size, a)
  {
    var k := a - (s.paddr - base);
    if k < s.filesz && s.offset + k < |d| then d[s.offset + k] else 0
  }

  /** Entry i is a PT_LOAD inside the memory that covers its byte a. */
  predicate Covers(d: seq<Byte>, t: Table, base: nat, size: nat, i: nat, a: nat) {
    var e := ReadEntry(d, t, i);
    e.Ok? && e.value.Some? && Spans(e.value.value, base, size, a)
  }

  function ByteOf(d: seq<Byte>, t: Table, base: nat, size: nat, i: nat, a: nat): Byte
    requires Covers(d, t, base, size, i, a)
  {
    SegmentByte(d, ReadEntry(d, t, i).value.value, base, size, a)
  }

  lemma EntryBounds(t: Table, i: nat)
    requires i < t.count && t.phoff + t.count * t.entrySize < TWO64
    ensures t.phoff + (i + 1) * t.entrySize < TWO64
    ensures EntryAt(t, i) == t.phoff + i * t.entrySize
    ensures Wrap64(EntryAt(t, i) + t.entrySize) == t.phoff + (i + 1) * t.entrySize
  {
    MulMonotone(i + 1, t.count, t.entrySize);
    assert (i + 1) * t.entrySize == i * t.entrySize + t.entrySize;
  }

  /** In a sane table an entry is read exactly when it lies in the file. */
  lemma {:induction false} SaneEntry(d: seq<Byte>, t: Table, i: nat)
    requires Sane(d, t) && i < t.count
    ensures ReadEntry(d, t, i).Ok? <==> t.phoff + (i + 1) * t.entrySize <= |d|
    ensures ReadEntry(d, t, i).Err? ==> ReadEntry(d, t, i).error == HeaderOutOfRange
  {
    EntryBounds(t, i);
  }

  lemma MovedByte(mem: seq<Byte>, at: nat, d: seq<Byte>, s: Segment, a: nat)
    requires s.filesz <= s.memsz && s.offset + s.filesz <= |d| && at + s.memsz <= |mem| && a < |mem|
    ensures |Moved(mem, at, d, s)| == |mem|
    ensures Moved(mem, at, d, s)[a]
            == if at <= a < at + s.filesz then d[s.offset + (a - at)]
               else if at + s.filesz <= a < at + s.memsz then 0
               else mem[a]
  {
    var copied := if s.filesz > 0 then mem[..at] + d[s.offset..s.offset + s.filesz] + mem[at + s.filesz..] else mem;
    assert |copied| == |mem|;
    assert copied[a] == if at <= a < at + s.filesz then d[s.offset + (a - at)] else mem[a];
  }

  /** Copying a sane segment overlays its bytes, or fails because its data leave the file. */
  lemma CopyOverlays(d: seq<Byte>, s: Segment, base: nat, mem: seq<Byte>)
    requires SaneSegment(s) && |mem| < TWO64
    ensures var r := Copy(d, s, base, mem);
            && (r.Ok? <==> s.offset + s.filesz <= |d|)
            && (r.Err? ==> r.error == DataOutOfRange)
            && (r.Ok? ==> |r.value| == |mem|
                          && forall a | 0 <= a < |mem| ::
                               r.value[a] == if Spans(s, base, |mem|, a) then SegmentByte(d, s, base, |mem|, a)
                                             else mem[a])
  {
    hide Moved, SegmentByte;
    assert Wrap64(s.offset + s.filesz) == s.offset + s.filesz;
    if s.paddr >= base {
      hide Wrap64;
      assert Wrap64(s.paddr - base + s.memsz) == s.paddr - base + s.memsz;
      if s.offset + s.filesz <= |d| && s.paddr - base + s.memsz <= |mem| {
        MovedOverlays(mem, base, d, s);
      }
    }
  }

  lemma MovedOverlays(mem: seq<Byte>, base: nat, d: seq<Byte>, s: Segment)
    requires s.filesz <= s.memsz && s.offset + s.filesz <= |d| && s.paddr >= base && s.paddr - base + s.memsz <= |mem|
    ensures var r := Moved(mem, s.paddr - base, d, s);
            && |r| == |mem|
            && forall a | 0 <= a < |mem| ::
                 r[a] == if Spans(s, base, |mem|, a) then SegmentByte(d, s, base, |mem|, a) else mem[a]
  {
    hide Moved;
    MovedLength(mem, s.paddr - base, d, s);
    forall a: nat | a < |mem|
      ensures Moved(mem, s.paddr - base, d, s)[a]
              == if Spans(s, base, |mem|, a) then SegmentByte(d, s, base, |mem|, a) else mem[a]
    {
      MovedByte(mem, s.paddr - base, d, s, a);
    }
  }

  lemma MovedLength(mem: seq<Byte>, at: nat, d: seq<Byte>, s: Segment)
    requires s.filesz <= s.memsz && s.offset + s.filesz <= |d| && at + s.memsz <= |mem|
    ensures |Moved(mem, at, d, s)| == |mem|
  {
  }

  /** Entry i covers a, and no later entry below n does. */
  predicate LastCover(d: seq<Byte>, t: Table, base: nat, size: nat, n: nat, i: nat, a: nat) {
    && i < n
    && Covers(d, t, base, size, i, a)
    && forall j | i < j < n :: !Covers(d, t, base, size, j, a)
  }

  /** `image` is `mem` overlaid by the first n entries in order: the last one that covers a byte wrote it,
      and a byte no entry covers is untouched. */
  ghost predicate Overlaid(d: seq<Byte>, t: Table, base: nat, mem: seq<Byte>, n: nat, image: seq<Byte>) {
    && |image| == |mem|
    && (forall a: nat, i: nat | a < |mem| && LastCover(d, t, base, |mem|, n, i, a) ::
          image[a] == ByteOf(d, t, base, |mem|, i, a))
    && (forall a | 0 <= a < |mem| && (forall i | 0 <= i < n :: !Covers(d, t, base, |mem|, i, a)) ::
          image[a] == mem[a])
  }

  /** One entry: it is loaded exactly when it and its data lie in the file, and then overlays its bytes. */
  lemma {:induction false} EntryOverlays(d: seq<Byte>, t: Table, base: nat, mem: seq<Byte>, i: nat, before: seq<Byte>)
    requires Sane(d, t) && i < t.count && |mem| < TWO64 && |before| == |mem|
    requires LoadEntries(d, t, base, mem, i) == Ok(before)
    ensures var r := LoadEntries(d, t, base, mem, i + 1);
            && (r.Ok? <==> EntryInFile(d, t, i))
            && (r.Err? ==>
                  r.error == if t.phoff + (i + 1) * t.entrySize > |d| then HeaderOutOfRange else DataOutOfRange)
            && (r.Ok? ==> |r.value| == |mem|
                          && forall a | 0 <= a < |mem| ::
                               r.value[a] == if Covers(d, t, base, |mem|, i, a) then ByteOf(d, t, base, |mem|, i, a)
                                             else before[a])
  {
    hide Copy, ReadEntry, SegmentByte, Spans, Wrap64;
    SaneEntry(d, t, i);
    var e := ReadEntry(d, t, i);
    if e.Ok? && e.value.Some? {
      CopyOverlays(d, e.value.value, base, before);
    }
  }

  lemma {:induction false} LoadsIffInFile(d: seq<Byte>, t: Table, base: nat, mem: seq<Byte>, n: nat)
    requires Sane(d, t) && n <= t.count && |mem| < TWO64
    ensures var r := LoadEntries(d, t, base, mem, n);
            (r.Ok? <==> forall i | 0 <= i < n :: EntryInFile(d, t, i)) && (r.Ok? ==> |r.value| == |mem|)
  {
    hide Copy, ReadEntry, EntryInFile, Sane, Covers, ByteOf;
    if n > 0 {
      LoadsIffInFile(d, t, base, mem, n - 1);
      var before := LoadEntries(d, t, base, mem, n - 1);
      if before.Ok? {
        EntryOverlays(d, t, base, mem, n - 1, before.value);
      }
    }
  }

  lemma {:induction false} EntriesOverlay(d: seq<Byte>, t: Table, base: nat, mem: seq<Byte>, n: nat)
    requires Sane(d, t) && n <= t.count && |mem| < TWO64
    ensures var r := LoadEntries(d, t, base, mem, n); r.Ok? ==> Overlaid(d, t, base, mem, n, r.value)
  {
    hide Copy, ReadEntry, EntryInFile, Sane, Covers, ByteOf;
    var r := LoadEntries(d, t, base, mem, n);
    if n > 0 && r.Ok? {
      hide Overlaid;
      EntriesOverlay(d, t, base, mem, n - 1);
      LoadsIffInFile(d, t, base, mem, n - 1);
      var before := LoadEntries(d, t, base, mem, n - 1).value;
      EntryOverlays(d, t, base, mem, n - 1, before);
      OneMore(d, t, base, mem, n, before, r.value);
    }
  }

  lemma OneMore(d: seq<Byte>, t: Table, base: nat, mem: seq<Byte>, n: nat, before: seq<Byte>, after: seq<Byte>)
    requires n > 0 && Overlaid(d, t, base, mem, n - 1, before) && |after| == |mem|
    requires forall a | 0 <= a < |mem| ::
               after[a] == if Covers(d, t, base, |mem|, n - 1, a) then ByteOf(d, t, base, |mem|, n - 1, a)
                           else before[a]
    ensures Overlaid(d, t, base, mem, n, after)
  {
    hide Covers, ByteOf;
    forall a: nat, i: nat | a < |mem| && LastCover(d, t, base, |mem|, n, i, a)
      ensures after[a] == ByteOf(d, t, base, |mem|, i, a)
    {
      if i < n - 1 {
        assert LastCover(d, t, base, |mem|, n - 1, i, a);
      }
    }
  }

  /** On a sane table the loader succeeds exactly when every entry, and the data of every PT_LOAD, lie in the
      file; the memory is then the old one overlaid by the segments that fit it, the last writer winning. */
  lemma {:induction false} LoadedImageIsOverlay(d: seq<Byte>, base: nat, mem: seq<Byte>)
    requires ReadTable(d).Ok? && Sane(d, ReadTable(d).value) && |mem| < TWO64
    ensures var t := ReadTable(d).value;
            var r := Load(d, base, mem);
            && (r.Ok? <==> forall i | 0 <= i < t.count :: EntryInFile(d, t, i))
            && (r.Ok? ==> Overlaid(d, t, base, mem, t.count, r.value))
  {
    hide ReadTable, Sane, LoadEntries, EntryInFile, Overlaid;
    var t := ReadTable(d).value;
    LoadsIffInFile(d, t, base, mem, t.count);
    EntriesOverlay(d, t, base, mem, t.count);
  }

  /** The first entry that leaves the file decides the error, whatever follows it. */
  lemma {:induction false} FirstBadEntryIsReported(d: seq<Byte>, base: nat, mem: seq<Byte>, i: nat)
    requires ReadTable(d).Ok? && Sane(d, ReadTable(d).value) && |mem| < TWO64 && i < ReadTable(d).value.count
    requires !EntryInFile(d, ReadTable(d).value, i)
    requires forall j | 0 <= j < i :: EntryInFile(d, ReadTable(d).value, j)
    ensures var t := ReadTable(d).value;
            Load(d, base, mem)
            == Err(if t.phoff + (i + 1) * t.entrySize > |d| then HeaderOutOfRange else DataOutOfRange)
  {
    hide ReadTable, Sane, LoadEntries, EntryInFile;
    var t := ReadTable(d).value;
    LoadsIffInFile(d, t, base, mem, i);
    EntryOverlays(d, t, base, mem, i, LoadEntries(d, t, base, mem, i).value);
    StaysFailed(d, t, base, mem, i + 1, t.count);
  }

  // ---------------------------------------------------------------- outside the buffers

  /** The copies of a segment leave the file or the memory exactly when the segment passes the wrapping tests
      of the source although one of its sums wraps, or holds more file bytes than the memory has room
      for; without a wrap that takes more file bytes than memory bytes. */
  lemma LeavesBuffersIff(d: seq<Byte>, s: Segment, base: nat, mem: seq<Byte>)
    requires s.offset < TWO64 && s.paddr < TWO64 && s.filesz < TWO64 && s.memsz < TWO64
    requires |d| < TWO64 && |mem| < TWO64
    ensures Copy(d, s, base, mem) == Err(OutsideBuffer)
            <==> && Wrap64(s.offset + s.filesz) <= |d| && Placed(s, base, |mem|)
                 && (|| s.offset + s.filesz >= TWO64
                     || s.paddr - base + s.memsz >= TWO64
                     || s.paddr - base + s.filesz > |mem|)
    ensures var wraps := s.offset + s.filesz >= TWO64 || s.paddr - base + s.memsz >= TWO64;
            Copy(d, s, base, mem) == Err(OutsideBuffer) && !wraps ==> s.filesz > s.memsz
  {
    hide Wrap64, Moved;
    WrapIff(s.offset + s.filesz);
    if s.paddr >= base {
      WrapIff(s.paddr - base + s.memsz);
    }
  }

  /** Reading entry i leaves the file exactly when its end passes the wrapping test of the source although that end
      wraps, or although the file ends inside the fields the loader reads: the type word, or for a PT_LOAD
      the whole of them. Without a wrap the entries must be shorter than those fields. The file size is a
      positive long. */
  lemma {:induction false} EntryLeavesFileIff(d: seq<Byte>, t: Table, i: nat)
    requires t.entrySize < 0x1_0000 && |d| < 0x8000_0000_0000_0000
    ensures var at := EntryAt(t, i);
            ReadEntry(d, t, i) == Err(OutsideBuffer)
            <==> || (at + t.entrySize >= TWO64 && at + t.entrySize - TWO64 <= |d|)
                 || (at + t.entrySize <= |d| < at + 4)
                 || (at + t.entrySize <= |d| < at + Needed(t) && at + 4 <= |d| && U32(d, at) == PT_LOAD)
    ensures ReadEntry(d, t, i) == Err(OutsideBuffer) && EntryAt(t, i) + t.entrySize < TWO64 ==>
              t.entrySize < Needed(t)
  {
    WrapIff(EntryAt(t, i) + t.entrySize);
    hide U32, U64;
  }

  lemma WrapIff(x: nat)
    requires x < 2 * TWO64
    ensures Wrap64(x) == if x < TWO64 then x else x - TWO64
  {
  }
}
