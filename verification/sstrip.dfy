/** sstrip (tools/sstrip/src/sstrip.c): cutting off the end of an ELF file without changing what is loaded
    from it (chapter 5, "Program Header", of the System V gABI). */
module Sstrip {
  import opened Octets
  import opened Tristate
  import opened Elf

  const PT_NULL := 0
  const PT_LOAD := 1
  const ET_EXEC := 2
  const ET_DYN := 3

  /** Positions from here on do not fit off_t. */
  const MAX_OFF := 0x8000_0000_0000_0000

  /** The magic number at the start of the file; without it the program stops at once. */
  predicate Magic(file: seq<Byte>) {
    |file| >= 16 && file[0] == 0x7f && file[1] == 'E' as int && file[2] == 'L' as int && file[3] == 'F' as int
  }

  /** An executable or shared object with headers of the expected sizes */
  predicate Acceptable(file: seq<Byte>, lay: Layout, big: bool)
    requires Regular(lay)
  {
    && lay.ehSize <= |file|
    && var h := file[..lay.ehSize];
    && Get(h, lay.ehSizeAt, 2, big) == lay.ehSize && Get(h, lay.PhEntSize(), 2, big) == lay.phSize
    && Get(h, E_TYPE, 2, big) in {ET_EXEC, ET_DYN}
  }

  /* ---- sizes ---- */

  /** The end of what an entry refers to, in an unsigned long */
  function End(e: Phdr): nat { (e.offset + e.filesz) % U64 }

  /** No entry refers to anything from `end` on. */
  predicate Covers(es: seq<Phdr>, end: nat) { forall k :: 0 <= k < |es| && es[k].typ != PT_NULL ==> End(es[k]) <= end }

  /** The largest size up to `n` whose last byte is not zero */
  predicate LastUsed(file: seq<Byte>, n: nat, size: nat) {
    0 < size <= n <= |file| && file[size - 1] != 0 && forall p :: size <= p < n ==> file[p] == 0
  }

  /** What an entry of the program header table is changed to, for a file of the given size */
  function Trimmed(e: Phdr, size: nat): Phdr {
    if e.offset >= size then e.(offset := size, filesz := 0)
    else if End(e) > size then e.(filesz := size - e.offset)
    else e
  }

  function TrimmedAll(es: seq<Phdr>, size: nat): seq<Phdr> {
    seq(|es|, k requires 0 <= k < |es| => Trimmed(es[k], size))
  }

  /** ... and what becomes of the ELF header */
  function Unsectioned(h: Ehdr, size: nat): Ehdr {
    if h.shoff >= size then h.(shoff := 0, shnum := 0, shentsize := 0, shstrndx := 0) else h
  }

  lemma {:induction false} TrimmedGood(e: Phdr, lay: Layout, big: bool, size: nat)
    requires GoodPhdr(e, lay, big)
    ensures GoodPhdr(Trimmed(e, size), lay, big)
  {
    Widths(lay.word);
    if e.offset < size && End(e) > size { NoWrap(e.offset, e.filesz, size); }
  }

  /** The sum has not wrapped around when it is beyond something that is beyond its first part. */
  lemma {:induction false} NoWrap(off: nat, len: nat, size: nat)
    requires off < size < (off + len) % U64 && off < U64 && len < U64
    ensures (off + len) % U64 == off + len && size - off < len
  {
  }

  lemma {:induction false} TrimmedTable(es: seq<Phdr>, lay: Layout, big: bool, size: nat)
    requires GoodTable(es, lay, big)
    ensures GoodTable(TrimmedAll(es, size), lay, big)
  {
    forall e | e in TrimmedAll(es, size) ensures GoodPhdr(e, lay, big) {
      var k :| 0 <= k < |es| && TrimmedAll(es, size)[k] == e;
      assert es[k] in es;
      TrimmedGood(es[k], lay, big, size);
    }
  }

  lemma {:induction false} UnsectionedGood(h: Ehdr, lay: Layout, big: bool, size: nat)
    requires GoodEhdr(h, lay, big)
    ensures GoodEhdr(Unsectioned(h, size), lay, big)
  {
    Widths(lay.word);
  }

  /* ---- what is loaded ---- */

  /** Byte j of the segment of an entry in memory: from the file, or zero after the end of its part there */
  function Loaded(file: seq<Byte>, e: Phdr, j: nat): Byte {
    if j < e.filesz && e.offset + j < |file| then file[e.offset + j] else 0
  }

  /** A segment to be loaded that is not larger in the file than in memory, with an end that does not wrap around */
  predicate Representable(e: Phdr) { e.typ == PT_LOAD && e.filesz <= e.memsz && e.offset + e.filesz < U64 }

  /** A segment that lies in the file, and is not larger there than in memory */
  predicate Loadable(file: seq<Byte>, e: Phdr) {
    e.typ == PT_LOAD && e.filesz <= e.memsz && e.offset + e.filesz <= |file|
  }

  /** The positions of the ELF header, and of a program header table of the given size */
  predicate InHeaders(p: nat, lay: Layout, phoff: nat, table: nat) { p < lay.ehSize || phoff <= p < phoff + table }

  /** The part of a file before `size` is the same, except for the headers; what was cut off was zero. */
  ghost predicate CutDown(was: seq<Byte>, now: seq<Byte>, lay: Layout, phoff: nat, table: nat, size: nat, end: nat) {
    && size <= |now| <= |was| && size <= end <= |was|
    && (forall p: nat :: p < |now| && !InHeaders(p, lay, phoff, table) ==> now[p] == was[p])
    && (forall p: nat :: size <= p < end ==> was[p] == 0)
  }

  /** A trimmed entry still describes a segment of the same size in memory, with the same bytes. */
  lemma {:induction false} EntryKeepsImage(was: seq<Byte>, now: seq<Byte>, e: Phdr, t: Phdr, lay: Layout, phoff: nat,
          table: nat,
                        size: nat, end: nat)
    requires |was| < MAX_OFF && CutDown(was, now, lay, phoff, table, size, end)
    requires Representable(e) && End(e) <= end && SamePhdr(t, Trimmed(e, size), lay)
    ensures Loadable(was, e) && SameImage(was, now, e, t, lay, phoff, table)
  {
    InFile(e.offset + e.filesz);
  }

  ghost predicate SameImage(was: seq<Byte>, now: seq<Byte>, e: Phdr, t: Phdr, lay: Layout, phoff: nat, table: nat) {
    && Loadable(now, t) && t.memsz == e.memsz
    && forall j: nat :: j < e.memsz && !InHeaders(e.offset + j, lay, phoff, table) ==>
          Loaded(now, t, j) == Loaded(was, e, j)
  }

  lemma {:induction false} InFile(x: nat)
    requires x < U64
    ensures x % U64 == x
  {
  }

  /** Writing inside the file */
  function Overwrite(file: seq<Byte>, at: nat, b: seq<Byte>): (r: seq<Byte>)
    requires at + |b| <= |file|
    ensures |r| == |file| && r[at..at + |b|] == b
    ensures forall p: nat :: p < |r| && !(at <= p < at + |b|) ==> r[p] == file[p]
  {
    file[..at] + b + file[at + |b|..]
  }

  /* ---- the whole run ---- */

  function Header(file: seq<Byte>, lay: Layout, big: bool): Ehdr
    requires Regular(lay) && lay.ehSize <= |file|
  {
    DecodeEhdr(file[..lay.ehSize], lay, big)
  }

  /** The header is complete, and so are the table as it is read, right after it, and as it is written back. */
  predicate Complete(file: seq<Byte>, lay: Layout, big: bool) {
    && Regular(lay) && lay.ehSize <= |file|
    && lay.ehSize + Total(Header(file, lay, big).phnum, lay.phSize) <= |file|
    && Header(file, lay, big).phoff + Total(Header(file, lay, big).phnum, lay.phSize) <= |file|
  }

  /** The program header table at a position of the file */
  function TableAt(file: seq<Byte>, at: nat, n: nat, lay: Layout, big: bool): (es: seq<Phdr>)
    requires Regular(lay) && at + Total(n, lay.phSize) <= |file|
    ensures |es| == n
  {
    DecodeTable(file[at..at + Total(n, lay.phSize)], n, lay, big)
  }

  /** The table of the file, at e_phoff */
  function Table(file: seq<Byte>, lay: Layout, big: bool): (es: seq<Phdr>)
    requires Complete(file, lay, big)
    ensures |es| == Header(file, lay, big).phnum
  {
    TableAt(file, Header(file, lay, big).phoff, Header(file, lay, big).phnum, lay, big)
  }

  /** The table as the program reads it: it does not seek. */
  function TableRead(file: seq<Byte>, lay: Layout, big: bool): (es: seq<Phdr>)
    requires Complete(file, lay, big)
    ensures |es| == Header(file, lay, big).phnum
  {
    TableAt(file, lay.ehSize, Header(file, lay, big).phnum, lay, big)
  }

  /** The size of the table */
  function TableSize(file: seq<Byte>, lay: Layout, big: bool): nat
    requires Regular(lay) && lay.ehSize <= |file|
  {
    Total(Header(file, lay, big).phnum, lay.phSize)
  }

  /** What a successful run makes of a file: `end` is the end of all that is referred to, `size` leaves
      out the zeros before it. */
  ghost predicate Stripped(was: seq<Byte>, now: seq<Byte>, lay: Layout, big: bool, end: nat, size: nat) {
    && Complete(was, lay, big) && LastUsed(was, end, size) && Covers(TableRead(was, lay, big), end)
    && var h, n := Header(was, lay, big), TableSize(was, lay, big);
    && |now| == (if size < h.phoff + n then h.phoff + n else size) && |now| <= |was|
    && (forall p: nat :: p < |now| && !InHeaders(p, lay, h.phoff, n) ==> now[p] == was[p])
    && SameTable(TableAt(now, h.phoff, h.phnum, lay, big), TrimmedAll(TableRead(was, lay, big), size), lay)
    && (lay.ehSize <= h.phoff ==> lay.ehSize <= |now| && SameEhdr(Header(now, lay, big), Unsectioned(h, size), lay))
  }

  /** The table is where it is read, right after the ELF header (e_phoff is the size of that header), or at least
      there is a copy of it. */
  ghost predicate Genuine(file: seq<Byte>, lay: Layout, big: bool) {
    && Complete(file, lay, big) && lay.ehSize <= Header(file, lay, big).phoff
    && Table(file, lay, big) == TableRead(file, lay, big)
  }

  /** sstrip preserves the loaded image: every segment to be loaded lies in the file before and after, has the
      same size in memory, and all its bytes but those of the headers are what they were. The end of the segment
      must fit an unsigned long: otherwise its size is measured wrongly, and no file holds it. */
  lemma {:induction false} StripKeepsImage(was: seq<Byte>, now: seq<Byte>, lay: Layout, big: bool, end: nat, size: nat,
          k: nat)
    requires Stripped(was, now, lay, big, end, size) && Genuine(was, lay, big) && |was| < MAX_OFF
    requires k < Header(was, lay, big).phnum && Representable(Table(was, lay, big)[k])
    ensures Loadable(was, Table(was, lay, big)[k])
    ensures Complete(now, lay, big) && Header(now, lay, big).phnum == Header(was, lay, big).phnum
    ensures Header(now, lay, big).phoff == Header(was, lay, big).phoff
    ensures SameImage(was, now, Table(was, lay, big)[k], Table(now, lay, big)[k], lay, Header(was, lay, big).phoff,
                      TableSize(was, lay, big))
  {
    StrippedEntry(was, now, lay, big, end, size, k);
    EntryKeepsImage(was, now, TableRead(was, lay, big)[k], Table(now, lay, big)[k], lay, Header(was, lay, big).phoff,
                    TableSize(was, lay, big), size, end);
  }

  /** When the table that is read differs, the image is not safe: a segment whose entry was read with another type,
      or another size in memory, is always lost. */
  lemma {:induction false} OtherEntryLosesImage(was: seq<Byte>, now: seq<Byte>, lay: Layout, big: bool, end: nat,
          size: nat, k: nat)
    requires Stripped(was, now, lay, big, end, size) && lay.ehSize <= Header(was, lay, big).phoff
    requires k < Header(was, lay, big).phnum && Table(was, lay, big)[k].typ == PT_LOAD
    requires var e, r := Table(was, lay, big)[k], TableRead(was, lay, big)[k]; r.typ != PT_LOAD || r.memsz != e.memsz
    ensures Complete(now, lay, big) && Header(now, lay, big).phnum == Header(was, lay, big).phnum
    ensures !SameImage(was, now, Table(was, lay, big)[k], Table(now, lay, big)[k], lay, Header(was, lay, big).phoff,
                       TableSize(was, lay, big))
  {
    StrippedEntry(was, now, lay, big, end, size, k);
  }

  /** An entry of the table of a stripped file */
  lemma {:induction false} StrippedEntry(was: seq<Byte>, now: seq<Byte>, lay: Layout, big: bool, end: nat, size: nat,
          k: nat)
    requires Stripped(was, now, lay, big, end, size) && lay.ehSize <= Header(was, lay, big).phoff
    requires k < Header(was, lay, big).phnum
    ensures Complete(now, lay, big) && Header(now, lay, big).phnum == Header(was, lay, big).phnum
    ensures Header(now, lay, big).phoff == Header(was, lay, big).phoff
    ensures SamePhdr(Table(now, lay, big)[k], Trimmed(TableRead(was, lay, big)[k], size), lay)
  {
    var h := Header(was, lay, big);
    var es, ts := TableRead(was, lay, big), TableAt(now, h.phoff, h.phnum, lay, big);
    assert SamePhdr(ts[k], TrimmedAll(es, size)[k], lay);
  }

  /** Nothing that t refers to lies beyond `size`; it is the part of what e refers to that does not. */
  predicate Within(e: Phdr, t: Phdr, size: nat) {
    && t.offset <= size && (t.offset + t.filesz) % U64 <= size && t.typ == e.typ && t.memsz == e.memsz
    && (e.offset < size && (e.offset + e.filesz) % U64 <= size ==> t.offset == e.offset && t.filesz == e.filesz)
  }

  lemma {:induction false} TrimmedWithin(e: Phdr, size: nat)
    requires size < U64
    ensures Within(e, Trimmed(e, size), size)
  {
    InFile(size);
  }

  /** After a run no entry refers to anything beyond what was left of the file, and one that did not before is the
      same; and so it is with the section header table, which is either in the file or not mentioned at all. */
  lemma {:induction false} StripWithin(was: seq<Byte>, now: seq<Byte>, lay: Layout, big: bool, end: nat, size: nat,
          k: nat)
    requires Stripped(was, now, lay, big, end, size) && lay.ehSize <= Header(was, lay, big).phoff
    requires k < Header(was, lay, big).phnum && |was| < MAX_OFF
    ensures Complete(now, lay, big) && |Table(now, lay, big)| == |TableRead(was, lay, big)|
    ensures Within(TableRead(was, lay, big)[k], Table(now, lay, big)[k], size)
    ensures var h, g := Header(was, lay, big), Header(now, lay, big);
      if h.shoff < size then
        g.shoff == h.shoff && g.shnum == h.shnum && g.shentsize == h.shentsize && g.shstrndx == h.shstrndx
      else g.shoff == g.shnum == g.shentsize == g.shstrndx == 0
  {
    StrippedEntry(was, now, lay, big, end, size, k);
    TrimmedWithin(TableRead(was, lay, big)[k], size);
  }

  /* ---- a file whose table is elsewhere ---- */

  /** A 32-bit little-endian executable with one segment: e_phoff says that the table is at 84, but it is read at
      52, where there are only zeros. */
  function MisplacedByte(i: nat): Byte {
    if i == 0 then 0x7f else if i == 1 then 'E' as int else if i == 2 then 'L' as int else if i == 3 then 'F' as int
    else if i == E_TYPE then ET_EXEC
    else if i == 28 then 84 else if i == 40 then 52 else if i == 42 then 32
    else if i == 4 || i == 5 || i == 44 || i == 84 || i == 100 || i == 104 then 1 else 0
  }

  /** The first n bytes of a file are those. */
  ghost predicate MisplacedTo(file: seq<Byte>, n: nat) {
    n <= 116 == |file| && forall i: nat :: i < n ==> file[i] == MisplacedByte(i)
  }

  predicate ZeroFrom(file: seq<Byte>, n: nat) { forall i :: n <= i < |file| ==> file[i] == 0 }

  lemma {:induction false} SmallNum(s: seq<Byte>)
    requires s != [] && forall i :: 1 <= i < |s| ==> s[i] == 0
    ensures Num(s, false) == s[0]
  {
    ZeroNum(s[1..]);
  }

  lemma {:induction false} ZeroNum(s: seq<Byte>)
    requires forall i :: 0 <= i < |s| ==> s[i] == 0
    ensures Num(s, false) == 0
    decreases |s|
  {
    if s != [] { ZeroNum(s[1..]); }
  }

  lemma {:induction false} SmallGet(s: seq<Byte>, at: nat, w: nat)
    requires 0 < w && at + w <= |s| && forall i :: at < i < at + w ==> s[i] == 0
    ensures Get(s, at, w, false) == s[at]
  {
    SmallNum(s[at..at + w]);
  }

  lemma {:induction false} MisplacedHeader(file: seq<Byte>)
    requires MisplacedTo(file, 84)
    ensures Regular(ELF32)
    ensures var h := Header(file, ELF32, false); h.phoff == 84 && h.phnum == 1 && h.shoff == 0
  {
    var b := file[..52];
    assert b[28] == 84 && b[44] == 1 && b[32] == 0;
    SmallGet(b, 28, 4);
    SmallGet(b, 32, 4);
    SmallGet(b, 44, 2);
  }

  function EntryByte(i: nat, full: bool): Byte { if full && (i == 0 || i == 16 || i == 20) then 1 else 0 }

  /** A table of one entry, at a given position: a segment of one byte, or none at all */
  lemma {:induction false} MisplacedEntry(file: seq<Byte>, at: nat, full: bool)
    requires at + 32 <= |file|
    requires forall i: nat :: i < 32 ==> file[at + i] == EntryByte(i, full)
    ensures Total(1, 32) == 32
    ensures TableAt(file, at, 1, ELF32, false) ==
            [if full then Phdr(PT_LOAD, 0, 1, 1, file[at..at + 32]) else Phdr(PT_NULL, 0, 0, 0, file[at..at + 32])]
  {
    var b := file[at..at + 32];
    assert forall i: nat :: i < 32 ==> b[i] == EntryByte(i, full);
    SmallGet(b, 0, 4);
    SmallGet(b, 4, 4);
    SmallGet(b, 16, 4);
    SmallGet(b, 20, 4);
    assert Total(1, 32) == 32 + Total(0, 32);
    assert b[..32] == b && b[32..] == [];
  }

  lemma {:induction false} MisplacedTables(was: seq<Byte>, now: seq<Byte>)
    requires MisplacedTo(was, 116) && MisplacedTo(now, 84) && ZeroFrom(now, 84)
    ensures Regular(ELF32) && Complete(was, ELF32, false) && Complete(now, ELF32, false)
    ensures Header(was, ELF32, false) == Header(now, ELF32, false)
    ensures var h := Header(was, ELF32, false); h.phoff == 84 && h.phnum == 1 && h.shoff == 0
    ensures Table(was, ELF32, false) == [Phdr(PT_LOAD, 0, 1, 1, was[84..116])]
    ensures TableRead(was, ELF32, false) == [Phdr(PT_NULL, 0, 0, 0, was[52..84])]
    ensures Table(now, ELF32, false) == [Phdr(PT_NULL, 0, 0, 0, was[52..84])]
  {
    MisplacedHeader(was);
    MisplacedHeader(now);
    assert was[..52] == now[..52];
    MisplacedEntry(was, 84, true);
    MisplacedEntry(was, 52, false);
    MisplacedEntry(now, 84, false);
    assert was[52..84] == now[84..116];
  }

  /** sstrip writes the zeros it took for the table over the real one: the segment is no longer loaded. */
  lemma {:induction false} MisplacedLosesImage(was: seq<Byte>, now: seq<Byte>)
    requires MisplacedTo(was, 116) && MisplacedTo(now, 84) && ZeroFrom(now, 84)
    ensures Stripped(was, now, ELF32, false, 116, 105) && !Genuine(was, ELF32, false)
    ensures Complete(now, ELF32, false) && |Table(was, ELF32, false)| == |Table(now, ELF32, false)| == 1
    ensures var e, t := Table(was, ELF32, false)[0], Table(now, ELF32, false)[0];
      Representable(e) && Loadable(was, e) && !Loadable(now, t) && t.memsz != e.memsz
  {
    MisplacedTables(was, now);
    var es := TableRead(was, ELF32, false);
    assert TrimmedAll(es, 105) == es;
    assert LastUsed(was, 116, 105);
  }

  /** The table is said to be at a position that no file has: the ELF header has been written by then, and may
      have lost the section table; all else is as it was. */
  ghost predicate HeaderOnly(was: seq<Byte>, now: seq<Byte>, lay: Layout, big: bool) {
    && Regular(lay) && lay.ehSize <= |was| == |now| && Header(was, lay, big).phoff >= MAX_OFF
    && now[lay.ehSize..] == was[lay.ehSize..]
    && exists size ::
         0 < size <= |was| && SameEhdr(Header(now, lay, big), Unsectioned(Header(was, lay, big), size), lay)
  }

  lemma {:induction false} TrimmedRead(file: seq<Byte>, n: nat, lay: Layout, big: bool, size: nat)
    requires Regular(lay) && lay.ehSize + Total(n, lay.phSize) <= |file|
    ensures var es := TrimmedAll(TableAt(file, lay.ehSize, n, lay, big), size);
      GoodTable(es, lay, big) && Sized(es, lay)
  {
    DecodedTable(file[lay.ehSize..lay.ehSize + Total(n, lay.phSize)], n, lay, big);
    TrimmedTable(TableAt(file, lay.ehSize, n, lay, big), lay, big, size);
  }

  lemma {:induction false} TableWithin(phoff: nat, table: nat, size: nat, length: nat)
    requires (phoff + table) % U64 <= size <= length < MAX_OFF && table <= length
    ensures phoff < MAX_OFF ==> phoff + table <= size
  {
  }

  /** All that is known before anything is changed */
  ghost predicate Measured(file: seq<Byte>, lay: Layout, big: bool, h: Ehdr, es: seq<Phdr>, end: nat, size: nat) {
    && Regular(lay) && lay.ehSize <= |file| && h == Header(file, lay, big)
    && lay.ehSize + Total(h.phnum, lay.phSize) <= |file| && es == TableAt(file, lay.ehSize, h.phnum, lay, big)
    && LastUsed(file, end, size) && Covers(es, end)
    && (h.phoff < MAX_OFF ==> h.phoff + Total(h.phnum, lay.phSize) <= |file|)
  }

  lemma {:induction false} MeasuredGood(file: seq<Byte>, lay: Layout, big: bool, h: Ehdr, es: seq<Phdr>, end: nat,
          size: nat)
    requires Measured(file, lay, big, h, es, end, size)
    ensures GoodEhdr(Unsectioned(h, size), lay, big) && GoodTable(TrimmedAll(es, size), lay, big)
    ensures Sized(TrimmedAll(es, size), lay)
  {
    DecodedEhdr(file[..lay.ehSize], lay, big);
    UnsectionedGood(h, lay, big, size);
    TrimmedRead(file, h.phnum, lay, big, size);
  }

  lemma {:induction false} StrippedHolds(was: seq<Byte>, now: seq<Byte>, lay: Layout, big: bool, h: Ehdr,
          es: seq<Phdr>, end: nat,
        size: nat)
    requires Measured(was, lay, big, h, es, end, size) && h.phoff < MAX_OFF
    requires var last := h.phoff + Total(h.phnum, lay.phSize); |now| == if size < last then last else size
    requires |now| <= |was|
    requires forall p: nat :: p < |now| && !InHeaders(p, lay, h.phoff, Total(h.phnum, lay.phSize)) ==> now[p] == was[p]
    requires SameTable(TableAt(now, h.phoff, h.phnum, lay, big), TrimmedAll(es, size), lay)
    requires lay.ehSize <= h.phoff ==> lay.ehSize <= |now| && SameEhdr(Header(now, lay, big), Unsectioned(h, size), lay)
    ensures Stripped(was, now, lay, big, end, size)
  {
  }

  /** Cutting a file off behind its headers leaves these alone. */
  lemma {:induction false} CutKeeps(file: seq<Byte>, size: nat, at: nat, n: nat, lay: Layout, big: bool)
    requires Regular(lay) && at + Total(n, lay.phSize) <= size <= |file|
    ensures TableAt(file[..size], at, n, lay, big) == TableAt(file, at, n, lay, big)
    ensures lay.ehSize <= size ==> Header(file[..size], lay, big) == Header(file, lay, big)
  {
    assert file[..size][at..at + Total(n, lay.phSize)] == file[at..at + Total(n, lay.phSize)];
    if lay.ehSize <= size { assert file[..size][..lay.ehSize] == file[..lay.ehSize]; }
  }

  lemma {:induction false} TableWritten(file: seq<Byte>, at: nat, es: seq<Phdr>, lay: Layout, big: bool)
    requires GoodTable(es, lay, big) && Sized(es, lay) && at + Total(|es|, lay.phSize) <= |file|
    ensures var now := Overwrite(file, at, EncodeTable(es, lay, big));
      && SameTable(TableAt(now, at, |es|, lay, big), es, lay)
      && (lay.ehSize <= at ==> lay.ehSize <= |now| && Header(now, lay, big) == Header(file, lay, big))
  {
    var b := EncodeTable(es, lay, big);
    var now := Overwrite(file, at, b);
    TableRoundTrip(es, b, lay, big);
    if lay.ehSize <= at { assert now[..lay.ehSize] == file[..lay.ehSize]; }
  }

  class Stripper {
    /** the file, and the position it is read at */
    var file: seq<Byte>
    var pos: nat
    var lay: Layout
    var big: bool
    var ehdr: Ehdr
    var phdrs: seq<Phdr>

    constructor (file: seq<Byte>)
      ensures this.file == file && pos == 0
    {
      this.file, pos, lay, big, ehdr, phdrs := file, 0, ELF32, false, Ehdr(0, 0, 0, 0, 0, 0, []), [];
    }

    method Read(n: nat) returns (b: Option<seq<Byte>>)
      modifies this`pos
      ensures if old(pos) + n <= |file| then b == Some(file[old(pos)..old(pos) + n]) && pos == old(pos) + n
          else b == None
    {
      if pos + n <= |file| {
        b := Some(file[pos..pos + n]);
        pos := pos + n;
      } else {
        b := None;
      }
    }

    /** truncatezeros */
    method TruncateZeros(newsize: nat) returns (r: Option<nat>)
      requires Magic(file) && 4 <= newsize
      ensures r.Some? <==> newsize <= |file|
      ensures r.Some? ==> LastUsed(file, newsize, r.value)
    {
      var contents := new Byte[1024];
      var size := newsize;
      var go := true;
      while go
        invariant 4 <= size <= newsize && (size < newsize ==> newsize <= |file|)
        invariant newsize <= |file| ==> forall p :: size <= p < newsize ==> file[p] == 0
        invariant !go ==> newsize <= |file| && file[size - 1] != 0
        decreases if go then 1 else 0, if size <= |file| && file[size - 1] == 0 then 1 else 0, size
      {
        var n := if 1024 > size then size else 1024;
        if size > |file| { return None; }
        var start := size - n;
        forall i | 0 <= i < n { contents[i] := file[start + i]; }
        size, n := SkipZeros(contents, start, size, n);
        go := size != 0 && n == 0;
      }
      r := Some(size);
    }

    method SkipZeros(contents: array<Byte>, ghost start: nat, size0: nat, n0: nat) returns (size: nat, n: nat)
      requires 0 < n0 <= contents.Length && size0 == start + n0 <= |file|
      requires contents[..n0] == file[start..size0]
      ensures start <= size <= size0
      ensures forall p :: size <= p < size0 ==> file[p] == 0
      ensures if size > start then file[size - 1] != 0 && n == size - start - 1 else n == 0
    {
      size, n := size0, n0;
      var zero := true;
      while n > 0 && zero
        invariant 0 <= n <= n0 && start <= size <= size0
        invariant if zero then size == start + n else size == start + n + 1 && file[size - 1] != 0
        invariant forall p :: size <= p < size0 ==> file[p] == 0
      {
        n := n - 1;
        assert contents[..n0][n] == file[start..size0][n];
        zero := contents[n] == 0;
        if zero { size := size - 1; }
      }
    }

    /** readelfheaderident: the class, and the byte order */
    method ReadIdent() returns (ident: Option<seq<Byte>>)
      requires pos == 0
      modifies this`pos, this`lay, this`big
      ensures ident.Some? <==> Magic(file) && file[4] in {1, 2} && file[5] in {1, 2}
      ensures ident.Some? ==> ident.value == file[..16] && pos == 16 && Regular(lay)
      ensures ident.Some? ==> lay == (if file[4] == 1 then ELF32 else ELF64) && big == (file[5] == 2)
    {
      var b := Read(16);
      if b.None? { return None; }
      var e := b.value;
      if !(e[0] == 0x7f && e[1] == 'E' as int && e[2] == 'L' as int && e[3] == 'F' as int) { return None; }
      if e[5] == 1 { big := false; } else if e[5] == 2 { big := true; } else { return None; }
      if e[4] == 1 { lay := ELF32; } else if e[4] == 2 { lay := ELF64; } else { return None; }
      ident := b;
    }

    /** readelfheader */
    method ReadHeader(ident: seq<Byte>) returns (ok: bool)
      requires Regular(lay) && pos == 16 && |file| >= 16 && ident == file[..16]
      modifies this`pos, this`ehdr
      ensures ok ==> lay.ehSize <= |file| && ehdr == Header(file, lay, big) && pos == lay.ehSize
      ensures ok <==> Acceptable(file, lay, big)
    {
      var b := Read(lay.ehSize - 16);
      if b.None? { return false; }
      var raw := ident + b.value;
      assert raw == file[..lay.ehSize];
      ehdr := DecodeEhdr(raw, lay, big);
      if Get(raw, lay.ehSizeAt, 2, big) != lay.ehSize { return false; }
      if Get(raw, lay.PhEntSize(), 2, big) != lay.phSize { return false; }
      if Get(raw, E_TYPE, 2, big) != ET_EXEC && Get(raw, E_TYPE, 2, big) != ET_DYN { return false; }
      ok := true;
    }

    /** readphdrtable: the table is read from where the file is, just after the ELF header. */
    method ReadTable() returns (ok: bool)
      requires Regular(lay) && pos == lay.ehSize <= |file|
      modifies this`pos, this`phdrs
      ensures ok <==> ehdr.phoff != 0 && ehdr.phnum != 0 && lay.ehSize + Total(ehdr.phnum, lay.phSize) <= |file|
      ensures ok ==> phdrs == TableAt(file, lay.ehSize, ehdr.phnum, lay, big)
    {
      if ehdr.phoff == 0 || ehdr.phnum == 0 { return false; }
      TotalIsProduct(ehdr.phnum, lay.phSize);
      var b := Read(ehdr.phnum * lay.phSize);
      if b.None? { return false; }
      phdrs := DecodeTable(b.value, ehdr.phnum, lay, big);
      ok := true;
    }

    /** getmemorysize: the end of the headers and of all that entries refer to, whichever is last */
    method GetMemorySize() returns (size: nat)
      ensures lay.ehSize <= size && (ehdr.phoff + Total(ehdr.phnum, lay.phSize)) % U64 <= size && Covers(phdrs, size)
      ensures size == lay.ehSize || size == (ehdr.phoff + Total(ehdr.phnum, lay.phSize)) % U64
           || exists k :: 0 <= k < |phdrs| && phdrs[k].typ != PT_NULL && size == End(phdrs[k])
    {
      TotalIsProduct(ehdr.phnum, lay.phSize);
      var first := (ehdr.phoff + ehdr.phnum * lay.phSize) % U64;
      size := if first < lay.ehSize then lay.ehSize else first;
      var i := 0;
      while i < |phdrs|
        invariant 0 <= i <= |phdrs| && lay.ehSize <= size && first <= size && Covers(phdrs[..i], size)
        invariant size == lay.ehSize || size == first
               || exists k :: 0 <= k < i && phdrs[k].typ != PT_NULL && size == End(phdrs[k])
      {
        if phdrs[i].typ != PT_NULL {
          var n := (phdrs[i].offset + phdrs[i].filesz) % U64;
          if n > size { size := n; }
        }
        i := i + 1;
      }
    }

    /** modifyheaders */
    method ModifyHeaders(newsize: nat)
      modifies this`ehdr, this`phdrs
      ensures ehdr == Unsectioned(old(ehdr), newsize) && phdrs == TrimmedAll(old(phdrs), newsize)
    {
      if ehdr.shoff >= newsize {
        ehdr := ehdr.(shoff := 0);
        ehdr := ehdr.(shnum := 0);
        ehdr := ehdr.(shentsize := 0);
        ehdr := ehdr.(shstrndx := 0);
      }
      var i := 0;
      while i < |phdrs|
        invariant 0 <= i <= |phdrs| == |old(phdrs)| && ehdr == Unsectioned(old(ehdr), newsize)
        invariant forall k :: 0 <= k < i ==> phdrs[k] == Trimmed(old(phdrs)[k], newsize)
        invariant forall k :: i <= k < |phdrs| ==> phdrs[k] == old(phdrs)[k]
      {
        if phdrs[i].offset >= newsize {
          phdrs := phdrs[i := phdrs[i].(offset := newsize)];
          phdrs := phdrs[i := phdrs[i].(filesz := 0)];
        } else if (phdrs[i].offset + phdrs[i].filesz) % U64 > newsize {
          phdrs := phdrs[i := phdrs[i].(filesz := newsize - phdrs[i].offset)];
        }
        i := i + 1;
      }
      assert phdrs == TrimmedAll(old(phdrs), newsize);
    }

    method WriteHeader()
      requires GoodEhdr(ehdr, lay, big) && lay.ehSize <= |file|
      modifies this`file
      ensures |file| == |old(file)| && SameEhdr(Header(file, lay, big), ehdr, lay)
      ensures forall p: nat :: lay.ehSize <= p < |file| ==> file[p] == old(file)[p]
    {
      EhdrRoundTrip(ehdr, lay, big);
      file := Overwrite(file, 0, EncodeEhdr(ehdr, lay, big));
    }

    method WriteTable()
      requires GoodTable(phdrs, lay, big) && Sized(phdrs, lay) && ehdr.phoff + Total(|phdrs|, lay.phSize) <= |file|
      modifies this`file
      ensures |file| == |old(file)| && SameTable(TableAt(file, ehdr.phoff, |phdrs|, lay, big), phdrs, lay)
      ensures forall p: nat :: p < |file| && !(ehdr.phoff <= p < ehdr.phoff + Total(|phdrs|, lay.phSize)) ==>
        file[p] == old(file)[p]
      ensures lay.ehSize <= ehdr.phoff ==> lay.ehSize <= |file| && Header(file, lay, big) == Header(old(file), lay, big)
    {
      TableWritten(file, ehdr.phoff, phdrs, lay, big);
      file := Overwrite(file, ehdr.phoff, EncodeTable(phdrs, lay, big));
    }

    /** ftruncate */
    method Cut(size: nat)
      requires size <= |file|
      modifies this`file
      ensures file == old(file)[..size]
    {
      file := file[..size];
    }

    /** commitchanges; an offset beyond what off_t can hold makes the seek fail after the first write. */
    method CommitChanges(newsize: nat) returns (ok: bool)
      requires GoodEhdr(ehdr, lay, big) && GoodTable(phdrs, lay, big) && Sized(phdrs, lay)
      requires lay.ehSize <= |file| && newsize <= |file|
      requires ehdr.phoff < MAX_OFF ==> ehdr.phoff + Total(|phdrs|, lay.phSize) <= |file|
      modifies this`file
      ensures ok <==> ehdr.phoff < MAX_OFF
      ensures var end := ehdr.phoff + Total(|phdrs|, lay.phSize);
        |file| == if !ok then |old(file)| else if newsize < end then end else newsize
      ensures forall p: nat :: p < |file| && !InHeaders(p, lay, ehdr.phoff, Total(|phdrs|, lay.phSize)) ==>
        file[p] == old(file)[p]
      ensures !ok ==> file[lay.ehSize..] == old(file)[lay.ehSize..]
      ensures ok ==> SameTable(TableAt(file, ehdr.phoff, |phdrs|, lay, big), phdrs, lay)
      ensures lay.ehSize <= ehdr.phoff ==> lay.ehSize <= |file| && SameEhdr(Header(file, lay, big), ehdr, lay)
    {
      WriteHeader();
      ok := ehdr.phoff < MAX_OFF;
      if ok { WriteAndCut(newsize); }
    }

    /** The second half of commitchanges: the table is written, and the file is cut, but not within it. */
    method WriteAndCut(newsize: nat)
      requires GoodTable(phdrs, lay, big) && Sized(phdrs, lay) && lay.ehSize <= |file| && newsize <= |file|
      requires ehdr.phoff + Total(|phdrs|, lay.phSize) <= |file|
      modifies this`file
      ensures var end := ehdr.phoff + Total(|phdrs|, lay.phSize);
        && |file| == (if newsize < end then end else newsize) && |file| <= |old(file)|
        && forall p: nat :: p < |file| && !(ehdr.phoff <= p < end) ==> file[p] == old(file)[p]
      ensures SameTable(TableAt(file, ehdr.phoff, |phdrs|, lay, big), phdrs, lay)
      ensures lay.ehSize <= ehdr.phoff ==> lay.ehSize <= |file| && Header(file, lay, big) == Header(old(file), lay, big)
    {
      WriteTable();
      TotalIsProduct(|phdrs|, lay.phSize);
      var n := |phdrs| * lay.phSize;
      var size := if newsize < ehdr.phoff + n then ehdr.phoff + n else newsize;
      CutKeeps(file, size, ehdr.phoff, |phdrs|, lay, big);
      Cut(size);
    }

    /** Reading both headers */
    method ReadHeaders() returns (ok: bool)
      requires pos == 0
      modifies this`pos, this`lay, this`big, this`ehdr, this`phdrs
      ensures ok ==> Magic(file) && Regular(lay) && lay.ehSize <= |file| && ehdr == Header(file, lay, big)
      ensures ok ==> lay.ehSize + Total(ehdr.phnum, lay.phSize) <= |file|
      ensures ok ==> phdrs == TableAt(file, lay.ehSize, ehdr.phnum, lay, big)
    {
      var ident := ReadIdent();
      if ident.None? { return false; }
      ok := ReadHeader(ident.value);
      if ok { ok := ReadTable(); }
    }

    /** Reading both headers, and finding the new size */
    method Measure() returns (size: Option<nat>, ghost end: nat)
      requires pos == 0 && |file| < MAX_OFF
      modifies this`pos, this`lay, this`big, this`ehdr, this`phdrs
      ensures size.Some? ==> Measured(file, lay, big, ehdr, phdrs, end, size.value)
    {
      end := 0;
      var ok := ReadHeaders();
      if !ok { return None, end; }
      var newsize := GetMemorySize();
      size := TruncateZeros(newsize);
      if size.Some? { TableWithin(ehdr.phoff, Total(ehdr.phnum, lay.phSize), newsize, |file|); }
      end := newsize;
    }

    /** The work on one file. It is left alone when it is not what it should be; only a program header
        table that is said to be beyond all file offsets is noticed too late. */
    method Strip() returns (ok: bool, ghost end: nat, ghost size: nat)
      requires pos == 0 && |file| < MAX_OFF
      modifies this
      ensures ok ==> Stripped(old(file), file, lay, big, end, size)
      ensures !ok ==> file == old(file) || HeaderOnly(old(file), file, lay, big)
    {
      var newsize;
      newsize, end := Measure();
      if newsize.None? { return false, end, 0; }
      size := newsize.value;
      ghost var h, es := ehdr, phdrs;
      MeasuredGood(file, lay, big, h, es, end, size);
      ModifyHeaders(newsize.value);
      ok := CommitChanges(newsize.value);
      if ok { StrippedHolds(old(file), file, lay, big, h, es, end, size); } else { assert 0 < size <= |old(file)|; }
    }
  }
}
