/** The headers of an ELF file, as bytes and as the fields that sstrip uses
    (tools/sstrip/src/sstrip.c:85-130; chapters 4 and 5 of the System V gABI). */
module Elf {
  import opened Octets
  import opened Tristate

  /* ---- numbers ---- */

  /** The number in the bytes `s`, most significant byte first if `big` */
  function Num(s: seq<Byte>, big: bool): nat
    decreases |s|
  {
    if s == [] then 0
    else if big then Num(s[..|s| - 1], big) * 256 + s[|s| - 1]
    else s[0] + 256 * Num(s[1..], big)
  }

  /** The lowest `w` bytes of a number */
  function Bytes(v: nat, w: nat, big: bool): (s: seq<Byte>)
    ensures |s| == w
    decreases w
  {
    if w == 0 then []
    else if big then Bytes(v / 256, w - 1, big) + [v % 256]
    else [v % 256] + Bytes(v / 256, w - 1, big)
  }

  function Pow256(w: nat): (p: nat)
    ensures p > 0
    decreases w
  {
    if w == 0 then 1 else 256 * Pow256(w - 1)
  }

  lemma {:induction false} NumBytes(v: nat, w: nat, big: bool)
    requires v < Pow256(w)
    ensures Num(Bytes(v, w, big), big) == v
    decreases w
  {
    if w > 0 {
      var s := Bytes(v, w, big);
      DivBelow(v, Pow256(w - 1));
      NumBytes(v / 256, w - 1, big);
      if big {
        assert s[..|s| - 1] == Bytes(v / 256, w - 1, big);
      } else {
        assert s[1..] == Bytes(v / 256, w - 1, big);
      }
    }
  }

  lemma {:induction false} DivBelow(v: nat, p: nat)
    requires v < 256 * p
    ensures v / 256 < p
  {
  }

  lemma {:induction false} NumBounded(s: seq<Byte>, big: bool)
    ensures Num(s, big) < Pow256(|s|)
    decreases |s|
  {
    if s != [] {
      if big { NumBounded(s[..|s| - 1], big); } else { NumBounded(s[1..], big); }
    }
  }

  /* ---- fields ---- */

  function Get(s: seq<Byte>, at: nat, w: nat, big: bool): nat
    requires at + w <= |s|
  {
    Num(s[at..at + w], big)
  }

  function Put(s: seq<Byte>, at: nat, w: nat, v: nat, big: bool): (t: seq<Byte>)
    requires at + w <= |s|
    ensures |t| == |s|
  {
    s[..at] + Bytes(v, w, big) + s[at + w..]
  }

  lemma {:induction false} GetPut(s: seq<Byte>, at: nat, w: nat, v: nat, big: bool)
    requires at + w <= |s| && v < Pow256(w)
    ensures Get(Put(s, at, w, v, big), at, w, big) == v
  {
    NumBytes(v, w, big);
    assert Put(s, at, w, v, big)[at..at + w] == Bytes(v, w, big);
  }

  lemma {:induction false} GetPutOther(s: seq<Byte>, at: nat, w: nat, v: nat, big: bool, other: nat, u: nat)
    requires at + w <= |s| && other + u <= |s| && (other + u <= at || at + w <= other)
    ensures Get(Put(s, at, w, v, big), other, u, big) == Get(s, other, u, big)
  {
    assert Put(s, at, w, v, big)[other..other + u] == s[other..other + u];
  }

  lemma {:induction false} GetBounded(s: seq<Byte>, at: nat, w: nat, big: bool)
    requires at + w <= |s|
    ensures Get(s, at, w, big) < Pow256(w)
  {
    NumBounded(s[at..at + w], big);
  }

  lemma {:induction false} MoreBytes(s: seq<Byte>, b: Byte)
    ensures Num(s + [b], true) == Num(s, true) * 256 + b && Num([b] + s, false) == b + 256 * Num(s, false)
  {
    assert (s + [b])[..|s|] == s && ([b] + s)[1..] == s;
  }

  /** Four more bytes at the low end */
  lemma {:induction false} MoreWords(s: seq<Byte>, a: Byte, b: Byte, c: Byte, d: Byte)
    ensures Num(s + [a, b, c, d], true) ==
            Num(s, true) * 0x1_0000_0000 + 0x100_0000 * a + 0x1_0000 * b + 0x100 * c + d
    ensures Num([d, c, b, a] + s, false) ==
            Num(s, false) * 0x1_0000_0000 + 0x100_0000 * a + 0x1_0000 * b + 0x100 * c + d
  {
    MoreBytes(s, a);
    MoreBytes(s + [a], b);
    MoreBytes(s + [a] + [b], c);
    MoreBytes(s + [a] + [b] + [c], d);
    assert s + [a] + [b] + [c] + [d] == s + [a, b, c, d];
    MoreBytes([a] + s, b);
    MoreBytes([b] + ([a] + s), c);
    MoreBytes([c] + ([b] + ([a] + s)), d);
    assert [d] + ([c] + ([b] + ([a] + s))) == [d, c, b, a] + s;
  }

  /** Numbers of two, four and eight bytes, with the most or the least significant byte first */
  lemma {:induction false} ByteOrders(a: Byte, b: Byte, c: Byte, d: Byte, e: Byte, f: Byte, g: Byte, h: Byte)
    ensures Num([a, b], true) == Num([b, a], false) == 0x100 * a + b
    ensures var high := 0x100_0000 * a + 0x1_0000 * b + 0x100 * c + d;
      var low := 0x100_0000 * e + 0x1_0000 * f + 0x100 * g + h;
      && Num([a, b, c, d], true) == Num([d, c, b, a], false) == high
      && Num([a, b, c, d, e, f, g, h], true) == Num([h, g, f, e, d, c, b, a], false) == high * 0x1_0000_0000 + low
  {
    MoreBytes([], a);
    MoreBytes([a], b);
    assert [] + [a] == [a] == [a] + [] && [a] + [b] == [a, b] && [b] + [a] == [b, a];
    MoreWords([], a, b, c, d);
    assert [] + [a, b, c, d] == [a, b, c, d] && [d, c, b, a] + [] == [d, c, b, a];
    MoreWords([a, b, c, d], e, f, g, h);
    MoreWords([d, c, b, a], e, f, g, h);
    assert [a, b, c, d] + [e, f, g, h] == [a, b, c, d, e, f, g, h];
    assert [h, g, f, e] + [d, c, b, a] == [h, g, f, e, d, c, b, a];
  }

  /** Sizes and offsets of Elf32_Ehdr and Elf32_Phdr, or of their 64-bit counterparts: `word` is the width
      of addresses, offsets and sizes. */
  datatype Layout = Layout(word: nat, ehSize: nat, phOff: nat, shOff: nat, ehSizeAt: nat, phSize: nat,
                           pOffset: nat, pFilesz: nat, pMemsz: nat)
  {
    // the two-byte fields after e_ehsize
    function PhEntSize(): nat { ehSizeAt + 2 }
    function PhNum(): nat { ehSizeAt + 4 }
    function ShEntSize(): nat { ehSizeAt + 6 }
    function ShNum(): nat { ehSizeAt + 8 }
    function ShStrNdx(): nat { ehSizeAt + 10 }
  }

  const ELF32 := Layout(4, 52, 28, 32, 40, 32, 4, 16, 20)
  const ELF64 := Layout(8, 64, 32, 40, 52, 56, 8, 32, 40)

  const E_TYPE := 16

  /* The widths of the fields of the ELF header behind e_ident, and of a program header, in order (chapters 4 and 5):
     type, machine, version, entry, phoff, shoff, flags, ehsize, phentsize, phnum, shentsize, shnum, shstrndx; and
     type, offset, vaddr, paddr, filesz, memsz, flags, align, where flags are second in the 64-bit class */

  function EhdrFields(word: nat): seq<nat> { [16, 2, 2, 4, word, word, word, 4, 2, 2, 2, 2, 2, 2] }

  function PhdrFields(word: nat): seq<nat> {
    if word == 4 then [4, 4, 4, 4, 4, 4, 4, 4] else [4, 4, 8, 8, 8, 8, 8, 8]
  }

  /** The size of the first k fields */
  function Before(widths: seq<nat>, k: nat): nat
    requires k <= |widths|
  {
    if k == 0 then 0 else Before(widths, k - 1) + widths[k - 1]
  }

  /** Each field is where the fields before it end. */
  lemma {:induction false} LayoutsExactly(lay: Layout)
    requires lay == ELF32 || lay == ELF64
    ensures var eh, ph, shift := EhdrFields(lay.word), PhdrFields(lay.word), if lay == ELF64 then 1 else 0;
      && lay.word == (if lay == ELF32 then 4 else 8)
      && E_TYPE == Before(eh, 1) && lay.phOff == Before(eh, 5) && lay.shOff == Before(eh, 6)
      && lay.ehSizeAt == Before(eh, 8) && lay.PhEntSize() == Before(eh, 9) && lay.PhNum() == Before(eh, 10)
      && lay.ShEntSize() == Before(eh, 11) && lay.ShNum() == Before(eh, 12) && lay.ShStrNdx() == Before(eh, 13)
      && lay.ehSize == Before(eh, 14)
      && lay.pOffset == Before(ph, 1 + shift) && lay.pFilesz == Before(ph, 4 + shift)
      && lay.pMemsz == Before(ph, 5 + shift) && lay.phSize == Before(ph, 8)
  {
    var eh, ph := EhdrFields(lay.word), PhdrFields(lay.word);
    assert Before(eh, 3) == 20 && Before(eh, 6) == 24 + 2 * lay.word && Before(eh, 9) == 30 + 3 * lay.word;
    assert Before(eh, 12) == 36 + 3 * lay.word;
    assert Before(ph, 1) == 4 && Before(ph, 2) == 8;
    assert Before(ph, 4) == if lay.word == 4 then 16 else 24;
    assert Before(ph, 6) == if lay.word == 4 then 24 else 40;
  }

  /** The fields lie inside the headers, and apart from each other: so they do in both classes. */
  predicate Regular(lay: Layout) {
    && (lay.word == 4 || lay.word == 8)
    && E_TYPE + 2 <= lay.phOff && lay.phOff + lay.word <= lay.shOff && lay.shOff + lay.word <= lay.ehSizeAt
    && lay.ehSizeAt + 12 <= lay.ehSize
    && 4 <= lay.pOffset && lay.pOffset + lay.word <= lay.pFilesz && lay.pFilesz + lay.word <= lay.pMemsz
    && lay.pMemsz + lay.word <= lay.phSize
  }

  const U64 := 0x1_0000_0000_0000_0000

  lemma {:induction false} Widths(w: nat)
    requires w == 4 || w == 8
    ensures 0 < Pow256(w) <= U64 && Pow256(2) == 0x1_0000
  {
    assert Pow256(4) == 0x1_0000_0000 && Pow256(8) == U64 && Pow256(2) == 0x1_0000;
  }

  /* ---- program headers ---- */

  /** What is read of an entry, and all its bytes */
  datatype Phdr = Phdr(typ: nat, offset: nat, filesz: nat, memsz: nat, raw: seq<Byte>)

  function DecodePhdr(b: seq<Byte>, lay: Layout, big: bool): Phdr
    requires Regular(lay) && |b| == lay.phSize
  {
    Phdr(Get(b, 0, 4, big), Get(b, lay.pOffset, lay.word, big), Get(b, lay.pFilesz, lay.word, big),
         Get(b, lay.pMemsz, lay.word, big), b)
  }

  /** The bytes with p_offset and p_filesz as they are now */
  function EncodePhdr(p: Phdr, lay: Layout, big: bool): (b: seq<Byte>)
    requires Regular(lay) && |p.raw| == lay.phSize
    ensures |b| == lay.phSize
  {
    Put(Put(p.raw, lay.pOffset, lay.word, p.offset, big), lay.pFilesz, lay.word, p.filesz, big)
  }

  /** An entry as it can be in memory: its bytes hold the fields that are never written. */
  ghost predicate GoodPhdr(p: Phdr, lay: Layout, big: bool) {
    && Regular(lay) && |p.raw| == lay.phSize && p.offset < Pow256(lay.word) && p.filesz < Pow256(lay.word)
    && p.typ == Get(p.raw, 0, 4, big) && p.memsz == Get(p.raw, lay.pMemsz, lay.word, big)
  }

  lemma {:induction false} DecodedPhdr(b: seq<Byte>, lay: Layout, big: bool)
    requires Regular(lay) && |b| == lay.phSize
    ensures GoodPhdr(DecodePhdr(b, lay, big), lay, big)
  {
    GetBounded(b, lay.pOffset, lay.word, big);
    GetBounded(b, lay.pFilesz, lay.word, big);
  }

  /** Two forms of an entry have the same fields, and the same bytes but for p_offset and p_filesz. */
  ghost predicate SamePhdr(p: Phdr, q: Phdr, lay: Layout) {
    && p.typ == q.typ && p.offset == q.offset && p.filesz == q.filesz && p.memsz == q.memsz
    && |p.raw| == |q.raw| == lay.phSize
    && forall x: nat :: x < lay.phSize && !InExtent(x, lay) ==> p.raw[x] == q.raw[x]
  }

  /** The position of a byte of p_offset or p_filesz */
  predicate InExtent(x: nat, lay: Layout) {
    lay.pOffset <= x < lay.pOffset + lay.word || lay.pFilesz <= x < lay.pFilesz + lay.word
  }

  /** p_offset and p_filesz are read back as written. */
  lemma {:induction false} PhdrExtent(p: Phdr, lay: Layout, big: bool)
    requires GoodPhdr(p, lay, big)
    ensures Get(EncodePhdr(p, lay, big), lay.pOffset, lay.word, big) == p.offset
    ensures Get(EncodePhdr(p, lay, big), lay.pFilesz, lay.word, big) == p.filesz
  {
    var a := Put(p.raw, lay.pOffset, lay.word, p.offset, big);
    GetPut(p.raw, lay.pOffset, lay.word, p.offset, big);
    GetPut(a, lay.pFilesz, lay.word, p.filesz, big);
    GetPutOther(a, lay.pFilesz, lay.word, p.filesz, big, lay.pOffset, lay.word);
  }

  /** Other fields are not touched. */
  lemma {:induction false} PhdrField(p: Phdr, lay: Layout, big: bool, at: nat, w: nat)
    requires GoodPhdr(p, lay, big)
    requires at + w <= lay.pOffset || (lay.pFilesz + lay.word <= at && at + w <= lay.phSize)
    ensures Get(EncodePhdr(p, lay, big), at, w, big) == Get(p.raw, at, w, big)
  {
    var a := Put(p.raw, lay.pOffset, lay.word, p.offset, big);
    GetPutOther(p.raw, lay.pOffset, lay.word, p.offset, big, at, w);
    GetPutOther(a, lay.pFilesz, lay.word, p.filesz, big, at, w);
  }

  lemma {:induction false} PhdrByte(p: Phdr, lay: Layout, big: bool, x: nat)
    requires GoodPhdr(p, lay, big) && x < lay.phSize && !InExtent(x, lay)
    ensures EncodePhdr(p, lay, big)[x] == p.raw[x]
  {
    PutOther(p.raw, lay.pOffset, lay.word, p.offset, big, x);
    PutOther(Put(p.raw, lay.pOffset, lay.word, p.offset, big), lay.pFilesz, lay.word, p.filesz, big, x);
  }

  /** An entry survives writing and reading. */
  lemma {:induction false} PhdrRoundTrip(p: Phdr, lay: Layout, big: bool)
    requires GoodPhdr(p, lay, big)
    ensures SamePhdr(DecodePhdr(EncodePhdr(p, lay, big), lay, big), p, lay)
  {
    PhdrExtent(p, lay, big);
    PhdrField(p, lay, big, 0, 4);
    PhdrField(p, lay, big, lay.pMemsz, lay.word);
    forall x: nat | x < lay.phSize && !InExtent(x, lay) ensures EncodePhdr(p, lay, big)[x] == p.raw[x] {
      PhdrByte(p, lay, big, x);
    }
  }

  /* ---- the ELF header ---- */

  datatype Ehdr = Ehdr(phoff: nat, phnum: nat, shoff: nat, shentsize: nat, shnum: nat, shstrndx: nat, raw: seq<Byte>)

  function DecodeEhdr(b: seq<Byte>, lay: Layout, big: bool): Ehdr
    requires Regular(lay) && |b| == lay.ehSize
  {
    Ehdr(Get(b, lay.phOff, lay.word, big), Get(b, lay.PhNum(), 2, big), Get(b, lay.shOff, lay.word, big),
         Get(b, lay.ShEntSize(), 2, big), Get(b, lay.ShNum(), 2, big), Get(b, lay.ShStrNdx(), 2, big), b)
  }

  /** The bytes with the fields about sections as they are now */
  function EncodeEhdr(h: Ehdr, lay: Layout, big: bool): (b: seq<Byte>)
    requires Regular(lay) && |h.raw| == lay.ehSize
    ensures |b| == lay.ehSize
  {
    Put(Put(Put(Put(h.raw, lay.shOff, lay.word, h.shoff, big), lay.ShNum(), 2, h.shnum, big),
            lay.ShEntSize(), 2, h.shentsize, big), lay.ShStrNdx(), 2, h.shstrndx, big)
  }

  ghost predicate GoodEhdr(h: Ehdr, lay: Layout, big: bool) {
    && Regular(lay) && |h.raw| == lay.ehSize && h.shoff < Pow256(lay.word)
    && h.shentsize < Pow256(2) && h.shnum < Pow256(2) && h.shstrndx < Pow256(2)
    && h.phoff == Get(h.raw, lay.phOff, lay.word, big) && h.phnum == Get(h.raw, lay.PhNum(), 2, big)
  }

  lemma {:induction false} DecodedEhdr(b: seq<Byte>, lay: Layout, big: bool)
    requires Regular(lay) && |b| == lay.ehSize
    ensures GoodEhdr(DecodeEhdr(b, lay, big), lay, big)
  {
    GetBounded(b, lay.shOff, lay.word, big);
    GetBounded(b, lay.ShEntSize(), 2, big);
    GetBounded(b, lay.ShNum(), 2, big);
    GetBounded(b, lay.ShStrNdx(), 2, big);
  }

  /** One field written: all fields apart from it stay. */
  lemma {:induction false} PutEhdr(b: seq<Byte>, lay: Layout, big: bool, at: nat, w: nat, v: nat, other: nat, u: nat)
    requires Regular(lay) && |b| == lay.ehSize && at + w <= |b| && other + u <= |b| && v < Pow256(w)
    requires other + u <= at || at + w <= other
    ensures Get(Put(b, at, w, v, big), at, w, big) == v
    ensures Get(Put(b, at, w, v, big), other, u, big) == Get(b, other, u, big)
  {
    GetPut(b, at, w, v, big);
    GetPutOther(b, at, w, v, big, other, u);
  }

  lemma {:induction false} EhdrField(h: Ehdr, lay: Layout, big: bool, at: nat, w: nat)
    requires GoodEhdr(h, lay, big) && at + w <= lay.shOff
    ensures Get(EncodeEhdr(h, lay, big), at, w, big) == Get(h.raw, at, w, big)
  {
    var a := Put(h.raw, lay.shOff, lay.word, h.shoff, big);
    var b := Put(a, lay.ShNum(), 2, h.shnum, big);
    var c := Put(b, lay.ShEntSize(), 2, h.shentsize, big);
    GetPutOther(h.raw, lay.shOff, lay.word, h.shoff, big, at, w);
    GetPutOther(a, lay.ShNum(), 2, h.shnum, big, at, w);
    GetPutOther(b, lay.ShEntSize(), 2, h.shentsize, big, at, w);
    GetPutOther(c, lay.ShStrNdx(), 2, h.shstrndx, big, at, w);
  }

  lemma {:induction false} EhdrCount(h: Ehdr, lay: Layout, big: bool)
    requires GoodEhdr(h, lay, big)
    ensures Get(EncodeEhdr(h, lay, big), lay.PhNum(), 2, big) == h.phnum
    ensures Get(EncodeEhdr(h, lay, big), lay.shOff, lay.word, big) == h.shoff
  {
    var a := Put(h.raw, lay.shOff, lay.word, h.shoff, big);
    var b := Put(a, lay.ShNum(), 2, h.shnum, big);
    var c := Put(b, lay.ShEntSize(), 2, h.shentsize, big);
    PutEhdr(h.raw, lay, big, lay.shOff, lay.word, h.shoff, lay.PhNum(), 2);
    PutEhdr(a, lay, big, lay.ShNum(), 2, h.shnum, lay.PhNum(), 2);
    PutEhdr(b, lay, big, lay.ShEntSize(), 2, h.shentsize, lay.PhNum(), 2);
    PutEhdr(c, lay, big, lay.ShStrNdx(), 2, h.shstrndx, lay.PhNum(), 2);
    PutEhdr(a, lay, big, lay.ShNum(), 2, h.shnum, lay.shOff, lay.word);
    PutEhdr(b, lay, big, lay.ShEntSize(), 2, h.shentsize, lay.shOff, lay.word);
    PutEhdr(c, lay, big, lay.ShStrNdx(), 2, h.shstrndx, lay.shOff, lay.word);
  }

  lemma {:induction false} EhdrSections(h: Ehdr, lay: Layout, big: bool)
    requires GoodEhdr(h, lay, big)
    ensures Get(EncodeEhdr(h, lay, big), lay.ShNum(), 2, big) == h.shnum
    ensures Get(EncodeEhdr(h, lay, big), lay.ShEntSize(), 2, big) == h.shentsize
    ensures Get(EncodeEhdr(h, lay, big), lay.ShStrNdx(), 2, big) == h.shstrndx
  {
    var a := Put(h.raw, lay.shOff, lay.word, h.shoff, big);
    var b := Put(a, lay.ShNum(), 2, h.shnum, big);
    var c := Put(b, lay.ShEntSize(), 2, h.shentsize, big);
    PutEhdr(a, lay, big, lay.ShNum(), 2, h.shnum, lay.shOff, lay.word);
    PutEhdr(b, lay, big, lay.ShEntSize(), 2, h.shentsize, lay.ShNum(), 2);
    PutEhdr(c, lay, big, lay.ShStrNdx(), 2, h.shstrndx, lay.ShNum(), 2);
    PutEhdr(c, lay, big, lay.ShStrNdx(), 2, h.shstrndx, lay.ShEntSize(), 2);
  }

  /** The position of a byte of the fields about sections */
  predicate InSections(x: nat, lay: Layout) {
    lay.shOff <= x < lay.shOff + lay.word || lay.ShEntSize() <= x < lay.ShStrNdx() + 2
  }

  /** Two forms of a header have the same fields, and the same bytes but for the fields about sections. */
  ghost predicate SameEhdr(h: Ehdr, g: Ehdr, lay: Layout) {
    && h.(raw := g.raw) == g && |h.raw| == |g.raw| == lay.ehSize
    && forall x: nat :: x < lay.ehSize && !InSections(x, lay) ==> h.raw[x] == g.raw[x]
  }

  lemma {:induction false} EhdrBytes(h: Ehdr, lay: Layout, big: bool, x: nat)
    requires Regular(lay) && |h.raw| == lay.ehSize && x < lay.ehSize && !InSections(x, lay)
    ensures EncodeEhdr(h, lay, big)[x] == h.raw[x]
  {
    var a := Put(h.raw, lay.shOff, lay.word, h.shoff, big);
    var b := Put(a, lay.ShNum(), 2, h.shnum, big);
    var c := Put(b, lay.ShEntSize(), 2, h.shentsize, big);
    PutOther(h.raw, lay.shOff, lay.word, h.shoff, big, x);
    PutOther(a, lay.ShNum(), 2, h.shnum, big, x);
    PutOther(b, lay.ShEntSize(), 2, h.shentsize, big, x);
    PutOther(c, lay.ShStrNdx(), 2, h.shstrndx, big, x);
  }

  lemma {:induction false} PutOther(s: seq<Byte>, at: nat, w: nat, v: nat, big: bool, x: nat)
    requires at + w <= |s| && x < |s| && !(at <= x < at + w)
    ensures Put(s, at, w, v, big)[x] == s[x]
  {
  }

  /** The header survives writing and reading. */
  lemma {:induction false} EhdrRoundTrip(h: Ehdr, lay: Layout, big: bool)
    requires GoodEhdr(h, lay, big)
    ensures SameEhdr(DecodeEhdr(EncodeEhdr(h, lay, big), lay, big), h, lay)
  {
    EhdrField(h, lay, big, lay.phOff, lay.word);
    EhdrCount(h, lay, big);
    EhdrSections(h, lay, big);
    forall x: nat | x < lay.ehSize && !InSections(x, lay) ensures EncodeEhdr(h, lay, big)[x] == h.raw[x] {
      EhdrBytes(h, lay, big, x);
    }
  }

  /* ---- the program header table ---- */

  /** The size of n entries, by recursion along the table */
  function Total(n: nat, size: nat): nat
    decreases n
  {
    if n == 0 then 0 else size + Total(n - 1, size)
  }

  lemma {:induction false} TotalIsProduct(n: nat, size: nat)
    ensures Total(n, size) == n * size
    decreases n
  {
    if n > 0 {
      TotalIsProduct(n - 1, size);
      assert n * size == size + (n - 1) * size;
    }
  }

  /** The n entries that the bytes `b` hold */
  function DecodeTable(b: seq<Byte>, n: nat, lay: Layout, big: bool): (es: seq<Phdr>)
    requires Regular(lay) && |b| == Total(n, lay.phSize)
    ensures |es| == n
    decreases n
  {
    if n == 0 then []
    else [DecodePhdr(b[..lay.phSize], lay, big)] + DecodeTable(b[lay.phSize..], n - 1, lay, big)
  }

  predicate Sized(es: seq<Phdr>, lay: Layout) { forall e :: e in es ==> |e.raw| == lay.phSize }

  function EncodeTable(es: seq<Phdr>, lay: Layout, big: bool): (b: seq<Byte>)
    requires Regular(lay) && Sized(es, lay)
    ensures |b| == Total(|es|, lay.phSize)
    decreases |es|
  {
    if es == [] then [] else EncodePhdr(es[0], lay, big) + EncodeTable(es[1..], lay, big)
  }

  ghost predicate GoodTable(es: seq<Phdr>, lay: Layout, big: bool) {
    Regular(lay) && forall e :: e in es ==> GoodPhdr(e, lay, big)
  }

  lemma {:induction false} DecodedTable(b: seq<Byte>, n: nat, lay: Layout, big: bool)
    requires Regular(lay) && |b| == Total(n, lay.phSize)
    ensures GoodTable(DecodeTable(b, n, lay, big), lay, big)
    decreases n
  {
    if n > 0 {
      DecodedPhdr(b[..lay.phSize], lay, big);
      DecodedTable(b[lay.phSize..], n - 1, lay, big);
    }
  }

  ghost predicate SameTable(es: seq<Phdr>, fs: seq<Phdr>, lay: Layout) {
    |es| == |fs| && forall k :: 0 <= k < |es| ==> SamePhdr(es[k], fs[k], lay)
  }

  /** The whole table survives writing and reading. */
  lemma {:induction false} TableRoundTrip(es: seq<Phdr>, b: seq<Byte>, lay: Layout, big: bool)
    requires GoodTable(es, lay, big) && Sized(es, lay) && b == EncodeTable(es, lay, big)
    ensures |b| == Total(|es|, lay.phSize) && SameTable(DecodeTable(b, |es|, lay, big), es, lay)
    decreases |es|
  {
    if es != [] {
      var p, rest := EncodePhdr(es[0], lay, big), EncodeTable(es[1..], lay, big);
      assert es[0] in es;
      PhdrRoundTrip(es[0], lay, big);
      TableRoundTrip(es[1..], rest, lay, big);
      DecodeCons(p, rest, |es|, lay, big);
      SameCons(DecodePhdr(p, lay, big), DecodeTable(rest, |es| - 1, lay, big), es, lay);
    }
  }

  lemma {:induction false} DecodeCons(p: seq<Byte>, rest: seq<Byte>, n: nat, lay: Layout, big: bool)
    requires Regular(lay) && n > 0 && |p| == lay.phSize && |rest| == Total(n - 1, lay.phSize)
    ensures |p + rest| == Total(n, lay.phSize)
    ensures DecodeTable(p + rest, n, lay, big) == [DecodePhdr(p, lay, big)] + DecodeTable(rest, n - 1, lay, big)
  {
    assert (p + rest)[..lay.phSize] == p && (p + rest)[lay.phSize..] == rest;
  }

  lemma {:induction false} SameCons(p: Phdr, ps: seq<Phdr>, es: seq<Phdr>, lay: Layout)
    requires es != [] && SamePhdr(p, es[0], lay) && SameTable(ps, es[1..], lay)
    ensures SameTable([p] + ps, es, lay)
  {
    forall k | 0 <= k < |es| ensures SamePhdr(([p] + ps)[k], es[k], lay) {
      if k > 0 { assert es[1..][k - 1] == es[k]; }
    }
  }
}
