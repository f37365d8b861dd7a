/** The checksum of zyimage (tools/zyimage/src/zyimage.c:21-58): a table-driven CRC over chunks of a file,
    against the definition that takes in one message bit at a time (section 8 of RFC 1952, without the
    final complement). */
module Crc {
  const POLY: bv32 := 0xEDB88320

  const START: bv32 := 0xFFFFFFFF

  /** Bits in a char */
  const BITS: nat := 8

  /** Entries in the table */
  const SIZE := 256

  /** The size of the buffer the file is read through */
  const SZBUF := 32768

  function Xor(x: bv32, y: bv32): bv32 { x ^ y }

  function Half(x: bv32): bv32 { x >> 1 }

  predicate Odd(x: bv32) { x & 1 == 1 }

  function Divisor(b: bool): bv32 { if b then POLY else 0 }

  /* ---- the definition ---- */

  /** One message bit into the register: the polynomial is divided out when the bit that leaves the
      register differs from it. */
  function TakeBit(crc: bv32, bit: bool): bv32 { Xor(Half(crc), Divisor(Odd(crc) != bit)) }

  /** The n lowest bits of b, least significant first */
  function TakeBits(crc: bv32, b: bv32, n: nat): bv32
    decreases n
  {
    if n == 0 then crc else TakeBits(TakeBit(crc, Odd(b)), Half(b), n - 1)
  }

  /** The checksum of a message, from the register `crc` on */
  function TakeBytes(crc: bv32, s: seq<bv8>): bv32
    decreases |s|
  {
    if s == [] then crc else TakeBytes(TakeBits(crc, s[0] as bv32, BITS), s[1..])
  }

  /** A message may be taken in in pieces. */
  lemma {:induction false} TakeBytesAppend(crc: bv32, s: seq<bv8>, t: seq<bv8>)
    ensures TakeBytes(crc, s + t) == TakeBytes(TakeBytes(crc, s), t)
    decreases |s|
  {
    if s == [] {
      assert s + t == t;
    } else {
      assert (s + t)[0] == s[0] && (s + t)[1..] == s[1..] + t;
      TakeBytesAppend(TakeBits(crc, s[0] as bv32, BITS), s[1..], t);
    }
  }

  lemma {:induction false} TakeOne(crc: bv32, b: bv8)
    ensures TakeBytes(crc, [b]) == TakeBits(crc, b as bv32, BITS)
  {
    assert [b][1..] == [];
  }

  lemma {:induction false} TakeNext(crc: bv32, s: seq<bv8>, i: nat)
    requires i < |s|
    ensures TakeBytes(crc, s[..i + 1]) == TakeBits(TakeBytes(crc, s[..i]), s[i] as bv32, BITS)
  {
    var c, one := TakeBytes(crc, s[..i]), [s[i]];
    assert s[..i + 1] == s[..i] + one;
    TakeBytesAppend(crc, s[..i], one);
    TakeOne(c, s[i]);
  }

  lemma {:induction false} TakeChunk(crc: bv32, s: seq<bv8>, i: nat, n: nat)
    requires i + n <= |s|
    ensures TakeBytes(crc, s[i..]) == TakeBytes(TakeBytes(crc, s[i..i + n]), s[i + n..])
  {
    assert s[i..] == s[i..i + n] + s[i + n..];
    TakeBytesAppend(crc, s[i..i + n], s[i + n..]);
  }

  /* ---- the table ---- */

  /** The body of the inner loop that fills the table */
  function Step(x: bv32): bv32 { if Odd(x) then Xor(Half(x), POLY) else Half(x) }

  function Steps(x: bv32, n: nat): bv32
    decreases n
  {
    if n == 0 then x else Steps(Step(x), n - 1)
  }

  function Halves(x: bv32, n: nat): bv32
    decreases n
  {
    if n == 0 then x else Halves(Half(x), n - 1)
  }

  /** The n lowest bits are clear. */
  predicate LowClear(x: bv32, n: nat)
    decreases n
  {
    n == 0 || (!Odd(x) && LowClear(Half(x), n - 1))
  }

  lemma {:induction false} XorZero(x: bv32)
    ensures Xor(x, 0) == x && Xor(0, x) == x
  {
  }

  lemma {:induction false} OddXor(x: bv32, y: bv32)
    ensures Odd(Xor(x, y)) == (Odd(x) != Odd(y))
  {
  }

  lemma {:induction false} HalfXorLeft(x: bv32, y: bv32, m: bv32)
    ensures Xor(Half(Xor(x, y)), m) == Xor(Half(x), Xor(Half(y), m))
  {
  }

  lemma {:induction false} HalfXorRight(x: bv32, y: bv32, m: bv32)
    ensures Xor(Half(Xor(x, y)), m) == Xor(Xor(Half(x), m), Half(y))
  {
    HalfXorLeft(x, y, m);
    XorSwap(Half(x), Half(y), m);
  }

  lemma {:induction false} XorSwap(a: bv32, b: bv32, m: bv32)
    ensures Xor(a, Xor(b, m)) == Xor(Xor(a, m), b)
  {
  }

  lemma {:induction false} StepDivides(x: bv32)
    ensures Step(x) == Xor(Half(x), Divisor(Odd(x)))
  {
    XorZero(Half(x));
  }

  lemma {:induction false} StepHigh(h: bv32, x: bv32)
    requires !Odd(h)
    ensures Step(Xor(h, x)) == Xor(Half(h), Step(x))
  {
    OddXor(h, x);
    StepDivides(x);
    StepDivides(Xor(h, x));
    HalfXorLeft(h, x, Divisor(Odd(x)));
  }

  /** What the division has not reached yet is only shifted. */
  lemma {:induction false} StepsHigh(h: bv32, x: bv32, n: nat)
    requires LowClear(h, n)
    ensures Steps(Xor(h, x), n) == Xor(Halves(h, n), Steps(x, n))
    decreases n
  {
    if n > 0 {
      StepHigh(h, x);
      StepsHigh(Half(h), Step(x), n - 1);
    }
  }

  lemma {:induction false} TakeBitStep(crc: bv32, b: bv32)
    ensures Step(Xor(crc, b)) == Xor(TakeBit(crc, Odd(b)), Half(b))
  {
    OddXor(crc, b);
    StepDivides(Xor(crc, b));
    HalfXorRight(crc, b, Divisor(Odd(crc) != Odd(b)));
  }

  /** Taking in n message bits one by one, or adding all of them to the register first */
  lemma {:induction false} TakeBitsSteps(crc: bv32, b: bv32, n: nat)
    ensures Steps(Xor(crc, b), n) == Xor(TakeBits(crc, b, n), Halves(b, n))
    decreases n
  {
    if n > 0 {
      TakeBitStep(crc, b);
      TakeBitsSteps(TakeBit(crc, Odd(b)), Half(b), n - 1);
    }
  }

  lemma {:induction false} EightHalves(x: bv32)
    ensures Halves(x, 8) == Half(Half(Half(Half(Half(Half(Half(Half(x))))))))
  {
    var y := Half(Half(Half(Half(x))));
    assert Halves(y, 4) == Halves(Half(Half(y)), 2) == Half(Half(Half(Half(y))));
    assert Halves(x, 8) == Halves(Half(Half(x)), 6) == Halves(y, 4);
  }

  lemma {:induction false} EightClear(x: bv32)
    requires x & 0xFF == 0
    ensures LowClear(x, 8)
  {
    var y := Half(Half(Half(Half(x))));
    assert LowClear(y, 4) by {
      assert !Odd(y) && !Odd(Half(y)) && !Odd(Half(Half(y))) && !Odd(Half(Half(Half(y))));
      assert LowClear(Half(Half(y)), 2);
    }
    assert !Odd(x) && !Odd(Half(x)) && !Odd(Half(Half(x))) && !Odd(Half(Half(Half(x))));
    assert LowClear(Half(Half(x)), 6);
  }

  /** A char is signed: what the expression *buf is promoted to */
  function Promoted(b: bv8): bv32 { if b >= 0x80 then (b as bv32) | 0xFFFFFF00 else b as bv32 }

  function Low(x: bv32): bv32 { x & 0xFF }

  function High(x: bv32): bv32 { x & 0xFFFFFF00 }

  function Upper(crc: bv32): bv32 { (crc >> 8) & 0x00FFFFFF }

  lemma {:induction false} SignIsMasked(crc: bv32, b: bv8)
    ensures Low(Xor(crc, Promoted(b))) == Low(Xor(crc, b as bv32))
  {
  }

  lemma {:induction false} ByteHalves(b: bv8)
    ensures Halves(b as bv32, BITS) == 0
  {
    EightHalves(b as bv32);
    ByteRunsOut(b as bv32);
  }

  lemma {:induction false} ByteRunsOut(x: bv32)
    requires x & 0xFF == x
    ensures Half(Half(Half(Half(Half(Half(Half(Half(x)))))))) == 0
  {
  }

  lemma {:induction false} SplitByte(x: bv32)
    ensures Xor(High(x), Low(x)) == x && High(x) & 0xFF == 0
  {
  }

  lemma {:induction false} HighHalves(crc: bv32, b: bv8)
    ensures Halves(High(Xor(crc, b as bv32)), 8) == Upper(crc)
  {
    EightHalves(High(Xor(crc, b as bv32)));
    HighRunsDown(crc, b);
  }

  lemma {:induction false} HighRunsDown(crc: bv32, b: bv8)
    ensures Half(Half(Half(Half(Half(Half(Half(Half(High(Xor(crc, b as bv32)))))))))) == Upper(crc)
  {
  }

  lemma {:induction false} BytewiseSteps(crc: bv32, b: bv8)
    ensures Steps(Xor(crc, b as bv32), 8) == TakeBits(crc, b as bv32, BITS)
  {
    TakeBitsSteps(crc, b as bv32, BITS);
    ByteHalves(b);
    XorZero(TakeBits(crc, b as bv32, BITS));
  }

  lemma {:induction false} TablewiseSteps(crc: bv32, b: bv8, x: bv32)
    requires x == Xor(crc, b as bv32)
    ensures Steps(x, 8) == Xor(Upper(crc), Steps(Low(x), 8))
  {
    SplitByte(x);
    EightClear(High(x));
    StepsHigh(High(x), Low(x), 8);
    HighHalves(crc, b);
  }

  /** What the table holds for byte k */
  function Entry(k: nat): bv32
    requires k < 256
  {
    Steps(k as bv32, BITS)
  }

  /** What it holds for the bytes below n */
  function Entries(n: nat): (es: seq<bv32>)
    requires n <= SIZE
    ensures |es| == n
  {
    if n == 0 then [] else Entries(n - 1) + [Entry(n - 1)]
  }

  lemma {:induction false} EntriesAt(n: nat, k: nat)
    requires k < n <= SIZE
    ensures Entries(n)[k] == Entry(k)
  {
    if k < n - 1 { EntriesAt(n - 1, k); }
  }

  lemma {:induction false} EntryAt(es: seq<bv32>, x: bv32)
    requires |es| == SIZE && es == Entries(|es|) && x < 256
    ensures es[x as nat] == Steps(x, BITS)
  {
    EntriesAt(|es|, x as nat);
    assert (x as nat) as bv32 == x;
  }

  /** One lookup does the work of eight message bits. */
  lemma {:induction false} LookupTakesByte(crc: bv32, b: bv8)
    ensures Xor(Upper(crc), Steps(Low(Xor(crc, Promoted(b))), 8)) == TakeBits(crc, b as bv32, BITS)
  {
    SignIsMasked(crc, b);
    BytewiseSteps(crc, b);
    TablewiseSteps(crc, b, Xor(crc, b as bv32));
  }

  /* ---- the program ---- */

  /* ---- the check value ---- */

  lemma {:induction false} EightStepsAre(x: bv32)
    ensures Steps(x, 8) == Step(Step(Step(Step(Step(Step(Step(Step(x))))))))
  {
    var y := Step(Step(Step(Step(x))));
    assert Steps(y, 4) == Steps(Step(Step(y)), 2) == Step(Step(Step(Step(y))));
    assert Steps(x, 8) == Steps(Step(Step(x)), 6) == Steps(y, 4);
  }

  /** The i-th byte of a message, and the register behind it */
  lemma {:induction false} TakesTo(s: seq<bv8>, i: nat, crc: bv32, r: bv32)
    requires i < |s| && Step(Step(Step(Step(Step(Step(Step(Step(Xor(crc, s[i] as bv32))))))))) == r
    ensures TakeBytes(crc, s[i..]) == TakeBytes(r, s[i + 1..])
  {
    BytewiseSteps(crc, s[i]);
    EightStepsAre(Xor(crc, s[i] as bv32));
    assert s[i..][1..] == s[i + 1..];
  }

  const DIGITS: seq<bv8> := [0x31, 0x32, 0x33, 0x34, 0x35, 0x36, 0x37, 0x38, 0x39]

  lemma {:induction false} FirstDigit()
    ensures TakeBytes(START, DIGITS) == TakeBytes(0x7C231048, DIGITS[1..])
  {
    assert DIGITS[0..] == DIGITS;
    TakesTo(DIGITS, 0, START, 0x7C231048);
  }

  lemma {:induction false} NextDigit()
    ensures TakeBytes(0x7C231048, DIGITS[1..]) == TakeBytes(0xB0ACBB32, DIGITS[2..])
  {
    TakesTo(DIGITS, 1, 0x7C231048, 0xB0ACBB32);
  }

  lemma {:induction false} MiddleDigits()
    ensures TakeBytes(0xB0ACBB32, DIGITS[2..]) == TakeBytes(0x340AC5E3, DIGITS[5..])
  {
    TakesTo(DIGITS, 2, 0xB0ACBB32, 0x77B79C2D);
    TakesTo(DIGITS, 3, 0x77B79C2D, 0x641C1F5C);
    TakesTo(DIGITS, 4, 0x641C1F5C, 0x340AC5E3);
  }

  lemma {:induction false} LastDigits()
    ensures TakeBytes(0x340AC5E3, DIGITS[5..]) == 0x340BC6D9
  {
    TakesTo(DIGITS, 5, 0x340AC5E3, 0xF68D2C9E);
    TakesTo(DIGITS, 6, 0xF68D2C9E, 0xAFFC9660);
    TakesTo(DIGITS, 7, 0xAFFC9660, 0x651F2550);
    TakesTo(DIGITS, 8, 0x651F2550, 0x340BC6D9);
    assert DIGITS[9..] == [];
  }

  /** The checksum of the digits "123456789" is the one known of this CRC, before the final complement. */
  lemma {:induction false} CheckValue()
    ensures TakeBytes(START, [0x31, 0x32, 0x33, 0x34, 0x35, 0x36, 0x37, 0x38, 0x39]) == 0x340BC6D9
  {
    FirstDigit();
    NextDigit();
    MiddleDigits();
    LastDigits();
  }

  class Signer {
    const crcTab: array<bv32>

    /** The table maps a byte to what eight shifts make of it. */
    ghost predicate Filled()
      reads crcTab
    {
      crcTab.Length == SIZE && forall b: bv32 :: b < 256 ==> crcTab[b as int] == Steps(b, BITS)
    }

    constructor ()
      ensures fresh(crcTab) && crcTab.Length == SIZE
    {
      crcTab := new bv32[SIZE];
    }

    /** chksum_crc32gentab */
    method GenTab()
      requires crcTab.Length == SIZE
      modifies crcTab
      ensures Filled()
    {
      FillTab();
      forall b: bv32 | b < 256 ensures crcTab[b as int] == Steps(b, BITS) { EntryAt(crcTab[..], b); }
    }

    /** The loop over the entries */
    method FillTab()
      requires crcTab.Length == SIZE
      modifies crcTab
      ensures crcTab[..] == Entries(crcTab.Length)
    {
      var i := 0;
      while i < SIZE
        invariant 0 <= i <= SIZE && crcTab[..i] == Entries(i)
      {
        var crc := EightSteps(i);
        crcTab[i] := crc;
        i := i + 1;
      }
    }

    /** The inner loop */
    method EightSteps(i: nat) returns (crc: bv32)
      requires i < 256
      ensures crc == Entry(i)
    {
      crc := i as bv32;
      var j := BITS;
      while j > 0
        invariant 0 <= j <= BITS && Steps(crc, j) == Entry(i)
      {
        if Odd(crc) { crc := Xor(Half(crc), POLY); } else { crc := Half(crc); }
        j := j - 1;
      }
    }

    /** The loop over the n bytes in the buffer */
    method TakeBuffer(start: bv32, buffer: array<bv8>, n: nat) returns (crc: bv32)
      requires Filled() && n <= buffer.Length
      ensures crc == TakeBytes(start, buffer[..n])
    {
      crc := start;
      var i := 0;
      while i < n
        invariant 0 <= i <= n && crc == TakeBytes(start, buffer[..i])
      {
        TakeNext(start, buffer[..n], i);
        crc := Lookup(crc, buffer[i]);
        assert buffer[..n][..i] == buffer[..i] && buffer[..n][..i + 1] == buffer[..i + 1];
        i := i + 1;
      }
    }

    method Lookup(crc: bv32, b: bv8) returns (r: bv32)
      requires Filled()
      ensures r == TakeBits(crc, b as bv32, BITS)
    {
      var index := Low(Xor(crc, Promoted(b)));
      assert index < 256;
      r := Xor(Upper(crc), crcTab[index as int]);
      LookupTakesByte(crc, b);
    }

    /** fread, of a file that is read up to `pos`: as many bytes as fit, until the end */
    method Read(file: seq<bv8>, pos: nat, buffer: array<bv8>) returns (n: nat)
      requires pos <= |file|
      modifies buffer
      ensures n == if |file| - pos < buffer.Length then |file| - pos else buffer.Length
      ensures buffer[..n] == file[pos..pos + n]
    {
      n := if |file| - pos < buffer.Length then |file| - pos else buffer.Length;
      forall i | 0 <= i < n { buffer[i] := file[pos + i]; }
    }

    /** chksum_crc32 */
    method Checksum(file: seq<bv8>) returns (crc: bv32)
      requires Filled()
      ensures crc == TakeBytes(START, file)
    {
      crc := TakeFile(START, file);
    }

    method TakeFile(start: bv32, file: seq<bv8>) returns (crc: bv32)
      requires Filled()
      ensures crc == TakeBytes(start, file)
    {
      crc := start;
      var pos, eof := 0, false;
      var buffer := new bv8[SZBUF];
      ghost var all := TakeBytes(start, file);
      assert file[pos..] == file;
      while !eof
        invariant 0 <= pos <= |file| && (eof ==> pos == |file|) && Filled()
        invariant TakeBytes(crc, file[pos..]) == all
        decreases |file| - pos, if eof then 0 else 1
      {
        var n;
        crc, n := NextChunk(file, pos, buffer, crc);
        eof := n < SZBUF;
        pos := pos + n;
      }
      assert file[pos..] == [];
    }

    /** The body of that loop */
    method NextChunk(file: seq<bv8>, pos: nat, buffer: array<bv8>, before: bv32) returns (crc: bv32, n: nat)
      requires Filled() && pos <= |file|
      modifies buffer
      ensures Filled() && n == if |file| - pos < buffer.Length then |file| - pos else buffer.Length
      ensures TakeBytes(crc, file[pos + n..]) == TakeBytes(before, file[pos..])
    {
      n := Read(file, pos, buffer);
      crc := TakeBuffer(before, buffer, n);
      TakeChunk(before, file, pos, n);
    }
  }
}
