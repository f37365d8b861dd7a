/** pad_image of padjffs2 (tools/padjffs2/src/padjffs2.c:37-128): padding an image to several alignments at
    once, with a JFFS2 end marker at each. */
module PadImages {
  import opened Octets

  const EOF_MARK: seq<Byte> := [0xde, 0xad, 0xc0, 0xde]

  const TWO32 := 0x1_0000_0000

  /** The size of the buffer of 0xff bytes */
  const BUF_SIZE := 65536

  /* ---- bits of the 32-bit mask ---- */

  /** 1UL << i, in 32 bits */
  function Bit(i: nat): bv32
    decreases i
  {
    if i == 0 then 1 else Bit(i - 1) << 1
  }

  function And(x: bv32, y: bv32): bv32 { x & y }

  function Without(x: bv32, y: bv32): bv32 { x & !y }

  predicate Has(mask: bv32, i: nat) { And(mask, Bit(i)) != 0 }

  function Clear(mask: bv32, i: nat): bv32 { Without(mask, Bit(i)) }

  lemma {:induction false} ShiftedApart(x: bv32, y: bv32)
    requires And(x, y) == 0
    ensures And(x << 1, y << 1) == 0
  {
  }

  lemma {:induction false} LowestApart(y: bv32)
    ensures And(1, y << 1) == 0
  {
  }

  lemma {:induction false} BitsApart(i: nat, j: nat)
    requires i < j
    ensures And(Bit(i), Bit(j)) == 0 && And(Bit(j), Bit(i)) == 0
    decreases i
  {
    if i == 0 { LowestApart(Bit(j - 1)); } else { BitsApart(i - 1, j - 1); ShiftedApart(Bit(i - 1), Bit(j - 1)); }
    Commute(Bit(i), Bit(j));
  }

  lemma {:induction false} Commute(x: bv32, y: bv32)
    ensures And(x, y) == And(y, x)
  {
  }

  lemma {:induction false} ClearSame(m: bv32, b: bv32)
    ensures And(Without(m, b), b) == 0
  {
  }

  lemma {:induction false} ClearOther(m: bv32, b: bv32, c: bv32)
    requires And(b, c) == 0
    ensures And(Without(m, b), c) == And(m, c)
  {
  }

  lemma {:induction false} ClearHas(mask: bv32, i: nat, j: nat)
    ensures Has(Clear(mask, i), j) <==> Has(mask, j) && j != i
  {
    if i == j {
      ClearSame(mask, Bit(i));
    } else {
      if i < j { BitsApart(i, j); } else { BitsApart(j, i); }
      ClearOther(mask, Bit(i), Bit(j));
    }
  }

  /** The bits below the n-th, together */
  function Below(n: nat): bv32
    decreases n
  {
    if n == 0 then 0 else Below(n - 1) | Bit(n - 1)
  }

  lemma {:induction false} NoneBelow(mask: bv32, n: nat)
    requires forall i: nat :: i < n ==> !Has(mask, i)
    ensures And(mask, Below(n)) == 0
    decreases n
  {
    if n == 0 {
      WithZero(mask);
    } else {
      NoneBelow(mask, n - 1);
      assert !Has(mask, n - 1);
      Together(mask, Below(n - 1), Bit(n - 1));
    }
  }

  lemma {:induction false} WithZero(m: bv32)
    ensures And(m, 0) == 0
  {
  }

  lemma {:induction false} Together(m: bv32, x: bv32, y: bv32)
    requires And(m, x) == 0 && And(m, y) == 0
    ensures And(m, x | y) == 0
  {
  }

  lemma {:induction false} AllBits()
    ensures Below(32) == 0xFFFFFFFF
  {
    assert Bit(8) == 0x100 && Bit(16) == 0x1_0000 && Bit(24) == 0x100_0000;
    assert Below(8) == 0xFF;
    assert Below(16) == 0xFFFF;
    assert Below(24) == 0xFF_FFFF;
  }

  /** A mask without bits is zero. */
  lemma {:induction false} SomeBit(mask: bv32)
    requires forall i: nat :: i < 32 ==> !Has(mask, i)
    ensures mask == 0
  {
    NoneBelow(mask, 32);
    AllBits();
    Full(mask);
  }

  lemma {:induction false} Full(m: bv32)
    ensures And(m, 0xFFFFFFFF) == m
  {
  }

  /* ---- alignment ---- */

  function Pow2(i: nat): (p: nat)
    ensures p > 0
    decreases i
  {
    if i == 0 then 1 else 2 * Pow2(i - 1)
  }

  predicate Aligned(x: nat, i: nat) { x % Pow2(i) == 0 }

  /** The lowest multiple of 2^i that is not below x */
  function AlignUp(x: nat, i: nat): nat { (x + Pow2(i) - 1) / Pow2(i) * Pow2(i) }

  /** ALIGN(x, 1UL << i): the mask it is computed with is 32 bits wide. */
  function Align32(x: nat, i: nat): nat { AlignUp(x, i) % TWO32 }

  lemma {:induction false} MultiplesApart(a: nat, q: nat, r: nat)
    requires q < r
    ensures a * q + a <= a * r
  {
    assert a * r == a * q + a * (r - q);
    assert a * (r - q) >= a by { if r - q > 1 { assert a * (r - q) == a + a * (r - q - 1); } }
  }

  lemma {:induction false} Quotient(x: nat, a: nat)
    requires a > 0 && x % a == 0
    ensures x == a * (x / a)
  {
  }

  lemma {:induction false} DivUnique(x: nat, a: nat, q: nat, r: nat)
    requires r < a && x == a * q + r
    ensures x / a == q && x % a == r
  {
    var p, t := x / a, x % a;
    assert x == a * p + t;
    if q < p { MultiplesApart(a, q, p); }
    if p < q { MultiplesApart(a, p, q); }
  }

  lemma {:induction false} ProductAligned(a: nat, q: nat)
    requires a > 0
    ensures (q * a) % a == 0 && (a * q) % a == 0
  {
    DivUnique(a * q, a, q, 0);
    assert q * a == a * q;
  }

  /** Different multiples of a are at least a apart. */
  lemma {:induction false} Apart(x: nat, y: nat, a: nat)
    requires a > 0 && x % a == 0 && y % a == 0 && x < y
    ensures x + a <= y
  {
    Quotient(x, a);
    Quotient(y, a);
    if x / a < y / a {
      MultiplesApart(a, x / a, y / a);
    } else if y / a < x / a {
      MultiplesApart(a, y / a, x / a);
    }
  }

  lemma {:induction false} AlignUpBounds(x: nat, i: nat)
    ensures x <= AlignUp(x, i) < x + Pow2(i) && Aligned(AlignUp(x, i), i)
  {
    var a := Pow2(i);
    var q := (x + a - 1) / a;
    assert x + a - 1 == q * a + (x + a - 1) % a;
    ProductAligned(a, q);
  }

  /** It is the lowest one. */
  lemma {:induction false} AlignUpLowest(x: nat, i: nat, m: nat)
    requires x <= m && Aligned(m, i)
    ensures AlignUp(x, i) <= m
  {
    AlignUpBounds(x, i);
    if m < AlignUp(x, i) { Apart(m, AlignUp(x, i), Pow2(i)); }
  }

  lemma {:induction false} PowersDivide(i: nat, j: nat)
    requires i <= j
    ensures Pow2(j) % Pow2(i) == 0 && Pow2(i) <= Pow2(j)
    decreases j
  {
    if i < j {
      PowersDivide(i, j - 1);
      Quotient(Pow2(j - 1), Pow2(i));
      var q := Pow2(j - 1) / Pow2(i);
      ProductAligned(Pow2(i), 2 * q);
      assert Pow2(j) == Pow2(i) * (2 * q);
    }
  }

  lemma {:induction false} AlignedNested(x: nat, i: nat, j: nat)
    requires i <= j && Aligned(x, j)
    ensures Aligned(x, i)
  {
    PowersDivide(i, j);
    Quotient(x, Pow2(j));
    Quotient(Pow2(j), Pow2(i));
    var p, q := Pow2(j) / Pow2(i), x / Pow2(j);
    assert x == Pow2(i) * (p * q) by { assert Pow2(i) * p * q == Pow2(i) * (p * q); }
    ProductAligned(Pow2(i), p * q);
  }

  /** Aligning in two steps */
  lemma {:induction false} AlignUpTwice(x: nat, i: nat, j: nat)
    requires i <= j
    ensures AlignUp(AlignUp(x, i), j) == AlignUp(x, j)
  {
    AlignUpBounds(x, i);
    AlignUpBounds(x, j);
    AlignUpBounds(AlignUp(x, i), j);
    AlignedNested(AlignUp(x, j), i, j);
    AlignUpLowest(x, i, AlignUp(x, j));
    AlignUpLowest(AlignUp(x, i), j, AlignUp(x, j));
    AlignUpLowest(x, j, AlignUp(AlignUp(x, i), j));
  }

  lemma {:induction false} AlignUpFixed(x: nat, i: nat)
    requires Aligned(x, i)
    ensures AlignUp(x, i) == x
  {
    AlignUpBounds(x, i);
    AlignUpLowest(x, i, x);
  }

  lemma {:induction false} Pow32()
    ensures Pow2(32) == TWO32 && Pow2(10) == 1024
  {
    assert Pow2(8) == 0x100 && Pow2(10) == 1024;
    assert Pow2(16) == 0x1_0000;
    assert Pow2(24) == 0x100_0000;
  }

  /** Cutting a length down to 32 bits keeps its alignment. */
  lemma {:induction false} AlignedLow(x: nat, i: nat)
    requires i <= 32
    ensures Aligned(x % TWO32, i) <==> Aligned(x, i)
  {
    Pow32();
    PowersDivide(i, 32);
    Quotient(TWO32, Pow2(i));
    Regrouped(x, Pow2(i), TWO32 / Pow2(i), TWO32);
    AddMultiple(x % TWO32, Pow2(i), TWO32 / Pow2(i) * (x / TWO32));
  }

  lemma {:induction false} Regrouped(x: nat, a: nat, p: nat, b: nat)
    requires b > 0 && b == a * p
    ensures x == a * (p * (x / b)) + x % b
  {
    var q := x / b;
    assert x == b * q + x % b;
    assert a * p * q == a * (p * q);
  }

  lemma {:induction false} AddMultiple(r: nat, a: nat, q: nat)
    requires a > 0
    ensures (a * q + r) % a == r % a
  {
    var p := r / a;
    assert a * q + r == a * (q + p) + r % a by { assert r == a * p + r % a && a * (q + p) == a * q + a * p; }
    DivUnique(a * q + r, a, q + p, r % a);
  }

  /* ---- what padding should do ---- */

  predicate MarkAt(img: seq<Byte>, at: nat) { at + 4 <= |img| && img[at..at + 4] == EOF_MARK }

  /** The mask asks for alignment to 2^i; smaller units than 1024 cannot be asked for. */
  predicate Asked(mask: bv32, i: nat) { 10 <= i < 32 && Has(mask, i) }

  ghost predicate InMark(n: nat, mask: bv32, k: nat) {
    exists i: nat :: Asked(mask, i) && AlignUp(n, i) <= k < AlignUp(n, i) + 4
  }

  /** Outside the marks there is only 0xff. */
  ghost predicate Gaps(n: nat, img: seq<Byte>, mask: bv32) {
    forall k: nat :: n <= k < |img| ==> img[k] == 0xff || InMark(n, mask, k)
  }

  /** The image with a mark at each alignment asked for, and nothing after the last one */
  ghost predicate Padded(orig: seq<Byte>, img: seq<Byte>, mask: bv32) {
    && orig <= img && Gaps(|orig|, img, mask)
    && (forall i: nat :: Asked(mask, i) ==> MarkAt(img, AlignUp(|orig|, i)))
    && (if mask == 0 then img == orig else exists i: nat :: Asked(mask, i) && |img| == AlignUp(|orig|, i) + 4)
  }

  /** No alignment asked for is beyond 4 GiB, unless nothing has to be padded for it. */
  ghost predicate Reachable(n: nat, mask: bv32) {
    forall i: nat :: Asked(mask, i) ==> AlignUp(n, i) < TWO32 || Aligned(n, i)
  }

  /** Marks never overlap: two of them are at the same place, or at least 1024 bytes apart. */
  lemma {:induction false} MarksApart(n: nat, i: nat, j: nat)
    requires 10 <= i <= j
    ensures AlignUp(n, i) == AlignUp(n, j) || AlignUp(n, i) + 1024 <= AlignUp(n, j)
  {
    AlignUpBounds(n, i);
    AlignUpBounds(n, j);
    AlignedNested(AlignUp(n, i), 10, i);
    AlignedNested(AlignUp(n, j), 10, j);
    AlignedNested(AlignUp(n, j), i, j);
    AlignUpLowest(n, i, AlignUp(n, j));
    Pow32();
    if AlignUp(n, i) < AlignUp(n, j) { Apart(AlignUp(n, i), AlignUp(n, j), 1024); }
  }

  /* ---- one round of the loop ---- */

  /** The lowest alignment in the mask */
  predicate Lowest(mask: bv32, i: nat) { Asked(mask, i) && forall j: nat :: j < i ==> !Has(mask, j) }

  function Ff(n: nat): (s: seq<Byte>)
    ensures |s| == n && forall k :: 0 <= k < n ==> s[k] == 0xff
  {
    seq(n, _ => 0xff)
  }

  function Extended(img: seq<Byte>, len: nat): seq<Byte> {
    img + Ff(if |img| < len then len - |img| else 0) + EOF_MARK
  }

  /** The bits of `m` after those that `len` is aligned to have been cleared */
  ghost predicate Cleared(mask: bv32, len: nat, m: bv32) {
    forall i: nat :: i < 32 ==> (Has(m, i) <==> Has(mask, i) && !(10 <= i && Aligned(len, i)))
  }

  ghost predicate NoSmall(mask: bv32) { forall i: nat :: i < 10 ==> !Has(mask, i) }

  /** The image ends with the mark at `at`, and what is left of the mask asks for the alignments that
      `at` does not have; or nothing has been done yet. */
  ghost predicate Reached(orig: seq<Byte>, img: seq<Byte>, mask: bv32, left: bv32, len: nat, at: nat) {
    || (img == orig && at == |orig| == len && left == mask)
    || (&& |img| == at + 4 && Aligned(at, 10) && len == at % TWO32
        && (exists i: nat :: Asked(mask, i) && at == AlignUp(|orig|, i))
        && forall i: nat :: i < 32 ==> (Has(left, i) <==> Has(mask, i) && !Aligned(at, i)))
  }

  /** All is well so far: every alignment no longer in the mask has its mark. */
  ghost predicate OnTrack(orig: seq<Byte>, img: seq<Byte>, mask: bv32, left: bv32, len: nat, at: nat) {
    && orig <= img && Gaps(|orig|, img, mask) && |orig| <= at && (at < TWO32 || at == |orig|)
    && Reached(orig, img, mask, left, len, at)
    && (forall i: nat :: Asked(left, i) ==> Asked(mask, i) && AlignUp(at, i) == AlignUp(|orig|, i))
    && (forall i: nat :: Asked(mask, i) && !Asked(left, i) ==>
          MarkAt(img, AlignUp(|orig|, i)) && (AlignUp(|orig|, i) < TWO32 || Aligned(|orig|, i)))
  }

  /** Padding up to the next mark, when that can be reached */
  lemma {:induction false} NextMark(orig: seq<Byte>, img: seq<Byte>, mask: bv32, left: bv32, len: nat, at: nat, i: nat)
    requires OnTrack(orig, img, mask, left, len, at) && Lowest(left, i)
    requires AlignUp(|orig|, i) < TWO32 || Aligned(|orig|, i)
    ensures Align32(len, i) == AlignUp(|orig|, i) % TWO32
    ensures |img| <= AlignUp(|orig|, i) && Extended(img, Align32(len, i)) == Extended(img, AlignUp(|orig|, i))
  {
    AlignUpBounds(at, i);
    if AlignUp(|orig|, i) < TWO32 {
      assert (|img| == |orig| && at == |orig|) || (|img| == at + 4 && Aligned(at, 10) && !Aligned(at, i));
      NextFits(|orig|, |img|, at, i);
      LowOf(at);
      LowOf(AlignUp(|orig|, i));
    } else {
      NoneToPad(|orig|, at, i);
      assert img == orig && len == |orig|;
      ShortOf(img, Align32(len, i), AlignUp(|orig|, i));
    }
  }

  lemma {:induction false} LowOf(x: nat)
    requires x < TWO32
    ensures x % TWO32 == x
  {
  }

  lemma {:induction false} NoneToPad(n: nat, at: nat, i: nat)
    requires Aligned(n, i) && n <= at <= AlignUp(n, i) && AlignUp(n, i) >= TWO32
    ensures at == n == AlignUp(n, i) && Aligned(at, i) && n >= TWO32
  {
    AlignUpFixed(n, i);
  }

  lemma {:induction false} ShortOf(img: seq<Byte>, len: nat, to: nat)
    requires len < TWO32 <= |img| == to
    ensures Extended(img, len) == Extended(img, to)
  {
  }

  lemma {:induction false} NextFits(n: nat, size: nat, at: nat, i: nat)
    requires 10 <= i && n <= at <= AlignUp(n, i) && AlignUp(at, i) == AlignUp(n, i)
    requires (size == n && at == n) || (size == at + 4 && Aligned(at, 10) && !Aligned(at, i))
    ensures size <= AlignUp(n, i)
  {
    var next := AlignUp(n, i);
    AlignUpBounds(at, i);
    Pow32();
    if size != n {
      AlignedNested(next, 10, i);
      Apart(at, next, 1024);
    }
  }

  lemma {:induction false} NextGaps(n: nat, img: seq<Byte>, mask: bv32, i: nat)
    requires Gaps(n, img, mask) && Asked(mask, i) && n <= |img| <= AlignUp(n, i)
    ensures Gaps(n, Extended(img, AlignUp(n, i)), mask) && MarkAt(Extended(img, AlignUp(n, i)), AlignUp(n, i))
    ensures |Extended(img, AlignUp(n, i))| == AlignUp(n, i) + 4
  {
    var to := AlignUp(n, i);
    var out := Extended(img, to);
    forall k: nat | n <= k < |out| ensures out[k] == 0xff || InMark(n, mask, k) {
      if k < |img| { assert out[k] == img[k]; }
    }
  }

  lemma {:induction false} RoundOnTrack(orig: seq<Byte>, img: seq<Byte>, mask: bv32, left: bv32, len: nat, at: nat,
          i: nat, left': bv32)
    requires OnTrack(orig, img, mask, left, len, at) && Lowest(left, i)
    requires AlignUp(|orig|, i) < TWO32 || Aligned(|orig|, i)
    requires Cleared(left, Align32(len, i), left') && NoSmall(mask)
    ensures OnTrack(orig, Extended(img, Align32(len, i)), mask, left', Align32(len, i), AlignUp(|orig|, i))
  {
    var n, next := |orig|, AlignUp(|orig|, i);
    NextMark(orig, img, mask, left, len, at, i);
    NextGaps(n, img, mask, i);
    AlignUpBounds(n, i);
    AlignedNested(next, 10, i);
    if n >= TWO32 || next >= TWO32 { AlignUpFixed(n, i); }
    forall j: nat | j < 32
      ensures Has(left', j) <==> Has(mask, j) && !Aligned(next, j)
      ensures Asked(left', j) ==> AlignUp(next, j) == AlignUp(n, j)
      ensures Asked(mask, j) && !Asked(left', j) ==>
        MarkAt(Extended(img, next), AlignUp(n, j)) && (AlignUp(n, j) < TWO32 || Aligned(n, j))
    {
      RoundBit(orig, img, mask, left, len, at, i, left', j);
    }
  }

  /** What the round makes of one bit of the mask */
  lemma {:induction false} RoundBit(orig: seq<Byte>, img: seq<Byte>, mask: bv32, left: bv32, len: nat, at: nat, i: nat,
          left': bv32,
        j: nat)
    requires OnTrack(orig, img, mask, left, len, at) && Lowest(left, i) && j < 32
    requires AlignUp(|orig|, i) < TWO32 || Aligned(|orig|, i)
    requires MarkAt(Extended(img, AlignUp(|orig|, i)), AlignUp(|orig|, i))
    requires Cleared(left, AlignUp(|orig|, i) % TWO32, left') && NoSmall(mask)
    ensures var n, next := |orig|, AlignUp(|orig|, i);
      && (Has(left', j) <==> Has(mask, j) && !Aligned(next, j))
      && (Asked(left', j) ==> AlignUp(next, j) == AlignUp(n, j))
      && (Asked(mask, j) && !Asked(left', j) ==>
          MarkAt(Extended(img, next), AlignUp(n, j)) && (AlignUp(n, j) < TWO32 || Aligned(n, j)))
  {
    var n, next := |orig|, AlignUp(|orig|, i);
    AlignedLow(next, j);
    StillAligned(orig, img, mask, left, len, at, i, j);
    if Asked(left, j) {
      AlignUpTwice(n, i, j);
      if Aligned(next, j) { AlignUpFixed(next, j); ReachNested(n, i, j); }
    } else if Asked(mask, j) {
      MarkStays(img, next, AlignUp(n, j));
    }
  }

  lemma {:induction false} ReachNested(n: nat, i: nat, j: nat)
    requires AlignUp(n, i) < TWO32 || Aligned(n, i)
    requires AlignUp(n, j) == AlignUp(n, i)
    ensures AlignUp(n, j) < TWO32 || Aligned(n, j)
  {
    AlignUpBounds(n, j);
    if Aligned(n, i) { AlignUpFixed(n, i); }
  }

  lemma {:induction false} MarkStays(img: seq<Byte>, len: nat, at: nat)
    requires MarkAt(img, at)
    ensures MarkAt(Extended(img, len), at)
  {
    assert Extended(img, len)[at..at + 4] == img[at..at + 4];
  }

  /** What has been cleared is an alignment that the next mark has, too. */
  lemma {:induction false} StillAligned(orig: seq<Byte>, img: seq<Byte>, mask: bv32, left: bv32, len: nat, at: nat,
          i: nat, j: nat)
    requires OnTrack(orig, img, mask, left, len, at) && Lowest(left, i) && j < 32
    ensures Has(mask, j) && !Has(left, j) ==> Aligned(AlignUp(|orig|, i), j)
  {
    AlignUpBounds(at, i);
    if Has(mask, j) && !Has(left, j) {
      if i <= j { AlignedNested(at, i, j); }
      else { AlignedNested(AlignUp(at, i), j, i); }
    }
  }

  /* ---- beyond 4 GiB ---- */

  /** The alignments still asked for, up to 2^(n-1) */
  ghost function Count(mask: bv32, n: nat): (c: nat)
    ensures c <= if n <= 10 then 0 else n - 10
    decreases n
  {
    if n == 0 then 0 else Count(mask, n - 1) + if Asked(mask, n - 1) then 1 else 0
  }

  lemma {:induction false} CountFewer(m: bv32, mask: bv32, n: nat)
    requires forall i: nat :: Asked(m, i) ==> Asked(mask, i)
    ensures Count(m, n) <= Count(mask, n)
    ensures (exists i: nat :: i < n && Asked(mask, i) && !Asked(m, i)) ==> Count(m, n) < Count(mask, n)
    decreases n
  {
    if n > 0 { CountFewer(m, mask, n - 1); }
  }

  lemma {:induction false} CountNone(m: bv32, n: nat)
    requires forall i: nat :: !Asked(m, i)
    ensures Count(m, n) == 0
    decreases n
  {
    if n > 0 { CountNone(m, n - 1); }
  }

  /** The image is too short for the mark at w, and the rounds to come will not make up for it. */
  ghost predicate Lost(orig: seq<Byte>, img: seq<Byte>, mask: bv32, left: bv32, w: nat) {
    && Asked(mask, w) && |img| + 4 * Count(left, 32) < AlignUp(|orig|, w) + 4
    && !Reachable(|orig|, mask)
    && (|img| >= TWO32 || forall i: nat :: !Asked(left, i))
  }

  /** A round clears the alignment it was for, whatever has been cut off the length. */
  lemma {:induction false} RoundClears(left: bv32, len: nat, i: nat, left': bv32)
    requires Lowest(left, i) && Cleared(left, Align32(len, i), left')
    ensures (forall j: nat :: Asked(left', j) ==> Asked(left, j)) && !Asked(left', i)
    ensures Count(left', 32) < Count(left, 32)
  {
    AlignUpBounds(len, i);
    AlignedLow(AlignUp(len, i), i);
    CountFewer(left', left, 32);
  }

  lemma {:induction false} LostStays(orig: seq<Byte>, img: seq<Byte>, mask: bv32, left: bv32, w: nat, len: nat, i: nat,
          left': bv32)
    requires Lost(orig, img, mask, left, w) && Lowest(left, i) && Cleared(left, Align32(len, i), left')
    ensures Lost(orig, Extended(img, Align32(len, i)), mask, left', w)
  {
    RoundClears(left, len, i, left');
  }

  /** The length wraps to 0, and nothing is left to be asked for. */
  lemma {:induction false} WrapsToZero(n: nat, i: nat)
    requires n < TWO32 <= AlignUp(n, i) && i <= 32
    ensures AlignUp(n, i) == TWO32 && Align32(n, i) == 0
  {
    Pow32();
    AlignUpFixed(TWO32, 32);
    AlignUpBounds(n, i);
    AlignedNested(TWO32, i, 32);
    AlignUpLowest(n, i, TWO32);
  }

  lemma {:induction false} LostBelow(orig: seq<Byte>, img: seq<Byte>, mask: bv32, left: bv32, len: nat, at: nat,
          i: nat, left': bv32)
    requires OnTrack(orig, img, mask, left, len, at) && Lowest(left, i)
    requires AlignUp(|orig|, i) >= TWO32 && !Aligned(|orig|, i) && at < TWO32
    requires Cleared(left, Align32(len, i), left')
    ensures Lost(orig, Extended(img, Align32(len, i)), mask, left', i)
  {
    LowOf(at);
    AlignUpBounds(at, i);
    AlignUpBounds(|orig|, i);
    WrapsToZero(at, i);
    forall j: nat ensures !Asked(left', j) { ZeroAligned(j); }
    CountNone(left', 32);
    if img != orig { TailFits(at); }
    assert Asked(mask, i);
  }

  lemma {:induction false} ZeroAligned(j: nat)
    ensures Aligned(0, j)
  {
  }

  lemma {:induction false} TailFits(at: nat)
    requires Aligned(at, 10) && at < TWO32
    ensures at + 4 < TWO32
  {
    Pow32();
    PowersDivide(10, 32);
    Apart(at, TWO32, 1024);
  }

  lemma {:induction false} LostAbove(orig: seq<Byte>, img: seq<Byte>, mask: bv32, left: bv32, len: nat, i: nat,
          left': bv32)
      returns (w: nat)
    requires OnTrack(orig, img, mask, left, len, |orig|) && Lowest(left, i)
    requires |orig| >= TWO32 && !Aligned(|orig|, i)
    requires Cleared(left, Align32(len, i), left')
    ensures Lost(orig, Extended(img, Align32(len, i)), mask, left', w)
  {
    var n := |orig|;
    w := i;
    AlignUpBounds(n, i);
    assert Asked(mask, i);
    if j: nat :| Asked(left', j) {
      w := j;
      FartherMark(n, len, i, j, left, left');
    } else {
      CountNone(left', 32);
      if img != orig { FirstMarkAfter(n, i); }
    }
  }

  /** An image of whole units of 1024 bytes has the next mark at least one unit further on. */
  lemma {:induction false} FirstMarkAfter(n: nat, i: nat)
    requires 10 <= i && Aligned(n, 10) && !Aligned(n, i)
    ensures n + 1024 <= AlignUp(n, i)
  {
    AlignUpBounds(n, i);
    AlignedNested(AlignUp(n, i), 10, i);
    Pow32();
    Apart(n, AlignUp(n, i), 1024);
  }

  lemma {:induction false} FartherMark(n: nat, len: nat, i: nat, j: nat, left: bv32, left': bv32)
    requires Lowest(left, i) && Cleared(left, Align32(len, i), left') && Asked(left', j) && !Aligned(n, i)
    requires len % TWO32 == n % TWO32
    ensures AlignUp(n, j) >= n + 1024
  {
    RoundClears(left, len, i, left');
    assert i < j;
    MarksApart(n, i, j);
    AlignUpBounds(n, i);
    if AlignUp(n, i) == AlignUp(n, j) {
      AlignUpBounds(n, j);
      SameLow(n, len, i);
      AlignedLow(AlignUp(n, i), j);
    }
  }

  /** Aligning and cutting down to 32 bits, in either order */
  lemma {:induction false} SameLow(n: nat, len: nat, i: nat)
    requires n % TWO32 == len % TWO32 && i <= 32
    ensures AlignUp(n, i) % TWO32 == AlignUp(len, i) % TWO32
  {
    LowAlign(n, i);
    LowAlign(len, i);
  }

  lemma {:induction false} LowAlign(n: nat, i: nat)
    requires i <= 32
    ensures AlignUp(n, i) % TWO32 == AlignUp(n % TWO32, i) % TWO32
  {
    var r, q := n % TWO32, n / TWO32;
    Pow32();
    PowersDivide(i, 32);
    Quotient(TWO32, Pow2(i));
    Regrouped(n, Pow2(i), TWO32 / Pow2(i), TWO32);
    AlignOffset(r, i, TWO32 / Pow2(i) * q);
    assert Pow2(i) * (TWO32 / Pow2(i) * q) == n - r == TWO32 * q;
    AddMultiple(AlignUp(r, i), TWO32, q);
  }

  lemma {:induction false} AlignOffset(r: nat, i: nat, m: nat)
    ensures AlignUp(Pow2(i) * m + r, i) == Pow2(i) * m + AlignUp(r, i)
  {
    var a := Pow2(i);
    var t, u := (r + a - 1) / a, (r + a - 1) % a;
    assert r + a - 1 == a * t + u;
    Distribute(a, m, t);
    DivUnique(a * m + r + a - 1, a, m + t, u);
  }

  lemma {:induction false} Distribute(a: nat, m: nat, t: nat)
    ensures a * (m + t) == a * m + a * t && (m + t) * a == a * m + t * a && a * t == t * a
  {
  }

  /** Images of up to 2 GiB are always within reach. */
  lemma {:induction false} SmallImages(n: nat, mask: bv32)
    requires n <= 0x8000_0000
    ensures Reachable(n, mask)
  {
    Pow32();
    assert Pow2(31) == 0x8000_0000;
    forall i: nat | Asked(mask, i) ensures AlignUp(n, i) < TWO32 {
      PowersDivide(i, 31);
      AlignUpLowest(n, i, 0x8000_0000);
    }
  }

  /** Above that they need not be: alignment to 2 GiB would put the mark at 4 GiB. */
  lemma {:induction false} LargeImagesFail(n: nat)
    requires 0x8000_0000 < n < TWO32
    ensures NoSmall(0x8000_0000) && !Reachable(n, 0x8000_0000)
  {
    Pow32();
    assert Pow2(31) == 0x8000_0000;
    AlignUpBounds(n, 31);
    TopBit();
    forall j: nat | j < 10 ensures !Has(Bit(31), j) { BitsApart(j, 31); }
    assert Asked(Bit(31), 31) && !Aligned(n, 31);
  }

  lemma {:induction false} TopBit()
    ensures Bit(31) == 0x8000_0000
  {
    assert Bit(8) == 0x100;
    assert Bit(16) == 0x1_0000;
    assert Bit(24) == 0x100_0000;
  }

  /* ---- pad_image ---- */

  lemma {:induction false} OnTrackStart(orig: seq<Byte>, mask: bv32)
    ensures OnTrack(orig, orig, mask, mask, |orig|, |orig|)
  {
  }

  lemma {:induction false} OnTrackEnd(orig: seq<Byte>, img: seq<Byte>, mask: bv32, len: nat, at: nat)
    requires OnTrack(orig, img, mask, 0, len, at)
    ensures Padded(orig, img, mask) && Reachable(|orig|, mask)
  {
    forall i: nat ensures !Has(0, i) { ZeroHas(i); }
  }

  lemma {:induction false} ZeroHas(i: nat)
    ensures !Has(0, i)
  {
    ZeroAnd(Bit(i));
  }

  lemma {:induction false} ZeroAnd(x: bv32)
    ensures And(0, x) == 0
  {
  }

  /** How a run of the loop stands: all marks so far are right, the last of them at `at`, or the one at
      2^w is lost for good. */
  datatype Course = Good(at: nat) | Bad(w: nat)

  ghost predicate Stands(c: Course, orig: seq<Byte>, img: seq<Byte>, mask: bv32, left: bv32, len: nat) {
    match c
    case Good(at) => OnTrack(orig, img, mask, left, len, at)
    case Bad(w) => Lost(orig, img, mask, left, w)
  }

  lemma {:induction false} Round(c: Course, orig: seq<Byte>, img: seq<Byte>, mask: bv32, left: bv32, len: nat, i: nat,
          left': bv32)
      returns (d: Course)
    requires Stands(c, orig, img, mask, left, len) && Lowest(left, i)
    requires Cleared(left, Align32(len, i), left') && NoSmall(mask)
    ensures Stands(d, orig, Extended(img, Align32(len, i)), mask, left', Align32(len, i))
  {
    match c
    case Bad(w) =>
      LostStays(orig, img, mask, left, w, len, i, left');
      d := Bad(w);
    case Good(at) =>
      if AlignUp(|orig|, i) < TWO32 || Aligned(|orig|, i) {
        RoundOnTrack(orig, img, mask, left, len, at, i, left');
        d := Good(AlignUp(|orig|, i));
      } else if at < TWO32 {
        LostBelow(orig, img, mask, left, len, at, i, left');
        d := Bad(i);
      } else {
        var w := LostAbove(orig, img, mask, left, len, i, left');
        d := Bad(w);
      }
  }

  /** The outcome is right exactly when all alignments asked for were within reach. */
  lemma {:induction false} Finished(c: Course, orig: seq<Byte>, img: seq<Byte>, mask: bv32, len: nat)
    requires Stands(c, orig, img, mask, 0, len)
    ensures Padded(orig, img, mask) <==> Reachable(|orig|, mask)
  {
    match c
    case Good(at) => OnTrackEnd(orig, img, mask, len, at);
    case Bad(w) => assert !MarkAt(img, AlignUp(|orig|, w));
  }

  class Image {
    /** what the file holds; it is open at its end */
    var file: seq<Byte>

    constructor (file: seq<Byte>)
      ensures this.file == file
    {
      this.file := file;
    }

    /** The lowest alignment in the mask */
    method FirstBit(mask: bv32) returns (i: nat)
      requires mask != 0 && NoSmall(mask)
      ensures Lowest(mask, i)
    {
      i := 10;
      while i < 32 && !Has(mask, i)
        invariant 10 <= i <= 32 && forall j: nat :: j < i ==> !Has(mask, j)
      {
        i := i + 1;
      }
      if i == 32 { SomeBit(mask); }
    }

    /** Clearing all alignments that the length has */
    method ClearAligned(mask: bv32, len: nat) returns (m: bv32)
      ensures Cleared(mask, len, m)
    {
      m := mask;
      var i := 10;
      while i < 32
        invariant 10 <= i <= 32
        invariant forall j: nat :: j < 32 ==> (Has(m, j) <==> Has(mask, j) && !(10 <= j < i && Aligned(len, j)))
      {
        if len % Pow2(i) == 0 {
          forall j: nat ensures Has(Clear(m, i), j) <==> Has(m, j) && j != i { ClearHas(m, i, j); }
          m := Clear(m, i);
        }
        i := i + 1;
      }
    }

    /** Writing 0xff up to the length, a buffer at a time, and then the mark */
    method Extend(len: nat)
      modifies this
      ensures file == Extended(old(file), len)
    {
      var outLen := |file|;
      while outLen < len
        invariant outLen == |file| && |old(file)| <= outLen <= (if |old(file)| < len then len else |old(file)|)
        invariant file == old(file) + Ff(outLen - |old(file)|)
      {
        var n := if len - outLen > BUF_SIZE then BUF_SIZE else len - outLen;
        file := file + Ff(n);
        outLen := outLen + n;
      }
      file := file + EOF_MARK;
    }

    /** pad_image: it always ends, leaves the original image in front, and puts a mark at every alignment
        asked for exactly when none of them has to be reached beyond 4 GiB. */
    method PadImage(mask: bv32)
      requires NoSmall(mask)
      modifies this
      ensures old(file) <= file
      ensures Padded(old(file), file, mask) <==> Reachable(|old(file)|, mask)
    {
      ghost var orig := file;
      var padMask, inLen: nat := mask, |file|;
      ghost var c := Good(|file|);
      OnTrackStart(orig, mask);
      while padMask != 0
        invariant orig <= file && NoSmall(padMask) && Stands(c, orig, file, mask, padMask, inLen)
        decreases Count(padMask, 32)
      {
        var i := FirstBit(padMask);
        ghost var left, len := padMask, inLen;
        inLen := Align32(inLen, i);
        padMask := ClearAligned(padMask, inLen);
        RoundClears(left, len, i, padMask);
        c := Round(c, orig, file, mask, left, len, i, padMask);
        Extend(inLen);
      }
      Finished(c, orig, file, mask, inLen);
    }
  }
}
