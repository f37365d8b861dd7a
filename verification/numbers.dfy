/** What comparisons compute (expr_parse_string and expr_calc_value, scripts/config/expr.c:880-1000), said of numbers
    and of the order of strings, without parsing. */
module Numbers {
  import opened Tristate
  import opened Exprs

  /* ---- numerals ---- */

  const LOWER := "0123456789abcdef"
  const UPPER := "0123456789ABCDEF"

  predicate IsDigit(c: char, d: nat)
    requires d < 16
  {
    c == LOWER[d] || c == UPPER[d]
  }

  /** s is the numeral of n to the base given, without leading zeros. */
  predicate Spells(s: string, base: nat, n: nat)
    requires 2 <= base <= 16
    decreases |s|
  {
    && s != []
    && IsDigit(s[|s| - 1], n % base)
    && (if n < base then |s| == 1 else Spells(s[..|s| - 1], base, n / base))
  }

  predicate Decimal(s: string, n: int) {
    if n >= 0 then Spells(s, 10, n) else s != [] && s[0] == '-' && Spells(s[1..], 10, -n)
  }

  predicate Plus(s: string, n: nat) { s != [] && s[0] == '+' && Spells(s[1..], 10, n) }

  predicate Blank(c: char) { c as int in {9, 10, 11, 12, 13, 32} }

  predicate Prefixed(s: string, n: nat) { |s| >= 2 && s[..2] in ["0x", "0X"] && Spells(s[2..], 16, n) }

  predicate Octal(s: string, n: nat) { |s| >= 2 && s[0] == '0' && Spells(s[1..], 8, n) }

  /** A symbol of this type with this string stands for n. */
  predicate StandsFor(t: SymType, s: string, n: int)
    decreases |s|
  {
    if s != [] && Blank(s[0]) then StandsFor(t, s[1..], n)
    else
      match t
      case Int => Decimal(s, n) || (n >= 0 && Plus(s, n))
      case Hex => n >= 0 && (Spells(s, 16, n) || Prefixed(s, n))
      case Text => Literal(s, n)
      case Unknown => Literal(s, n)
      case _ => false
  }

  /** A number as the base can be told from */
  predicate Literal(s: string, n: int) {
    Decimal(s, n) || (n >= 0 && (Plus(s, n) || Prefixed(s, n) || Octal(s, n)))
  }

  /** The C type for numbers of this type holds n. */
  predicate Fits(t: SymType, n: int) {
    if t.Hex? then 0 <= n <= 0xFFFF_FFFF_FFFF_FFFF else -0x8000_0000_0000_0000 <= n <= 0x7FFF_FFFF_FFFF_FFFF
  }

  predicate Related(rel: Rel, m: int, n: int) {
    match rel
    case Eq => m == n
    case Neq => m != n
    case Lt => m < n
    case Leq => m <= n
    case Gt => m > n
    case Geq => m >= n
  }

  lemma {:induction false} DigitWorth(c: char, d: nat)
    requires d < 16 && IsDigit(c, d)
    ensures DigitOf(c) == d && !IsSpace(c) && c != '-' && c != '+' && c != 'x' && c != 'X' && (c == '0' <==> d == 0)
  {
  }

  lemma {:induction false} DigitsSnoc(s: string, c: char, base: nat, acc: int)
    ensures Digits(s + [c], base, acc) ==
            (match Digits(s, base, acc)
             case None => None
             case Some(n) => if DigitOf(c) < base then Some(n * base + DigitOf(c)) else None)
  {
    if s == [] {
      assert s + [c] == [c];
    } else {
      assert (s + [c])[1..] == s[1..] + [c];
      DigitsSnoc(s[1..], c, base, acc * base + DigitOf(s[0]));
    }
  }

  lemma {:induction false} Divided(n: nat, base: nat)
    requires 2 <= base <= n
    ensures 0 < n / base < n && n / base * base + n % base == n
  {
  }

  lemma {:induction false} DigitsShifted(z: string, c: char, base: nat, n: nat)
    requires 2 <= base <= 16 && IsDigit(c, n % base)
    requires if n < base then z == [] else Digits(z, base, 0) == Some(n / base)
    ensures Digits(z + [c], base, 0) == Some(n)
  {
    DigitWorth(c, n % base);
    DigitsSnoc(z, c, base, 0);
    if n >= base { Divided(n, base); } else { assert n % base == n; }
  }

  lemma {:induction false} DigitsSpelled(s: string, base: nat, n: nat)
    requires 2 <= base <= 16 && Spells(s, base, n)
    ensures Digits(s, base, 0) == Some(n)
    decreases |s|
  {
    var z, c := s[..|s| - 1], s[|s| - 1];
    assert s == z + [c];
    if n >= base { DigitsSpelled(z, base, n / base); }
    DigitsShifted(z, c, base, n);
  }

  /** No sign, no leading zero and no prefix */
  lemma {:induction false} SpelledHead(s: string, base: nat, n: nat)
    requires 2 <= base <= 16 && Spells(s, base, n)
    ensures !IsSpace(s[0]) && s[0] !in "-+xX"
    ensures s[0] == '0' <==> n == 0
    ensures |s| > 1 ==> s[1] != 'x'
    ensures |s| > 1 ==> s[1] != 'X'
    decreases |s|
  {
    DigitWorth(s[|s| - 1], n % base);
    if n >= base {
      Divided(n, base);
      SpelledHead(s[..|s| - 1], base, n / base);
    } else {
      assert n % base == n;
    }
  }

  lemma {:induction false} NumberSpelled(s: string, n: nat)
    requires Spells(s, 10, n)
    ensures Number(s, 10) == Number(s, 0) == Some(n)
  {
    SpelledHead(s, 10, n);
    DigitsSpelled(s, 10, n);
    if n == 0 { assert Digits(s[1..], 8, 0) == Some(0); }
  }

  lemma {:induction false} NumberSigned(s: string, n: int)
    requires Decimal(s, n)
    ensures Number(s, 10) == Number(s, 0) == Some(n)
  {
    if n >= 0 { NumberSpelled(s, n); } else { DigitsSpelled(s[1..], 10, -n); SpelledHead(s[1..], 10, -n); }
  }

  lemma {:induction false} NumberPlus(s: string, n: nat)
    requires Plus(s, n)
    ensures Number(s, 10) == Number(s, 0) == Some(n)
  {
    NumberSpelled(s[1..], n);
    SpelledHead(s[1..], 10, n);
  }

  lemma {:induction false} NumberHex(s: string, n: nat)
    requires Spells(s, 16, n) || Prefixed(s, n)
    ensures Number(s, 16) == Some(n)
    ensures Prefixed(s, n) ==> Number(s, 0) == Some(n)
  {
    if Prefixed(s, n) {
      assert s[..2][0] == s[0] && s[..2][1] == s[1];
      DigitsSpelled(s[2..], 16, n);
    } else {
      DigitsSpelled(s, 16, n);
      SpelledHead(s, 16, n);
    }
  }

  lemma {:induction false} NumberOctal(s: string, n: nat)
    requires Octal(s, n)
    ensures Number(s, 0) == Some(n)
  {
    SpelledHead(s[1..], 8, n);
    DigitsSpelled(s[1..], 8, n);
    assert Digits(s, 8, 0) == Digits(s[1..], 8, 0);
  }

  predicate ParsesAs(t: SymType, s: string, n: int) {
    && Parse(s, t) == (if t.Hex? then KUnsigned(n) else KSigned(n))
    && (t.Hex? ==> n >= 0) && n < TWO64
  }

  lemma {:induction false} NumberStandsFor(t: SymType, s: string, n: int)
    requires StandsFor(t, s, n)
    ensures Number(s, if t.Int? then 10 else if t.Hex? then 16 else 0) == Some(n) && (t.Hex? ==> n >= 0)
    decreases |s|
  {
    if s != [] && Blank(s[0]) {
      NumberStandsFor(t, s[1..], n);
      assert SkipSpace(s) == SkipSpace(s[1..]);
    } else if !t.Hex? && Decimal(s, n) {
      NumberSigned(s, n);
    } else if !t.Hex? && Plus(s, n) {
      NumberPlus(s, n);
    } else if !t.Hex? && Octal(s, n) {
      NumberOctal(s, n);
    } else {
      NumberHex(s, n);
    }
  }

  lemma {:induction false} NumeralType(t: SymType, s: string, n: int)
    requires StandsFor(t, s, n)
    ensures t.Int? || t.Hex? || t.Text? || t.Unknown?
    decreases |s|
  {
    if s != [] && Blank(s[0]) { NumeralType(t, s[1..], n); }
  }

  lemma {:induction false} ParseStandsFor(t: SymType, s: string, n: int)
    requires StandsFor(t, s, n)
    ensures if Fits(t, n) then ParsesAs(t, s, n) else Parse(s, t).KString?
  {
    NumberStandsFor(t, s, n);
    NumeralType(t, s, n);
    if 0 <= n < TWO64 { assert n % TWO64 == n; }
  }

  lemma {:induction false} SignRelated(rel: Rel, m: int, n: int)
    ensures RelHolds(rel, Sign(m, n)) == Related(rel, m, n)
  {
  }

  /** What n counts as beside a hexadecimal number: a negative one is taken for a large one. */
  function CountsAs(n: int, hex: bool): int { if hex && n < 0 then n + 0x1_0000_0000_0000_0000 else n }

  lemma {:induction false} ParsedCompare(rel: Rel, a: Symbol, b: Symbol, m: int, n: int, v: Valuation)
    requires ParsesAs(TypeOf(a), StringOf(v, a), m) && ParsesAs(TypeOf(b), StringOf(v, b), n)
    requires Fits(TypeOf(a), m) && Fits(TypeOf(b), n) && !(TypeOf(a).Text? && TypeOf(b).Text?)
    ensures var hex := TypeOf(a).Hex? || TypeOf(b).Hex?;
      Eval(Cmp(rel, a, b), v) == FromBool(Related(rel, CountsAs(m, hex), CountsAs(n, hex)))
  {
    var hex := TypeOf(a).Hex? || TypeOf(b).Hex?;
    Modulo(m);
    Modulo(n);
    assert Compare(a, b, v) == Some(Sign(CountsAs(m, hex), CountsAs(n, hex)));
    SignRelated(rel, CountsAs(m, hex), CountsAs(n, hex));
  }

  lemma {:induction false} Modulo(n: int)
    requires -TWO63 <= n < TWO64
    ensures n % TWO64 == CountsAs(n, true)
  {
  }

  /** Symbols that stand for numbers compare as these numbers, unless both hold text. */
  lemma {:induction false} NumbersCompare(rel: Rel, a: Symbol, b: Symbol, m: int, n: int, v: Valuation)
    requires StandsFor(TypeOf(a), StringOf(v, a), m) && Fits(TypeOf(a), m)
    requires StandsFor(TypeOf(b), StringOf(v, b), n) && Fits(TypeOf(b), n)
    requires !(TypeOf(a).Text? && TypeOf(b).Text?)
    ensures var hex := TypeOf(a).Hex? || TypeOf(b).Hex?;
      Eval(Cmp(rel, a, b), v) == FromBool(Related(rel, CountsAs(m, hex), CountsAs(n, hex)))
  {
    ParseStandsFor(TypeOf(a), StringOf(v, a), m);
    ParseStandsFor(TypeOf(b), StringOf(v, b), n);
    ParsedCompare(rel, a, b, m, n, v);
  }

  /* ---- strings ---- */

  /** x comes before y: it ends, or has the smaller character, where they first differ. */
  ghost predicate Before(x: string, y: string) {
    exists k: nat :: DiffersAt(x, y, k)
  }

  predicate DiffersAt(x: string, y: string, k: nat) {
    k <= |x| && k < |y| && x[..k] == y[..k] && (k < |x| ==> x[k] < y[k])
  }

  ghost predicate Ordered(rel: Rel, x: string, y: string) {
    match rel
    case Eq => x == y
    case Neq => x != y
    case Lt => Before(x, y)
    case Leq => x == y || Before(x, y)
    case Gt => Before(y, x)
    case Geq => x == y || Before(y, x)
  }

  lemma {:induction false} StrcmpDiffers(x: string, y: string)
    ensures Strcmp(x, y) < 0 ==> Before(x, y)
    ensures Strcmp(x, y) > 0 ==> Before(y, x)
  {
    if x == [] || y == [] || x[0] != y[0] {
      assert Strcmp(x, y) < 0 ==> DiffersAt(x, y, 0);
      assert Strcmp(x, y) > 0 ==> DiffersAt(y, x, 0);
    } else {
      StrcmpDiffers(x[1..], y[1..]);
      if Strcmp(x, y) < 0 { LaterDiffers(x, y); }
      if Strcmp(x, y) > 0 { LaterDiffers(y, x); }
    }
  }

  lemma {:induction false} LaterDiffers(x: string, y: string)
    requires x != [] && y != [] && x[0] == y[0] && Before(x[1..], y[1..])
    ensures Before(x, y)
  {
    var k: nat :| DiffersAt(x[1..], y[1..], k);
    assert x[..k + 1] == [x[0]] + x[1..][..k] && y[..k + 1] == [y[0]] + y[1..][..k];
    assert DiffersAt(x, y, k + 1);
  }

  lemma {:induction false} OneDiffers(x: string, y: string, k: nat, j: nat)
    requires DiffersAt(x, y, k)
    ensures x != y && !DiffersAt(y, x, j)
  {
    if j < k && j < |x| { assert x[..k][j] == y[..k][j]; }
    if k < j && j <= |y| && j <= |x| { assert x[..j][k] == x[k] && y[..j][k] == y[k]; }
  }

  lemma {:induction false} OneBefore(x: string, y: string)
    requires Before(x, y)
    ensures x != y && !Before(y, x)
  {
    var k: nat :| DiffersAt(x, y, k);
    forall j: nat ensures x != y && !DiffersAt(y, x, j) { OneDiffers(x, y, k, j); }
    OneDiffers(x, y, k, 0);
  }

  lemma {:induction false} StrcmpOrder(rel: Rel, x: string, y: string)
    ensures RelHolds(rel, Strcmp(x, y)) <==> Ordered(rel, x, y)
  {
    StrcmpZero(x, y);
    StrcmpDiffers(x, y);
    if Before(x, y) { OneBefore(x, y); }
    if Before(y, x) { OneBefore(y, x); }
  }

  /** A string that is no number to any type: it is empty or does not end in a hexadecimal digit. */
  predicate NoNumber(s: string) { s == [] || (s[|s| - 1] !in LOWER && s[|s| - 1] !in UPPER) }

  lemma {:induction false} HexDigit(c: char)
    ensures DigitOf(c) < 16 ==> c in LOWER || c in UPPER
  {
    var d := DigitOf(c);
    if d < 16 { assert c == LOWER[d] || c == UPPER[d]; }
  }

  lemma {:induction false} SkipSpaceEnd(s: string)
    ensures |SkipSpace(s)| <= |s| && s[|s| - |SkipSpace(s)|..] == SkipSpace(s)
  {
    if s != [] && IsSpace(s[0]) { SkipSpaceEnd(s[1..]); }
  }

  lemma {:induction false} DigitsFail(s: string, base: nat)
    requires s != [] && base <= 16 && DigitOf(s[|s| - 1]) >= 16
    ensures Digits(s, base, 0).None?
  {
    assert s == s[..|s| - 1] + [s[|s| - 1]];
    DigitsSnoc(s[..|s| - 1], s[|s| - 1], base, 0);
  }

  lemma {:induction false} NoNumberParsed(s: string, base: nat)
    requires NoNumber(s) && base in [0, 10, 16]
    ensures Number(s, base).None?
  {
    var z := SkipSpace(s);
    SkipSpaceEnd(s);
    var t := if z != [] && (z[0] == '-' || z[0] == '+') then z[1..] else z;
    if t != [] {
      assert t[|t| - 1] == s[|s| - 1];
      HexDigit(s[|s| - 1]);
      DigitsFail(t, if base == 0 then 10 else base);
      DigitsFail(t, 8);
      if HexPrefix(t) { DigitsFail(t[2..], 16); }
    }
  }

  lemma {:induction false} ParsedString(a: Symbol, s: string)
    requires IsTri(a) || (NoNumber(s) && !TypeOf(a).Other?)
    ensures Parse(s, TypeOf(a)).KString?
  {
    if !IsTri(a) { NoNumberParsed(s, 0); NoNumberParsed(s, 10); NoNumberParsed(s, 16); }
  }

  lemma {:induction false} TextCompare(a: Symbol, b: Symbol, x: string, y: string)
    requires
      || (TypeOf(a).Text? && TypeOf(b).Text?) || IsTri(a) || IsTri(b)
      || (NoNumber(x) && !TypeOf(a).Other?) || (NoNumber(y) && !TypeOf(b).Other?)
    ensures CompareStrings(a, b, x, y) == Some(Strcmp(x, y))
  {
    if IsTri(a) || (NoNumber(x) && !TypeOf(a).Other?) { ParsedString(a, x); }
    if IsTri(b) || (NoNumber(y) && !TypeOf(b).Other?) { ParsedString(b, y); }
  }

  /** Two texts, or two symbols one of which is boolean or tristate or holds no number, compare as strings by their
      first difference. */
  lemma {:induction false} StringsCompare(rel: Rel, a: Symbol, b: Symbol, v: Valuation)
    requires
      || (TypeOf(a).Text? && TypeOf(b).Text?) || IsTri(a) || IsTri(b)
      || (NoNumber(StringOf(v, a)) && !TypeOf(a).Other?) || (NoNumber(StringOf(v, b)) && !TypeOf(b).Other?)
    ensures Eval(Cmp(rel, a, b), v) == FromBool(Ordered(rel, StringOf(v, a), StringOf(v, b)))
  {
    StrcmpOrder(rel, StringOf(v, a), StringOf(v, b));
    TextCompare(a, b, StringOf(v, a), StringOf(v, b));
  }

  /** So do two symbols one of which stands for a number that its C type does not hold. */
  lemma {:induction false} LargeNumbersCompare(rel: Rel, a: Symbol, b: Symbol, n: int, v: Valuation)
    requires
      || (StandsFor(TypeOf(a), StringOf(v, a), n) && !Fits(TypeOf(a), n))
      || (StandsFor(TypeOf(b), StringOf(v, b), n) && !Fits(TypeOf(b), n))
    ensures Eval(Cmp(rel, a, b), v) == FromBool(Ordered(rel, StringOf(v, a), StringOf(v, b)))
  {
    StrcmpOrder(rel, StringOf(v, a), StringOf(v, b));
    if StandsFor(TypeOf(a), StringOf(v, a), n) && !Fits(TypeOf(a), n) {
      ParseStandsFor(TypeOf(a), StringOf(v, a), n);
    } else {
      ParseStandsFor(TypeOf(b), StringOf(v, b), n);
    }
    assert Compare(a, b, v) == Some(Strcmp(StringOf(v, a), StringOf(v, b)));
  }
}
