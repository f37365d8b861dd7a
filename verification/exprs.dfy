/** Dependency expressions and their value (scripts/config/expr.h, expr_calc_value in expr.c). */
module Exprs {
  import opened Tristate

  datatype SymType = Unknown | Boolean | Tristate | Int | Hex | Text | Other

  /** A symbol as an expression sees it.  sym_lookup interns constant symbols by name, so a constant
      IS its name; any other symbol is a table entry with a fixed type. */
  datatype Symbol = Const(name: string) | Conf(id: nat, typ: SymType)

  const SYM_NO := Const("n")
  const SYM_MOD := Const("m")
  const SYM_YES := Const("y")

  function TypeOf(s: Symbol): SymType { if s.Const? then Unknown else s.typ }

  predicate IsTriType(t: SymType) { t.Boolean? || t.Tristate? }

  predicate IsTri(s: Symbol) { IsTriType(TypeOf(s)) }

  function OfTri(t: Tri): Symbol {
    match t case No => SYM_NO case Mod => SYM_MOD case Yes => SYM_YES
  }

  datatype Rel = Eq | Neq | Lt | Leq | Gt | Geq

  datatype Expr =
    | Sym(s: Symbol)
    | Not(e: Expr)
    | Bin(op: Op, l: Expr, r: Expr)
    | Cmp(rel: Rel, a: Symbol, b: Symbol)

  /** The NULL expression of the source. */
  type OExpr = Option<Expr>

  function Size(e: Expr): nat {
    match e
    case Sym(_) => 1
    case Cmp(_, _, _) => 1
    case Not(x) => 1 + Size(x)
    case Bin(_, l, r) => 1 + Size(l) + Size(r)
  }

  /** The symbols an expression mentions. */
  function Syms(e: Expr): set<Symbol> {
    match e
    case Sym(s) => {s}
    case Cmp(_, a, b) => {a, b}
    case Not(x) => Syms(x)
    case Bin(_, l, r) => Syms(l) + Syms(r)
  }

  function OSyms(e: OExpr): set<Symbol> { if e.None? then {} else Syms(e.value) }

  /* ---- values of symbols ---- */

  /** What symbol_value.val points at: nothing, a string, or the chosen member of a choice. */
  datatype Val = Null | Str(text: string) | Pick(member: nat)

  datatype Value = Value(tri: Tri, val: Val)

  /** A state of the symbol table: a value for each symbol, and modules_val. */
  datatype Valuation = Valuation(vals: map<nat, Value>, modules: Tri)

  function Look(v: Valuation, s: Symbol): Value {
    match s
    case Const(name) =>
      Value(if name == "y" then Yes else if name == "m" then Mod else No, Str(name))
    case Conf(id, _) => if id in v.vals then v.vals[id] else Value(No, Null)
  }

  function TriOf(v: Valuation, s: Symbol): Tri { Look(v, s).tri }

  /** sym_get_string_value, for a symbol holding `x` */
  function ValueString(s: Symbol, x: Value, modules: Tri): string {
    if IsTri(s) then
      match x.tri
      case No => "n"
      case Mod => if modules == No then "n" else "m"
      case Yes => "y"
    else if x.val.Str? then x.val.text
    else ""
  }

  function StringOf(v: Valuation, s: Symbol): string { ValueString(s, Look(v, s), v.modules) }

  /** What sym_calc_value leaves behind: a boolean is never mod, and nothing is mod without modules. */
  predicate Settled(v: Valuation, s: Symbol) {
    && (TypeOf(s).Boolean? ==> TriOf(v, s) != Mod)
    && (TypeOf(s).Tristate? && v.modules == No ==> TriOf(v, s) != Mod)
  }

  predicate SettledIn(v: Valuation, e: Expr) {
    match e
    case Sym(s) => Settled(v, s)
    case Cmp(_, a, b) => Settled(v, a) && Settled(v, b)
    case Not(x) => SettledIn(v, x)
    case Bin(_, l, r) => SettledIn(v, l) && SettledIn(v, r)
  }

  /* ---- comparisons ---- */

  /** strcmp, as far as its sign goes */
  function Strcmp(a: string, b: string): int {
    if a == [] then (if b == [] then 0 else -1)
    else if b == [] then 1
    else if a[0] < b[0] then -1
    else if a[0] > b[0] then 1
    else Strcmp(a[1..], b[1..])
  }

  lemma {:induction false} StrcmpZero(a: string, b: string)
    ensures Strcmp(a, b) == 0 <==> a == b
  {
    if a != [] && b != [] && a[0] == b[0] {
      StrcmpZero(a[1..], b[1..]);
      assert a == [a[0]] + a[1..] && b == [b[0]] + b[1..];
    }
  }

  datatype Parsed = KString | KSigned(n: int) | KUnsigned(n: int) | KInvalid

  function DigitOf(c: char): int {
    if '0' <= c <= '9' then c as int - '0' as int
    else if 'a' <= c <= 'f' then c as int - 'a' as int + 10
    else if 'A' <= c <= 'F' then c as int - 'A' as int + 10
    else 99
  }

  predicate IsSpace(c: char) { c == ' ' || '\t' <= c <= '\r' }

  function SkipSpace(s: string): string {
    if s != [] && IsSpace(s[0]) then SkipSpace(s[1..]) else s
  }

  /** The number spelled by all of `s`; None when a character is no digit or there is none. */
  function Digits(s: string, base: int, acc: int): Option<int> {
    if s == [] then Some(acc)
    else if DigitOf(s[0]) >= base then None
    else Digits(s[1..], base, acc * base + DigitOf(s[0]))
  }

  predicate HexPrefix(s: string) { |s| > 2 && s[0] == '0' && (s[1] == 'x' || s[1] == 'X') }

  /** strtoll and strtoull with the "whole string was a number" test of expr_parse_string. */
  function Number(str: string, base: int): Option<int> {
    var s := SkipSpace(str);
    var neg := s != [] && s[0] == '-';
    var t := if s != [] && (s[0] == '-' || s[0] == '+') then s[1..] else s;
    var m :=
      if t == [] then None
      else if base != 10 && HexPrefix(t) then Digits(t[2..], 16, 0)
      else if base == 0 && t[0] == '0' then Digits(t, 8, 0)
      else Digits(t, if base == 0 then 10 else base, 0);
    if m.None? then None else Some(if neg then -m.value else m.value)
  }

  const TWO64 := 0x1_0000_0000_0000_0000
  const TWO63 := 0x8000_0000_0000_0000

  function Signed(n: Option<int>): Parsed {
    if n.Some? && -TWO63 <= n.value < TWO63 then KSigned(n.value) else KString
  }

  /** expr_parse_string */
  function Parse(str: string, typ: SymType): Parsed {
    match typ
    case Boolean => KString
    case Tristate => KString
    case Int => Signed(Number(str, 10))
    case Hex =>
      var n := Number(str, 16);
      if n.Some? && -TWO64 < n.value < TWO64 then KUnsigned(n.value % TWO64) else KString
    case Text => Signed(Number(str, 0))
    case Unknown => Signed(Number(str, 0))
    case Other => KInvalid
  }

  function Sign(x: int, y: int): int { if x < y then -1 else if x > y then 1 else 0 }

  /** The comparison result `res` of expr_calc_value; None when it prints "Cannot compare". */
  function CompareStrings(a: Symbol, b: Symbol, x: string, y: string): Option<int> {
    var parse := !TypeOf(a).Text? || !TypeOf(b).Text?;
    var j, k := if parse then Parse(x, TypeOf(a)) else KString, if parse then Parse(y, TypeOf(b)) else KString;
    if j.KString? || k.KString? then Some(Strcmp(x, y))
    else if j.KInvalid? || k.KInvalid? then None
    else if j.KUnsigned? || k.KUnsigned? then Some(Sign(j.n % TWO64, k.n % TWO64))
    else Some(Sign(j.n, k.n))
  }

  function Compare(a: Symbol, b: Symbol, v: Valuation): Option<int> {
    CompareStrings(a, b, StringOf(v, a), StringOf(v, b))
  }

  predicate RelHolds(rel: Rel, res: int) {
    match rel
    case Eq => res == 0
    case Neq => res != 0
    case Lt => res < 0
    case Leq => res <= 0
    case Gt => res > 0
    case Geq => res >= 0
  }

  function RelateStrings(rel: Rel, a: Symbol, b: Symbol, x: string, y: string): Tri {
    var res := CompareStrings(a, b, x, y);
    if res.Some? then FromBool(RelHolds(rel, res.value))
    else if rel.Eq? || rel.Neq? then FromBool(RelHolds(rel, Strcmp(x, y)))
    else No
  }

  function Relate(rel: Rel, a: Symbol, b: Symbol, v: Valuation): Tri {
    RelateStrings(rel, a, b, StringOf(v, a), StringOf(v, b))
  }

  /** expr_calc_value */
  function Eval(e: Expr, v: Valuation): Tri {
    match e
    case Sym(s) => TriOf(v, s)
    case Not(x) => Flip(Eval(x, v))
    case Bin(op, l, r) => Apply(op, Eval(l, v), Eval(r, v))
    case Cmp(rel, a, b) => Relate(rel, a, b, v)
  }

  function OEval(e: OExpr, v: Valuation): Tri {
    if e.None? then Yes else Eval(e.value, v)
  }

  /* ---- first facts ---- */

  /** Comparing a boolean or tristate symbol with a constant is comparing strings. */
  lemma {:induction false} TriCompare(rel: Rel, a: Symbol, b: Symbol, v: Valuation)
    requires IsTri(a)
    requires rel.Eq? || rel.Neq?
    ensures Relate(rel, a, b, v) == FromBool((StringOf(v, a) == StringOf(v, b)) == rel.Eq?)
  {
    StrcmpZero(StringOf(v, a), StringOf(v, b));
  }

  lemma {:induction false} TriCompareConst(rel: Rel, a: Symbol, t: Tri, v: Valuation)
    requires IsTri(a) && Settled(v, a)
    requires rel.Eq? || rel.Neq?
    ensures Relate(rel, a, OfTri(t), v) == FromBool((TriOf(v, a) == t) == rel.Eq?)
  {
    TriCompare(rel, a, OfTri(t), v);
  }

  /** The value of an expression depends only on the symbols it mentions. */
  lemma {:induction false} EvalAgree(e: Expr, v: Valuation, w: Valuation)
    requires v.modules == w.modules
    requires forall s :: s in Syms(e) ==> Look(v, s) == Look(w, s)
    ensures Eval(e, v) == Eval(e, w)
  {
    match e
    case Sym(s) =>
    case Cmp(rel, a, b) => assert StringOf(v, a) == StringOf(w, a) && StringOf(v, b) == StringOf(w, b);
    case Not(x) => EvalAgree(x, v, w);
    case Bin(_, l, r) => EvalAgree(l, v, w); EvalAgree(r, v, w);
  }
}
