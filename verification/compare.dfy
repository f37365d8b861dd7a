/** Expressions about expressions: expr_trans_bool, expr_trans_compare, expr_contains_symbol and
    expr_depends_symbol (scripts/config/expr.c:332-356 and 751-869). */
module Compares {
  import opened Tristate
  import opened Exprs
  import opened Transforms
  import opened Equality
  import opened Dups

  /** expr_trans_bool: FOO!=n becomes FOO, for a condition that only counts as met or not. */
  function TransBool(e: Expr): Expr {
    match e
    case Bin(op, l, r) => Bin(op, TransBool(l), TransBool(r))
    case Not(x) => Not(TransBool(x))
    case Cmp(rel, a, b) => if rel.Neq? && TypeOf(a).Tristate? && b == SYM_NO then Sym(a) else e
    case Sym(_) => e
  }

  function OTransBool(e: OExpr): OExpr { if e.None? then None else Some(TransBool(e.value)) }

  /** On expressions whose negations are over symbols it lowers no value to no, and raises none. */
  lemma {:induction false} TransBoolMeaning(e: Expr, v: Valuation)
    requires NegOnSymbols(e) && SettledIn(v, e)
    ensures Eval(TransBool(e), v) == No <==> Eval(e, v) == No
    ensures Le(Eval(TransBool(e), v), Eval(e, v))
    ensures NegOnSymbols(TransBool(e)) && SettledIn(v, TransBool(e))
  {
    match e
    case Bin(_, l, r) => TransBoolMeaning(l, v); TransBoolMeaning(r, v);
    case Not(x) =>
    case Sym(_) =>
    case Cmp(rel, a, b) => if TransBool(e) != e { TriCompareConst(Neq, a, No, v); }
  }

  /** No test that the value is not n is left. */
  predicate NoNeqTests(e: Expr) {
    match e
    case Bin(_, l, r) => NoNeqTests(l) && NoNeqTests(r)
    case Not(x) => NoNeqTests(x)
    case Cmp(rel, a, b) => !(rel.Neq? && TypeOf(a).Tristate? && b == SYM_NO)
    case Sym(_) => true
  }

  /** It leaves none, and nothing else is changed. */
  lemma {:induction false} TransBoolExactly(e: Expr)
    ensures NoNeqTests(TransBool(e)) && (NoNeqTests(e) ==> TransBool(e) == e)
  {
    match e
    case Bin(_, l, r) => TransBoolExactly(l); TransBoolExactly(r);
    case Not(x) => TransBoolExactly(x);
    case _ =>
  }

  /** Under a negation the value does change, so the condition on negations is needed. */
  lemma {:induction false} TransBoolUnderNot(a: Symbol, v: Valuation)
    requires TypeOf(a).Tristate? && Settled(v, a)
    ensures (Eval(TransBool(Not(Cmp(Neq, a, SYM_NO))), v) == No <==> Eval(Not(Cmp(Neq, a, SYM_NO)), v) == No)
        <==> TriOf(v, a) != Mod
  {
    TriCompareConst(Neq, a, No, v);
  }

  function Negated(e: Expr, rel: Rel): Expr { if rel == Neq then Not(e) else e }

  /** expr_trans_compare(e, rel, t) with rel one of = and !=, and t one of the constants y, m and n.
      An AND or OR is compared with m by leaving it as it is. */
  function TransCompare(e: Expr, rel: Rel, t: Tri): Expr
    requires rel.Eq? || rel.Neq?
  {
    match e
    case Bin(op, l, r) =>
      var x, y := TransCompare(l, Eq, t), TransCompare(r, Eq, t);
      Negated(match t case Yes => Bin(op, x, y) case No => Bin(Dual(op), x, y) case Mod => e, rel)
    case Not(x) => TransCompare(x, if rel == Eq then Neq else Eq, t)
    case Cmp(_, _, _) =>
      (match t
       case Yes => Negated(e, rel)
       case Mod => Sym(if rel == Eq then SYM_NO else SYM_YES)
       case No => if rel == Eq then Not(e) else e)
    case Sym(s) => Cmp(rel, s, OfTri(t))
  }

  function OTransCompare(e: OExpr, rel: Rel, t: Tri): Expr
    requires rel.Eq? || rel.Neq?
  {
    if e.None? then Negated(Sym(OfTri(t)), rel) else TransCompare(e.value, rel, t)
  }

  /** expr_trans_compare treats a negation as if its operand were never mod, and a symbol as if it were
      its string: here both are so. */
  predicate Testable(e: Expr, v: Valuation) {
    match e
    case Sym(s) => (IsTri(s) && Settled(v, s)) || s == SYM_YES || s == SYM_MOD || s == SYM_NO
    case Cmp(_, _, _) => true
    case Not(x) => Testable(x, v) && Eval(x, v) != Mod
    case Bin(_, l, r) => Testable(l, v) && Testable(r, v)
  }

  lemma {:induction false} SymbolTest(s: Symbol, rel: Rel, t: Tri, v: Valuation)
    requires rel.Eq? || rel.Neq?
    requires Testable(Sym(s), v)
    ensures Relate(rel, s, OfTri(t), v) == FromBool((TriOf(v, s) == t) == rel.Eq?)
  {
    if IsTri(s) { TriCompareConst(rel, s, t, v); } else { ConstantsParse(); }
  }

  lemma {:induction false} ConstantsParse()
    ensures Parse("y", Unknown) == KString && Parse("m", Unknown) == KString && Parse("n", Unknown) == KString
  {
    assert Number("y", 0) == None && Number("m", 0) == None && Number("n", 0) == None;
  }

  /** Comparing with n or y tests for that, on such expressions. */
  lemma {:induction false} TransCompareMeaning(e: Expr, rel: Rel, t: Tri, v: Valuation)
    requires rel.Eq? || rel.Neq?
    requires Testable(e, v) && t != Mod
    ensures Eval(TransCompare(e, rel, t), v) == FromBool((Eval(e, v) == t) == rel.Eq?)
  {
    match e
    case Bin(op, l, r) => TransCompareMeaning(l, Eq, t, v); TransCompareMeaning(r, Eq, t, v);
    case Not(x) => TransCompareMeaning(x, if rel == Eq then Neq else Eq, t, v);
    case Cmp(_, _, _) =>
    case Sym(s) => SymbolTest(s, rel, t, v);
  }

  /** Comparing with m tests for m where that is a symbol or a comparison; AND and OR come back as they were, and
      a negation that is not m gets the opposite answer. */
  lemma {:induction false} TransCompareMod(e: Expr, rel: Rel, v: Valuation)
    requires rel.Eq? || rel.Neq?
    requires Testable(e, v)
    ensures e.Sym? || e.Cmp? ==> Eval(TransCompare(e, rel, Mod), v) == FromBool((Eval(e, v) == Mod) == rel.Eq?)
    ensures e.Not? && (e.e.Sym? || e.e.Cmp?) ==>
              Eval(TransCompare(e, rel, Mod), v) == FromBool((Eval(e, v) == Mod) != rel.Eq?)
    ensures e.Bin? ==> TransCompare(e, rel, Mod) == Negated(e, rel)
  {
    if e.Sym? { SymbolTest(e.s, rel, Mod, v); }
    if e.Not? && e.e.Sym? { SymbolTest(e.e.s, if rel == Eq then Neq else Eq, Mod, v); }
  }

  /** With a negation over something that is mod the test comes out wrong, whatever that something is. */
  lemma {:induction false} TransCompareNot(x: Expr, v: Valuation)
    requires Testable(x, v)
    ensures Eval(TransCompare(Not(x), Neq, No), v) == FromBool(Eval(Not(x), v) != No)
        <==> Eval(x, v) != Mod
  {
    TransCompareMeaning(x, Eq, No, v);
  }

  lemma {:induction false} TransCompareSound(e: Expr, rel: Rel, v: Valuation)
    requires rel.Eq? || rel.Neq?
    requires Sound(e, v)
    ensures Sound(TransCompare(e, rel, No), v)
  {
    match e
    case Bin(op, l, r) => TransCompareSound(l, Eq, v); TransCompareSound(r, Eq, v);
    case Not(x) => TransCompareSound(x, if rel == Eq then Neq else Eq, v);
    case Cmp(_, _, _) =>
    case Sym(s) =>
  }

  /** The test "e != n" in the form in which menu_finalize compares two of them */
  function NotNo(e: OExpr): Expr { EliminateDups(Transform(OTransCompare(e, Neq, No))) }

  predicate OTestable(e: OExpr, v: Valuation) { e.Some? ==> Testable(e.value, v) && Sound(e.value, v) }

  lemma {:induction false} NotNoMeaning(e: OExpr, v: Valuation)
    requires OTestable(e, v)
    ensures Eval(NotNo(e), v) == FromBool(OEval(e, v) != No)
  {
    var t := OTransCompare(e, Neq, No);
    if e.Some? {
      TransCompareMeaning(e.value, Neq, No, v);
      TransCompareSound(e.value, Neq, v);
    }
    TransformMeaning(t, v);
    EliminateDupsMeaning(Transform(t), v);
  }

  /** expr_contains_symbol */
  predicate ContainsSymbol(e: OExpr, s: Symbol) { e.Some? && s in Syms(e.value) }

  /** expr_depends_symbol */
  predicate DependsSymbol(e: Expr, s: Symbol) {
    match e
    case Bin(op, l, r) => op == Conj && (DependsSymbol(l, s) || DependsSymbol(r, s))
    case Sym(x) => x == s
    case Cmp(rel, a, b) => a == s && ((rel.Eq? && (b == SYM_YES || b == SYM_MOD)) || (rel.Neq? && b == SYM_NO))
    case Not(_) => false
  }

  /** What depends on a symbol is no when the symbol is. */
  lemma {:induction false} DependsMeaning(e: Expr, s: Symbol, v: Valuation)
    requires DependsSymbol(e, s) && IsTri(s) && Settled(v, s)
    ensures Eval(e, v) != No ==> TriOf(v, s) != No
  {
    match e
    case Bin(_, l, r) => if DependsSymbol(l, s) { DependsMeaning(l, s, v); } else { DependsMeaning(r, s, v); }
    case Sym(_) =>
    case Cmp(rel, a, b) => ConstTests(s, v);
    case Not(_) =>
  }

  /** One of the operands of the AND is the symbol, or a test that it is y or m or not n. */
  lemma {:induction false} DependsExactly(e: Expr, s: Symbol)
    ensures DependsSymbol(e, s) <==>
            exists x :: x in Operands(Conj, e)
              && x in [Sym(s), Cmp(Eq, s, SYM_YES), Cmp(Eq, s, SYM_MOD), Cmp(Neq, s, SYM_NO)]
  {
    if IsOp(Conj, e) {
      DependsExactly(e.l, s);
      DependsExactly(e.r, s);
    } else {
      assert Operands(Conj, e) == [e] && e in Operands(Conj, e);
    }
  }
}
