/** expr_transform (scripts/config/expr.c:594-749): negations are pushed to the leaves. */
module Transforms {
  import opened Tristate
  import opened Exprs

  /** The weight that expr_transform never increases, although a De Morgan step adds a node. */
  function Weight(e: Expr): nat {
    match e
    case Sym(_) => 1
    case Cmp(_, _, _) => 2
    case Not(x) => 2 * Weight(x)
    case Bin(_, l, r) => Weight(l) + Weight(r) + 1
  }

  lemma {:induction false} WeightPositive(e: Expr)
    ensures Weight(e) >= 1
  {
    match e
    case Not(x) => WeightPositive(x);
    case _ =>
  }

  lemma {:induction false} DeMorganLighter(op: Op, l: Expr, r: Expr)
    ensures Weight(Bin(Dual(op), Not(l), Not(r))) < Weight(Not(Bin(op, l, r)))
  {
    assert Weight(Not(l)) + Weight(Not(r)) + 2 == 2 * Weight(Bin(op, l, r));
  }

  function Opposite(rel: Rel): Rel {
    match rel
    case Eq => Neq case Neq => Eq case Leq => Gt case Geq => Lt case Lt => Geq case Gt => Leq
  }

  function Dual(op: Op): Op { if op == Conj then Disj else Conj }

  /** A comparison of a boolean with y, m or n is a test of the boolean itself. */
  function TransformCmp(rel: Rel, a: Symbol, b: Symbol): Expr {
    if TypeOf(a).Boolean? && rel.Eq? && b == SYM_NO then Not(Sym(a))
    else if TypeOf(a).Boolean? && rel.Eq? && b == SYM_MOD then Sym(SYM_NO)
    else if TypeOf(a).Boolean? && rel.Eq? && b == SYM_YES then Sym(a)
    else if TypeOf(a).Boolean? && rel.Neq? && b == SYM_NO then Sym(a)
    else if TypeOf(a).Boolean? && rel.Neq? && b == SYM_MOD then Sym(SYM_YES)
    else if TypeOf(a).Boolean? && rel.Neq? && b == SYM_YES then Not(Sym(a))
    else Cmp(rel, a, b)
  }

  function NegateSym(s: Symbol): Expr {
    if s == SYM_YES then Sym(SYM_NO)
    else if s == SYM_MOD then Sym(SYM_MOD)
    else if s == SYM_NO then Sym(SYM_YES)
    else Not(Sym(s))
  }

  /** expr_transform.  Children first; a negation then looks at its transformed operand, and the
      double negation and De Morgan cases transform their result once more. */
  function Transform(e: Expr): (t: Expr)
    ensures Weight(t) <= Weight(e)
    decreases Weight(e)
  {
    match e
    case Sym(_) => e
    case Cmp(rel, a, b) => TransformCmp(rel, a, b)
    case Bin(op, l, r) => Bin(op, Transform(l), Transform(r))
    case Not(x) =>
      WeightPositive(x);
      var y := Transform(x);
      match y
      case Not(z) => WeightPositive(z); Transform(z)
      case Cmp(rel, a, b) => Cmp(Opposite(rel), a, b)
      case Bin(op, l, r) => DeMorganLighter(op, l, r); Transform(Bin(Dual(op), Not(l), Not(r)))
      case Sym(s) => NegateSym(s)
  }

  function OTransform(e: OExpr): OExpr {
    if e.None? then None else Some(Transform(e.value))
  }

  /* ---- the shape of the result ---- */

  /** Negation stands over symbols only. */
  predicate NegOnSymbols(e: Expr) {
    match e
    case Sym(_) => true
    case Cmp(_, _, _) => true
    case Not(x) => x.Sym?
    case Bin(_, l, r) => NegOnSymbols(l) && NegOnSymbols(r)
  }

  /** Nothing left for expr_transform to do: negation stands over a symbol other than y, m, n, and no
      boolean symbol is compared with y, m or n. */
  predicate Normal(e: Expr) {
    match e
    case Sym(_) => true
    case Cmp(rel, a, b) =>
      TypeOf(a).Boolean? && (rel.Eq? || rel.Neq?) ==> b != SYM_NO && b != SYM_MOD && b != SYM_YES
    case Not(x) => x.Sym? && x.s != SYM_NO && x.s != SYM_MOD && x.s != SYM_YES
    case Bin(_, l, r) => Normal(l) && Normal(r)
  }

  lemma {:induction false} TransformNormal(e: Expr)
    ensures Normal(Transform(e))
    decreases Weight(e)
  {
    match e
    case Sym(_) =>
    case Cmp(rel, a, b) =>
    case Bin(op, l, r) => TransformNormal(l); TransformNormal(r);
    case Not(x) =>
      WeightPositive(x);
      TransformNormal(x);
      match Transform(x)
      case Not(z) => TransformNormal(z);
      case Cmp(rel, a, b) =>
      case Bin(op, l, r) => DeMorganLighter(op, l, r); TransformNormal(Bin(Dual(op), Not(l), Not(r)));
      case Sym(s) =>
  }

  lemma {:induction false} NormalFixed(e: Expr)
    ensures Transform(e) == e <==> Normal(e)
  {
    if Normal(e) {
      match e
      case Sym(_) =>
      case Cmp(rel, a, b) =>
      case Not(x) =>
      case Bin(op, l, r) => NormalFixed(l); NormalFixed(r);
    } else {
      TransformNormal(e);
    }
  }

  lemma {:induction false} TransformIdempotent(e: Expr)
    ensures Transform(Transform(e)) == Transform(e)
  {
    TransformNormal(e);
    NormalFixed(Transform(e));
  }

  lemma {:induction false} NormalNegations(e: Expr)
    requires Normal(e)
    ensures NegOnSymbols(e)
  {
    match e
    case Bin(_, l, r) => NormalNegations(l); NormalNegations(r);
    case _ =>
  }

  /** No symbol appears that was not there, save y, m and n. */
  lemma {:induction false} TransformSyms(e: Expr)
    ensures Syms(Transform(e)) <= Syms(e) + {SYM_NO, SYM_MOD, SYM_YES}
    decreases Weight(e)
  {
    match e
    case Sym(_) =>
    case Cmp(rel, a, b) =>
    case Bin(op, l, r) => TransformSyms(l); TransformSyms(r);
    case Not(x) =>
      WeightPositive(x);
      TransformSyms(x);
      match Transform(x)
      case Not(z) => TransformSyms(z);
      case Cmp(rel, a, b) =>
      case Bin(op, l, r) => DeMorganLighter(op, l, r); TransformSyms(Bin(Dual(op), Not(l), Not(r)));
      case Sym(s) =>
  }

  /* ---- its meaning ---- */

  /** No order comparison in `e` runs into "Cannot compare". */
  predicate Comparable(e: Expr, v: Valuation) {
    match e
    case Sym(_) => true
    case Cmp(rel, a, b) => rel.Eq? || rel.Neq? || Compare(a, b, v).Some?
    case Not(x) => Comparable(x, v)
    case Bin(_, l, r) => Comparable(l, v) && Comparable(r, v)
  }

  /** What the proof carries along: settled symbols and comparable operands. */
  predicate Sound(e: Expr, v: Valuation) { SettledIn(v, e) && Comparable(e, v) }

  lemma {:induction false} CmpMeaning(rel: Rel, a: Symbol, b: Symbol, v: Valuation)
    requires Sound(Cmp(rel, a, b), v)
    ensures Eval(TransformCmp(rel, a, b), v) == Relate(rel, a, b, v)
    ensures Sound(TransformCmp(rel, a, b), v)
  {
    if TypeOf(a).Boolean? && (rel.Eq? || rel.Neq?) {
      TriCompareConst(rel, a, No, v);
      TriCompareConst(rel, a, Mod, v);
      TriCompareConst(rel, a, Yes, v);
    }
  }

  /** expr_transform preserves the value of every expression over settled symbols whose order
      comparisons are between comparable symbols. */
  lemma {:induction false} TransformMeaning(e: Expr, v: Valuation)
    requires Sound(e, v)
    ensures Eval(Transform(e), v) == Eval(e, v)
    ensures Sound(Transform(e), v)
    decreases Weight(e), 1
  {
    match e
    case Sym(_) =>
    case Cmp(rel, a, b) => CmpMeaning(rel, a, b, v);
    case Bin(op, l, r) => TransformMeaning(l, v); TransformMeaning(r, v);
    case Not(x) => WeightPositive(x); TransformMeaning(x, v); NotMeaning(x, v);
  }

  lemma {:induction false} NotMeaning(x: Expr, v: Valuation)
    requires Sound(Transform(x), v) && Eval(Transform(x), v) == Eval(x, v)
    ensures Eval(Transform(Not(x)), v) == Flip(Eval(x, v))
    ensures Sound(Transform(Not(x)), v)
    decreases Weight(Not(x)), 0
  {
    match Transform(x)
    case Not(z) => WeightPositive(z); TransformMeaning(z, v);
    case Cmp(rel, a, b) => OppositeMeaning(rel, a, b, v);
    case Bin(op, l, r) => DeMorganLighter(op, l, r); TransformMeaning(Bin(Dual(op), Not(l), Not(r)), v);
    case Sym(s) => NegateMeaning(s, v);
  }

  lemma {:induction false} OppositeMeaning(rel: Rel, a: Symbol, b: Symbol, v: Valuation)
    requires Sound(Cmp(rel, a, b), v)
    ensures Relate(Opposite(rel), a, b, v) == Flip(Relate(rel, a, b, v))
    ensures Sound(Cmp(Opposite(rel), a, b), v)
  {
  }

  lemma {:induction false} NegateMeaning(s: Symbol, v: Valuation)
    requires Settled(v, s)
    ensures Eval(NegateSym(s), v) == Flip(TriOf(v, s)) && Sound(NegateSym(s), v)
  {
  }

  /** Where the comparability assumption comes from: turning a negated comparison round keeps its
      value exactly when the two symbols can be compared at all. */
  lemma {:induction false} OppositeExact(rel: Rel, a: Symbol, b: Symbol, v: Valuation)
    requires !rel.Eq? && !rel.Neq?
    ensures Eval(Transform(Not(Cmp(rel, a, b))), v) == Eval(Not(Cmp(rel, a, b)), v)
        <==> Compare(a, b, v).Some?
  {
    assert Transform(Not(Cmp(rel, a, b))) == Cmp(Opposite(rel), a, b);
  }

  /** An input on which the value does change: a symbol of type S_OTHER against the number 1. */
  lemma {:induction false} OppositeFails(rel: Rel) returns (a: Symbol, b: Symbol, v: Valuation)
    requires !rel.Eq? && !rel.Neq?
    ensures Eval(Not(Cmp(rel, a, b)), v) == Yes
    ensures Eval(Transform(Not(Cmp(rel, a, b))), v) == No
  {
    a, b := Conf(0, Other), Const("1");
    v := Valuation(map[0 := Value(No, Str("1"))], Yes);
    assert Digits("1"[1..], 10, 1) == Some(1);
    assert Digits("1", 10, 0) == Some(1);
    assert Parse("1", Unknown).KSigned?;
    assert Compare(a, b, v) == None;
    OppositeExact(rel, a, b, v);
  }
}
