/** expr_eliminate_yn, __expr_eliminate_eq, expr_eliminate_eq and expr_eq (scripts/config/expr.c:141-330). */
module Equality {
  import opened Tristate
  import opened Exprs

  function NeutralSym(op: Op): Expr { Sym(OfTri(Neutral(op))) }

  function AbsorbingSym(op: Op): Expr { Sym(OfTri(Absorbing(op))) }

  predicate IsOp(op: Op, e: Expr) { e.Bin? && e.op == op }

  predicate IsYn(e: Expr) { e == Sym(SYM_YES) || e == Sym(SYM_NO) }

  /** An AND or OR one of whose operands may be a constant */
  function Fold(op: Op, l: Expr, r: Expr): Expr {
    if l == AbsorbingSym(op) then l
    else if l == NeutralSym(op) then r
    else if r == AbsorbingSym(op) then r
    else if r == NeutralSym(op) then l
    else Bin(op, l, r)
  }

  /** expr_eliminate_yn: constants y and n are folded away, through AND and OR only. */
  function EliminateYn(e: Expr): Expr {
    if !e.Bin? then e else Fold(e.op, EliminateYn(e.l), EliminateYn(e.r))
  }

  /** expr_eq: equal up to cancelling matched operands of AND and OR, tried out on copies. */
  predicate Equal(e: Expr, f: Expr)
    decreases Size(e) + Size(f), 2
  {
    match e
    case Sym(_) => e == f
    case Cmp(_, _, _) => e == f
    case Not(x) => f.Not? && Equal(x, f.e)
    case Bin(op, _, _) =>
      && IsOp(op, f)
      && var (x, y) := EliminateEq(e, f);
         x.Sym? && x == y
  }

  /** expr_eliminate_eq: cancel under the operator of the first, then of the second if it differs. */
  function EliminateEq(e: Expr, f: Expr): (Expr, Expr)
    decreases Size(e) + Size(f), 1
  {
    var (a, b) := if e.Bin? then Cancel(e.op, e, f) else (e, f);
    var (c, d) := if b.Bin? && !IsOp(b.op, a) then Cancel(b.op, a, b) else (a, b);
    (EliminateYn(c), EliminateYn(d))
  }

  /** __expr_eliminate_eq: every operand of `e` against every operand of `f`; both sides of a match
      become the neutral constant. */
  function Cancel(op: Op, e: Expr, f: Expr): (r: (Expr, Expr))
    ensures Size(r.0) <= Size(e) && Size(r.1) <= Size(f)
    decreases Size(e) + Size(f), if IsOp(op, e) || IsOp(op, f) then 0 else 3
  {
    if IsOp(op, e) then
      var (l, g) := Cancel(op, e.l, f);
      var (r, h) := Cancel(op, e.r, g);
      (Bin(op, l, r), h)
    else if IsOp(op, f) then
      var (d, l) := Cancel(op, e, f.l);
      var (c, r) := Cancel(op, d, f.r);
      (c, Bin(op, l, r))
    else if IsYn(e) && e == f then (e, f)
    else if !Equal(e, f) then (e, f)
    else (NeutralSym(op), NeutralSym(op))
  }

  /* ---- eliminating constants ---- */

  lemma {:induction false} EliminateYnMeaning(e: Expr, v: Valuation)
    ensures Eval(EliminateYn(e), v) == Eval(e, v)
  {
    if e.Bin? { EliminateYnMeaning(e.l, v); EliminateYnMeaning(e.r, v); }
  }

  /** A neutral constant sits directly under its operator. */
  predicate Reducible(e: Expr) {
    e.Bin? && (e.l == NeutralSym(e.op) || e.r == NeutralSym(e.op) || Reducible(e.l) || Reducible(e.r))
  }

  lemma {:induction false} EliminateYnShrinks(e: Expr)
    ensures Size(EliminateYn(e)) <= Size(e)
    ensures Reducible(e) ==> Size(EliminateYn(e)) < Size(e)
  {
    if e.Bin? { EliminateYnShrinks(e.l); EliminateYnShrinks(e.r); }
  }

  /* ---- soundness of the comparison ---- */

  lemma {:induction false} Regroup(op: Op, a: Tri, b: Tri, x: Tri, y: Tri)
    ensures Apply(op, Apply(op, a, x), Apply(op, b, y)) == Apply(op, Apply(op, a, b), Apply(op, x, y))
    ensures Apply(op, Apply(op, a, y), x) == Apply(op, a, Apply(op, x, y))
  {
  }

  lemma {:induction false} CancelRun(op: Op, e: Expr, f: Expr, l: Expr, g: Expr, r: Expr, h: Expr)
    requires IsOp(op, e)
    requires Cancel(op, e.l, f) == (l, g) && Cancel(op, e.r, g) == (r, h)
    ensures Cancel(op, e, f) == (Bin(op, l, r), h)
  {
  }

  lemma {:induction false} CancelOtherRun(op: Op, e: Expr, f: Expr, d: Expr, l: Expr, c: Expr, r: Expr)
    requires !IsOp(op, e) && IsOp(op, f)
    requires Cancel(op, e, f.l) == (d, l) && Cancel(op, d, f.r) == (c, r)
    ensures Cancel(op, e, f) == (c, Bin(op, l, r))
  {
  }

  /** t comes off both e and f when c and d are left of them. */
  predicate TakenOff(op: Op, e: Expr, f: Expr, c: Expr, d: Expr, t: Tri, v: Valuation) {
    Eval(e, v) == Apply(op, Eval(c, v), t) && Eval(f, v) == Apply(op, Eval(d, v), t)
  }

  lemma {:induction false} TakenOffRun(op: Op, e: Expr, f: Expr, l: Expr, g: Expr, r: Expr, h: Expr, x: Tri, y: Tri,
        v: Valuation)
    requires IsOp(op, e) && TakenOff(op, e.l, f, l, g, x, v) && TakenOff(op, e.r, g, r, h, y, v)
    ensures TakenOff(op, e, f, Bin(op, l, r), h, Apply(op, x, y), v)
  {
    Regroup(op, Eval(l, v), Eval(r, v), x, y);
    Regroup(op, Eval(h, v), Eval(h, v), x, y);
  }

  lemma {:induction false} TakenOffOtherRun(op: Op, e: Expr, f: Expr, d: Expr, l: Expr, c: Expr, r: Expr, x: Tri,
        y: Tri, v: Valuation)
    requires IsOp(op, f) && TakenOff(op, e, f.l, d, l, x, v) && TakenOff(op, d, f.r, c, r, y, v)
    ensures TakenOff(op, e, f, c, Bin(op, l, r), Apply(op, x, y), v)
  {
    Regroup(op, Eval(l, v), Eval(r, v), x, y);
    Regroup(op, Eval(c, v), Eval(c, v), x, y);
  }

  /** Cancelling takes the same thing, of value t, off both sides. */
  lemma {:induction false} CancelMeaning(op: Op, e: Expr, f: Expr, v: Valuation) returns (t: Tri)
    ensures TakenOff(op, e, f, Cancel(op, e, f).0, Cancel(op, e, f).1, t, v)
    decreases Size(e) + Size(f), if IsOp(op, e) || IsOp(op, f) then 0 else 3
  {
    if IsOp(op, e) {
      var (l, g) := Cancel(op, e.l, f);
      var (r, h) := Cancel(op, e.r, g);
      var x := CancelMeaning(op, e.l, f, v);
      var y := CancelMeaning(op, e.r, g, v);
      t := Apply(op, x, y);
      CancelRun(op, e, f, l, g, r, h);
      TakenOffRun(op, e, f, l, g, r, h, x, y, v);
    } else if IsOp(op, f) {
      var (d, l) := Cancel(op, e, f.l);
      var (c, r) := Cancel(op, d, f.r);
      var x := CancelMeaning(op, e, f.l, v);
      var y := CancelMeaning(op, d, f.r, v);
      t := Apply(op, x, y);
      CancelOtherRun(op, e, f, d, l, c, r);
      TakenOffOtherRun(op, e, f, d, l, c, r, x, y, v);
    } else {
      if Equal(e, f) { EqualSound(e, f, v); }
      t := CancelOne(op, e, f, v);
    }
  }

  lemma {:induction false} CancelOne(op: Op, e: Expr, f: Expr, v: Valuation) returns (t: Tri)
    requires !IsOp(op, e) && !IsOp(op, f) && (Equal(e, f) ==> Eval(e, v) == Eval(f, v))
    ensures TakenOff(op, e, f, Cancel(op, e, f).0, Cancel(op, e, f).1, t, v)
  {
    if (IsYn(e) && e == f) || !Equal(e, f) {
      t := Neutral(op);
      assert Cancel(op, e, f) == (e, f);
    } else {
      t := Eval(e, v);
      assert Cancel(op, e, f) == (NeutralSym(op), NeutralSym(op));
    }
  }

  /** What remains on the two sides orders the originals, in both directions. */
  lemma {:induction false} EliminateEqReflects(e: Expr, f: Expr, v: Valuation) returns (x: Expr, y: Expr)
    ensures (x, y) == EliminateEq(e, f)
    ensures Le(Eval(x, v), Eval(y, v)) ==> Le(Eval(e, v), Eval(f, v))
    ensures Le(Eval(y, v), Eval(x, v)) ==> Le(Eval(f, v), Eval(e, v))
    decreases Size(e) + Size(f), 1
  {
    var (a, b) := if e.Bin? then Cancel(e.op, e, f) else (e, f);
    if e.Bin? { var t := CancelMeaning(e.op, e, f, v); }
    assert Le(Eval(a, v), Eval(b, v)) ==> Le(Eval(e, v), Eval(f, v));
    assert Le(Eval(b, v), Eval(a, v)) ==> Le(Eval(f, v), Eval(e, v));
    var (c, d) := if b.Bin? && !IsOp(b.op, a) then Cancel(b.op, a, b) else (a, b);
    if b.Bin? && !IsOp(b.op, a) { var t := CancelMeaning(b.op, a, b, v); }
    EliminateYnMeaning(c, v);
    EliminateYnMeaning(d, v);
    x, y := EliminateYn(c), EliminateYn(d);
  }

  /** expr_eq is sound: it never equates expressions of different value. */
  lemma {:induction false} EqualSound(e: Expr, f: Expr, v: Valuation)
    requires Equal(e, f)
    ensures Eval(e, v) == Eval(f, v)
    decreases Size(e) + Size(f), 2
  {
    match e
    case Not(x) => EqualSound(x, f.e, v);
    case Bin(_, _, _) => var _, _ := EliminateEqReflects(e, f, v);
    case _ =>
  }

  /** What is cancelled against `f` until `y` remains was implied: if f is reduced to yes, e <= f. */
  lemma {:induction false} EliminateEqImplies(e: Expr, f: Expr, v: Valuation)
    requires EliminateEq(e, f).1 == Sym(SYM_YES)
    ensures Le(Eval(e, v), Eval(f, v))
  {
    var x, y := EliminateEqReflects(e, f, v);
    assert Eval(y, v) == Yes;
  }

  /* ---- the comparison finds every expression equal to itself ---- */

  /** The operands of the topmost run of `op`, left to right. */
  function Operands(op: Op, e: Expr): seq<Expr> {
    if IsOp(op, e) then Operands(op, e.l) + Operands(op, e.r) else [e]
  }

  /** `e` once its first k operands have been cancelled; the constants y and n are left standing. */
  function Cancelled(op: Op, e: Expr, k: int): Expr {
    if IsOp(op, e) then Bin(op, Cancelled(op, e.l, k), Cancelled(op, e.r, k - |Operands(op, e.l)|))
    else if k <= 0 || IsYn(e) then e
    else NeutralSym(op)
  }

  lemma {:induction false} CancelledNone(op: Op, e: Expr, k: int)
    requires k <= 0
    ensures Cancelled(op, e, k) == e
  {
    if IsOp(op, e) { CancelledNone(op, e.l, k); CancelledNone(op, e.r, k - |Operands(op, e.l)|); }
  }

  lemma {:induction false} CancelledAll(op: Op, e: Expr, k: int, n: int)
    requires |Operands(op, e)| <= k <= n
    ensures Cancelled(op, e, k) == Cancelled(op, e, n)
    ensures IsYn(EliminateYn(Cancelled(op, e, k)))
    ensures IsOp(op, e) ==> IsOp(op, Cancelled(op, e, k))
  {
    if IsOp(op, e) {
      CancelledAll(op, e.l, k, n);
      CancelledAll(op, e.r, k - |Operands(op, e.l)|, n - |Operands(op, e.l)|);
    }
  }

  /** A constant cancels against nothing but itself, and then both stay. */
  lemma {:induction false} ConstantStays(op: Op, c: Expr, f: Expr)
    requires IsYn(c)
    ensures Cancel(op, c, f) == (c, f)
  {
    if IsOp(op, f) { ConstantStays(op, c, f.l); ConstantStays(op, c, f.r); }
  }

  lemma {:induction false} NothingLeft(op: Op, e: Expr, f: Expr, k: int)
    requires !IsOp(op, e) && |Operands(op, f)| <= k
    ensures Cancel(op, e, Cancelled(op, f, k)) == (e, Cancelled(op, f, k))
    decreases f
  {
    if IsOp(op, f) {
      NothingLeft(op, e, f.l, k);
      NothingLeft(op, e, f.r, k - |Operands(op, f.l)|);
    }
  }

  /** The k-th operand meets its own copy first: all earlier ones are gone. */
  lemma {:induction false} OperandMeetsItself(op: Op, e: Expr, f: Expr, k: nat)
    requires !IsOp(op, e) && Equal(e, e)
    requires k < |Operands(op, f)| && Operands(op, f)[k] == e
    ensures Cancel(op, e, Cancelled(op, f, k)) == (Cancelled(op, e, 1), Cancelled(op, f, k + 1))
    decreases f
  {
    if IsOp(op, f) {
      var n := |Operands(op, f.l)|;
      if k < n {
        OperandMeetsItself(op, e, f.l, k);
        CancelledNone(op, f.r, k - n);
        CancelledNone(op, f.r, k + 1 - n);
        ConstantStays(op, Cancelled(op, e, 1), f.r);
      } else {
        CancelledAll(op, f.l, k, k + 1);
        NothingLeft(op, e, f.l, k);
        OperandMeetsItself(op, e, f.r, k - n);
      }
    }
  }

  lemma {:induction false} CancelledRun(op: Op, e: Expr)
    requires IsOp(op, e)
    ensures |Operands(op, e)| == |Operands(op, e.l)| + |Operands(op, e.r)|
    ensures Cancelled(op, e, |Operands(op, e)|) ==
            Bin(op, Cancelled(op, e.l, |Operands(op, e.l)|), Cancelled(op, e.r, |Operands(op, e.r)|))
  {
    CancelledAll(op, e.l, |Operands(op, e.l)|, |Operands(op, e)|);
  }

  /** The operands of `e` are those of `f` from the k-th on, and each equals itself. */
  ghost predicate RunAt(op: Op, e: Expr, f: Expr, k: nat) {
    && k + |Operands(op, e)| <= |Operands(op, f)|
    && Operands(op, e) == Operands(op, f)[k..k + |Operands(op, e)|]
    && forall x :: x in Operands(op, e) ==> Equal(x, x)
  }

  lemma {:induction false} SplitWindow<T>(a: seq<T>, b: seq<T>, s: seq<T>, k: nat)
    requires k + |a| + |b| <= |s| && a + b == s[k..k + |a| + |b|]
    ensures a == s[k..k + |a|] && b == s[k + |a|..k + |a| + |b|]
  {
    assert forall i :: 0 <= i < |a| ==> a[i] == (a + b)[i] == s[k + i];
    assert forall i :: 0 <= i < |b| ==> b[i] == (a + b)[|a| + i] == s[k + |a| + i];
  }

  lemma {:induction false} RunSplits(op: Op, e: Expr, f: Expr, k: nat)
    requires IsOp(op, e) && RunAt(op, e, f, k)
    ensures RunAt(op, e.l, f, k) && RunAt(op, e.r, f, k + |Operands(op, e.l)|)
  {
    SplitWindow(Operands(op, e.l), Operands(op, e.r), Operands(op, f), k);
  }

  lemma {:induction false} OneMeetsItself(op: Op, e: Expr, f: Expr, k: nat)
    requires RunAt(op, e, f, k) && !IsOp(op, e)
    ensures Cancel(op, e, Cancelled(op, f, k)) == (Cancelled(op, e, 1), Cancelled(op, f, k + 1))
  {
    assert Operands(op, e)[0] in Operands(op, e);
    assert Operands(op, f)[k..k + 1][0] == Operands(op, f)[k];
    OperandMeetsItself(op, e, f, k);
  }

  /** Cancelled against f, whose first k operands are gone, e takes as many more as it has. */
  predicate MeetsItself(op: Op, e: Expr, f: Expr, k: nat) {
    Cancel(op, e, Cancelled(op, f, k)) == (Cancelled(op, e, |Operands(op, e)|), Cancelled(op, f, k + |Operands(op, e)|))
  }

  lemma {:induction false} RunJoined(op: Op, e: Expr, f: Expr, k: nat)
    requires IsOp(op, e) && MeetsItself(op, e.l, f, k) && MeetsItself(op, e.r, f, k + |Operands(op, e.l)|)
    ensures MeetsItself(op, e, f, k)
  {
    var n, m := |Operands(op, e.l)|, |Operands(op, e.r)|;
    CancelRun(op, e, Cancelled(op, f, k), Cancelled(op, e.l, n), Cancelled(op, f, k + n),
              Cancelled(op, e.r, m), Cancelled(op, f, k + n + m));
    CancelledRun(op, e);
  }

  lemma {:induction false} RunMeetsItself(op: Op, e: Expr, f: Expr, k: nat)
    requires RunAt(op, e, f, k)
    ensures MeetsItself(op, e, f, k)
    decreases e
  {
    if IsOp(op, e) {
      RunSplits(op, e, f, k);
      RunMeetsItself(op, e.l, f, k);
      RunMeetsItself(op, e.r, f, k + |Operands(op, e.l)|);
      RunJoined(op, e, f, k);
    } else {
      OneMeetsItself(op, e, f, k);
    }
  }

  lemma {:induction false} OperandSizes(op: Op, e: Expr, x: Expr)
    requires x in Operands(op, e)
    ensures Size(x) <= Size(e) && (IsOp(op, e) ==> Size(x) < Size(e)) && !IsOp(op, x)
  {
    if IsOp(op, e) {
      if x in Operands(op, e.l) { OperandSizes(op, e.l, x); } else { OperandSizes(op, e.r, x); }
    }
  }

  /** expr_eq is reflexive. */
  lemma {:induction false} EqualReflexive(e: Expr)
    ensures Equal(e, e)
    decreases Size(e)
  {
    match e
    case Not(x) => EqualReflexive(x);
    case Bin(op, _, _) =>
      var n := |Operands(op, e)|;
      forall x | x in Operands(op, e) ensures Equal(x, x) {
        OperandSizes(op, e, x);
        EqualReflexive(x);
      }
      CancelledNone(op, e, 0);
      RunMeetsItself(op, e, e, 0);
      CancelledAll(op, e, n, n);
    case _ =>
  }
}
