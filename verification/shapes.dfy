/** What expr_eq decides (scripts/config/expr.c:141-327): whether two expressions are the same up to the order and the
    grouping of the operands of AND and OR, at all depths. */
module Shapes {
  import opened Tristate
  import opened Exprs
  import opened Equality

  /** An expression without order and grouping */
  datatype Form = Atom(e: Expr) | Negation(f: Form) | Group(op: Op, parts: multiset<Form>)

  ghost function FormOf(e: Expr): Form
    decreases Size(e), 0
  {
    match e
    case Not(x) => Negation(FormOf(x))
    case Bin(op, l, r) => Group(op, Parts(op, l) + Parts(op, r))
    case _ => Atom(e)
  }

  /** The operands of a run of op */
  ghost function Parts(op: Op, e: Expr): multiset<Form>
    decreases Size(e), 1
  {
    if IsOp(op, e) then Parts(op, e.l) + Parts(op, e.r) else multiset{FormOf(e)}
  }

  /** No constant y or n, which expr_eq never matches */
  predicate ConstFree(e: Expr) {
    match e
    case Sym(_) => !IsYn(e)
    case Not(x) => ConstFree(x)
    case Bin(_, l, r) => ConstFree(l) && ConstFree(r)
    case Cmp(_, _, _) => true
  }

  /** A run of op some operands of which may have been cancelled */
  predicate Thinned(op: Op, e: Expr) {
    if IsOp(op, e) then Thinned(op, e.l) && Thinned(op, e.r) else e == NeutralSym(op) || ConstFree(e)
  }

  /** The operands that have not */
  ghost function Live(op: Op, e: Expr): multiset<Form> {
    if IsOp(op, e) then Live(op, e.l) + Live(op, e.r)
    else if e == NeutralSym(op) then multiset{}
    else multiset{FormOf(e)}
  }

  lemma {:induction false} FreeThinned(op: Op, e: Expr)
    requires ConstFree(e)
    ensures Thinned(op, e) && Live(op, e) == Parts(op, e)
  {
    if IsOp(op, e) {
      FreeThinned(op, e.l);
      FreeThinned(op, e.r);
    }
  }

  lemma {:induction false} FreeFolded(e: Expr)
    requires ConstFree(e)
    ensures EliminateYn(e) == e && !IsYn(e)
  {
    if e.Bin? {
      FreeFolded(e.l);
      FreeFolded(e.r);
    }
  }

  lemma {:induction false} Difference(a: multiset<Form>, b: multiset<Form>, f: multiset<Form>)
    ensures (a - f) + (b - (f - a)) == (a + b) - f
    ensures (f - a) - b == f - (a + b)
  {
  }

  /** c and d are left of the runs e and f when each has lost what the other has, one for one. */
  ghost predicate Parted(op: Op, e: Expr, f: Expr, c: Expr, d: Expr) {
    && Thinned(op, c) && Live(op, c) == Live(op, e) - Live(op, f)
    && Thinned(op, d) && Live(op, d) == Live(op, f) - Live(op, e)
    && IsOp(op, c) == IsOp(op, e) && IsOp(op, d) == IsOp(op, f)
  }

  lemma {:induction false} PartedRun(op: Op, e: Expr, f: Expr, l: Expr, g: Expr, r: Expr, h: Expr)
    requires IsOp(op, e) && Parted(op, e.l, f, l, g) && Parted(op, e.r, g, r, h)
    ensures Parted(op, e, f, Bin(op, l, r), h)
  {
    Difference(Live(op, e.l), Live(op, e.r), Live(op, f));
  }

  lemma {:induction false} PartedOtherRun(op: Op, e: Expr, f: Expr, d: Expr, l: Expr, c: Expr, r: Expr)
    requires IsOp(op, f) && Parted(op, e, f.l, d, l) && Parted(op, d, f.r, c, r)
    ensures Parted(op, e, f, c, Bin(op, l, r))
  {
    Difference(Live(op, f.l), Live(op, f.r), Live(op, e));
  }

  lemma {:induction false} OneLess(p: Form, q: Form)
    ensures multiset{p} - multiset{q} == if p == q then multiset{} else multiset{p}
  {
  }

  lemma {:induction false} PartedOne(op: Op, e: Expr, f: Expr)
    requires Thinned(op, e) && Thinned(op, f) && !IsOp(op, e) && !IsOp(op, f)
    requires ConstFree(e) && ConstFree(f) ==> (Equal(e, f) <==> FormOf(e) == FormOf(f))
    ensures Parted(op, e, f, Cancel(op, e, f).0, Cancel(op, e, f).1)
  {
    if e == NeutralSym(op) || f == NeutralSym(op) {
      assert Cancel(op, e, f) == (e, f);
    } else {
      FreeFolded(e);
      FreeFolded(f);
      OneLess(FormOf(e), FormOf(f));
      OneLess(FormOf(f), FormOf(e));
      assert Cancel(op, e, f) == if Equal(e, f) then (NeutralSym(op), NeutralSym(op)) else (e, f);
      assert Live(op, e) == multiset{FormOf(e)} && Live(op, f) == multiset{FormOf(f)};
    }
  }

  /** __expr_eliminate_eq takes from each side what the other has, one for one. */
  lemma {:induction false} CancelLive(op: Op, e: Expr, f: Expr)
    requires Thinned(op, e) && Thinned(op, f)
    ensures Parted(op, e, f, Cancel(op, e, f).0, Cancel(op, e, f).1)
    decreases Size(e) + Size(f), if IsOp(op, e) || IsOp(op, f) then 0 else 3
  {
    if IsOp(op, e) {
      var (l, g) := Cancel(op, e.l, f);
      var (r, h) := Cancel(op, e.r, g);
      CancelLive(op, e.l, f);
      CancelLive(op, e.r, g);
      CancelRun(op, e, f, l, g, r, h);
      PartedRun(op, e, f, l, g, r, h);
    } else if IsOp(op, f) {
      var (d, l) := Cancel(op, e, f.l);
      var (c, r) := Cancel(op, d, f.r);
      CancelLive(op, e, f.l);
      CancelLive(op, d, f.r);
      CancelOtherRun(op, e, f, d, l, c, r);
      PartedOtherRun(op, e, f, d, l, c, r);
    } else {
      if ConstFree(e) && ConstFree(f) { EqualExactly(e, f); }
      PartedOne(op, e, f);
    }
  }

  /** x is left of a run when the constants are folded: the operands not cancelled, or the neutral constant. */
  ghost predicate Folded(op: Op, live: multiset<Form>, x: Expr) {
    if live == multiset{} then x == NeutralSym(op) else ConstFree(x) && Live(op, x) == live
  }

  lemma {:induction false} FoldRun(op: Op, a: multiset<Form>, b: multiset<Form>, x: Expr, y: Expr)
    requires Folded(op, a, x) && Folded(op, b, y)
    ensures Folded(op, a + b, Fold(op, x, y))
  {
    if a == multiset{} {
      assert a + b == b;
      if b != multiset{} { FreeFolded(y); }
      assert Fold(op, x, y) == y;
    } else {
      FreeFolded(x);
      if b == multiset{} {
        assert Fold(op, x, y) == x;
      } else {
        FreeFolded(y);
        assert Fold(op, x, y) == Bin(op, x, y);
      }
    }
  }

  lemma {:induction false} FoldLive(op: Op, e: Expr)
    requires Thinned(op, e)
    ensures Folded(op, Live(op, e), EliminateYn(e))
  {
    if IsOp(op, e) {
      FoldLive(op, e.l);
      FoldLive(op, e.r);
      FoldRun(op, Live(op, e.l), Live(op, e.r), EliminateYn(e.l), EliminateYn(e.r));
    } else if e != NeutralSym(op) {
      FreeFolded(e);
    }
  }

  /** expr_eq equates two expressions without constants if and only if they are the same up to order and grouping. */
  lemma {:induction false} EqualExactly(e: Expr, f: Expr)
    requires ConstFree(e) && ConstFree(f)
    ensures Equal(e, f) <==> FormOf(e) == FormOf(f)
    decreases Size(e) + Size(f), 2
  {
    match e
    case Not(x) => if f.Not? { EqualExactly(x, f.e); }
    case Bin(op, _, _) => if IsOp(op, f) { RunsExactly(op, e, f); }
    case _ =>
  }

  lemma {:induction false} RunsExactly(op: Op, e: Expr, f: Expr)
    requires ConstFree(e) && ConstFree(f) && IsOp(op, e) && IsOp(op, f)
    ensures Equal(e, f) <==> Parts(op, e) == Parts(op, f)
    decreases Size(e) + Size(f), 1
  {
    var (c, d) := Cancel(op, e, f);
    FreeThinned(op, e);
    FreeThinned(op, f);
    CancelLive(op, e, f);
    FoldLive(op, c);
    FoldLive(op, d);
    var x, y := EliminateYn(c), EliminateYn(d);
    assert EliminateEq(e, f) == (x, y);
    var a, b := Parts(op, e), Parts(op, f);
    LeftOver(op, a - b, b - a, x, y);
    if a - b == multiset{} && b - a == multiset{} { NoDifference(a, b); }
  }

  /** Nothing is left on either side exactly if the same symbol is. */
  lemma {:induction false} LeftOver(op: Op, p: multiset<Form>, q: multiset<Form>, x: Expr, y: Expr)
    requires Folded(op, p, x) && Folded(op, q, y) && forall f :: f in p ==> f !in q
    ensures x.Sym? && x == y <==> p == multiset{} && q == multiset{}
  {
    if p != multiset{} && x.Sym? {
      FreeFolded(x);
      assert p == multiset{Atom(x)} && Atom(x) in p;
    }
  }

  lemma {:induction false} NoDifference(a: multiset<Form>, b: multiset<Form>)
    requires a - b == multiset{} && b - a == multiset{}
    ensures a == b
  {
    forall p ensures a[p] == b[p] { assert (a - b)[p] == 0 && (b - a)[p] == 0; }
  }

  /* ---- folding constants ---- */

  /** No operand of an AND or OR is y or n. */
  predicate YnFolded(e: Expr) {
    e.Bin? ==> !IsYn(e.l) && !IsYn(e.r) && YnFolded(e.l) && YnFolded(e.r)
  }

  /** expr_eliminate_yn leaves none. */
  lemma {:induction false} EliminateYnFolded(e: Expr)
    ensures YnFolded(EliminateYn(e)) && (YnFolded(e) ==> EliminateYn(e) == e)
  {
    if e.Bin? { EliminateYnFolded(e.l); EliminateYnFolded(e.r); }
  }
}
