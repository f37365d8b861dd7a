/** expr_join_or, expr_join_and, expr_eliminate_dups1 and expr_eliminate_dups (scripts/config/expr.c:361-592). */
module Dups {
  import opened Tristate
  import opened Exprs
  import opened Transforms
  import opened Equality

  /* ---- joining two operands ---- */

  predicate IsEqTest(e: Expr) { e.Cmp? && (e.rel.Eq? || e.rel.Neq?) }

  /** The symbol both joiners look at: in their first operand (sym1) ... */
  function FirstSymbol(e: Expr): Option<Symbol> {
    if e.Sym? then Some(e.s)
    else if IsEqTest(e) then Some(e.a)
    else if e.Not? && IsEqTest(e.e) then Some(e.e.a)
    else if e.Not? && e.e.Sym? then Some(e.e.s)
    else None
  }

  /** ... and in their second (sym2), where a negated comparison is given up on. */
  function SecondSymbol(e: Expr): Option<Symbol> {
    if e.Not? && !e.e.Sym? then None else FirstSymbol(e)
  }

  predicate SameSymbol(e: Expr, f: Expr) {
    FirstSymbol(e).Some? && FirstSymbol(e) == SecondSymbol(f) && IsTri(FirstSymbol(e).value)
  }

  /** Two tests of one symbol with operator `rel`, against c and d in either order. */
  predicate Tests(e: Expr, f: Expr, rel: Rel, c: Symbol, d: Symbol) {
    && e.Cmp? && f.Cmp? && e.rel == rel && f.rel == rel
    && ((e.b == c && f.b == d) || (e.b == d && f.b == c))
  }

  /** A bare symbol beside a test of it with `rel` against c, in either order. */
  predicate BareAndTest(e: Expr, f: Expr, rel: Rel, c: Symbol) {
    || (e.Sym? && f.Cmp? && f.rel == rel && f.b == c)
    || (f.Sym? && e.Cmp? && e.rel == rel && e.b == c)
  }

  /** expr_join_or */
  function JoinOr(e: Expr, f: Expr): OExpr { if Equal(e, f) then Some(e) else JoinOrTests(e, f) }

  function JoinOrTests(e: Expr, f: Expr): OExpr {
    if !SameSymbol(e, f) then None
    else
      var s := FirstSymbol(e).value;
      var tri := TypeOf(s).Tristate?;
      if tri && Tests(e, f, Eq, SYM_YES, SYM_MOD) then Some(Cmp(Neq, s, SYM_NO))
      else if tri && Tests(e, f, Eq, SYM_YES, SYM_NO) then Some(Cmp(Neq, s, SYM_MOD))
      else if tri && Tests(e, f, Eq, SYM_MOD, SYM_NO) then Some(Cmp(Neq, s, SYM_YES))
      else if !tri && ((e.Not? && e.e.Sym? && f.Sym?) || (f.Not? && f.e.Sym? && e.Sym?)) then Some(Sym(SYM_YES))
      else None
  }

  /** (a='b') && (a!='c') for constants b and c */
  function EqAndNeq(s: Symbol, b: Symbol, c: Symbol): Expr {
    if b != c then Cmp(Eq, s, b) else Sym(SYM_NO)
  }

  /** expr_join_and */
  function JoinAnd(e: Expr, f: Expr): OExpr { if Equal(e, f) then Some(e) else JoinAndTests(e, f) }

  function JoinAndTests(e: Expr, f: Expr): OExpr {
    if !SameSymbol(e, f) then None
    else
      var s := FirstSymbol(e).value;
      if BareAndTest(e, f, Eq, SYM_YES) then Some(Cmp(Eq, s, SYM_YES))
      else if BareAndTest(e, f, Neq, SYM_NO) then Some(Sym(s))
      else if BareAndTest(e, f, Neq, SYM_MOD) then Some(Cmp(Eq, s, SYM_YES))
      else if !TypeOf(s).Tristate? then None
      else if e.Cmp? && e.rel.Eq? && f.Cmp? && f.rel.Neq? && e.b.Const? && f.b.Const? then Some(EqAndNeq(s, e.b, f.b))
      else if e.Cmp? && e.rel.Neq? && f.Cmp? && f.rel.Eq? && e.b.Const? && f.b.Const? then Some(EqAndNeq(s, f.b, e.b))
      else if Tests(e, f, Neq, SYM_YES, SYM_NO) then Some(Cmp(Eq, s, SYM_MOD))
      else if Tests(e, f, Neq, SYM_YES, SYM_MOD) then Some(Cmp(Eq, s, SYM_NO))
      else if Tests(e, f, Neq, SYM_MOD, SYM_NO) then Some(Cmp(Eq, s, SYM_YES))
      else None
  }

  function JoinTests(op: Op, e: Expr, f: Expr): OExpr { if op == Disj then JoinOrTests(e, f) else JoinAndTests(e, f) }

  function Join(op: Op, e: Expr, f: Expr): OExpr { if op == Disj then JoinOr(e, f) else JoinAnd(e, f) }

  /** The tests join leaves and negated leaves, into leaves. */
  lemma {:induction false} JoinTestsShape(op: Op, e: Expr, f: Expr)
    ensures JoinTests(op, e, f).Some? ==> JoinTests(op, e, f).value.Sym? || JoinTests(op, e, f).value.Cmp?
    ensures !(e.Sym? || e.Cmp? || (e.Not? && (e.e.Sym? || e.e.Cmp?))) ==> JoinTests(op, e, f).None?
    ensures !(f.Sym? || f.Cmp? || (f.Not? && (f.e.Sym? || f.e.Cmp?))) ==> JoinTests(op, e, f).None?
  {
  }

  /** A join replaces both operands by one that is no larger, and is never itself an `op` node. */
  lemma {:induction false} JoinShape(op: Op, e: Expr, f: Expr)
    requires !IsOp(op, e) && Join(op, e, f).Some?
    ensures var j := Join(op, e, f).value;
      && Size(j) < Size(e) + Size(f) && !IsOp(op, j)
      && (NegOnSymbols(e) ==> NegOnSymbols(j))
  {
    var j := Join(op, e, f).value;
    assert j == e || j.Sym? || j.Cmp?;
  }

  /** (a='b') || (a='c') */
  lemma {:induction false} EqJoinMeaning(e: Expr, f: Expr, v: Valuation)
    requires SettledIn(v, e) && SettledIn(v, f) && JoinOrTests(e, f).Some?
    requires e.Cmp? && f.Cmp?
    ensures Eval(JoinOrTests(e, f).value, v) == Max(Eval(e, v), Eval(f, v))
    ensures SettledIn(v, JoinOrTests(e, f).value)
  {
    ConstTests(e.a, v);
  }

  /** (!a) || (a) for a boolean */
  lemma {:induction false} ExcludedMiddle(e: Expr, f: Expr, v: Valuation)
    requires SettledIn(v, e) && SettledIn(v, f) && JoinOrTests(e, f).Some?
    requires !e.Cmp? || !f.Cmp?
    ensures Eval(JoinOrTests(e, f).value, v) == Max(Eval(e, v), Eval(f, v))
    ensures SettledIn(v, JoinOrTests(e, f).value)
  {
  }

  /** (a) && (a tested) */
  lemma {:induction false} BareJoinMeaning(e: Expr, f: Expr, v: Valuation)
    requires SettledIn(v, e) && SettledIn(v, f) && JoinAndTests(e, f).Some?
    requires !e.Cmp? || !f.Cmp?
    ensures Eval(JoinAndTests(e, f).value, v) == Min(Eval(e, v), Eval(f, v))
    ensures SettledIn(v, JoinAndTests(e, f).value)
  {
    ConstTests(FirstSymbol(e).value, v);
  }

  /** (a='b') && (a!='c') */
  lemma {:induction false} MixedJoinMeaning(e: Expr, f: Expr, v: Valuation)
    requires SettledIn(v, e) && SettledIn(v, f) && JoinAndTests(e, f).Some?
    requires e.Cmp? && f.Cmp? && e.rel != f.rel
    ensures Eval(JoinAndTests(e, f).value, v) == Min(Eval(e, v), Eval(f, v))
    ensures SettledIn(v, JoinAndTests(e, f).value)
  {
    if e.rel.Eq? { EqAndNeqMeaning(e.a, e.b, f.b, v); } else { EqAndNeqMeaning(e.a, f.b, e.b, v); }
  }

  /** (a!='b') && (a!='c') */
  lemma {:induction false} NeqJoinMeaning(e: Expr, f: Expr, v: Valuation)
    requires SettledIn(v, e) && SettledIn(v, f) && JoinAndTests(e, f).Some?
    requires e.Cmp? && f.Cmp? && e.rel == f.rel
    ensures Eval(JoinAndTests(e, f).value, v) == Min(Eval(e, v), Eval(f, v))
    ensures SettledIn(v, JoinAndTests(e, f).value)
  {
    ConstTests(e.a, v);
  }

  lemma {:induction false} EqAndNeqMeaning(s: Symbol, b: Symbol, c: Symbol, v: Valuation)
    requires IsTri(s)
    ensures b.Const? && c.Const? ==>
              Eval(EqAndNeq(s, b, c), v) == Min(Relate(Eq, s, b, v), Relate(Neq, s, c, v))
  {
    TriCompare(Eq, s, b, v);
    TriCompare(Neq, s, c, v);
  }

  /** The six tests of a settled symbol against y, m and n. */
  lemma {:induction false} ConstTests(s: Symbol, v: Valuation)
    requires IsTri(s) && Settled(v, s)
    ensures Relate(Eq, s, SYM_NO, v) == FromBool(TriOf(v, s).No?)
    ensures Relate(Eq, s, SYM_MOD, v) == FromBool(TriOf(v, s).Mod?)
    ensures Relate(Eq, s, SYM_YES, v) == FromBool(TriOf(v, s).Yes?)
    ensures Relate(Neq, s, SYM_NO, v) == FromBool(!TriOf(v, s).No?)
    ensures Relate(Neq, s, SYM_MOD, v) == FromBool(!TriOf(v, s).Mod?)
    ensures Relate(Neq, s, SYM_YES, v) == FromBool(!TriOf(v, s).Yes?)
  {
    TriCompareConst(Eq, s, No, v);
    TriCompareConst(Eq, s, Mod, v);
    TriCompareConst(Eq, s, Yes, v);
    TriCompareConst(Neq, s, No, v);
    TriCompareConst(Neq, s, Mod, v);
    TriCompareConst(Neq, s, Yes, v);
  }

  lemma {:induction false} JoinMeaning(op: Op, e: Expr, f: Expr, v: Valuation)
    requires SettledIn(v, e) && SettledIn(v, f) && Join(op, e, f).Some?
    ensures Eval(Join(op, e, f).value, v) == Apply(op, Eval(e, v), Eval(f, v))
    ensures SettledIn(v, Join(op, e, f).value)
  {
    if Equal(e, f) { EqualSound(e, f, v); }
    else if op == Disj && e.Cmp? && f.Cmp? { EqJoinMeaning(e, f, v); }
    else if op == Disj { ExcludedMiddle(e, f, v); }
    else if !e.Cmp? || !f.Cmp? { BareJoinMeaning(e, f, v); }
    else if e.rel != f.rel { MixedJoinMeaning(e, f, v); }
    else { NeqJoinMeaning(e, f, v); }
  }

  /* ---- operand slots ---- */

  /** A slot, i.e. one of the `struct expr **` arguments: the way from the root to the operand. */
  datatype Side = Left | Right

  type Slot = seq<Side>

  /** The slot is reached from the root through `op` nodes only. */
  predicate OnRun(op: Op, t: Expr, p: Slot) {
    p == [] || (IsOp(op, t) && OnRun(op, if p[0] == Left then t.l else t.r, p[1..]))
  }

  function At(op: Op, t: Expr, p: Slot): Expr
    requires OnRun(op, t, p)
  {
    if p == [] then t else At(op, if p[0] == Left then t.l else t.r, p[1..])
  }

  /** The assignment `*slot = x`. */
  function Put(op: Op, t: Expr, p: Slot, x: Expr): Expr
    requires OnRun(op, t, p)
  {
    if p == [] then x
    else if p[0] == Left then Bin(op, Put(op, t.l, p[1..], x), t.r)
    else Bin(op, t.l, Put(op, t.r, p[1..], x))
  }

  /** The run of `op` nodes at the top of a tree, its operands forgotten. */
  datatype Shape = Leaf | Fork(l: Shape, r: Shape)

  function Run(op: Op, t: Expr): Shape {
    if IsOp(op, t) then Fork(Run(op, t.l), Run(op, t.r)) else Leaf
  }

  function Forks(s: Shape): nat { if s.Leaf? then 0 else 1 + Forks(s.l) + Forks(s.r) }

  lemma {:induction false} PutAt(op: Op, t: Expr, p: Slot, x: Expr)
    requires OnRun(op, t, p)
    ensures OnRun(op, Put(op, t, p, x), p) && At(op, Put(op, t, p, x), p) == x
    ensures Put(op, t, p, At(op, t, p)) == t
    ensures forall y :: Put(op, Put(op, t, p, x), p, y) == Put(op, t, p, y)
    ensures Size(Put(op, t, p, x)) == Size(t) - Size(At(op, t, p)) + Size(x)
    ensures p != [] ==> Size(At(op, t, p)) < Size(t)
  {
    if p != [] { PutAt(op, if p[0] == Left then t.l else t.r, p[1..], x); }
  }

  /** Assigning one operand for another leaves the run as it is. */
  lemma {:induction false} PutRun(op: Op, t: Expr, p: Slot, x: Expr)
    requires OnRun(op, t, p) && !IsOp(op, At(op, t, p)) && !IsOp(op, x)
    ensures Run(op, Put(op, t, p, x)) == Run(op, t)
  {
    if p != [] { PutRun(op, if p[0] == Left then t.l else t.r, p[1..], x); }
  }

  lemma {:induction false} SameRunSlots(op: Op, t: Expr, u: Expr, p: Slot)
    requires Run(op, t) == Run(op, u) && OnRun(op, t, p)
    ensures OnRun(op, u, p) && Run(op, At(op, u, p)) == Run(op, At(op, t, p))
    ensures IsOp(op, At(op, u, p)) == IsOp(op, At(op, t, p))
  {
    if p != [] {
      if p[0] == Left { SameRunSlots(op, t.l, u.l, p[1..]); } else { SameRunSlots(op, t.r, u.r, p[1..]); }
    }
  }

  lemma {:induction false} Extend(op: Op, t: Expr, p: Slot, s: Side)
    requires OnRun(op, t, p) && IsOp(op, At(op, t, p))
    ensures OnRun(op, t, p + [s])
    ensures At(op, t, p + [s]) == (if s == Left then At(op, t, p).l else At(op, t, p).r)
  {
    if p == [] {
      assert (p + [s])[1..] == [];
    } else {
      assert (p + [s])[1..] == p[1..] + [s];
      Extend(op, if p[0] == Left then t.l else t.r, p[1..], s);
    }
  }

  /** Two different operand slots do not disturb each other. */
  lemma {:induction false} PutElsewhere(op: Op, t: Expr, p: Slot, q: Slot, x: Expr)
    requires OnRun(op, t, p) && OnRun(op, t, q) && p != q
    requires !IsOp(op, At(op, t, p)) && !IsOp(op, At(op, t, q))
    ensures OnRun(op, Put(op, t, p, x), q) && At(op, Put(op, t, p, x), q) == At(op, t, q)
    ensures p != [] && q != []
  {
    if p != [] && q != [] && p[0] == q[0] {
      assert p == [p[0]] + p[1..] && q == [q[0]] + q[1..];
      PutElsewhere(op, if p[0] == Left then t.l else t.r, p[1..], q[1..], x);
    }
  }

  /* ---- the elimination pass ---- */

  /** expr_eliminate_dups1(op, ep1, ep2) with both slots in the tree `t`: the tree afterwards, and by
      how much trans_count grew.  The slots may alias or contain one another. */
  function Pass(op: Op, t: Expr, p: Slot, q: Slot): (r: (Expr, nat))
    requires OnRun(op, t, p) && OnRun(op, t, q)
    ensures Size(r.0) <= Size(t) && Run(op, r.0) == Run(op, t)
    decreases Size(t), Forks(Run(op, At(op, t, p))) + Forks(Run(op, At(op, t, q)))
  {
    var e, f := At(op, t, p), At(op, t, q);
    if IsOp(op, e) then
      Extend(op, t, p, Left);
      Extend(op, t, p, Right);
      var (u, c) := Pass(op, t, p + [Left], q);
      SameRunSlots(op, t, u, p + [Right]);
      SameRunSlots(op, t, u, q);
      var (w, d) := Pass(op, u, p + [Right], q);
      (w, c + d)
    else if IsOp(op, f) then
      Extend(op, t, q, Left);
      Extend(op, t, q, Right);
      var (u, c) := Pass(op, t, p, q + [Left]);
      SameRunSlots(op, t, u, q + [Right]);
      SameRunSlots(op, t, u, p);
      var (w, d) := Pass(op, u, p, q + [Right]);
      (w, c + d)
    else if p == q then (t, 0)
    else
      PutElsewhere(op, t, p, q, e);
      PutAt(op, t, p, e);
      var (e', c) := if e.Bin? then Pass(e.op, e, [], []) else (e, 0);
      PutAt(op, t, p, e');
      PutRun(op, t, p, e');
      match Join(op, e', f)
      case None => (Put(op, t, p, e'), c)
      case Some(j) =>
        var n := NeutralSym(op);
        JoinShape(op, e', f);
        PutAt(op, t, p, n);
        PutRun(op, t, p, n);
        PutElsewhere(op, t, p, q, n);
        PutAt(op, Put(op, t, p, n), q, j);
        PutRun(op, Put(op, t, p, n), q, j);
        (Put(op, Put(op, t, p, n), q, j), c + 1)
  }

  /* ---- what a pass leaves alone, and what it leaves behind ---- */

  /** Two unequal operand slots: the value of the tree is that of both operands and of the rest. */
  lemma {:induction false} PutMeaning(op: Op, t: Expr, p: Slot, x: Expr, v: Valuation)
    requires OnRun(op, t, p)
    ensures Eval(Put(op, t, p, x), v) == Apply(op, Eval(x, v), Eval(Put(op, t, p, NeutralSym(op)), v))
    ensures SettledIn(v, t) && SettledIn(v, x) ==> SettledIn(v, Put(op, t, p, x))
    ensures SettledIn(v, t) ==> SettledIn(v, At(op, t, p))
  {
    if p != [] { PutMeaning(op, if p[0] == Left then t.l else t.r, p[1..], x, v); }
  }

  lemma {:induction false} PutNegations(op: Op, t: Expr, p: Slot, x: Expr)
    requires OnRun(op, t, p) && NegOnSymbols(t)
    ensures NegOnSymbols(At(op, t, p))
    ensures NegOnSymbols(x) ==> NegOnSymbols(Put(op, t, p, x))
  {
    if p != [] { PutNegations(op, if p[0] == Left then t.l else t.r, p[1..], x); }
  }

  lemma {:induction false} PutReducible(op: Op, t: Expr, p: Slot, x: Expr)
    requires OnRun(op, t, p)
    ensures p != [] && x == NeutralSym(op) ==> Reducible(Put(op, t, p, x))
    ensures Reducible(x) ==> Reducible(Put(op, t, p, x))
    ensures Reducible(t) && !At(op, t, p).Sym? ==> Reducible(At(op, t, p)) || Reducible(Put(op, t, p, x))
  {
    if p != [] { PutReducible(op, if p[0] == Left then t.l else t.r, p[1..], x); }
  }

  /** The facts of Pass's last case, given names: two distinct operands e and f of the run. */
  predicate Operand2(op: Op, t: Expr, p: Slot, q: Slot) {
    && OnRun(op, t, p) && OnRun(op, t, q) && p != q
    && !IsOp(op, At(op, t, p)) && !IsOp(op, At(op, t, q))
  }

  /** The nested pass on a first operand that is itself an AND or OR. */
  function Inner(e: Expr): (r: (Expr, nat))
    ensures Size(r.0) <= Size(e)
    ensures !e.Bin? ==> r.0 == e
    ensures forall op: Op :: IsOp(op, r.0) == IsOp(op, e)
  {
    if e.Bin? then Pass(e.op, e, [], []) else (e, 0)
  }

  lemma {:induction false} PassPair(op: Op, t: Expr, p: Slot, q: Slot)
    requires Operand2(op, t, p, q)
    ensures var (e', c) := Inner(At(op, t, p)); var j := Join(op, e', At(op, t, q));
      var n := NeutralSym(op);
      && OnRun(op, Put(op, t, p, n), q)
      && Pass(op, t, p, q) ==
         if j.None? then (Put(op, t, p, e'), c) else (Put(op, Put(op, t, p, n), q, j.value), c + 1)
  {
    PutElsewhere(op, t, p, q, NeutralSym(op));
  }

  /** The join of two operands, if there is one, and by how much trans_count grows */
  function JoinStep(op: Op, t: Expr, p: Slot, q: Slot): (Expr, nat)
    requires Operand2(op, t, p, q)
  {
    PutElsewhere(op, t, p, q, NeutralSym(op));
    match Join(op, At(op, t, p), At(op, t, q))
    case None => (t, 0)
    case Some(j) => (Put(op, Put(op, t, p, NeutralSym(op)), q, j), 1)
  }

  /** A pass over two operands: the nested pass, and then the join */
  lemma {:induction false} PassTwoSteps(op: Op, t: Expr, p: Slot, q: Slot)
    requires Operand2(op, t, p, q)
    ensures var (e', c) := Inner(At(op, t, p)); var u := Put(op, t, p, e');
      && Operand2(op, u, p, q) && At(op, u, p) == e' && At(op, u, q) == At(op, t, q) && Run(op, u) == Run(op, t)
      && Pass(op, t, p, q) == (JoinStep(op, u, p, q).0, c + JoinStep(op, u, p, q).1)
  {
    var (e', c) := Inner(At(op, t, p));
    PutElsewhere(op, t, p, q, e');
    PutAt(op, t, p, e');
    PutRun(op, t, p, e');
    SameRunSlots(op, t, Put(op, t, p, e'), p);
    PassPair(op, t, p, q);
  }

  /** One step on two operands, seen from outside: `t` becomes `u`, and trans_count grows by c. */
  ghost predicate Keeps(t: Expr, u: Expr, c: nat, v: Valuation) {
    && (SettledIn(v, t) ==> SettledIn(v, u) && Eval(u, v) == Eval(t, v))
    && (NegOnSymbols(t) ==> NegOnSymbols(u))
    && (c > 0 || Reducible(t) ==> Reducible(u))
    && (c == 0 ==> u == t)
  }

  /** The nested pass changed the operand e into e'; in the tree that is again a step that Keeps. */
  lemma {:induction false} NestedKeeps(op: Op, t: Expr, p: Slot, e': Expr, c: nat, v: Valuation)
    requires OnRun(op, t, p) && Keeps(At(op, t, p), e', c, v)
    ensures Keeps(t, Put(op, t, p, e'), c, v)
  {
    PutAt(op, t, p, e');
    PutMeaning(op, t, p, e', v);
    PutMeaning(op, t, p, At(op, t, p), v);
    if NegOnSymbols(t) { PutNegations(op, t, p, e'); }
    PutReducible(op, t, p, e');
  }

  /** The join of two operands, the first of which becomes the neutral constant. */
  lemma {:induction false} JoinKeeps(op: Op, t: Expr, p: Slot, q: Slot, v: Valuation)
    requires Operand2(op, t, p, q) && Join(op, At(op, t, p), At(op, t, q)).Some?
    ensures OnRun(op, Put(op, t, p, NeutralSym(op)), q)
    ensures var j := Join(op, At(op, t, p), At(op, t, q)).value;
            Keeps(t, Put(op, Put(op, t, p, NeutralSym(op)), q, j), 1, v)
  {
    var e, f := At(op, t, p), At(op, t, q);
    var n, j := Put(op, t, p, NeutralSym(op)), Join(op, e, f).value;
    PutElsewhere(op, t, p, q, NeutralSym(op));
    JoinShape(op, e, f);
    JoinReducible(op, t, p, q, j);
    if SettledIn(v, t) { JoinKeepsMeaning(op, t, p, q, v); }
    if NegOnSymbols(t) {
      PutNegations(op, t, p, NeutralSym(op));
      PutNegations(op, n, q, j);
    }
  }

  lemma {:induction false} JoinReducible(op: Op, t: Expr, p: Slot, q: Slot, j: Expr)
    requires Operand2(op, t, p, q) && !IsOp(op, j)
    ensures OnRun(op, Put(op, t, p, NeutralSym(op)), q)
    ensures Reducible(Put(op, Put(op, t, p, NeutralSym(op)), q, j))
  {
    var n := Put(op, t, p, NeutralSym(op));
    PutElsewhere(op, t, p, q, NeutralSym(op));
    PutAt(op, t, p, NeutralSym(op));
    var u := Put(op, n, q, j);
    PutElsewhere(op, n, q, p, j);
    PutAt(op, u, p, At(op, u, p));
    PutReducible(op, u, p, NeutralSym(op));
  }

  lemma {:induction false} JoinKeepsMeaning(op: Op, t: Expr, p: Slot, q: Slot, v: Valuation)
    requires Operand2(op, t, p, q) && Join(op, At(op, t, p), At(op, t, q)).Some? && SettledIn(v, t)
    ensures OnRun(op, Put(op, t, p, NeutralSym(op)), q)
    ensures var u := Put(op, Put(op, t, p, NeutralSym(op)), q, Join(op, At(op, t, p), At(op, t, q)).value);
            SettledIn(v, u) && Eval(u, v) == Eval(t, v)
  {
    var e, f := At(op, t, p), At(op, t, q);
    var n, j := Put(op, t, p, NeutralSym(op)), Join(op, e, f).value;
    PutElsewhere(op, t, p, q, NeutralSym(op));
    PutMeaning(op, t, p, e, v);
    PutAt(op, t, p, e);
    PutMeaning(op, t, q, f, v);
    PutMeaning(op, t, p, NeutralSym(op), v);
    JoinMeaning(op, e, f, v);
    PutMeaning(op, n, q, j, v);
    PutMeaning(op, n, q, f, v);
    PutAt(op, n, q, f);
    var rest := Eval(Put(op, n, q, NeutralSym(op)), v);
    assert Eval(t, v) == Apply(op, Eval(e, v), Apply(op, Eval(f, v), rest));
    assert Eval(Put(op, n, q, j), v) == Apply(op, Apply(op, Eval(e, v), Eval(f, v)), rest);
    Regroup(op, Eval(e, v), Eval(e, v), rest, Eval(f, v));
  }

  /** expr_eliminate_dups1 keeps the value and the shape of negations; if it counted a change it left
      a neutral constant behind for expr_eliminate_yn, and if it counted none it changed nothing. */
  lemma {:induction false} PassKeeps(op: Op, t: Expr, p: Slot, q: Slot, v: Valuation)
    requires OnRun(op, t, p) && OnRun(op, t, q)
    ensures Keeps(t, Pass(op, t, p, q).0, Pass(op, t, p, q).1, v)
    decreases Size(t), Forks(Run(op, At(op, t, p))) + Forks(Run(op, At(op, t, q)))
  {
    if IsOp(op, At(op, t, p)) {
      Extend(op, t, p, Left);
      Extend(op, t, p, Right);
      var u := Pass(op, t, p + [Left], q).0;
      PassKeeps(op, t, p + [Left], q, v);
      SameRunSlots(op, t, u, p + [Right]);
      SameRunSlots(op, t, u, q);
      PassKeeps(op, u, p + [Right], q, v);
    } else if IsOp(op, At(op, t, q)) {
      Extend(op, t, q, Left);
      Extend(op, t, q, Right);
      var u := Pass(op, t, p, q + [Left]).0;
      PassKeeps(op, t, p, q + [Left], v);
      SameRunSlots(op, t, u, q + [Right]);
      SameRunSlots(op, t, u, p);
      PassKeeps(op, u, p, q + [Right], v);
    } else if p != q {
      PairKeeps(op, t, p, q, v);
    }
  }

  lemma {:induction false} PairKeeps(op: Op, t: Expr, p: Slot, q: Slot, v: Valuation)
    requires Operand2(op, t, p, q)
    ensures Keeps(t, Pass(op, t, p, q).0, Pass(op, t, p, q).1, v)
    decreases Size(t), 0, 0
  {
    var e, f := At(op, t, p), At(op, t, q);
    var (e', c) := Inner(e);
    PutElsewhere(op, t, p, q, e');
    PutAt(op, t, p, e);
    if e.Bin? { PassKeeps(e.op, e, [], [], v); }
    NestedKeeps(op, t, p, e', c, v);
    PassPair(op, t, p, q);
    if Join(op, e', f).Some? {
      var u := Put(op, t, p, e');
      PutAt(op, t, p, e');
      PutRun(op, t, p, e');
      SameRunSlots(op, t, u, p);
      JoinKeeps(op, u, p, q, v);
    }
  }

  /* ---- the outer loop ---- */

  /** expr_eliminate_dups: passes over the whole tree until one of them changes nothing. */
  function EliminateDups(e: Expr): Expr
    decreases Size(e)
  {
    if !e.Bin? then e
    else
      var (u, c) := Pass(e.op, e, [], []);
      if c == 0 then u
      else
        PassKeeps(e.op, e, [], [], Valuation(map[], No));
        EliminateYnShrinks(u);
        EliminateDups(EliminateYn(u))
  }

  function OEliminateDups(e: OExpr): OExpr { if e.None? then None else Some(EliminateDups(e.value)) }

  /** expr_eliminate_dups preserves the value of every expression over settled symbols. */
  lemma {:induction false} EliminateDupsMeaning(e: Expr, v: Valuation)
    requires SettledIn(v, e)
    ensures Eval(EliminateDups(e), v) == Eval(e, v)
    ensures SettledIn(v, EliminateDups(e))
    decreases Size(e)
  {
    if e.Bin? {
      var (u, c) := Pass(e.op, e, [], []);
      PassKeeps(e.op, e, [], [], v);
      if c != 0 {
        EliminateYnShrinks(u);
        EliminateYnMeaning(u, v);
        EliminateYnSettled(u, v);
        EliminateDupsMeaning(EliminateYn(u), v);
      }
    }
  }

  lemma {:induction false} EliminateYnSettled(e: Expr, v: Valuation)
    ensures SettledIn(v, e) ==> SettledIn(v, EliminateYn(e))
    ensures NegOnSymbols(e) ==> NegOnSymbols(EliminateYn(e))
  {
    if e.Bin? { EliminateYnSettled(e.l, v); EliminateYnSettled(e.r, v); }
  }

  /** It never makes a tree larger, ... */
  lemma {:induction false} EliminateDupsSize(e: Expr)
    ensures Size(EliminateDups(e)) <= Size(e)
    decreases Size(e)
  {
    if e.Bin? {
      var (u, c) := Pass(e.op, e, [], []);
      PassKeeps(e.op, e, [], [], Valuation(map[], No));
      EliminateYnShrinks(u);
      if c != 0 { EliminateDupsSize(EliminateYn(u)); }
    }
  }

  /** ... stops only when a further pass would find nothing, ... */
  lemma {:induction false} EliminateDupsFixed(e: Expr)
    ensures EliminateDups(EliminateDups(e)) == EliminateDups(e)
    decreases Size(e)
  {
    if e.Bin? {
      var (u, c) := Pass(e.op, e, [], []);
      PassKeeps(e.op, e, [], [], Valuation(map[], No));
      EliminateYnShrinks(u);
      if c != 0 { EliminateDupsFixed(EliminateYn(u)); }
    }
  }

  /** ... and puts no negation over anything but a symbol. */
  lemma {:induction false} EliminateDupsNegations(e: Expr)
    requires NegOnSymbols(e)
    ensures NegOnSymbols(EliminateDups(e))
    decreases Size(e)
  {
    if e.Bin? {
      var (u, c) := Pass(e.op, e, [], []);
      PassKeeps(e.op, e, [], [], Valuation(map[], No));
      EliminateYnShrinks(u);
      EliminateYnSettled(u, Valuation(map[], No));
      if c != 0 { EliminateDupsNegations(EliminateYn(u)); }
    }
  }
}
