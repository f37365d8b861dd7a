/** What expr_eliminate_dups achieves (scripts/config/expr.c:361-592): no two operands of an AND or OR are equal,
    and no pair of tests is left that could be said in one. */
module DupsFree {
  import opened Tristate
  import opened Exprs
  import opened Transforms
  import opened Equality
  import opened Dups

  predicate TriConst(c: Symbol) { c == SYM_YES || c == SYM_MOD || c == SYM_NO }

  /** Under OR: two different tests of a tristate for y, m or n, or a boolean and its negation */
  predicate RedundantOr(s: Symbol, e: Expr, f: Expr) {
    || (TypeOf(s).Tristate? && e.Cmp? && f.Cmp? && e.b != f.b && TriConst(e.b) && TriConst(f.b)
        && e == Cmp(Eq, s, e.b) && f == Cmp(Eq, s, f.b))
    || (TypeOf(s).Boolean? && e == Sym(s) && f == Not(Sym(s)))
  }

  /** Under AND: a symbol and a test of it that does without it or that it does without, or two tests of a tristate
      one of which excludes or implies the other */
  predicate RedundantAnd(s: Symbol, e: Expr, f: Expr) {
    || (IsTri(s) && e == Sym(s) && f in {Cmp(Eq, s, SYM_YES), Cmp(Neq, s, SYM_NO), Cmp(Neq, s, SYM_MOD)})
    || (TypeOf(s).Tristate? && e.Cmp? && f.Cmp? && e.b.Const? && f.b.Const?
        && e == Cmp(Eq, s, e.b) && f == Cmp(Neq, s, f.b))
    || (TypeOf(s).Tristate? && e.Cmp? && f.Cmp? && e.b != f.b && TriConst(e.b) && TriConst(f.b)
        && e == Cmp(Neq, s, e.b) && f == Cmp(Neq, s, f.b))
  }

  predicate RedundantPair(op: Op, s: Symbol, e: Expr, f: Expr) {
    if op == Disj then RedundantOr(s, e, f) || RedundantOr(s, f, e)
    else RedundantAnd(s, e, f) || RedundantAnd(s, f, e)
  }

  /** Two operands that may stand side by side */
  ghost predicate Apart(op: Op, e: Expr, f: Expr) {
    e != f && !Equal(e, f) && forall s :: !RedundantPair(op, s, e, f)
  }

  /** Any two operands of the run at the top of e are apart, and so it is in each operand. */
  ghost predicate DuplicateFree(e: Expr)
    decreases Size(e), 0
  {
    e.Bin? ==>
      && (forall i, j :: 0 <= i < |Operands(e.op, e)| && 0 <= j < |Operands(e.op, e)| && i != j ==>
            Apart(e.op, Operands(e.op, e)[i], Operands(e.op, e)[j]))
      && FreeInside(e.op, e.l) && FreeInside(e.op, e.r)
  }

  /** The operands in a part of a run */
  ghost predicate FreeInside(op: Op, e: Expr)
    decreases Size(e), 1
  {
    if IsOp(op, e) then FreeInside(op, e.l) && FreeInside(op, e.r) else DuplicateFree(e)
  }

  /* ---- pairs that are not joined are apart ---- */

  lemma {:induction false} UnjoinedOr(s: Symbol, e: Expr, f: Expr)
    requires JoinOrTests(e, f) == None
    ensures !RedundantOr(s, e, f)
  {
  }

  lemma {:induction false} UnjoinedAnd(s: Symbol, e: Expr, f: Expr)
    requires JoinAndTests(e, f) == None
    ensures !RedundantAnd(s, e, f)
  {
  }

  /** Two operands are joined if and only if they may not stand side by side. */
  lemma {:induction false} JoinExactly(op: Op, e: Expr, f: Expr)
    ensures Join(op, e, f).None? <==> !Equal(e, f) && forall s :: !RedundantPair(op, s, e, f)
  {
    if !Equal(e, f) && Join(op, e, f).Some? {
      var s := FirstSymbol(e).value;
      if op == Disj { JoinedOr(e, f); } else { JoinedAnd(e, f); }
      assert RedundantPair(op, s, e, f);
    }
    if Join(op, e, f).None? {
      forall s ensures !RedundantPair(op, s, e, f) {
        if op == Disj {
          UnjoinedOr(s, e, f);
          OrEitherWay(e, f);
          UnjoinedOr(s, f, e);
        } else {
          UnjoinedAnd(s, e, f);
          AndEitherWay(e, f);
          UnjoinedAnd(s, f, e);
        }
      }
    }
  }

  lemma {:induction false} JoinedOr(e: Expr, f: Expr)
    requires JoinOrTests(e, f).Some?
    ensures var s := FirstSymbol(e).value; RedundantOr(s, e, f) || RedundantOr(s, f, e)
  {
  }

  lemma {:induction false} JoinedAnd(e: Expr, f: Expr)
    requires JoinAndTests(e, f).Some?
    ensures var s := FirstSymbol(e).value; RedundantAnd(s, e, f) || RedundantAnd(s, f, e)
  {
  }

  lemma {:induction false} OrEitherWay(e: Expr, f: Expr)
    requires JoinOrTests(e, f) == None
    ensures JoinOrTests(f, e) == None
  {
  }

  lemma {:induction false} AndEitherWay(e: Expr, f: Expr)
    requires JoinAndTests(e, f) == None
    ensures JoinAndTests(f, e) == None
  {
  }

  lemma {:induction false} UnjoinedApart(op: Op, e: Expr, f: Expr)
    requires Join(op, e, f) == None
    ensures Apart(op, e, f)
  {
    EqualReflexive(e);
    JoinExactly(op, e, f);
  }

  /* ---- a pass that counts nothing has found nothing ---- */

  /** A slot further down than p */
  lemma {:induction false} SlotBelow(op: Op, t: Expr, p: Slot, p': Slot)
    requires OnRun(op, t, p) && OnRun(op, t, p') && p <= p' && p != p'
    ensures IsOp(op, At(op, t, p)) && p + [p'[|p|]] <= p'
  {
    if p != [] {
      SlotBelow(op, if p[0] == Left then t.l else t.r, p[1..], p'[1..]);
      assert p'[1..][|p[1..]|] == p'[|p|];
    }
  }

  /** All pairs of operands below the two slots have been tried, without a change. */
  lemma {:induction false} QuietPairs(op: Op, t: Expr, p: Slot, q: Slot, p': Slot, q': Slot)
    requires OnRun(op, t, p) && OnRun(op, t, q) && Operand2(op, t, p', q') && p <= p' && q <= q'
    requires Pass(op, t, p, q).1 == 0
    ensures Join(op, At(op, t, p'), At(op, t, q')) == None && Inner(At(op, t, p')).1 == 0
    decreases Size(t), Forks(Run(op, At(op, t, p))) + Forks(Run(op, At(op, t, q)))
  {
    var v := Valuation(map[], No);
    if IsOp(op, At(op, t, p)) {
      SlotBelow(op, t, p, p');
      Extend(op, t, p, Left);
      Extend(op, t, p, Right);
      PassKeeps(op, t, p + [Left], q, v);
      assert Pass(op, t, p + [Left], q) == (t, 0) && Pass(op, t, p + [Right], q).1 == 0;
      if p'[|p|] == Left {
        QuietPairs(op, t, p + [Left], q, p', q');
      } else {
        QuietPairs(op, t, p + [Right], q, p', q');
      }
    } else if IsOp(op, At(op, t, q)) {
      if p != p' { SlotBelow(op, t, p, p'); }
      SlotBelow(op, t, q, q');
      Extend(op, t, q, Left);
      Extend(op, t, q, Right);
      PassKeeps(op, t, p, q + [Left], v);
      assert Pass(op, t, p, q + [Left]) == (t, 0) && Pass(op, t, p, q + [Right]).1 == 0;
      if q'[|q|] == Left {
        QuietPairs(op, t, p, q + [Left], p', q');
      } else {
        QuietPairs(op, t, p, q + [Right], p', q');
      }
    } else {
      if p != p' { SlotBelow(op, t, p, p'); }
      if q != q' { SlotBelow(op, t, q, q'); }
      var e := At(op, t, p);
      PassPair(op, t, p, q);
      if e.Bin? { PassKeeps(e.op, e, [], [], v); }
    }
  }

  /* ---- slots and operands ---- */

  /** The slot of the i-th operand */
  function SlotOfOperand(op: Op, t: Expr, i: nat): Slot
    requires i < |Operands(op, t)|
  {
    if !IsOp(op, t) then []
    else if i < |Operands(op, t.l)| then [Left] + SlotOfOperand(op, t.l, i)
    else [Right] + SlotOfOperand(op, t.r, i - |Operands(op, t.l)|)
  }

  lemma {:induction false} OperandAt(op: Op, t: Expr, i: nat)
    requires i < |Operands(op, t)|
    ensures var p := SlotOfOperand(op, t, i);
      OnRun(op, t, p) && At(op, t, p) == Operands(op, t)[i] && !IsOp(op, At(op, t, p))
  {
    if IsOp(op, t) {
      if i < |Operands(op, t.l)| { OperandAt(op, t.l, i); } else { OperandAt(op, t.r, i - |Operands(op, t.l)|); }
    }
  }

  lemma {:induction false} SlotsApart(op: Op, t: Expr, i: nat, j: nat)
    requires i < |Operands(op, t)| && j < |Operands(op, t)| && i != j
    ensures SlotOfOperand(op, t, i) != SlotOfOperand(op, t, j)
  {
    if IsOp(op, t) {
      var n := |Operands(op, t.l)|;
      var p, q := SlotOfOperand(op, t, i), SlotOfOperand(op, t, j);
      if i < n && j < n {
        SlotsApart(op, t.l, i, j);
        assert p[1..] == SlotOfOperand(op, t.l, i) && q[1..] == SlotOfOperand(op, t.l, j);
      } else if i >= n && j >= n {
        SlotsApart(op, t.r, i - n, j - n);
        assert p[1..] == SlotOfOperand(op, t.r, i - n) && q[1..] == SlotOfOperand(op, t.r, j - n);
      } else {
        assert p[0] != q[0];
      }
    }
  }

  lemma {:induction false} SomeOperand(op: Op, t: Expr)
    ensures |Operands(op, t)| >= 1 && (IsOp(op, t) ==> |Operands(op, t)| >= 2)
  {
    if IsOp(op, t) { SomeOperand(op, t.l); SomeOperand(op, t.r); }
  }

  /** The operand at a slot, and its place in the run */
  function PlaceOf(op: Op, t: Expr, p: Slot): nat
    requires OnRun(op, t, p)
  {
    if p == [] then 0
    else if p[0] == Left then PlaceOf(op, t.l, p[1..])
    else |Operands(op, t.l)| + PlaceOf(op, t.r, p[1..])
  }

  lemma {:induction false} PlacedAt(op: Op, t: Expr, p: Slot)
    requires OnRun(op, t, p) && !IsOp(op, At(op, t, p))
    ensures PlaceOf(op, t, p) < |Operands(op, t)| && Operands(op, t)[PlaceOf(op, t, p)] == At(op, t, p)
  {
    if p != [] { PlacedAt(op, if p[0] == Left then t.l else t.r, p[1..]); }
  }

  lemma {:induction false} PlacesApart(op: Op, t: Expr, p: Slot, q: Slot)
    requires Operand2(op, t, p, q)
    ensures PlaceOf(op, t, p) != PlaceOf(op, t, q)
  {
    if p != [] && q != [] {
      if p[0] == q[0] {
        assert p == [p[0]] + p[1..] && q == [q[0]] + q[1..];
        PlacesApart(op, if p[0] == Left then t.l else t.r, p[1..], q[1..]);
      } else {
        PlacedAt(op, if p[0] == Left then t.l else t.r, p[1..]);
        PlacedAt(op, if q[0] == Left then t.l else t.r, q[1..]);
      }
    }
  }

  /* ---- the theorem ---- */

  lemma {:induction false} QuietOperands(e: Expr, i: nat, j: nat)
    requires e.Bin? && Pass(e.op, e, [], []).1 == 0
    requires i < |Operands(e.op, e)| && j < |Operands(e.op, e)| && i != j
    ensures Apart(e.op, Operands(e.op, e)[i], Operands(e.op, e)[j]) && Inner(Operands(e.op, e)[i]).1 == 0
  {
    var p, q := SlotOfOperand(e.op, e, i), SlotOfOperand(e.op, e, j);
    OperandAt(e.op, e, i);
    OperandAt(e.op, e, j);
    SlotsApart(e.op, e, i, j);
    QuietPairs(e.op, e, [], [], p, q);
    UnjoinedApart(e.op, At(e.op, e, p), At(e.op, e, q));
  }

  lemma {:induction false} QuietFree(e: Expr)
    requires e.Bin? ==> Pass(e.op, e, [], []).1 == 0
    ensures DuplicateFree(e)
    decreases Size(e), 0
  {
    if e.Bin? {
      var os := Operands(e.op, e);
      SomeOperand(e.op, e);
      forall i, j | 0 <= i < |os| && 0 <= j < |os| && i != j ensures Apart(e.op, os[i], os[j]) {
        QuietOperands(e, i, j);
      }
      forall i: nat | i < |os| ensures Inner(os[i]).1 == 0 { QuietOperands(e, i, if i == 0 then 1 else 0); }
      assert forall x :: x in os ==> Inner(x).1 == 0;
      QuietInside(e.op, e.l);
      QuietInside(e.op, e.r);
    }
  }

  lemma {:induction false} QuietInside(op: Op, e: Expr)
    requires forall x :: x in Operands(op, e) ==> Inner(x).1 == 0
    ensures FreeInside(op, e)
    decreases Size(e), 1
  {
    if IsOp(op, e) {
      assert forall x :: x in Operands(op, e.l) ==> x in Operands(op, e);
      assert forall x :: x in Operands(op, e.r) ==> x in Operands(op, e);
      QuietInside(op, e.l);
      QuietInside(op, e.r);
    } else {
      assert e in Operands(op, e);
      QuietFree(e);
    }
  }

  /** expr_eliminate_dups leaves no duplicates, at any depth of AND and OR. */
  lemma {:induction false} EliminateDupsFree(e: Expr)
    ensures DuplicateFree(EliminateDups(e))
    decreases Size(e)
  {
    if !e.Bin? {
      QuietFree(e);
    } else {
      var (u, c) := Pass(e.op, e, [], []);
      PassKeeps(e.op, e, [], [], Valuation(map[], No));
      EliminateYnShrinks(u);
      if c == 0 { QuietFree(e); } else { EliminateDupsFree(EliminateYn(u)); }
    }
  }

  /* ---- and it removes nothing else ---- */

  /** No pair of operands would be joined, and no nested pass would change one. */
  ghost predicate AllQuiet(op: Op, t: Expr) {
    forall p, q :: Operand2(op, t, p, q) ==> PairQuiet(op, t, p, q)
  }

  ghost predicate PairQuiet(op: Op, t: Expr, p: Slot, q: Slot)
    requires Operand2(op, t, p, q)
  {
    Join(op, At(op, t, p), At(op, t, q)) == None && Inner(At(op, t, p)) == (At(op, t, p), 0)
  }

  lemma {:induction false} PassQuiet(op: Op, t: Expr, p: Slot, q: Slot)
    requires OnRun(op, t, p) && OnRun(op, t, q) && AllQuiet(op, t)
    ensures Pass(op, t, p, q) == (t, 0)
    decreases Forks(Run(op, At(op, t, p))) + Forks(Run(op, At(op, t, q)))
  {
    if IsOp(op, At(op, t, p)) {
      Extend(op, t, p, Left);
      Extend(op, t, p, Right);
      PassQuiet(op, t, p + [Left], q);
      PassQuiet(op, t, p + [Right], q);
    } else if IsOp(op, At(op, t, q)) {
      Extend(op, t, q, Left);
      Extend(op, t, q, Right);
      PassQuiet(op, t, p, q + [Left]);
      PassQuiet(op, t, p, q + [Right]);
    } else if p != q {
      assert PairQuiet(op, t, p, q);
      PassPair(op, t, p, q);
      PutSame(op, t, p);
    }
  }

  lemma {:induction false} PutSame(op: Op, t: Expr, p: Slot)
    requires OnRun(op, t, p)
    ensures Put(op, t, p, At(op, t, p)) == t
  {
    if p != [] { PutSame(op, if p[0] == Left then t.l else t.r, p[1..]); }
  }

  lemma {:induction false} FreeOperand(op: Op, e: Expr, x: Expr)
    requires FreeInside(op, e) && x in Operands(op, e)
    ensures DuplicateFree(x)
  {
    if IsOp(op, e) { FreeOperand(op, if x in Operands(op, e.l) then e.l else e.r, x); }
  }

  lemma {:induction false} FreeQuiet(e: Expr)
    requires DuplicateFree(e)
    ensures Inner(e) == (e, 0)
    decreases Size(e)
  {
    if e.Bin? {
      var op, os := e.op, Operands(e.op, e);
      assert FreeInside(op, e);
      forall p, q | Operand2(op, e, p, q) ensures PairQuiet(op, e, p, q) {
        PlacedAt(op, e, p);
        PlacedAt(op, e, q);
        PlacesApart(op, e, p, q);
        var x, y := At(op, e, p), At(op, e, q);
        assert Apart(op, x, y);
        JoinExactly(op, x, y);
        assert x in os;
        OperandSizes(op, e, x);
        FreeOperand(op, e, x);
        FreeQuiet(x);
      }
      PassQuiet(op, e, [], []);
    }
  }

  /** expr_eliminate_dups leaves an expression alone if and only if it has no duplicates. */
  lemma {:induction false} FixedExactly(e: Expr)
    ensures EliminateDups(e) == e <==> DuplicateFree(e)
  {
    EliminateDupsFree(e);
    if DuplicateFree(e) { FreeQuiet(e); }
  }
}
