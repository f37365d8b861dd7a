/** The rewriters of scripts/config/expr.c as they work on nodes, in place. */
module Rewriters {
  import opened Tristate
  import opened Exprs
  import opened Transforms
  import opened Equality
  import opened Dups
  import opened Compares
  import opened Nodes
  import opened Slots

  class Arena {
    var cells: seq<Cell>
    var transCount: nat

    constructor ()
      ensures cells == [] && transCount == 0
    {
      cells, transCount := [], 0;
    }

    method Alloc(cell: Cell) returns (p: nat)
      modifies this`cells
      ensures p == |old(cells)| && cells == old(cells) + [cell]
    {
      p := |cells|;
      cells := cells + [cell];
    }

    /** expr_trans_bool */
    method TransBoolAt(p: nat, ghost e: Expr)
      requires Tree(cells, p, e)
      modifies this`cells
      ensures Rewrites(old(cells), p, e, cells, p, TransBool(e))
      decreases e
    {
      ghost var c := cells;
      match cells[p]
      case NotCell(x) =>
        TransBoolAt(x, e.e);
        UnderNot(c, p, e, cells, x, TransBool(e.e));
        assert cells[p := NotCell(x)] == cells;
      case BinCell(op, l, r) =>
        TransBoolAt(l, e.l);
        RightWaits(c, p, e, cells, l, TransBool(e.l));
        ghost var d := cells;
        TransBoolAt(r, e.r);
        UnderBin(c, p, e, d, l, TransBool(e.l), cells, r, TransBool(e.r), op);
        assert cells[p := BinCell(op, l, r)] == cells;
      case CmpCell(rel, a, b) =>
        if rel.Neq? && TypeOf(a).Tristate? && b == SYM_NO {
          LeafOver(cells, p, e, Sym(a), SymCell(a));
          cells := cells[p := SymCell(a)];
        }
      case SymCell(_) =>
    }

    /** expr_eliminate_yn */
    method EliminateYnAt(p: nat, ghost e: Expr)
      requires Tree(cells, p, e)
      modifies this`cells
      ensures Rewrites(old(cells), p, e, cells, p, EliminateYn(e))
      decreases e
    {
      if cells[p].BinCell? {
        ghost var c := cells;
        var op, l, r := cells[p].op, cells[p].l, cells[p].r;
        EliminateYnAt(l, e.l);
        RightWaits(c, p, e, cells, l, EliminateYn(e.l));
        ghost var d := cells;
        EliminateYnAt(r, e.r);
        ghost var f := Bin(op, EliminateYn(e.l), EliminateYn(e.r));
        UnderBin(c, p, e, d, l, f.l, cells, r, f.r, op);
        assert cells[p := BinCell(op, l, r)] == cells;
        d := cells;
        FoldAt(p, f);
        Then(c, p, e, d, p, f, cells, p, Fold(op, f.l, f.r));
      }
    }

    /** The last part of expr_eliminate_yn: a constant among the operands of the node p */
    method FoldAt(p: nat, ghost f: Expr)
      requires Tree(cells, p, f) && f.Bin?
      modifies this`cells
      ensures Rewrites(old(cells), p, f, cells, p, Fold(f.op, f.l, f.r))
    {
      var op, l, r := cells[p].op, cells[p].l, cells[p].r;
      LeafAt(cells, l, f.l);
      LeafAt(cells, r, f.r);
      var neutral, absorbing := SymCell(OfTri(Neutral(op))), SymCell(OfTri(Absorbing(op)));
      if cells[l] == absorbing {
        LeafOver(cells, p, f, AbsorbingSym(op), absorbing);
        cells := cells[p := absorbing];
      } else if cells[l] == neutral {
        CopyUp(cells, p, f, r, f.r);
        cells := cells[p := cells[r]];
      } else if cells[r] == absorbing {
        LeafOver(cells, p, f, AbsorbingSym(op), absorbing);
        cells := cells[p := absorbing];
      } else if cells[r] == neutral {
        CopyUp(cells, p, f, l, f.l);
        cells := cells[p := cells[l]];
      } else {
        Unchanged(cells, p, f);
      }
    }

    /* ---- expr_transform ---- */

    /** The test of a boolean symbol */
    method TransformCmpAt(p: nat, ghost e: Expr)
      requires Tree(cells, p, e) && e.Cmp?
      modifies this`cells
      ensures Rewrites(old(cells), p, e, cells, p, TransformCmp(e.rel, e.a, e.b))
    {
      var rel, a, b := cells[p].rel, cells[p].a, cells[p].b;
      if TypeOf(a).Boolean? && ((rel.Eq? && b == SYM_NO) || (rel.Neq? && b == SYM_YES)) {
        ghost var c := cells;
        var n := Alloc(SymCell(a));
        cells := cells[p := NotCell(n)];
        assert Tree(cells, n, Sym(a)) && Ids(cells, n, Sym(a)) == {n};
      } else if TypeOf(a).Boolean? && ((rel.Eq? && b == SYM_YES) || (rel.Neq? && b == SYM_NO)) {
        LeafOver(cells, p, e, Sym(a), SymCell(a));
        cells := cells[p := SymCell(a)];
      } else if TypeOf(a).Boolean? && (rel.Eq? || rel.Neq?) && b == SYM_MOD {
        var s := if rel.Eq? then SYM_NO else SYM_YES;
        LeafOver(cells, p, e, Sym(s), SymCell(s));
        cells := cells[p := SymCell(s)];
      }
    }

    method TransformAt(p: nat, ghost e: Expr) returns (q: nat)
      requires Tree(cells, p, e)
      modifies this`cells
      ensures Rewrites(old(cells), p, e, cells, q, Transform(e))
      decreases Weight(e), 1
    {
      q := p;
      ghost var c := cells;
      match cells[p]
      case SymCell(_) =>
      case CmpCell(_, _, _) => TransformCmpAt(p, e);
      case BinCell(op, l, r) =>
        WeightPositive(e.l);
        WeightPositive(e.r);
        var l' := TransformAt(l, e.l);
        RightWaits(c, p, e, cells, l', Transform(e.l));
        ghost var d := cells;
        var r' := TransformAt(r, e.r);
        UnderBin(c, p, e, d, l', Transform(e.l), cells, r', Transform(e.r), op);
        cells := cells[p := BinCell(op, l', r')];
      case NotCell(x) =>
        WeightPositive(e.e);
        var y := TransformAt(x, e.e);
        UnderNot(c, p, e, cells, y, Transform(e.e));
        cells := cells[p := NotCell(y)];
        ghost var d := cells;
        q := TransformNotAt(p, e.e);
        Then(c, p, e, d, p, Not(Transform(e.e)), cells, q, Transform(e));
    }

    /** A negation whose operand has been transformed already */
    method TransformNotAt(p: nat, ghost x: Expr) returns (q: nat)
      requires Tree(cells, p, Not(Transform(x)))
      modifies this`cells
      ensures Rewrites(old(cells), p, Not(Transform(x)), cells, q, Transform(Not(x)))
      decreases Weight(Not(x)), 0
    {
      ghost var c, e := cells, Not(Transform(x));
      Operand(c, p, e);
      WeightPositive(Transform(x));
      var y := cells[p].x;
      match cells[y]
      case NotCell(z) =>
        Operand(c, y, e.e);
        Then(c, p, e, c, y, e.e, c, z, e.e.e);
        WeightPositive(e.e.e);
        q := TransformAt(z, e.e.e);
        Then(c, p, e, c, z, e.e.e, cells, q, Transform(e.e.e));
      case CmpCell(rel, a, b) =>
        q := y;
        LeafOver(c, y, e.e, Cmp(Opposite(rel), a, b), CmpCell(Opposite(rel), a, b));
        cells := cells[y := CmpCell(Opposite(rel), a, b)];
        Then(c, p, e, c, y, e.e, cells, q, Cmp(Opposite(rel), a, b));
      case BinCell(op, l, r) =>
        DeMorganInPlace(c, p, e, Dual(op));
        DeMorganLighter(op, e.e.l, e.e.r);
        var n := Alloc(NotCell(r));
        cells := cells[y := NotCell(l)];
        cells := cells[p := BinCell(Dual(op), y, n)];
        ghost var d, g := cells, Bin(Dual(op), Not(e.e.l), Not(e.e.r));
        q := TransformAt(p, g);
        Then(c, p, e, d, p, g, cells, q, Transform(g));
      case SymCell(s) =>
        if s == SYM_YES || s == SYM_MOD || s == SYM_NO {
          q := y;
          var t := if s == SYM_YES then SYM_NO else if s == SYM_NO then SYM_YES else SYM_MOD;
          LeafOver(c, y, e.e, Sym(t), SymCell(t));
          cells := cells[y := SymCell(t)];
          Then(c, p, e, c, y, e.e, cells, q, Sym(t));
        } else {
          q := p;
        }
    }

    /* ---- expr_copy, expr_eq, expr_eliminate_eq ---- */

    method CopyAt(p: nat, ghost e: Expr) returns (q: nat)
      requires Tree(cells, p, e)
      modifies this`cells
      ensures NewTree(old(cells), cells, q, e)
      decreases e
    {
      ghost var c := cells;
      match cells[p]
      case SymCell(s) =>
        NewLeaf(c, e, SymCell(s));
        q := Alloc(SymCell(s));
      case CmpCell(rel, a, b) =>
        NewLeaf(c, e, CmpCell(rel, a, b));
        q := Alloc(CmpCell(rel, a, b));
      case NotCell(x) =>
        var y := CopyAt(x, e.e);
        NewNot(c, cells, y, e.e);
        q := Alloc(NotCell(y));
      case BinCell(op, l, r) =>
        var l' := CopyAt(l, e.l);
        ghost var d := cells;
        StillTree(c, d, r, e.r);
        var r' := CopyAt(r, e.r);
        NewBin(c, d, l', e.l, cells, r', e.r, op);
        q := Alloc(BinCell(op, l', r'));
    }

    /** expr_eq: AND and OR are compared by cancelling operands in copies; trans_count is put back. */
    method EqualAt(p: nat, q: nat, ghost e: Expr, ghost f: Expr) returns (b: bool)
      requires Tree(cells, p, e) && Tree(cells, q, f)
      modifies this
      ensures b == Equal(e, f) && Kept(old(cells), cells, {}) && transCount == old(transCount)
      decreases Size(e) + Size(f), 2
    {
      var x, y := cells[p], cells[q];
      match x
      case SymCell(s) => b := x == y;
      case CmpCell(_, _, _) => b := x == y;
      case NotCell(_) => if y.NotCell? { b := EqualAt(x.x, y.x, e.e, f.e); } else { b := false; }
      case BinCell(op, _, _) =>
        if !y.BinCell? || y.op != op { return false; }
        b := EqualRunsAt(p, q, e, f);
    }

    /** Two ANDs, or two ORs */
    method EqualRunsAt(p: nat, q: nat, ghost e: Expr, ghost f: Expr) returns (b: bool)
      requires Tree(cells, p, e) && Tree(cells, q, f) && e.Bin? && IsOp(e.op, f)
      modifies this
      ensures b == Equal(e, f) && Kept(old(cells), cells, {}) && transCount == old(transCount)
      decreases Size(e) + Size(f), 1, 2
    {
      ghost var c := cells;
      var p1 := CopyAt(p, e);
      ghost var d := cells;
      StillTree(c, d, q, f);
      var q1 := CopyAt(q, f);
      ghost var k := cells;
      ApartFromNew(d, p1, e, k, q1, f);
      var count := transCount;
      var p2, q2 := EliminateEqAt(p1, q1, e, f);
      ghost var x := EliminateEq(e, f);
      CopiesOnly(c, d, k, p1, e, q1, f, cells, p2, x.0, q2, x.1);
      LeafAt(cells, p2, x.0);
      LeafAt(cells, q2, x.1);
      b := cells[p2].SymCell? && cells[p2] == cells[q2];
      transCount := count;
    }

    /** expr_eliminate_eq */
    method EliminateEqAt(p: nat, q: nat, ghost e: Expr, ghost f: Expr) returns (p': nat, q': nat)
      requires Tree(cells, p, e) && Tree(cells, q, f) && Ids(cells, p, e) !! Ids(cells, q, f)
      modifies this
      ensures Rewrites2(old(cells), p, e, q, f, cells, p', EliminateEq(e, f).0, q', EliminateEq(e, f).1)
      ensures transCount >= old(transCount)
      decreases Size(e) + Size(f), 1, 1
    {
      ghost var c, a, b := cells, e, f;
      p', q' := p, q;
      if cells[p].BinCell? {
        p', q' := CancelAt(cells[p].op, p, q, e, f);
        a, b := Cancel(e.op, e, f).0, Cancel(e.op, e, f).1;
      }
      if cells[q'].BinCell? && !(cells[p'].BinCell? && cells[p'].op == cells[q'].op) {
        p', q' := CancelAgainAt(c, p, q, e, f, p', q', a, b);
        a, b := Cancel(b.op, a, b).0, Cancel(b.op, a, b).1;
      }
      EliminateYnOfTwo(c, p, q, e, f, p', q', a, b);
    }

    /** The second switch in expr_eliminate_eq, on the operator of the second expression */
    method CancelAgainAt(ghost c: seq<Cell>, ghost p: nat, ghost q: nat, ghost e: Expr, ghost f: Expr,
                         p1: nat, q1: nat, ghost a: Expr, ghost b: Expr) returns (p': nat, q': nat)
      requires Rewrites2(c, p, e, q, f, cells, p1, a, q1, b) && b.Bin?
      modifies this
      ensures Rewrites2(c, p, e, q, f, cells, p', Cancel(b.op, a, b).0, q', Cancel(b.op, a, b).1)
      ensures transCount >= old(transCount)
      decreases Size(a) + Size(b), 1, 0
    {
      ghost var d, x := cells, Cancel(b.op, a, b);
      p', q' := CancelAt(cells[q1].op, p1, q1, a, b);
      Then2(c, p, e, q, f, d, p1, a, q1, b, cells, p', x.0, q', x.1);
    }

    /** The last two statements of expr_eliminate_eq */
    method EliminateYnOfTwo(ghost c: seq<Cell>, ghost p: nat, ghost q: nat, ghost e: Expr, ghost f: Expr,
                            p': nat, q': nat, ghost a: Expr, ghost b: Expr)
      requires Rewrites2(c, p, e, q, f, cells, p', a, q', b)
      modifies this`cells
      ensures Rewrites2(c, p, e, q, f, cells, p', EliminateYn(a), q', EliminateYn(b))
    {
      ghost var d := cells;
      EliminateYnAt(p', a);
      FirstOfTwo(d, p', a, q', b, cells, p', EliminateYn(a));
      Then2(c, p, e, q, f, d, p', a, q', b, cells, p', EliminateYn(a), q', b);
      d := cells;
      EliminateYnAt(q', b);
      FirstOfTwo(d, q', b, p', EliminateYn(a), cells, q', EliminateYn(b));
      Swap(d, q', b, p', EliminateYn(a), cells, q', EliminateYn(b), p', EliminateYn(a));
      Then2(c, p, e, q, f, d, p', EliminateYn(a), q', b, cells, p', EliminateYn(a), q', EliminateYn(b));
    }

    /** __expr_eliminate_eq */
    method CancelAt(op: Op, p: nat, q: nat, ghost e: Expr, ghost f: Expr) returns (p': nat, q': nat)
      requires Tree(cells, p, e) && Tree(cells, q, f) && Ids(cells, p, e) !! Ids(cells, q, f)
      modifies this
      ensures Rewrites2(old(cells), p, e, q, f, cells, p', Cancel(op, e, f).0, q', Cancel(op, e, f).1)
      ensures transCount >= old(transCount)
      decreases Size(e) + Size(f), if IsOp(op, e) || IsOp(op, f) then 0 else 3, 1
    {
      if cells[p].BinCell? && cells[p].op == op {
        p', q' := CancelRunAt(op, p, q, e, f);
      } else if cells[q].BinCell? && cells[q].op == op {
        p', q' := CancelOtherRunAt(op, p, q, e, f);
      } else {
        p', q' := CancelPairAt(op, p, q, e, f);
      }
    }

    /** The operands of the first tree, one by one */
    method CancelRunAt(op: Op, p: nat, q: nat, ghost e: Expr, ghost f: Expr) returns (p': nat, q': nat)
      requires Tree(cells, p, e) && Tree(cells, q, f) && Ids(cells, p, e) !! Ids(cells, q, f) && IsOp(op, e)
      modifies this
      ensures Rewrites2(old(cells), p, e, q, f, cells, p', Cancel(op, e, f).0, q', Cancel(op, e, f).1)
      ensures transCount >= old(transCount)
      decreases Size(e) + Size(f), 0, 0
    {
      ghost var c := cells;
      var l, r := cells[p].l, cells[p].r;
      var l', q1 := CancelAt(op, l, q, e.l, f);
      ghost var d, x := cells, Cancel(op, e.l, f);
      OperandWaits(c, p, e, q, f, d, l', x.0, q1, x.1);
      var r', q2 := CancelAt(op, r, q1, e.r, x.1);
      ghost var y := Cancel(op, e.r, x.1);
      RunOfTwo(c, p, e, q, f, d, l', x.0, q1, x.1, cells, r', y.0, q2, y.1, op);
      cells := cells[p := BinCell(op, l', r')];
      CancelRun(op, e, f, x.0, x.1, y.0, y.1);
      p', q' := p, q2;
    }

    /** The operands of the second tree, one by one */
    method CancelOtherRunAt(op: Op, p: nat, q: nat, ghost e: Expr, ghost f: Expr) returns (p': nat, q': nat)
      requires Tree(cells, p, e) && Tree(cells, q, f) && Ids(cells, p, e) !! Ids(cells, q, f) && !IsOp(op, e)
          && IsOp(op, f)
      modifies this
      ensures Rewrites2(old(cells), p, e, q, f, cells, p', Cancel(op, e, f).0, q', Cancel(op, e, f).1)
      ensures transCount >= old(transCount)
      decreases Size(e) + Size(f), 0, 0
    {
      ghost var c := cells;
      var l, r := cells[q].l, cells[q].r;
      var p1, l' := CancelAt(op, p, l, e, f.l);
      ghost var d, x := cells, Cancel(op, e, f.l);
      Swap(c, p, e, l, f.l, d, p1, x.0, l', x.1);
      OperandWaits(c, q, f, p, e, d, l', x.1, p1, x.0);
      var p2, r' := CancelAt(op, p1, r, x.0, f.r);
      ghost var y := Cancel(op, x.0, f.r);
      Swap(d, p1, x.0, r, f.r, cells, p2, y.0, r', y.1);
      RunOfTwo(c, q, f, p, e, d, l', x.1, p1, x.0, cells, r', y.1, p2, y.0, op);
      cells := cells[q := BinCell(op, l', r')];
      Swap(c, q, f, p, e, cells, q, Bin(op, x.1, y.1), p2, y.0);
      CancelOtherRun(op, e, f, x.0, x.1, y.0, y.1);
      p', q' := p2, q;
    }

    /** Two operands */
    method CancelPairAt(op: Op, p: nat, q: nat, ghost e: Expr, ghost f: Expr) returns (p': nat, q': nat)
      requires Tree(cells, p, e) && Tree(cells, q, f) && Ids(cells, p, e) !! Ids(cells, q, f) && !IsOp(op, e)
          && !IsOp(op, f)
      modifies this
      ensures Rewrites2(old(cells), p, e, q, f, cells, p', Cancel(op, e, f).0, q', Cancel(op, e, f).1)
      ensures transCount >= old(transCount)
      decreases Size(e) + Size(f), 3, 0
    {
      ghost var c := cells;
      p', q' := p, q;
      Grown2(c, p, e, q, f, c);
      if cells[p].SymCell? && cells[p] == cells[q] && (cells[p].s == SYM_YES || cells[p].s == SYM_NO) { return; }
      var same := EqualAt(p, q, e, f);
      Grown2(c, p, e, q, f, cells);
      if same {
        transCount := transCount + 1;
        p', q' := NeutralPair(op, c, p, q, e, f);
      }
    }

    /** Both operands become neutral constants. */
    method NeutralPair(op: Op, ghost c: seq<Cell>, ghost p: nat, ghost q: nat, ghost e: Expr, ghost f: Expr)
        returns (p': nat, q': nat)
      requires Tree(c, p, e) && Tree(c, q, f) && Ids(c, p, e) !! Ids(c, q, f) && Kept(c, cells, {})
      modifies this`cells
      ensures Rewrites2(c, p, e, q, f, cells, p', NeutralSym(op), q', NeutralSym(op))
    {
      var cell := SymCell(OfTri(Neutral(op)));
      NewLeaf(cells, NeutralSym(op), cell);
      NewAfter(c, cells, cells + [cell], |cells|, NeutralSym(op));
      p' := Alloc(cell);
      ghost var d := cells;
      NewLeaf(cells, NeutralSym(op), cell);
      q' := Alloc(cell);
      Replaced2(c, p, e, q, f, d, p', NeutralSym(op), cells, q', NeutralSym(op));
    }

    /* ---- expr_join_or, expr_join_and ---- */

    /** The expression at p, if it is a leaf or a negated leaf: all that the joiners look at */
    function Shallow(p: nat): (v: OExpr)
      requires p < |cells|
      reads this
    {
      match cells[p]
      case SymCell(s) => Some(Sym(s))
      case CmpCell(rel, a, b) => Some(Cmp(rel, a, b))
      case BinCell(_, _, _) => None
      case NotCell(x) =>
        if x < |cells| && cells[x].SymCell? then Some(Not(Sym(cells[x].s)))
        else if x < |cells| && cells[x].CmpCell? then Some(Not(Cmp(cells[x].rel, cells[x].a, cells[x].b)))
        else None
    }

    lemma {:induction false} ShallowIs(p: nat, e: Expr)
      requires Tree(cells, p, e)
      ensures if e.Sym? || e.Cmp? || (e.Not? && (e.e.Sym? || e.e.Cmp?)) then Shallow(p) == Some(e)
          else Shallow(p) == None
    {
    }

    method JoinAt(op: Op, p: nat, q: nat, ghost e: Expr, ghost f: Expr) returns (j: Option<nat>)
      requires Tree(cells, p, e) && Tree(cells, q, f)
      modifies this
      ensures Kept(old(cells), cells, {}) && transCount == old(transCount)
      ensures j.Some? <==> Join(op, e, f).Some?
      ensures j.Some? ==> NewTree(old(cells), cells, j.value, Join(op, e, f).value)
    {
      ghost var c := cells;
      var same := EqualAt(p, q, e, f);
      StillTree(c, cells, p, e);
      StillTree(c, cells, q, f);
      if same {
        ghost var d := cells;
        var n := CopyAt(p, e);
        NewAfter(c, d, cells, n, e);
        return Some(n);
      }
      ShallowIs(p, e);
      ShallowIs(q, f);
      JoinTestsShape(op, e, f);
      var x, y := Shallow(p), Shallow(q);
      if x.None? || y.None? { return None; }
      var g := JoinTests(op, x.value, y.value);
      if g.None? { return None; }
      var cell := if g.value.Sym? then SymCell(g.value.s) else CmpCell(g.value.rel, g.value.a, g.value.b);
      NewLeaf(cells, g.value, cell);
      NewAfter(c, cells, cells + [cell], |cells|, g.value);
      var n := Alloc(cell);
      return Some(n);
    }

    /* ---- expr_eliminate_dups1 ---- */

    /** The arguments a and b are slots p and q of the run of `op` at the top of the tree at r. */
    ghost predicate AtSlots(op: Op, a: Ref, b: Ref, r: nat, t: Expr, p: Slot, q: Slot)
      reads this
    {
      && Tree(cells, r, t) && OnRun(op, t, p) && OnRun(op, t, q)
      && SlotOf(cells, r, t, p, a) && SlotOf(cells, r, t, q, b)
    }

    /** expr_eliminate_dups1(op, ep1, ep2) */
    method PassAt(op: Op, a: Ref, b: Ref, ghost r: nat, ghost t: Expr, ghost p: Slot, ghost q: Slot)
      requires AtSlots(op, a, b, r, t, p, q)
      modifies this
      ensures Rewrites(old(cells), r, t, cells, r, Pass(op, t, p, q).0) && SameRun(old(cells), cells, r, t, op)
      ensures transCount == old(transCount) + Pass(op, t, p, q).1
      decreases Size(t), Forks(Run(op, At(op, t, p))) + Forks(Run(op, At(op, t, q))), 1
    {
      SlotTree(cells, r, t, op, p, a);
      SlotTree(cells, r, t, op, q, b);
      var e1, e2 := Load(cells, a), Load(cells, b);
      if cells[e1].BinCell? && cells[e1].op == op {
        PassFirst(op, a, b, r, t, p, q);
      } else if cells[e2].BinCell? && cells[e2].op == op {
        PassSecond(op, a, b, r, t, p, q);
      } else if e1 == e2 {
        SlotsDiffer(cells, r, t, op, p, q);
        SameRunRefl(cells, cells, r, t, op, {});
      } else {
        SlotsDiffer(cells, r, t, op, p, q);
        PassOperands(op, a, b, r, t, p, q);
      }
    }

    /** The first argument is an operator node: its operands, one by one */
    method PassFirst(op: Op, a: Ref, b: Ref, ghost r: nat, ghost t: Expr, ghost p: Slot, ghost q: Slot)
      requires AtSlots(op, a, b, r, t, p, q) && IsOp(op, At(op, t, p))
      modifies this
      ensures Rewrites(old(cells), r, t, cells, r, Pass(op, t, p, q).0) && SameRun(old(cells), cells, r, t, op)
      ensures transCount == old(transCount) + Pass(op, t, p, q).1
      decreases Size(t), Forks(Run(op, At(op, t, p))) + Forks(Run(op, At(op, t, q))), 0
    {
      ghost var c := cells;
      Extend(op, t, p, Left);
      Extend(op, t, p, Right);
      SlotExtend(c, r, t, op, p, a, Left);
      PassAt(op, Field(Load(cells, a), Left), b, r, t, p + [Left], q);
      ghost var d, u := cells, Pass(op, t, p + [Left], q).0;
      SameRunSlots(op, t, u, p + [Right]);
      SameRunSlots(op, t, u, q);
      SameRunSlots(op, t, u, p);
      SlotKept(c, d, r, t, u, op, p, a);
      SlotKept(c, d, r, t, u, op, q, b);
      SlotExtend(d, r, u, op, p, a, Right);
      PassAt(op, Field(Load(cells, a), Right), b, r, u, p + [Right], q);
      ghost var w := Pass(op, u, p + [Right], q).0;
      Then(c, r, t, d, r, u, cells, r, w);
      SameRunThen(c, d, cells, r, t, u, op);
    }

    /** The second argument is */
    method PassSecond(op: Op, a: Ref, b: Ref, ghost r: nat, ghost t: Expr, ghost p: Slot, ghost q: Slot)
      requires AtSlots(op, a, b, r, t, p, q) && !IsOp(op, At(op, t, p)) && IsOp(op, At(op, t, q))
      modifies this
      ensures Rewrites(old(cells), r, t, cells, r, Pass(op, t, p, q).0) && SameRun(old(cells), cells, r, t, op)
      ensures transCount == old(transCount) + Pass(op, t, p, q).1
      decreases Size(t), Forks(Run(op, At(op, t, p))) + Forks(Run(op, At(op, t, q))), 0
    {
      ghost var c := cells;
      Extend(op, t, q, Left);
      Extend(op, t, q, Right);
      SlotExtend(c, r, t, op, q, b, Left);
      PassAt(op, a, Field(Load(cells, b), Left), r, t, p, q + [Left]);
      ghost var d, u := cells, Pass(op, t, p, q + [Left]).0;
      SameRunSlots(op, t, u, q + [Right]);
      SameRunSlots(op, t, u, p);
      SameRunSlots(op, t, u, q);
      SlotKept(c, d, r, t, u, op, p, a);
      SlotKept(c, d, r, t, u, op, q, b);
      SlotExtend(d, r, u, op, q, b, Right);
      PassAt(op, a, Field(Load(cells, b), Right), r, u, p, q + [Right]);
      ghost var w := Pass(op, u, p, q + [Right]).0;
      Then(c, r, t, d, r, u, cells, r, w);
      SameRunThen(c, d, cells, r, t, u, op);
    }

    /** Two different operands: a pass over the first, if it is an AND or OR itself, and then the join */
    method PassOperands(op: Op, a: Ref, b: Ref, ghost r: nat, ghost t: Expr, ghost p: Slot, ghost q: Slot)
      requires AtSlots(op, a, b, r, t, p, q) && Operand2(op, t, p, q)
      modifies this
      ensures Rewrites(old(cells), r, t, cells, r, Pass(op, t, p, q).0) && SameRun(old(cells), cells, r, t, op)
      ensures transCount == old(transCount) + Pass(op, t, p, q).1
      decreases Size(t), 0, 0
    {
      ghost var c, e := cells, At(op, t, p);
      PutElsewhere(op, t, p, q, e);
      PutAt(op, t, p, e);
      SlotTree(c, r, t, op, p, a);
      var e1 := Load(cells, a);
      if cells[e1].BinCell? { PassAt(cells[e1].op, a, a, e1, e, [], []); }
      ghost var d, x := cells, Inner(e);
      ghost var u := Put(op, t, p, x.0);
      Within(c, d, r, t, op, p, x.0);
      PassTwoSteps(op, t, p, q);
      SlotKept(c, d, r, t, u, op, p, a);
      SlotKept(c, d, r, t, u, op, q, b);
      JoinOperands(op, a, b, r, u, p, q);
      Then(c, r, t, d, r, u, cells, r, JoinStep(op, u, p, q).0);
      SameRunThen(c, d, cells, r, t, u, op);
    }

    /** The first of two operands becomes the neutral constant, the second one their join. */
    method JoinOperands(op: Op, a: Ref, b: Ref, ghost r: nat, ghost t: Expr, ghost p: Slot, ghost q: Slot)
      requires AtSlots(op, a, b, r, t, p, q) && Operand2(op, t, p, q)
      modifies this
      ensures Rewrites(old(cells), r, t, cells, r, JoinStep(op, t, p, q).0) && SameRun(old(cells), cells, r, t, op)
      ensures transCount == old(transCount) + JoinStep(op, t, p, q).1
    {
      ghost var c := cells;
      SlotTree(c, r, t, op, p, a);
      SlotTree(c, r, t, op, q, b);
      var tmp := JoinAt(op, Load(cells, a), Load(cells, b), At(op, t, p), At(op, t, q));
      SlotGrown(c, cells, r, t, op, p, a);
      SlotGrown(c, cells, r, t, op, q, b);
      if tmp.Some? {
        JoinShape(op, At(op, t, p), At(op, t, q));
        StoreBoth(op, a, b, tmp.value, c, r, t, p, q, Join(op, At(op, t, p), At(op, t, q)).value);
        transCount := transCount + 1;
      }
    }

    /** *ep1 = a new neutral constant */
    method StoreNeutral(op: Op, a: Ref, ghost r: nat, ghost t: Expr, ghost p: Slot)
      requires Tree(cells, r, t) && OnRun(op, t, p) && p != [] && SlotOf(cells, r, t, p, a) && !IsOp(op, At(op, t, p))
      modifies this`cells
      ensures Rewrites(old(cells), r, t, cells, r, Put(op, t, p, NeutralSym(op)))
          && SameRun(old(cells), cells, r, t, op)
    {
      ghost var d := cells;
      var x := Alloc(SymCell(OfTri(Neutral(op))));
      ghost var k := cells;
      SlotGrown(d, k, r, t, op, p, a);
      StillTree(d, k, r, t);
      IdsBelow(d, r, t);
      Stored(k, r, t, op, p, a, x, NeutralSym(op));
      cells := Store(cells, a, x);
      SameRunThen(d, k, cells, r, t, t, op);
    }

    /** *ep2 = tmp */
    method StoreTree(op: Op, b: Ref, j: nat, ghost r: nat, ghost t: Expr, ghost q: Slot, ghost g: Expr)
      requires Tree(cells, r, t) && OnRun(op, t, q) && q != [] && SlotOf(cells, r, t, q, b) && !IsOp(op, At(op, t, q))
      requires Tree(cells, j, g) && Ids(cells, j, g) !! Ids(cells, r, t) && !IsOp(op, g)
      modifies this`cells
      ensures Tree(cells, r, Put(op, t, q, g)) && Kept(old(cells), cells, Ids(old(cells), r, t))
      ensures forall i :: i in Ids(cells, r, Put(op, t, q, g)) ==>
                i in Ids(old(cells), r, t) || i in Ids(old(cells), j, g)
      ensures SameRun(old(cells), cells, r, t, op)
    {
      Stored(cells, r, t, op, q, b, j, g);
      cells := Store(cells, b, j);
    }

    method StoreBoth(op: Op, a: Ref, b: Ref, j: nat, ghost c: seq<Cell>, ghost r: nat, ghost t: Expr, ghost p: Slot,
                     ghost q: Slot, ghost g: Expr)
      requires AtSlots(op, a, b, r, t, p, q) && Operand2(op, t, p, q) && Tree(c, r, t) && SameRun(c, cells, r, t, op)
      requires NewTree(c, cells, j, g) && !IsOp(op, g)
      modifies this`cells
      ensures OnRun(op, Put(op, t, p, NeutralSym(op)), q)
      ensures Rewrites(c, r, t, cells, r, Put(op, Put(op, t, p, NeutralSym(op)), q, g)) && SameRun(c, cells, r, t, op)
    {
      ghost var d, n := cells, Put(op, t, p, NeutralSym(op));
      PutElsewhere(op, t, p, q, NeutralSym(op));
      PutAt(op, t, p, NeutralSym(op));
      PutRun(op, t, p, NeutralSym(op));
      StoreNeutral(op, a, r, t, p);
      ghost var m := cells;
      SlotKept(d, m, r, t, n, op, q, b);
      ApartFromNew(c, r, t, d, j, g);
      StillTree(c, d, r, t);
      IdsBelow(d, j, g);
      TreeFrame(d, m, j, g, Ids(d, r, t));
      StoreTree(op, b, j, r, n, q, g);
      SameRunThen(d, m, cells, r, t, n, op);
      SameRunThen(c, d, cells, r, t, t, op);
    }

    /* ---- expr_eliminate_dups ---- */

    method EliminateDupsAt(p: nat, ghost e: Expr)
      requires Tree(cells, p, e)
      modifies this
      ensures Rewrites(old(cells), p, e, cells, p, EliminateDups(e)) && transCount == old(transCount)
    {
      ghost var c, cur := cells, e;
      var oldcount := transCount;
      Unchanged(cells, p, e);
      var go := true;
      while go
        invariant Rewrites(c, p, e, cells, p, cur)
        invariant EliminateDups(e) == if go then EliminateDups(cur) else cur
        decreases go, Size(cur)
      {
        transCount := 0;
        ghost var d, u := cells, Inner(cur);
        if cells[p].BinCell? {
          PassAt(cells[p].op, Var(p), Var(p), p, cur, [], []);
          Then(c, p, e, d, p, cur, cells, p, u.0);
          PassKeeps(cur.op, cur, [], [], Valuation(map[], No));
        }
        if transCount == 0 {
          go := false;
        } else {
          d := cells;
          EliminateYnAt(p, u.0);
          Then(c, p, e, d, p, u.0, cells, p, EliminateYn(u.0));
          EliminateYnShrinks(u.0);
        }
        cur := if go then EliminateYn(u.0) else u.0;
      }
      transCount := oldcount;
    }
  }

  lemma {:induction false} LeafAt(c: seq<Cell>, p: nat, e: Expr)
    requires Tree(c, p, e)
    ensures p < |c| && (c[p].SymCell? <==> e.Sym?) && (e.Sym? ==> c[p].s == e.s)
  {
  }
}
