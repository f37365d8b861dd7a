/** The `struct expr **` arguments of expr_eliminate_dups1 (scripts/config/expr.c:535-569): fields of nodes
    along the run of one operator, or the variable that holds the whole tree. */
module Slots {
  import opened Tristate
  import opened Exprs
  import opened Equality
  import opened Dups
  import opened Nodes

  datatype Ref = Var(p: nat) | Field(n: nat, side: Side)

  predicate Readable(c: seq<Cell>, a: Ref) { a.Field? ==> a.n < |c| && c[a.n].BinCell? }

  /** *ep */
  function Load(c: seq<Cell>, a: Ref): nat
    requires Readable(c, a)
  {
    match a
    case Var(p) => p
    case Field(n, Left) => c[n].l
    case Field(n, Right) => c[n].r
  }

  /** *ep = x, for a field */
  function Store(c: seq<Cell>, a: Ref, x: nat): seq<Cell>
    requires Readable(c, a) && a.Field?
  {
    c[a.n := if a.side == Left then BinCell(c[a.n].op, x, c[a.n].r) else BinCell(c[a.n].op, c[a.n].l, x)]
  }

  function Child(c: seq<Cell>, r: nat, s: Side): nat
    requires r < |c| && c[r].BinCell?
  {
    if s == Left then c[r].l else c[r].r
  }

  function Part(t: Expr, s: Side): Expr
    requires t.Bin?
  {
    if s == Left then t.l else t.r
  }

  /** The node that the slot p of the tree at r holds */
  ghost function NodeAt(c: seq<Cell>, r: nat, p: Slot): nat
    decreases |p|
  {
    if p == [] || r >= |c| || !c[r].BinCell? then r else NodeAt(c, Child(c, r, p[0]), p[1..])
  }

  /** The argument a is the slot p of the tree at r. */
  ghost predicate RefOf(c: seq<Cell>, r: nat, p: Slot, a: Ref)
    decreases |p|
  {
    if p == [] then Readable(c, a) && Load(c, a) == r
    else
      && r < |c| && c[r].BinCell?
      && if |p| == 1 then a == Field(r, p[0]) else RefOf(c, Child(c, r, p[0]), p[1..], a)
  }

  lemma {:induction false} RefLoads(c: seq<Cell>, r: nat, p: Slot, a: Ref)
    requires RefOf(c, r, p, a)
    ensures Readable(c, a) && Load(c, a) == NodeAt(c, r, p)
    decreases |p|
  {
    if |p| == 1 {
      assert p[1..] == [];
    } else if |p| > 1 {
      RefLoads(c, Child(c, r, p[0]), p[1..], a);
    }
  }

  /** A slot of the operator node in a slot */
  lemma {:induction false} RefExtend(c: seq<Cell>, r: nat, t: Expr, op: Op, p: Slot, s: Side)
    requires Tree(c, r, t) && OnRun(op, t, p) && IsOp(op, At(op, t, p))
    ensures NodeAt(c, r, p) < |c| && RefOf(c, r, p + [s], Field(NodeAt(c, r, p), s))
    decreases |p|
  {
    if p != [] {
      assert (p + [s])[1..] == p[1..] + [s] && (p + [s])[0] == p[0];
      RefExtend(c, Child(c, r, p[0]), Part(t, p[0]), op, p[1..], s);
    } else {
      assert p + [s] == [s];
    }
  }

  lemma {:induction false} SubTree(c: seq<Cell>, r: nat, t: Expr, op: Op, p: Slot)
    requires Tree(c, r, t) && OnRun(op, t, p)
    ensures Tree(c, NodeAt(c, r, p), At(op, t, p))
    ensures forall i :: i in Ids(c, NodeAt(c, r, p), At(op, t, p)) ==> i in Ids(c, r, t)
    decreases |p|
  {
    if p != [] { SubTree(c, Child(c, r, p[0]), Part(t, p[0]), op, p[1..]); }
  }

  /** The operator nodes of the run at the top of the tree at r are where they were. */
  ghost predicate SameRun(c: seq<Cell>, d: seq<Cell>, r: nat, t: Expr, op: Op)
    decreases t
  {
    IsOp(op, t) ==>
      && r < |c| && r < |d| && c[r].BinCell? && d[r].BinCell?
      && (IsOp(op, t.l) ==> d[r].l == c[r].l && SameRun(c, d, c[r].l, t.l, op))
      && (IsOp(op, t.r) ==> d[r].r == c[r].r && SameRun(c, d, c[r].r, t.r, op))
  }

  lemma {:induction false} SameRunRef(c: seq<Cell>, d: seq<Cell>, r: nat, t: Expr, op: Op, p: Slot, a: Ref)
    requires SameRun(c, d, r, t, op) && OnRun(op, t, p) && RefOf(c, r, p, a) && p != []
    ensures RefOf(d, r, p, a)
    decreases |p|
  {
    if |p| > 1 {
      assert OnRun(op, Part(t, p[0]), p[1..]) && IsOp(op, Part(t, p[0]));
      SameRunRef(c, d, Child(c, r, p[0]), Part(t, p[0]), op, p[1..], a);
    }
  }

  lemma {:induction false} SameRunThen(c: seq<Cell>, d: seq<Cell>, k: seq<Cell>, r: nat, t: Expr, u: Expr, op: Op)
    requires SameRun(c, d, r, t, op) && SameRun(d, k, r, u, op) && Run(op, t) == Run(op, u)
    ensures SameRun(c, k, r, t, op)
    decreases t
  {
    if IsOp(op, t) {
      if IsOp(op, t.l) { SameRunThen(c, d, k, c[r].l, t.l, u.l, op); }
      if IsOp(op, t.r) { SameRunThen(c, d, k, c[r].r, t.r, u.r, op); }
    }
  }

  lemma {:induction false} SameRunRefl(c: seq<Cell>, d: seq<Cell>, r: nat, t: Expr, op: Op, ids: set<nat>)
    requires Tree(c, r, t) && Kept(c, d, ids) && Ids(c, r, t) !! ids
    ensures SameRun(c, d, r, t, op)
    decreases t
  {
    if IsOp(op, t) {
      SameRunRefl(c, d, c[r].l, t.l, op, ids);
      SameRunRefl(c, d, c[r].r, t.r, op, ids);
    }
  }

  /** One operand rewritten, with the pointer to it unchanged */
  lemma {:induction false} UnderSide(c: seq<Cell>, d: seq<Cell>, r: nat, t: Expr, s: Side, f: Expr)
    requires Tree(c, r, t) && t.Bin? && Rewrites(c, Child(c, r, s), Part(t, s), d, Child(c, r, s), f)
    ensures d[r] == c[r]
    ensures Rewrites(c, r, t, d, r, if s == Left then Bin(t.op, f, t.r) else Bin(t.op, t.l, f))
    ensures Tree(d, Child(c, r, if s == Left then Right else Left), Part(t, if s == Left then Right else Left))
  {
    var o := if s == Left then Right else Left;
    TreeFrame(c, d, Child(c, r, o), Part(t, o), Ids(c, Child(c, r, s), Part(t, s)));
    IdsBelow(c, Child(c, r, o), Part(t, o));
  }

  /** Work below an operand slot, seen from the whole tree */
  lemma {:induction false} Within(c: seq<Cell>, d: seq<Cell>, r: nat, t: Expr, op: Op, p: Slot, f: Expr)
    requires Tree(c, r, t) && OnRun(op, t, p) && !IsOp(op, At(op, t, p)) && !IsOp(op, f)
    requires Rewrites(c, NodeAt(c, r, p), At(op, t, p), d, NodeAt(c, r, p), f)
    ensures Rewrites(c, r, t, d, r, Put(op, t, p, f)) && SameRun(c, d, r, t, op)
    decreases |p|
  {
    if p != [] {
      var s := p[0];
      var o := if s == Left then Right else Left;
      Within(c, d, Child(c, r, s), Part(t, s), op, p[1..], f);
      UnderSide(c, d, r, t, s, Put(op, Part(t, s), p[1..], f));
      SameRunRefl(c, d, Child(c, r, o), Part(t, o), op, Ids(c, Child(c, r, s), Part(t, s)));
    }
  }

  /** An operand slot gets another tree, made of cells apart from those of the whole tree. */
  lemma {:induction false} Stored(c: seq<Cell>, r: nat, t: Expr, op: Op, p: Slot, a: Ref, x: nat, f: Expr)
    requires Tree(c, r, t) && OnRun(op, t, p) && p != [] && RefOf(c, r, p, a)
    requires !IsOp(op, At(op, t, p)) && !IsOp(op, f) && Tree(c, x, f) && Ids(c, x, f) !! Ids(c, r, t)
    ensures Readable(c, a) && a.Field?
    ensures var d := Store(c, a, x);
      && Tree(d, r, Put(op, t, p, f)) && Kept(c, d, Ids(c, r, t)) && SameRun(c, d, r, t, op)
      && (forall i :: i in Ids(d, r, Put(op, t, p, f)) ==> i in Ids(c, r, t) || i in Ids(c, x, f))
    decreases |p|
  {
    var s := p[0];
    var o := if s == Left then Right else Left;
    if |p| == 1 {
      assert p[1..] == [];
      var d := Store(c, a, x);
      TreeFrame(c, d, x, f, {r});
      TreeFrame(c, d, Child(c, r, o), Part(t, o), {r});
      SameRunRefl(c, d, Child(c, r, o), Part(t, o), op, {r});
    } else {
      Stored(c, Child(c, r, s), Part(t, s), op, p[1..], a, x, f);
      var d := Store(c, a, x);
      TreeFrame(c, d, Child(c, r, o), Part(t, o), Ids(c, Child(c, r, s), Part(t, s)));
      SameRunRefl(c, d, Child(c, r, o), Part(t, o), op, Ids(c, Child(c, r, s), Part(t, s)));
    }
  }

  /** The argument a is the slot p of the tree at r; the variable or field that holds the whole tree is not
      part of it. */
  ghost predicate SlotOf(c: seq<Cell>, r: nat, t: Expr, p: Slot, a: Ref) {
    RefOf(c, r, p, a) && (p == [] && a.Field? ==> a.n !in Ids(c, r, t))
  }

  lemma {:induction false} SlotKept(c: seq<Cell>, d: seq<Cell>, r: nat, t: Expr, u: Expr, op: Op, p: Slot, a: Ref)
    requires Rewrites(c, r, t, d, r, u) && SameRun(c, d, r, t, op) && OnRun(op, t, p) && SlotOf(c, r, t, p, a)
    ensures SlotOf(d, r, u, p, a)
  {
    if p != [] { SameRunRef(c, d, r, t, op, p, a); }
  }

  lemma {:induction false} SlotExtend(c: seq<Cell>, r: nat, t: Expr, op: Op, p: Slot, a: Ref, s: Side)
    requires Tree(c, r, t) && OnRun(op, t, p) && IsOp(op, At(op, t, p)) && SlotOf(c, r, t, p, a)
    ensures Readable(c, a) && Load(c, a) < |c| && SlotOf(c, r, t, p + [s], Field(Load(c, a), s))
  {
    RefLoads(c, r, p, a);
    RefExtend(c, r, t, op, p, s);
  }

  /** A slot of the run is not part of what it holds. */
  lemma {:induction false} SlotOutside(c: seq<Cell>, r: nat, t: Expr, op: Op, p: Slot, a: Ref)
    requires Tree(c, r, t) && OnRun(op, t, p) && RefOf(c, r, p, a) && p != []
    ensures a.Field? && a.n in Ids(c, r, t) && a.n !in Ids(c, NodeAt(c, r, p), At(op, t, p))
    decreases |p|
  {
    if |p| == 1 {
      assert p[1..] == [];
    } else {
      SlotOutside(c, Child(c, r, p[0]), Part(t, p[0]), op, p[1..], a);
    }
  }

  /** What an argument points to, seen from the tree */
  lemma {:induction false} SlotTree(c: seq<Cell>, r: nat, t: Expr, op: Op, p: Slot, a: Ref)
    requires Tree(c, r, t) && OnRun(op, t, p) && SlotOf(c, r, t, p, a)
    ensures Readable(c, a) && Load(c, a) == NodeAt(c, r, p) && Tree(c, Load(c, a), At(op, t, p))
    ensures SlotOf(c, Load(c, a), At(op, t, p), [], a)
  {
    RefLoads(c, r, p, a);
    SubTree(c, r, t, op, p);
    if p != [] { SlotOutside(c, r, t, op, p, a); }
  }

  /** Two operand slots hold the same node only if they are the same slot. */
  lemma {:induction false} SlotsDiffer(c: seq<Cell>, r: nat, t: Expr, op: Op, p: Slot, q: Slot)
    requires Tree(c, r, t) && OnRun(op, t, p) && OnRun(op, t, q) && !IsOp(op, At(op, t, p)) && !IsOp(op, At(op, t, q))
    ensures NodeAt(c, r, p) == NodeAt(c, r, q) <==> p == q
    decreases |p|
  {
    if p != [] && q != [] {
      assert p == [p[0]] + p[1..] && q == [q[0]] + q[1..];
      SubTree(c, Child(c, r, p[0]), Part(t, p[0]), op, p[1..]);
      SubTree(c, Child(c, r, q[0]), Part(t, q[0]), op, q[1..]);
      if p[0] == q[0] { SlotsDiffer(c, Child(c, r, p[0]), Part(t, p[0]), op, p[1..], q[1..]); }
    }
  }

  /** Adding cells moves no slot. */
  lemma {:induction false} SlotGrown(c: seq<Cell>, d: seq<Cell>, r: nat, t: Expr, op: Op, p: Slot, a: Ref)
    requires Tree(c, r, t) && Kept(c, d, {}) && OnRun(op, t, p) && SlotOf(c, r, t, p, a)
    ensures Rewrites(c, r, t, d, r, t) && SameRun(c, d, r, t, op) && SlotOf(d, r, t, p, a)
  {
    GrownTree(c, r, t, d);
    SameRunRefl(c, d, r, t, op, {});
    SlotKept(c, d, r, t, t, op, p, a);
  }
}
