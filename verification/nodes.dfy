/** Expression nodes in memory.  A pointer to a node is an index into the cells; the rewriters of
    scripts/config/expr.c change cells and pointers in place, which here is related to the expressions
    that the nodes stand for. */
module Nodes {
  import opened Tristate
  import opened Exprs

  /** struct expr, with pointers for its operands */
  datatype Cell =
    | SymCell(s: Symbol)
    | NotCell(x: nat)
    | BinCell(op: Op, l: nat, r: nat)
    | CmpCell(rel: Rel, a: Symbol, b: Symbol)

  /** The cells that make up the tree at p, if it stands for e */
  ghost function Ids(c: seq<Cell>, p: nat, e: Expr): (s: set<nat>)
    ensures p in s
    decreases e
  {
    match e
    case Sym(_) => {p}
    case Cmp(_, _, _) => {p}
    case Not(x) => {p} + if p < |c| && c[p].NotCell? then Ids(c, c[p].x, x) else {}
    case Bin(_, l, r) => {p} + if p < |c| && c[p].BinCell? then Ids(c, c[p].l, l) + Ids(c, c[p].r, r) else {}
  }

  /** The tree at p stands for e, and no cell occurs in it twice. */
  ghost predicate Tree(c: seq<Cell>, p: nat, e: Expr)
    decreases e
  {
    p < |c| &&
    match e
    case Sym(s) => c[p] == SymCell(s)
    case Cmp(rel, a, b) => c[p] == CmpCell(rel, a, b)
    case Not(x) => c[p].NotCell? && Tree(c, c[p].x, x) && p !in Ids(c, c[p].x, x)
    case Bin(op, l, r) =>
      && c[p].BinCell? && c[p].op == op && Tree(c, c[p].l, l) && Tree(c, c[p].r, r)
      && p !in Ids(c, c[p].l, l) && p !in Ids(c, c[p].r, r) && Ids(c, c[p].l, l) !! Ids(c, c[p].r, r)
  }

  lemma {:induction false} IdsBelow(c: seq<Cell>, p: nat, e: Expr)
    requires Tree(c, p, e)
    ensures forall i :: i in Ids(c, p, e) ==> i < |c|
    decreases e
  {
    match e
    case Not(x) => IdsBelow(c, c[p].x, x);
    case Bin(_, l, r) => IdsBelow(c, c[p].l, l); IdsBelow(c, c[p].r, r);
    case _ =>
  }

  /** All cells outside `ids` are what they were. */
  ghost predicate Kept(c: seq<Cell>, d: seq<Cell>, ids: set<nat>) {
    |c| <= |d| && forall i :: 0 <= i < |c| && i !in ids ==> d[i] == c[i]
  }

  lemma {:induction false} TreeFrame(c: seq<Cell>, d: seq<Cell>, p: nat, e: Expr, ids: set<nat>)
    requires Tree(c, p, e) && Kept(c, d, ids) && Ids(c, p, e) !! ids
    ensures Tree(d, p, e) && Ids(d, p, e) == Ids(c, p, e)
    decreases e
  {
    match e
    case Not(x) => TreeFrame(c, d, c[p].x, x, ids);
    case Bin(_, l, r) => TreeFrame(c, d, c[p].l, l, ids); TreeFrame(c, d, c[p].r, r, ids);
    case _ =>
  }

  /** The tree at p, standing for e, was turned into one at q that stands for f: it uses cells of the old
      tree and new ones, and all others are as before. */
  ghost predicate Rewrites(c: seq<Cell>, p: nat, e: Expr, d: seq<Cell>, q: nat, f: Expr) {
    && Tree(c, p, e) && Tree(d, q, f) && Kept(c, d, Ids(c, p, e))
    && forall i :: i in Ids(d, q, f) ==> i in Ids(c, p, e) || i >= |c|
  }

  lemma {:induction false} Unchanged(c: seq<Cell>, p: nat, e: Expr)
    requires Tree(c, p, e)
    ensures Rewrites(c, p, e, c, p, e)
  {
  }

  lemma {:induction false} Then(c: seq<Cell>, p: nat, e: Expr, d: seq<Cell>, q: nat, f: Expr, k: seq<Cell>, r: nat,
          g: Expr)
    requires Rewrites(c, p, e, d, q, f) && Rewrites(d, q, f, k, r, g)
    ensures Rewrites(c, p, e, k, r, g)
  {
  }

  /** A leaf written over the root */
  lemma {:induction false} LeafOver(c: seq<Cell>, p: nat, e: Expr, f: Expr, cell: Cell)
    requires Tree(c, p, e)
    requires (f.Sym? && cell == SymCell(f.s)) || (f.Cmp? && cell == CmpCell(f.rel, f.a, f.b))
    ensures Rewrites(c, p, e, c[p := cell], p, f)
  {
  }

  /** Down to an operand */
  lemma {:induction false} Operand(c: seq<Cell>, p: nat, e: Expr)
    requires Tree(c, p, e)
    ensures e.Not? ==> c[p].NotCell? && Rewrites(c, p, e, c, c[p].x, e.e)
    ensures e.Bin? ==> c[p].BinCell? && Rewrites(c, p, e, c, c[p].l, e.l) && Rewrites(c, p, e, c, c[p].r, e.r)
  {
  }

  /** The operand of a negation rewritten, and the pointer to it set */
  lemma {:induction false} UnderNot(c: seq<Cell>, p: nat, e: Expr, d: seq<Cell>, q: nat, f: Expr)
    requires Tree(c, p, e) && e.Not? && Rewrites(c, c[p].x, e.e, d, q, f)
    ensures d[p] == c[p] && Rewrites(c, p, e, d[p := NotCell(q)], p, Not(f))
  {
    TreeFrame(d, d[p := NotCell(q)], q, f, {p});
  }

  /** Both operands of an AND or OR rewritten, one after the other, and the pointers to them set */
  lemma {:induction false} UnderBin(c: seq<Cell>, p: nat, e: Expr, d: seq<Cell>, l: nat, f: Expr, k: seq<Cell>, r: nat,
          g: Expr, op: Op)
    requires Tree(c, p, e) && e.Bin?
    requires Rewrites(c, c[p].l, e.l, d, l, f) && Rewrites(d, c[p].r, e.r, k, r, g)
    ensures k[p] == c[p] && Rewrites(c, p, e, k[p := BinCell(op, l, r)], p, Bin(op, f, g))
  {
    TreeFrame(c, d, c[p].r, e.r, Ids(c, c[p].l, e.l));
    IdsBelow(c, c[p].r, e.r);
    IdsBelow(d, l, f);
    TreeFrame(d, k, l, f, Ids(d, c[p].r, e.r));
    var z := k[p := BinCell(op, l, r)];
    TreeFrame(k, z, l, f, {p});
    TreeFrame(k, z, r, g, {p});
  }

  /** The right operand as it is while the left one is being rewritten */
  lemma {:induction false} RightWaits(c: seq<Cell>, p: nat, e: Expr, d: seq<Cell>, l: nat, f: Expr)
    requires Tree(c, p, e) && e.Bin? && Rewrites(c, c[p].l, e.l, d, l, f)
    ensures d[p] == c[p] && Tree(d, c[p].r, e.r)
  {
    TreeFrame(c, d, c[p].r, e.r, Ids(c, c[p].l, e.l));
  }

  /** *e = *operand: the root becomes a copy of one of its operands, whose own cell is given up. */
  lemma {:induction false} CopyUp(c: seq<Cell>, p: nat, e: Expr, q: nat, f: Expr)
    requires Tree(c, p, e) && e.Bin? && ((q == c[p].l && f == e.l) || (q == c[p].r && f == e.r))
    ensures q < |c| && Rewrites(c, p, e, c[p := c[q]], p, f)
  {
    var d := c[p := c[q]];
    match f
    case Not(x) => TreeFrame(c, d, c[q].x, x, {p});
    case Bin(_, l, r) => TreeFrame(c, d, c[q].l, l, {p}); TreeFrame(c, d, c[q].r, r, {p});
    case _ =>
  }

  /* ---- new trees ---- */

  /** The tree at q stands for f and is made of new cells; no old cell has changed. */
  ghost predicate NewTree(c: seq<Cell>, d: seq<Cell>, q: nat, f: Expr) {
    Tree(d, q, f) && Kept(c, d, {}) && forall i :: i in Ids(d, q, f) ==> i >= |c|
  }

  lemma {:induction false} NewLeaf(c: seq<Cell>, f: Expr, cell: Cell)
    requires (f.Sym? && cell == SymCell(f.s)) || (f.Cmp? && cell == CmpCell(f.rel, f.a, f.b))
    ensures NewTree(c, c + [cell], |c|, f)
  {
  }

  lemma {:induction false} NewNot(c: seq<Cell>, d: seq<Cell>, q: nat, f: Expr)
    requires NewTree(c, d, q, f)
    ensures NewTree(c, d + [NotCell(q)], |d|, Not(f))
  {
    IdsBelow(d, q, f);
    TreeFrame(d, d + [NotCell(q)], q, f, {});
  }

  lemma {:induction false} NewBin(c: seq<Cell>, d: seq<Cell>, l: nat, f: Expr, k: seq<Cell>, r: nat, g: Expr, op: Op)
    requires NewTree(c, d, l, f) && NewTree(d, k, r, g)
    ensures NewTree(c, k + [BinCell(op, l, r)], |k|, Bin(op, f, g))
  {
    IdsBelow(d, l, f);
    IdsBelow(k, r, g);
    TreeFrame(d, k, l, f, {});
    TreeFrame(k, k + [BinCell(op, l, r)], l, f, {});
    TreeFrame(k, k + [BinCell(op, l, r)], r, g, {});
  }

  /** Old trees are not disturbed by new ones. */
  lemma {:induction false} StillTree(c: seq<Cell>, d: seq<Cell>, p: nat, e: Expr)
    requires Tree(c, p, e) && Kept(c, d, {})
    ensures Tree(d, p, e) && Ids(d, p, e) == Ids(c, p, e)
  {
    TreeFrame(c, d, p, e, {});
  }

  /** A new tree apart from an old one */
  lemma {:induction false} ApartFromNew(c: seq<Cell>, p: nat, e: Expr, d: seq<Cell>, q: nat, f: Expr)
    requires Tree(c, p, e) && NewTree(c, d, q, f)
    ensures Tree(d, p, e) && Ids(d, p, e) !! Ids(d, q, f)
  {
    IdsBelow(c, p, e);
    StillTree(c, d, p, e);
  }

  /** A root cell written over two trees */
  lemma {:induction false} Rooted(k: seq<Cell>, p: nat, l: nat, el: Expr, r: nat, er: Expr, op: Op)
    requires p < |k| && Tree(k, l, el) && Tree(k, r, er) && Ids(k, l, el) !! Ids(k, r, er)
    requires p !in Ids(k, l, el) && p !in Ids(k, r, er)
    ensures Tree(k[p := BinCell(op, l, r)], p, Bin(op, el, er))
    ensures Ids(k[p := BinCell(op, l, r)], p, Bin(op, el, er)) == {p} + Ids(k, l, el) + Ids(k, r, er)
  {
    TreeFrame(k, k[p := BinCell(op, l, r)], l, el, {p});
    TreeFrame(k, k[p := BinCell(op, l, r)], r, er, {p});
  }

  /** A negation cell written over the cell x, or a new one, above the tree at l */
  lemma {:induction false} Negated1(d: seq<Cell>, x: nat, l: nat, f: Expr)
    requires x < |d| && d[x] == NotCell(l) && Tree(d, l, f) && x !in Ids(d, l, f)
    ensures Tree(d, x, Not(f)) && Ids(d, x, Not(f)) == {x} + Ids(d, l, f)
  {
  }

  lemma {:induction false} DeepOperands(c: seq<Cell>, p: nat, e: Expr)
    requires Tree(c, p, e) && e.Not? && e.e.Bin?
    ensures c[p].NotCell? && c[p].x < |c| && c[c[p].x].BinCell?
    ensures var x := c[p].x; var l, r, el, er := c[x].l, c[x].r, e.e.l, e.e.r;
      && Tree(c, l, el) && Tree(c, r, er) && Ids(c, l, el) !! Ids(c, r, er)
      && p != x && p !in Ids(c, l, el) + Ids(c, r, er) && x !in Ids(c, l, el) + Ids(c, r, er)
      && Ids(c, p, e) == {p, x} + Ids(c, l, el) + Ids(c, r, er)
  {
    assert Ids(c, c[p].x, e.e) == {c[p].x} + Ids(c, c[c[p].x].l, e.e.l) + Ids(c, c[c[p].x].r, e.e.r);
  }

  /** The operand of a negation that is an AND or OR: the negation moves down to both operands, to a new
      node on the right and to the old operator node on the left. */
  lemma {:induction false} DeMorganInPlace(c: seq<Cell>, p: nat, e: Expr, op: Op)
    requires Tree(c, p, e) && e.Not? && e.e.Bin?
    ensures c[p].NotCell? && c[p].x < |c| && c[c[p].x].BinCell?
    ensures Rewrites(c, p, e,
                     (c + [NotCell(c[c[p].x].r)])[c[p].x := NotCell(c[c[p].x].l)][p := BinCell(op, c[p].x, |c|)],
                     p, Bin(op, Not(e.e.l), Not(e.e.r)))
  {
    DeepOperands(c, p, e);
    var x := c[p].x;
    var l, r, el, er := c[x].l, c[x].r, e.e.l, e.e.r;
    var k := (c + [NotCell(r)])[x := NotCell(l)];
    TreeFrame(c, k, l, el, {x});
    TreeFrame(c, k, r, er, {x});
    IdsBelow(c, l, el);
    IdsBelow(c, r, er);
    Negated1(k, x, l, el);
    Negated1(k, |c|, r, er);
    Rooted(k, p, x, Not(el), |c|, Not(er), op);
  }

  /* ---- two trees at once ---- */

  /** Two trees apart from each other, at p and q, were turned into two at p' and q'. */
  ghost predicate Rewrites2(c: seq<Cell>, p: nat, e: Expr, q: nat, f: Expr,
                            d: seq<Cell>, p': nat, e': Expr, q': nat, f': Expr) {
    && Tree(c, p, e) && Tree(c, q, f) && Ids(c, p, e) !! Ids(c, q, f)
    && Tree(d, p', e') && Tree(d, q', f') && Ids(d, p', e') !! Ids(d, q', f')
    && Kept(c, d, Ids(c, p, e) + Ids(c, q, f))
    && (forall i :: i in Ids(d, p', e') ==> i in Ids(c, p, e) || i >= |c|)
    && (forall i :: i in Ids(d, q', f') ==> i in Ids(c, q, f) || i >= |c|)
  }

  lemma {:induction false} Swap(c: seq<Cell>, p: nat, e: Expr, q: nat, f: Expr, d: seq<Cell>, p': nat, e': Expr,
          q': nat, f': Expr)
    requires Rewrites2(c, p, e, q, f, d, p', e', q', f')
    ensures Rewrites2(c, q, f, p, e, d, q', f', p', e')
  {
  }

  lemma {:induction false} Then2(c: seq<Cell>, p: nat, e: Expr, q: nat, f: Expr, d: seq<Cell>, p': nat, e': Expr,
          q': nat, f': Expr,
              k: seq<Cell>, p'': nat, e'': Expr, q'': nat, f'': Expr)
    requires Rewrites2(c, p, e, q, f, d, p', e', q', f') && Rewrites2(d, p', e', q', f', k, p'', e'', q'', f'')
    ensures Rewrites2(c, p, e, q, f, k, p'', e'', q'', f'')
  {
  }

  /** Work on the first of two trees */
  lemma {:induction false} FirstOfTwo(c: seq<Cell>, p: nat, e: Expr, q: nat, f: Expr, d: seq<Cell>, p': nat, e': Expr)
    requires Rewrites(c, p, e, d, p', e') && Tree(c, q, f) && Ids(c, p, e) !! Ids(c, q, f)
    ensures Rewrites2(c, p, e, q, f, d, p', e', q, f)
  {
    IdsBelow(c, q, f);
    TreeFrame(c, d, q, f, Ids(c, p, e));
  }

  /** The other operand as it is while one operand and another tree are being worked on */
  lemma {:induction false} OperandWaits(c: seq<Cell>, p: nat, e: Expr, q: nat, f: Expr, d: seq<Cell>, l: nat, el: Expr,
          q': nat, f': Expr)
    requires Tree(c, p, e) && e.Bin? && Tree(c, q, f) && Ids(c, p, e) !! Ids(c, q, f)
    requires Rewrites2(c, c[p].l, e.l, q, f, d, l, el, q', f')
    ensures d[p] == c[p] && Tree(d, c[p].r, e.r) && Ids(d, c[p].r, e.r) == Ids(c, c[p].r, e.r)
    ensures Ids(d, c[p].r, e.r) !! Ids(d, q', f') && Ids(d, c[p].r, e.r) !! Ids(d, l, el)
  {
    TreeFrame(c, d, c[p].r, e.r, Ids(c, c[p].l, e.l) + Ids(c, q, f));
    IdsBelow(c, c[p].r, e.r);
  }

  /** Both operands worked on together with another tree, one after the other */
  lemma {:induction false} RunOfTwo(c: seq<Cell>, p: nat, e: Expr, q: nat, f: Expr, d: seq<Cell>, l: nat, el: Expr,
          q': nat, f': Expr,
                 k: seq<Cell>, r: nat, er: Expr, q'': nat, f'': Expr, op: Op)
    requires Tree(c, p, e) && e.Bin? && Tree(c, q, f) && Ids(c, p, e) !! Ids(c, q, f)
    requires Rewrites2(c, c[p].l, e.l, q, f, d, l, el, q', f')
    requires Rewrites2(d, c[p].r, e.r, q', f', k, r, er, q'', f'')
    ensures p < |k| && Rewrites2(c, p, e, q, f, k[p := BinCell(op, l, r)], p, Bin(op, el, er), q'', f'')
  {
    OperandWaits(c, p, e, q, f, d, l, el, q', f');
    DoneWaits(d, l, el, c[p].r, e.r, q', f', k, r, er, q'', f'');
    RunApart(c, p, e, q, f, d, l, el, q', f', k, r, er, q'', f'');
    RunRooted(k, p, l, el, r, er, q'', f'', op);
    TwoDone(c, p, e, q, f, k, BinCell(op, l, r), Bin(op, el, er), Ids(k, l, el) + Ids(k, r, er), q'', f'');
  }

  /** The operand that is done while the other one is being worked on */
  lemma {:induction false} DoneWaits(d: seq<Cell>, l: nat, el: Expr, r0: nat, e0: Expr, q: nat, f: Expr, k: seq<Cell>,
          r: nat, er: Expr,
                  q': nat, f': Expr)
    requires Tree(d, l, el) && Ids(d, l, el) !! Ids(d, r0, e0) && Ids(d, l, el) !! Ids(d, q, f)
    requires Rewrites2(d, r0, e0, q, f, k, r, er, q', f')
    ensures Tree(k, l, el) && Ids(k, l, el) == Ids(d, l, el) && forall i :: i in Ids(d, l, el) ==> i < |d|
  {
    IdsBelow(d, l, el);
    TreeFrame(d, k, l, el, Ids(d, r0, e0) + Ids(d, q, f));
  }

  /** Both operands under their root, and another tree beside them */
  lemma {:induction false} RunRooted(k: seq<Cell>, p: nat, l: nat, el: Expr, r: nat, er: Expr, q: nat, f: Expr, op: Op)
    requires p < |k| && Tree(k, l, el) && Tree(k, r, er) && Tree(k, q, f) && Ids(k, l, el) !! Ids(k, r, er)
    requires p !in Ids(k, l, el) && p !in Ids(k, r, er) && p !in Ids(k, q, f)
    ensures var z := k[p := BinCell(op, l, r)];
      && Tree(z, p, Bin(op, el, er)) && Ids(z, p, Bin(op, el, er)) == {p} + (Ids(k, l, el) + Ids(k, r, er))
      && Tree(z, q, f) && Ids(z, q, f) == Ids(k, q, f)
  {
    Rooted(k, p, l, el, r, er, op);
    TreeFrame(k, k[p := BinCell(op, l, r)], q, f, {p});
  }

  lemma {:induction false} TwoDone(c: seq<Cell>, p: nat, e: Expr, q: nat, f: Expr, k: seq<Cell>, cell: Cell, g: Expr,
          ids: set<nat>,
                q': nat, f': Expr)
    requires Tree(c, p, e) && Tree(c, q, f) && Ids(c, p, e) !! Ids(c, q, f) && p < |k|
    requires Kept(c, k, Ids(c, p, e) + Ids(c, q, f))
    requires var z := k[p := cell]; Tree(z, p, g) && Tree(z, q', f') && Ids(z, p, g) == {p} + ids
    requires Ids(k[p := cell], q', f') !! {p} + ids
    requires forall i :: i in ids ==> i in Ids(c, p, e) || i >= |c|
    requires forall i :: i in Ids(k[p := cell], q', f') ==> i in Ids(c, q, f) || i >= |c|
    ensures Rewrites2(c, p, e, q, f, k[p := cell], p, g, q', f')
  {
  }

  /** The three trees such a run leaves are apart from each other and from the root. */
  lemma {:induction false} RunApart(c: seq<Cell>, p: nat, e: Expr, q: nat, f: Expr, d: seq<Cell>, l: nat, el: Expr,
          q': nat, f': Expr,
                 k: seq<Cell>, r: nat, er: Expr, q'': nat, f'': Expr)
    requires Tree(c, p, e) && e.Bin? && Tree(c, q, f) && Ids(c, p, e) !! Ids(c, q, f)
    requires Rewrites2(c, c[p].l, e.l, q, f, d, l, el, q', f') && Tree(d, c[p].r, e.r)
    requires Rewrites2(d, c[p].r, e.r, q', f', k, r, er, q'', f'')
    requires Ids(d, c[p].r, e.r) == Ids(c, c[p].r, e.r) && Ids(k, l, el) == Ids(d, l, el)
    requires Ids(d, c[p].r, e.r) !! Ids(d, l, el) && forall i :: i in Ids(d, l, el) ==> i < |d|
    ensures p !in Ids(k, l, el) && p !in Ids(k, r, er) && p !in Ids(k, q'', f'')
    ensures Ids(k, l, el) !! Ids(k, r, er) && Ids(k, l, el) !! Ids(k, q'', f'')
    ensures Kept(c, k, Ids(c, p, e) + Ids(c, q, f))
    ensures forall i :: i in Ids(k, l, el) || i in Ids(k, r, er) ==> i in Ids(c, p, e) || i >= |c|
    ensures forall i :: i in Ids(k, q'', f'') ==> i in Ids(c, q, f) || i >= |c|
  {
  }

  /** Cells may have been added. */
  lemma {:induction false} Grown2(c: seq<Cell>, p: nat, e: Expr, q: nat, f: Expr, d: seq<Cell>)
    requires Tree(c, p, e) && Tree(c, q, f) && Ids(c, p, e) !! Ids(c, q, f) && Kept(c, d, {})
    ensures Rewrites2(c, p, e, q, f, d, p, e, q, f)
  {
    StillTree(c, d, p, e);
    StillTree(c, d, q, f);
  }

  /** Both trees replaced by new ones */
  lemma {:induction false} Replaced2(c: seq<Cell>, p: nat, e: Expr, q: nat, f: Expr, d: seq<Cell>, p': nat, e': Expr,
                  k: seq<Cell>, q': nat, f': Expr)
    requires Tree(c, p, e) && Tree(c, q, f) && Ids(c, p, e) !! Ids(c, q, f)
    requires NewTree(c, d, p', e') && NewTree(d, k, q', f')
    ensures Rewrites2(c, p, e, q, f, k, p', e', q', f')
  {
    ApartFromNew(d, p', e', k, q', f');
    StillTree(d, k, p', e');
  }

  lemma {:induction false} NewAfter(c: seq<Cell>, d: seq<Cell>, k: seq<Cell>, q: nat, f: Expr)
    requires Kept(c, d, {}) && NewTree(d, k, q, f)
    ensures NewTree(c, k, q, f)
  {
  }

  /** Work on copies changes no old cell. */
  lemma {:induction false} CopiesOnly(c: seq<Cell>, d: seq<Cell>, k: seq<Cell>, p: nat, e: Expr, q: nat, f: Expr,
                   z: seq<Cell>, p': nat, e': Expr, q': nat, f': Expr)
    requires NewTree(c, d, p, e) && NewTree(d, k, q, f) && Rewrites2(k, p, e, q, f, z, p', e', q', f')
    ensures Kept(c, z, {})
  {
    StillTree(d, k, p, e);
  }

  lemma {:induction false} GrownTree(c: seq<Cell>, p: nat, e: Expr, d: seq<Cell>)
    requires Tree(c, p, e) && Kept(c, d, {})
    ensures Rewrites(c, p, e, d, p, e)
  {
    StillTree(c, d, p, e);
  }
}
