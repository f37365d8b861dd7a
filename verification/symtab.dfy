/** The memoising evaluator of scripts/config/symbol.c: sym_calc_value and what it calls, updating the
    symbols in place, proved to compute the denotation of module Symbols in whatever order it is asked. */
module SymTabs {
  import opened Tristate
  import opened Exprs
  import opened Symbols
  import opened SymbolProperties

  /** The mutable part of `struct symbol`. */
  datatype Cell = Cell(valid: bool, write: bool, curr: Value, visible: Tri, dir: Tri, rev: Tri, user: User)

  /** What evaluation leaves alone from one sym_clear_all_valid to the next: the table, a ranking of it,
      the user's values as they were then, the values the symbols should get, and the symbols a writer
      has printed and so taken SYMBOL_WRITE from. */
  datatype Epoch = Epoch(tab: Table, rank: seq<nat>, base: seq<User>, den: Valuation, printed: set<nat>)

  ghost predicate Static(x: Epoch) {
    && WellFormed(x.tab) && Acyclic(x.tab, x.rank) && PicksMembers(x.tab, x.base)
    && Solves(x.tab, x.base, x.den)
  }

  predicate Valued(d: Decl) { !d.typ.Unknown? && !d.typ.Other? }

  /** Nothing but its own evaluation writes to this symbol: it is in no choice still to be valued. */
  ghost predicate Decided(x: Epoch, a: seq<Cell>, id: nat)
    requires |a| == |x.tab.decls| && id < |a|
  {
    var r := x.tab.decls[id].role;
    r.Member? && r.of < |a| ==> a[r.of].valid
  }

  /** What a valid symbol holds. */
  ghost predicate Done(x: Epoch, a: seq<Cell>, id: nat)
    requires Static(x) && |a| == |x.tab.decls| && id < |a|
  {
    var d, c := x.tab.decls[id], a[id];
    && c.curr == x.den.vals[id]
    && Decided(x, a, id)
    && (Valued(d) ==> c.visible == Visible(d, x.den) && c.dir == DirDep(d, x.den) && c.rev == RevDep(d, x.den))
    && (Valued(d) && d.role.Plain? ==> c.write == (Written(d, x.den) && id !in x.printed))
    && (d.role.Choice? ==> c.user == Remembered(x.tab, x.base, id, x.den))
  }

  /** A choice may have dropped its user value, once valued; otherwise user values stay.  Fields that are
      never computed keep their initial values. */
  ghost predicate UserKept(x: Epoch, a: seq<Cell>, id: nat)
    requires Static(x) && |a| == |x.tab.decls| && id < |a|
  {
    var c := a[id];
    && (c.user == x.base[id] || (c.valid && x.tab.decls[id].role.Choice? && c.user == x.base[id].(has := false)))
    && (x.tab.decls[id].role.Member? ==> c.dir == No && c.rev == No)
    && (!Valued(x.tab.decls[id]) ==> !c.write)
  }

  /** Every valid symbol of rank below k holds its denotation. */
  ghost predicate Inv(x: Epoch, k: nat, a: seq<Cell>) {
    && Static(x) && |a| == |x.tab.decls|
    && (forall id: nat :: id in x.printed ==> id < |a| && a[id].valid)
    && (forall id: nat :: id < |a| ==> UserKept(x, a, id))
    && (forall id: nat :: id < |a| && a[id].valid && x.rank[id] < k ==> Done(x, a, id))
  }

  /** Evaluation at rank k leaves the symbols of rank k and above, which may be half computed, alone;
      below, it only adds values.  A choice also writes to its members, but not once it is valid. */
  ghost predicate Frame(x: Epoch, k: nat, a: seq<Cell>, b: seq<Cell>) {
    && |a| == |b| == |x.rank| == |x.tab.decls|
    && (forall id: nat :: id < |a| && a[id].valid ==> b[id].valid)
    && (forall id: nat :: id < |a| && (x.rank[id] >= k || a[id].valid) ==> Untouched(x, a, b, id))
  }

  ghost predicate Untouched(x: Epoch, a: seq<Cell>, b: seq<Cell>, id: nat)
    requires |a| == |b| == |x.tab.decls| && id < |a|
  {
    && b[id] == a[id].(visible := b[id].visible, write := b[id].write)
    && (Decided(x, a, id) ==> b[id] == a[id])
  }

  lemma {:induction false} FrameReflexive(x: Epoch, k: nat, a: seq<Cell>)
    requires Static(x) && |a| == |x.tab.decls|
    ensures Frame(x, k, a, a)
  {
  }

  lemma {:induction false} FrameTransitive(x: Epoch, k: nat, a: seq<Cell>, b: seq<Cell>, c: seq<Cell>)
    requires Frame(x, k, a, b) && Frame(x, k, b, c)
    ensures Frame(x, k, a, c)
  {
    forall id: nat | id < |a| && (x.rank[id] >= k || a[id].valid) ensures Untouched(x, a, c, id) {
      assert Untouched(x, a, b, id) && Untouched(x, b, c, id);
    }
  }

  /** A symbol that may be asked for its value at rank k: lower, or valid already with value env. */
  ghost predicate Ready(x: Epoch, s: Symbol, k: nat, env: Valuation, a: seq<Cell>)
    requires Static(x) && |a| == |x.tab.decls|
  {
    s.Conf? ==>
      && InTable(x.tab, s) && s.id in env.vals
      && (if x.rank[s.id] < k then env.vals[s.id] == x.den.vals[s.id]
          else a[s.id].valid && a[s.id].curr == env.vals[s.id])
  }

  ghost predicate AllReady(x: Epoch, xs: set<Symbol>, k: nat, env: Valuation, a: seq<Cell>)
    requires Static(x) && |a| == |x.tab.decls|
  {
    env.modules == x.tab.modules && forall s :: s in xs ==> Ready(x, s, k, env, a)
  }

  predicate AllValid(xs: set<Symbol>, a: seq<Cell>) {
    forall s :: s in xs && s.Conf? ==> s.id < |a| && a[s.id].valid
  }

  lemma {:induction false} ReadyKept(x: Epoch, xs: set<Symbol>, k: nat, env: Valuation, a: seq<Cell>, b: seq<Cell>)
    requires Static(x) && Frame(x, k, a, b)
    ensures AllReady(x, xs, k, env, a) ==> AllReady(x, xs, k, env, b)
    ensures AllValid(xs, a) ==> AllValid(xs, b)
  {
    if AllReady(x, xs, k, env, a) {
      forall s | s in xs ensures Ready(x, s, k, env, b) {
        assert Ready(x, s, k, env, a);
        if s.Conf? && x.rank[s.id] >= k { assert Untouched(x, a, b, s.id); }
      }
    }
  }

  /* ---- storing the cached fields of a symbol that is being computed ---- */

  function VisibilitySyms(d: Decl): set<Symbol> {
    PromptSyms(d.props) + (if d.role.Member? then {} else OSyms(d.dirDep) + OSyms(d.revDep))
  }

  function Stored(a: seq<Cell>, s: nat, visible: Tri, dir: Tri, rev: Tri): seq<Cell>
    requires s < |a|
  {
    a[s := a[s].(visible := visible, dir := dir, rev := rev)]
  }

  ghost predicate SameButStored(x: Epoch, a: seq<Cell>, b: seq<Cell>, s: nat)
    requires |a| == |x.tab.decls| && s < |a|
  {
    && |b| == |a| && b == Stored(a, s, b[s].visible, b[s].dir, b[s].rev)
    && (x.tab.decls[s].role.Member? ==> b[s].dir == a[s].dir && b[s].rev == a[s].rev)
  }

  lemma {:induction false} StoreKeeps(x: Epoch, k: nat, s: nat, a: seq<Cell>, b: seq<Cell>)
    requires Inv(x, k, a) && s < |a| && x.rank[s] >= k && SameButStored(x, a, b, s)
    ensures Inv(x, k, b)
  {
    forall id: nat | id < |b| ensures UserKept(x, b, id) { assert UserKept(x, a, id); }
    forall id: nat | id < |b| && b[id].valid && x.rank[id] < k ensures Done(x, b, id) { assert Done(x, a, id); }
  }

  lemma {:induction false} StoreReady(x: Epoch, k: nat, s: nat, a: seq<Cell>, b: seq<Cell>, xs: set<Symbol>,
          env: Valuation)
    requires Static(x) && |a| == |x.tab.decls| && s < |a|
    requires SameButStored(x, a, b, s) && AllReady(x, xs, k, env, a)
    ensures AllReady(x, xs, k, env, b)
  {
    forall y | y in xs ensures Ready(x, y, k, env, b) { assert Ready(x, y, k, env, a); }
  }

  /** An evaluation that started with fields stored in s is also one that started without them. */
  lemma {:induction false} StoreUnder(x: Epoch, k: nat, s: nat, a: seq<Cell>, m: seq<Cell>, b: seq<Cell>, c: seq<Cell>)
        returns (m': seq<Cell>)
    requires Frame(x, k, a, m) && Inv(x, k, m) && s < |a| && x.rank[s] >= k && !x.tab.decls[s].role.Member?
    requires SameButStored(x, m, b, s) && Frame(x, k, b, c) && Inv(x, k, c)
    ensures m' == c[s := m[s]] && c[s] == b[s]
    ensures Frame(x, k, a, m') && Frame(x, k, m, m') && Inv(x, k, m')
  {
    m' := c[s := m[s]];
    assert Untouched(x, b, c, s);
    forall id: nat | id < |m| && (x.rank[id] >= k || m[id].valid) ensures Untouched(x, m, m', id) {
      assert Untouched(x, b, c, id);
    }
    FrameTransitive(x, k, a, m, m');
    assert UserKept(x, m, s);
    StoreKeeps(x, k, s, c, m');
  }

  /* ---- a symbol in the middle of its evaluation ---- */

  /** From `a`, where s was not valid, to `b`: everything but s as in a frame of rank j. */
  ghost predicate Progress(x: Epoch, j: nat, s: nat, a: seq<Cell>, b: seq<Cell>) {
    && |a| == |b| == |x.rank| == |x.tab.decls|
    && s < |a| && !a[s].valid && x.rank[s] == j
    && (forall id: nat :: id < |a| && a[id].valid ==> b[id].valid)
    && (forall id: nat :: id < |a| && id != s && (x.rank[id] >= j || a[id].valid) ==> Untouched(x, a, b, id))
  }

  /** s is marked valid and has its visibility; its value is still being computed. */
  ghost predicate Computing(x: Epoch, j: nat, s: nat, a: seq<Cell>, b: seq<Cell>) {
    && Progress(x, j, s, a, b) && Inv(x, j, b)
    && b[s].valid && Decided(x, b, s) && Valued(x.tab.decls[s])
    && var d := x.tab.decls[s];
       b[s].visible == Visible(d, x.den) && b[s].dir == DirDep(d, x.den) && b[s].rev == RevDep(d, x.den)
  }

  lemma {:induction false} ComputingFramed(x: Epoch, j: nat, s: nat, a: seq<Cell>, b: seq<Cell>, c: seq<Cell>)
    requires Computing(x, j, s, a, b) && Frame(x, j, b, c) && Inv(x, j, c)
    ensures Computing(x, j, s, a, c) && c[s] == b[s]
  {
    assert Untouched(x, b, c, s);
    forall id: nat | id < |a| && id != s && (x.rank[id] >= j || a[id].valid) ensures Untouched(x, a, c, id) {
      assert Untouched(x, a, b, id) && Untouched(x, b, c, id);
    }
  }

  lemma {:induction false} ComputingStored(x: Epoch, j: nat, s: nat, a: seq<Cell>, b: seq<Cell>, c: seq<Cell>)
    requires Computing(x, j, s, a, b) && |c| == |b|
    requires c == b[s := b[s].(write := c[s].write, curr := c[s].curr, user := c[s].user)]
    requires c[s].user == b[s].user || UserKept(x, c, s)
    ensures Computing(x, j, s, a, c)
  {
    assert UserKept(x, b, s);
    forall id: nat | id < |c| ensures UserKept(x, c, id) { assert UserKept(x, b, id); }
    forall id: nat | id < |c| && c[id].valid && x.rank[id] < j ensures Done(x, c, id) { assert Done(x, b, id); }
    forall id: nat | id < |a| && id != s && (x.rank[id] >= j || a[id].valid) ensures Untouched(x, a, c, id) {
      assert Untouched(x, a, b, id);
    }
  }

  /** The choice s writes to its member m. */
  lemma {:induction false} MemberStored(x: Epoch, j: nat, s: nat, a: seq<Cell>, b: seq<Cell>, c: seq<Cell>, m: nat)
    requires Computing(x, j, s, a, b) && |c| == |b| && m < |b| && x.tab.decls[m].role == Member(s)
    requires c == b[m := b[m].(write := c[m].write, visible := c[m].visible)]
    ensures Computing(x, j, s, a, c) && c[s] == b[s]
  {
    assert WellFormedDecl(x.tab, m) && Ranked(x.tab, x.rank, m);
    forall id: nat | id < |c| ensures UserKept(x, c, id) { assert UserKept(x, b, id); }
    forall id: nat | id < |c| && c[id].valid && x.rank[id] < j ensures Done(x, c, id) { assert Done(x, b, id); }
    forall id: nat | id < |a| && id != s && (x.rank[id] >= j || a[id].valid) ensures Untouched(x, a, c, id) {
      assert Untouched(x, a, b, id);
    }
  }

  /** Once s holds its denotation the evaluation is one that fits a frame of any higher rank. */
  lemma {:induction false} EvaluationFinished(x: Epoch, j: nat, k: nat, s: nat, a: seq<Cell>, b: seq<Cell>)
    requires Progress(x, j, s, a, b) && j < k && Inv(x, k, a) && Inv(x, j, b)
    requires b[s].valid && Done(x, b, s)
    ensures Inv(x, k, b) && Frame(x, k, a, b)
  {
    forall id: nat | id < |b| && b[id].valid && x.rank[id] < k ensures Done(x, b, id) {
      if id != s && x.rank[id] >= j {
        assert Untouched(x, a, b, id);
        assert Done(x, a, id);
      }
    }
  }

  lemma {:induction false} EvaluationStarted(x: Epoch, j: nat, k: nat, s: nat, a: seq<Cell>, b: seq<Cell>)
    requires Inv(x, k, a) && j < k && s < |a| == |b| && !a[s].valid && x.rank[s] == j
    requires b == a[s := a[s].(valid := true, write := b[s].write, curr := b[s].curr)]
    requires Valued(x.tab.decls[s]) || b[s].write == a[s].write
    ensures Progress(x, j, s, a, b) && Inv(x, j, b) && b[s].user == x.base[s]
  {
    assert UserKept(x, a, s);
    forall id: nat | id < |b| ensures UserKept(x, b, id) { assert UserKept(x, a, id); }
    forall id: nat | id < |b| && b[id].valid && x.rank[id] < j ensures Done(x, b, id) { assert Done(x, a, id); }
  }

  lemma {:induction false} PromptIn(props: seq<Prop>, p: Prop)
    requires p in props && p.Prompt?
    ensures OSyms(p.vis) <= PromptSyms(props)
  {
    if p != props[0] { PromptIn(props[1..], p); }
  }

  lemma {:induction false} VisibilityStored(x: Epoch, j: nat, s: nat, a: seq<Cell>, b: seq<Cell>, mid: seq<Cell>,
          c: seq<Cell>)
    requires Progress(x, j, s, a, b) && Inv(x, j, b) && b[s].valid && Valued(x.tab.decls[s])
    requires Frame(x, j, b, mid) && Inv(x, j, mid) && AllValid(PromptSyms(x.tab.decls[s].props), mid)
    requires var d := x.tab.decls[s]; c == Stored(mid, s, Visible(d, x.den), DirDep(d, x.den), RevDep(d, x.den))
    ensures Computing(x, j, s, a, c) && c[s].user == b[s].user
    ensures !x.tab.decls[s].role.Member? ==> c[s].write == b[s].write
  {
    var d := x.tab.decls[s];
    assert WellFormedDecl(x.tab, s) && Untouched(x, b, mid, s) && UserKept(x, mid, s);
    StoreKeeps(x, j, s, mid, c);
    forall id: nat | id < |a| && id != s && (x.rank[id] >= j || a[id].valid) ensures Untouched(x, a, c, id) {
      assert Untouched(x, a, b, id) && Untouched(x, b, mid, id);
    }
    if d.role.Member? {
      var p :| p in d.props && p.Prompt?;
      PromptIn(d.props, p);
      assert Conf(d.role.of, x.tab.decls[d.role.of].typ) in PromptSyms(d.props);
      assert c[d.role.of].valid == mid[d.role.of].valid;
    }
    assert Decided(x, c, s);
  }

  lemma {:induction false} VisibilityReady(x: Epoch, s: nat, a: seq<Cell>)
    requires Static(x) && s < |a| == |x.tab.decls|
    ensures AllReady(x, VisibilitySyms(x.tab.decls[s]), x.rank[s], x.den, a)
  {
    assert WellFormedDecl(x.tab, s) && Ranked(x.tab, x.rank, s);
    LowReady(x, x.rank[s], VisibilitySyms(x.tab.decls[s]), a);
  }

  /** Symbols ranked below are ready with their denotation. */
  lemma {:induction false} LowReady(x: Epoch, j: nat, xs: set<Symbol>, a: seq<Cell>)
    requires Static(x) && |a| == |x.tab.decls|
    requires forall y :: y in xs ==> InTable(x.tab, y) && Below(y, x.rank, j)
    ensures AllReady(x, xs, j, x.den, a)
  {
  }

  /** SYMBOL_WRITE of a symbol that is not in a choice, before SYMBOL_AUTO is looked at */
  predicate Writes(d: Decl, v: Valuation) {
    Visible(d, v) != No || RevDep(d, v) != No || DefaultProp(d.props, v).Some?
  }

  /** At rest, a frame of low rank is one of any rank. */
  lemma {:induction false} FrameWidens(x: Epoch, j: nat, k: nat, a: seq<Cell>, b: seq<Cell>)
    requires Inv(x, k, a) && j <= k && Frame(x, j, a, b) && Inv(x, j, b)
    ensures Inv(x, k, b)
    ensures forall id: nat :: id < |a| && a[id].valid && x.rank[id] < k ==> b[id] == a[id]
  {
    forall id: nat | id < |a| && a[id].valid && x.rank[id] < k ensures b[id] == a[id] {
      assert Done(x, a, id) && Untouched(x, a, b, id);
    }
    forall id: nat | id < |b| && b[id].valid && x.rank[id] < k ensures Done(x, b, id) {
      if x.rank[id] >= j { assert Untouched(x, a, b, id) && Done(x, a, id); }
    }
  }

  /** Taking SYMBOL_WRITE from a valid symbol, and recording it as printed */
  lemma {:induction false} WritersKeep(x: Epoch, a: seq<Cell>, y: Epoch, b: seq<Cell>, k: nat)
    requires Inv(x, k, a) && y == x.(printed := y.printed) && |a| == |b|
    requires exists s: nat ::
               s < |a| && a[s].valid && y.printed == x.printed + {s} && b == a[s := a[s].(write := false)]
    ensures Inv(y, k, b)
  {
    forall id: nat | id < |b| ensures UserKept(y, b, id) { assert UserKept(x, a, id); }
    forall id: nat | id < |b| && b[id].valid && y.rank[id] < k ensures Done(y, b, id) { assert Done(x, a, id); }
  }

  /* ---- the user's values ---- */

  function Users(a: seq<Cell>): (us: seq<User>)
    ensures |us| == |a| && forall i :: 0 <= i < |a| ==> us[i] == a[i].user
  {
    if a == [] then [] else [a[0].user] + Users(a[1..])
  }

  /** The user values after sym_set_tristate_value(s, val) let the value through: choosing a member of
      a choice is also recorded in the choice, and settles its other visible members. */
  function AfterSet(tab: Table, a: seq<Cell>, s: nat, val: Tri): (us: seq<User>)
    requires s < |a| == |tab.decls|
    ensures |us| == |a|
  {
    var us := Chosen(Users(a), s, val);
    var r := tab.decls[s].role;
    if r.Member? && val == Yes && r.of < |a| then
      var c := us[r.of].(has := true, val := Pick(s));
      seq(|a|, i requires 0 <= i < |a| =>
        if i == r.of then c
        else if tab.decls[i].role == r && a[i].visible != No then us[i].(has := true)
        else us[i])
    else us
  }

  /** A choice that is yes only by a user value that it no longer has: without it, its selectors and
      dependencies give it less. */
  ghost predicate Wavers(tab: Table, a: seq<Cell>, c: nat)
    requires |a| == |tab.decls|
  {
    && c < |a| && tab.decls[c].role.Choice? && a[c].valid && !a[c].user.has && a[c].curr.tri == Yes
    && Alone(tab.decls[c], a[c].visible, a[c].dir, a[c].rev, tab.modules) != Yes
  }

  /** What a change of s turns on: s itself, or the choice that it is a value of */
  function Subject(tab: Table, s: nat): nat
    requires s < |tab.decls|
  {
    if tab.decls[s].role.Member? then tab.decls[s].role.of else s
  }

  /** Nothing that the subject of a change depends on wavers. */
  ghost predicate Steady(tab: Table, a: seq<Cell>, s: nat)
    requires s < |a| == |tab.decls|
  {
    forall c :: Reaches(tab, Subject(tab, s), c) ==> !Wavers(tab, a, c)
  }

  /** Away from the subject of a change and the members of its choice, user values differ from those at the
      last clearing only where a choice has dropped its flag; that is felt exactly where the choice wavers. */
  lemma {:induction false} DropIsWavering(x: Epoch, a: seq<Cell>, ws: seq<User>, id: nat)
    requires Inv(x, Height(x.rank), a) && id < |a| == |ws| && ws[id] == a[id].user
    ensures Unmoved(x.tab, x.base, ws, x.den, id) <==> !Wavers(x.tab, a, id)
  {
    assert UserKept(x, a, id) && x.den.vals[id] == Step(x.tab, x.base, id, x.den);
    assert WellFormedDecl(x.tab, id);
    if a[id].valid && x.tab.decls[id].role.Choice? {
      assert x.rank[id] < Height(x.rank);
      assert Done(x, a, id);
      if ws[id] != x.base[id] {
        DropFelt(x.tab, x.base, ws, x.den, id);
      } else if !ws[id].has && a[id].curr.tri == Yes {
        YesWithoutUser(x.tab, x.base, x.den, id);
      }
    }
  }

  /** The user values a change leaves alone */
  lemma {:induction false} SetElsewhere(x: Epoch, a: seq<Cell>, s: nat, val: Tri, id: nat)
    requires Static(x) && s < |a| == |x.tab.decls| && Reaches(x.tab, Subject(x.tab, s), id)
    ensures id < |a| && AfterSet(x.tab, a, s, val)[id] == a[id].user
  {
    var tab, top := x.tab, Subject(x.tab, s);
    assert WellFormedDecl(tab, s) && Ranked(tab, x.rank, s);
    ReachesBelow(tab, x.rank, top, id);
    assert WellFormedDecl(tab, id) && Ranked(tab, x.rank, id);
  }

  class SymTab {
    const tab: Table
    /** modules_sym */
    const modulesSym: Option<nat>
    var cells: seq<Cell>
    ghost var now: Epoch

    ghost predicate Valid(k: nat)
      reads this
    {
      now.tab == tab && Inv(now, k, cells)
    }

    function Current(s: Symbol): Value
      requires s.Conf? ==> s.id < |cells|
      reads this
    {
      if s.Const? then Look(Valuation(map[], tab.modules), s) else cells[s.id].curr
    }

    /** sym_calc_value on an operand of an expression */
    method CalcSymbol(s: Symbol, ghost k: nat, ghost env: Valuation)
      requires Valid(k) && AllReady(now, {s}, k, env, cells)
      modifies this`cells
      ensures Valid(k) && Frame(now, k, old(cells), cells)
      ensures AllValid({s}, cells) && (s.Conf? ==> s.id < |cells|) && Current(s) == Look(env, s)
      decreases k + 1, 1, 0
    {
      if s.Conf? {
        assert Ready(now, s, k, env, cells);
        CalcValue(s.id, k);
        assert Ready(now, s, k, env, old(cells));
        if now.rank[s.id] < k {
          assert Done(now, cells, s.id);
        } else {
          assert Untouched(now, old(cells), cells, s.id);
        }
      }
    }

    /** expr_calc_value */
    method EvalExpr(e: Expr, ghost k: nat, ghost env: Valuation) returns (t: Tri)
      requires Valid(k) && AllReady(now, Syms(e), k, env, cells)
      modifies this`cells
      ensures Valid(k) && Frame(now, k, old(cells), cells)
      ensures t == Eval(e, env) && AllValid(Syms(e), cells)
      decreases k + 1, 1, 1 + Size(e)
    {
      match e
      case Sym(s) =>
        CalcSymbol(s, k, env);
        t := Current(s).tri;
      case Not(x) =>
        t := EvalExpr(x, k, env);
        t := Flip(t);
      case Bin(op, l, r) =>
        t := EvalExpr(l, k, env);
        ghost var mid := cells;
        ReadyKept(now, Syms(r), k, env, old(cells), mid);
        var u := EvalExpr(r, k, env);
        ReadyKept(now, Syms(l), k, env, mid, cells);
        FrameTransitive(now, k, old(cells), mid, cells);
        t := Apply(op, t, u);
      case Cmp(rel, a, b) =>
        CalcSymbol(a, k, env);
        ghost var mid := cells;
        ReadyKept(now, Syms(e), k, env, old(cells), mid);
        CalcSymbol(b, k, env);
        ReadyKept(now, {a}, k, env, mid, cells);
        FrameTransitive(now, k, old(cells), mid, cells);
        t := RelateStrings(rel, a, b, ValueString(a, Current(a), tab.modules), ValueString(b, Current(b), tab.modules));
    }

    /** One prompt in sym_calc_visibility */
    method CalcPrompt(s: nat, p: Prop, ghost k: nat, ghost env: Valuation) returns (t: Tri)
      requires Valid(k) && s < |cells| && p in tab.decls[s].props && p.Prompt?
      requires AllReady(now, OSyms(p.vis), k, env, cells)
      modifies this`cells
      ensures Valid(k) && Frame(now, k, old(cells), cells) && AllValid(OSyms(p.vis), cells)
      ensures t == PromptTri(tab.decls[s], p, env)
      decreases k + 1, 2, 0
    {
      var d := tab.decls[s];
      assert WellFormedDecl(tab, s);
      t := EvalOptional(p.vis, k, env);
      if d.role.Member? && d.typ.Tristate? && t == Mod {
        ReadyKept(now, OSyms(p.vis), k, env, old(cells), cells);
        var c := Conf(d.role.of, tab.decls[d.role.of].typ);
        assert Ready(now, c, k, env, cells);
        assert now.rank[c.id] < k ==> Done(now, cells, c.id);
        if cells[d.role.of].curr.tri == Yes { t := No; }
      }
    }

    /** The loop over the prompts in sym_calc_visibility */
    method CalcPrompts(s: nat, ghost k: nat, ghost env: Valuation) returns (t: Tri)
      requires Valid(k) && s < |cells|
      requires AllReady(now, PromptSyms(tab.decls[s].props), k, env, cells)
      modifies this`cells
      ensures Valid(k) && Frame(now, k, old(cells), cells) && AllValid(PromptSyms(tab.decls[s].props), cells)
      ensures t == PromptsTri(tab.decls[s], tab.decls[s].props, env)
      decreases k + 1, 3, 0
    {
      var d := tab.decls[s];
      ghost var xs := PromptSyms(d.props);
      ghost var seen := {};
      t := No;
      FrameReflexive(now, k, cells);
      for i := 0 to |d.props|
        invariant Valid(k) && Frame(now, k, old(cells), cells) && AllReady(now, xs, k, env, cells)
        invariant Max(t, PromptsTri(d, d.props[i..], env)) == PromptsTri(d, d.props, env)
        invariant AllValid(seen, cells) && seen + PromptSyms(d.props[i..]) == xs
      {
        var p := d.props[i];
        assert d.props[i..][0] == p && d.props[i..][1..] == d.props[i + 1..];
        if p.Prompt? {
          ghost var before := cells;
          var vis := CalcPrompt(s, p, k, env);
          FrameTransitive(now, k, old(cells), before, cells);
          ReadyKept(now, xs, k, env, before, cells);
          ReadyKept(now, seen, k, env, before, cells);
          seen := seen + OSyms(p.vis);
          t := Max(t, vis);
        }
      }
      assert d.props[|d.props|..] == [];
    }

    /** expr_calc_value on an expression that may be missing */
    method EvalOptional(e: OExpr, ghost k: nat, ghost env: Valuation) returns (t: Tri)
      requires Valid(k) && AllReady(now, OSyms(e), k, env, cells)
      modifies this`cells
      ensures Valid(k) && Frame(now, k, old(cells), cells)
      ensures t == OEval(e, env) && AllValid(OSyms(e), cells)
      decreases k + 1, 1, if e.None? then 0 else 2 + Size(e.value)
    {
      if e.None? { t := Yes; } else { t := EvalExpr(e.value, k, env); }
    }

    /** The first part of sym_calc_visibility: `visible` is stored. */
    method CalcVisible(s: nat, ghost k: nat, ghost env: Valuation) returns (ghost mid: seq<Cell>)
      requires Valid(k) && s < |cells| && now.rank[s] >= k
      requires AllReady(now, VisibilitySyms(tab.decls[s]), k, env, cells)
      modifies this`cells
      ensures Valid(k) && Frame(now, k, old(cells), mid) && Inv(now, k, mid)
      ensures AllValid(PromptSyms(tab.decls[s].props), mid)
      ensures cells == Stored(mid, s, Visible(tab.decls[s], env), mid[s].dir, mid[s].rev)
      ensures AllReady(now, VisibilitySyms(tab.decls[s]), k, env, cells)
      decreases k + 1, 4, 0
    {
      var d := tab.decls[s];
      ghost var xs := VisibilitySyms(d);
      var tri := CalcPrompts(s, k, env);
      if tri == Mod && (!d.typ.Tristate? || tab.modules == No) { tri := Yes; }
      mid := cells;
      ReadyKept(now, xs, k, env, old(cells), mid);
      cells := cells[s := cells[s].(visible := tri)];
      StoreKeeps(now, k, s, mid, cells);
      StoreReady(now, k, s, mid, cells, xs, env);
    }

    /** sym_calc_visibility: `mid` is the state reached, but for the three fields it stores in s. */
    method CalcVisibility(s: nat, ghost k: nat, ghost env: Valuation) returns (ghost mid: seq<Cell>)
      requires Valid(k) && s < |cells| && now.rank[s] >= k
      requires AllReady(now, VisibilitySyms(tab.decls[s]), k, env, cells)
      modifies this`cells
      ensures Valid(k) && Frame(now, k, old(cells), mid) && Inv(now, k, mid)
      ensures AllValid(PromptSyms(tab.decls[s].props), mid)
      ensures cells == Stored(mid, s, Visible(tab.decls[s], env), DirDep(tab.decls[s], env), RevDep(tab.decls[s], env))
      decreases k + 1, 5, 0
    {
      mid := CalcVisible(s, k, env);
      assert UserKept(now, mid, s);
      if tab.decls[s].role.Member? { return; }
      ghost var stored, xs := cells, PromptSyms(tab.decls[s].props);
      ghost var later := CalcDependencies(s, k, env);
      ghost var first := mid;
      mid := StoreUnder(now, k, s, old(cells), first, stored, later);
      ReadyKept(now, xs, k, env, first, mid);
      StoreKeeps(now, k, s, mid, cells);
    }

    /** dir_dep.tri and rev_dep.tri in sym_calc_visibility */
    method CalcDependencies(s: nat, ghost k: nat, ghost env: Valuation) returns (ghost mid: seq<Cell>)
      requires Valid(k) && s < |cells| && now.rank[s] >= k && !tab.decls[s].role.Member?
      requires AllReady(now, VisibilitySyms(tab.decls[s]), k, env, cells)
      modifies this`cells
      ensures Valid(k) && Frame(now, k, old(cells), mid) && Inv(now, k, mid)
      ensures cells == Stored(mid, s, mid[s].visible, DirDep(tab.decls[s], env), RevDep(tab.decls[s], env))
      decreases k + 1, 3, 0
    {
      mid := CalcDirDep(s, k, env);
      ghost var stored := cells;
      var tri := CalcRevDep(s, k, env);
      mid := StoreUnder(now, k, s, old(cells), mid, stored, cells);
      cells := cells[s := cells[s].(rev := tri)];
      StoreKeeps(now, k, s, mid, cells);
    }

    method CalcDirDep(s: nat, ghost k: nat, ghost env: Valuation) returns (ghost mid: seq<Cell>)
      requires Valid(k) && s < |cells| && now.rank[s] >= k && !tab.decls[s].role.Member?
      requires AllReady(now, VisibilitySyms(tab.decls[s]), k, env, cells)
      modifies this`cells
      ensures Valid(k) && Frame(now, k, old(cells), mid) && Inv(now, k, mid)
      ensures cells == Stored(mid, s, mid[s].visible, DirDep(tab.decls[s], env), mid[s].rev)
      ensures AllReady(now, VisibilitySyms(tab.decls[s]), k, env, cells)
      decreases k + 1, 2, 0
    {
      var xs := VisibilitySyms(tab.decls[s]);
      var tri := EvalOptional(tab.decls[s].dirDep, k, env);
      if tri == Mod { tri := Yes; }
      mid := cells;
      ReadyKept(now, xs, k, env, old(cells), mid);
      cells := cells[s := cells[s].(dir := tri)];
      StoreKeeps(now, k, s, mid, cells);
      StoreReady(now, k, s, mid, cells, xs, env);
    }

    method CalcRevDep(s: nat, ghost k: nat, ghost env: Valuation) returns (tri: Tri)
      requires Valid(k) && s < |cells| && !tab.decls[s].role.Member?
      requires AllReady(now, VisibilitySyms(tab.decls[s]), k, env, cells)
      modifies this`cells
      ensures Valid(k) && Frame(now, k, old(cells), cells)
      ensures tri == RevDep(tab.decls[s], env)
      decreases k + 1, 2, 0
    {
      var d := tab.decls[s];
      FrameReflexive(now, k, cells);
      tri := No;
      if d.revDep.Some? { tri := EvalExpr(d.revDep.value, k, env); }
      if tri == Mod && BooleanNow(d, cells[s].visible, tab.modules) { tri := Yes; }
    }

    /** sym_get_default_prop */
    method GetDefaultProp(s: nat, ghost k: nat, ghost env: Valuation) returns (p: Option<Prop>, vis: Tri)
      requires Valid(k) && s < |cells|
      requires AllReady(now, DefaultConds(tab.decls[s].props), k, env, cells)
      modifies this`cells
      ensures Valid(k) && Frame(now, k, old(cells), cells)
      ensures p == DefaultProp(tab.decls[s].props, env)
      ensures p.Some? ==> p.value.Default? && vis == OEval(p.value.vis, env)
      decreases k + 1, 2, 0
    {
      var props := tab.decls[s].props;
      FrameReflexive(now, k, cells);
      for i := 0 to |props|
        invariant Valid(k) && Frame(now, k, old(cells), cells)
        invariant DefaultProp(props[i..], env) == DefaultProp(props, env)
        invariant AllReady(now, DefaultConds(props), k, env, cells)
        invariant DefaultConds(props[i..]) <= DefaultConds(props)
      {
        assert props[i..][0] == props[i] && props[i..][1..] == props[i + 1..];
        if props[i].Default? {
          ghost var before := cells;
          vis := EvalOptional(props[i].vis, k, env);
          FrameTransitive(now, k, old(cells), before, cells);
          ReadyKept(now, DefaultConds(props), k, env, before, cells);
          if vis != No { return Some(props[i]), vis; }
        }
      }
      assert props[|props|..] == [];
      p, vis := None, No;
    }

    /** The value of the default in force, in sym_calc_value */
    method CalcDefault(s: nat, ghost j: nat, ghost start: seq<Cell>) returns (t: Tri)
      requires s < |cells| && now.tab == tab && Computing(now, j, s, start, cells) && !tab.decls[s].role.Choice?
      modifies this`cells
      ensures now.tab == tab && Computing(now, j, s, start, cells)
      ensures t == DefaultTri(tab.decls[s], now.den)
      ensures cells[s] == old(cells[s]).(write := old(cells[s].write) || DefaultProp(tab.decls[s].props, now.den).Some?)
      decreases j + 1, 3, 0
    {
      var d := tab.decls[s];
      assert Ranked(now.tab, now.rank, s) && WellFormedDecl(tab, s);
      CondsInSyms(d.props);
      LowReady(now, j, DefaultSyms(d.props), cells);
      var p, vis := GetDefaultProp(s, j, now.den);
      ComputingFramed(now, j, s, start, old(cells), cells);
      t := No;
      if p.Some? {
        DefaultPropIn(d.props, now.den);
        ghost var before := cells;
        cells := cells[s := cells[s].(write := true)];
        ComputingStored(now, j, s, start, before, cells);
        LowReady(now, j, DefaultSyms(d.props), cells);
        before := cells;
        t := EvalExpr(p.value.expr, j, now.den);
        ComputingFramed(now, j, s, start, before, cells);
        t := Min(t, vis);
      }
    }

    method MarkWrite(s: nat, mark: bool, ghost j: nat, ghost start: seq<Cell>)
      requires s < |cells| && now.tab == tab && Computing(now, j, s, start, cells)
      modifies this`cells
      ensures now.tab == tab && Computing(now, j, s, start, cells)
      ensures cells == old(cells)[s := old(cells[s]).(write := old(cells[s].write) || mark)]
    {
      if mark { cells := cells[s := cells[s].(write := true)]; }
      ComputingStored(now, j, s, start, old(cells), cells);
    }

    /** The S_BOOLEAN and S_TRISTATE case of sym_calc_value: newval.tri */
    method CalcTri(s: nat, ghost j: nat, ghost start: seq<Cell>) returns (t: Tri)
      requires s < |cells| && now.tab == tab && Computing(now, j, s, start, cells) && IsTriType(tab.decls[s].typ)
      requires cells[s].user == now.base[s] && (!tab.decls[s].role.Member? ==> !cells[s].write)
      modifies this`cells
      ensures now.tab == tab && Computing(now, j, s, start, cells)
      ensures t == NewTri(s, tab.decls[s], now.base[s], now.den)
      ensures tab.decls[s].role.Plain? ==> cells[s].write == Writes(tab.decls[s], now.den)
      ensures cells[s].user == old(cells[s].user)
      decreases j + 1, 4, 0
    {
      var d := tab.decls[s];
      if d.role.Member? && cells[s].visible == Yes {
        assert Ranked(now.tab, now.rank, s) && WellFormedDecl(tab, s);
        assert Done(now, cells, d.role.of);
        return Promote(FromBool(cells[d.role.of].curr.val == Pick(s)), BooleanNow(d, Yes, tab.modules));
      }
      t := No;
      MarkWrite(s, cells[s].visible != No, j, start);
      if cells[s].visible != No && cells[s].user.has {
        t := Min(cells[s].user.tri, cells[s].visible);
      } else {
        MarkWrite(s, cells[s].rev != No, j, start);
        if !d.role.Choice? { t := CalcDefault(s, j, start); }
      }
      if cells[s].dir == No && cells[s].rev != No { t := No; } else { t := Max(t, cells[s].rev); }
      t := Promote(t, BooleanNow(d, cells[s].visible, tab.modules));
    }

    /** The S_STRING, S_HEX and S_INT case of sym_calc_value: newval.val */
    method CalcText(s: nat, ghost j: nat, ghost start: seq<Cell>) returns (val: Val)
      requires s < |cells| && now.tab == tab && Computing(now, j, s, start, cells)
      requires tab.decls[s].role.Plain? && cells[s].user == now.base[s] && !cells[s].write
      modifies this`cells
      ensures now.tab == tab && Computing(now, j, s, start, cells)
      ensures val == if Visible(tab.decls[s], now.den) != No && now.base[s].has then now.base[s].val
                     else DefaultVal(tab.decls[s], now.den)
      ensures cells[s].write == (Visible(tab.decls[s], now.den) != No || HasDefaultSymbol(tab.decls[s], now.den))
      decreases j + 1, 4, 0
    {
      var d := tab.decls[s];
      assert Ranked(now.tab, now.rank, s) && WellFormedDecl(tab, s);
      CondsInSyms(d.props);
      MarkWrite(s, cells[s].visible != No, j, start);
      if cells[s].visible != No && cells[s].user.has { return cells[s].user.val; }
      val := Str("");
      ghost var before := cells;
      LowReady(now, j, DefaultSyms(d.props), cells);
      var p, _ := GetDefaultProp(s, j, now.den);
      ComputingFramed(now, j, s, start, before, cells);
      if p.Some? && p.value.expr.Sym? {
        DefaultPropIn(d.props, now.den);
        MarkWrite(s, true, j, start);
        LowReady(now, j, {p.value.expr.s}, cells);
        before := cells;
        CalcSymbol(p.value.expr.s, j, now.den);
        ComputingFramed(now, j, s, start, before, cells);
        val := Current(p.value.expr.s).val;
      }
    }

    /** The symbols that the conditions of the choice s and of its members mention are ready while s
        looks for its member. */
    ghost predicate Choosing(s: nat, j: nat, start: seq<Cell>)
      reads this
    {
      && s < |cells| && now.tab == tab && Computing(now, j, s, start, cells) && tab.decls[s].role.Choice?
      && cells[s].curr == Value(Yes, Str("n"))
    }

    lemma {:induction false} MemberReady(s: nat, j: nat, start: seq<Cell>, m: nat)
      requires Choosing(s, j, start) && m in tab.decls[s].role.members
      ensures m < |cells| && tab.decls[m].role == Member(s) && now.rank[m] > j
      ensures AllReady(now, VisibilitySyms(tab.decls[m]), j, WithChoice(now.den, s), cells)
    {
      assert WellFormedDecl(tab, s) && WellFormedDecl(tab, m) && Ranked(tab, now.rank, m);
      forall y | y in VisibilitySyms(tab.decls[m]) ensures Ready(now, y, j, WithChoice(now.den, s), cells) {
        assert Below(y, now.rank, j) || y == Conf(s, tab.decls[s].typ);
      }
    }

    lemma {:induction false} CondsReady(s: nat, j: nat, start: seq<Cell>)
      requires Choosing(s, j, start)
      ensures AllReady(now, DefaultConds(tab.decls[s].props), j, WithChoice(now.den, s), cells)
    {
      assert WellFormedDecl(tab, s) && Ranked(tab, now.rank, s);
      forall y | y in DefaultConds(tab.decls[s].props) ensures Ready(now, y, j, WithChoice(now.den, s), cells) {
        assert y in Deps(tab.decls[s]);
      }
    }

    /** The members have the visibility they get under a choice that is yes. */
    ghost predicate MembersSeen(s: nat, ms: seq<nat>)
      requires |cells| == |tab.decls|
      reads this
    {
      forall m :: m in ms ==> m < |cells| && cells[m].visible == Visible(tab.decls[m], WithChoice(now.den, s))
    }

    /** The visibility of one member */
    method CalcMember(s: nat, m: nat, seen: seq<nat>, ghost j: nat, ghost start: seq<Cell>)
      requires Choosing(s, j, start) && MembersSeen(s, seen) && m in tab.decls[s].role.members
      requires forall n :: n in seen ==> n in tab.decls[s].role.members && n != m
      modifies this`cells
      ensures Choosing(s, j, start) && cells[s] == old(cells[s])
      ensures MembersSeen(s, seen + [m]) && m < |cells| && cells[m].user == now.base[m]
      ensures cells[m].visible != No <==> MemberVisible(tab, m, WithChoice(now.den, s))
      decreases j + 1, 6, 0
    {
      ghost var env := WithChoice(now.den, s);
      assert WellFormedDecl(tab, s);
      MemberReady(s, j, start, m);
      ghost var before := cells;
      ghost var mid := CalcVisibility(m, j, env);
      ComputingFramed(now, j, s, start, before, mid);
      assert UserKept(now, mid, m);
      MemberStored(now, j, s, start, mid, cells, m);
      forall n | n in seen ensures n < |cells| && cells[n] == before[n] {
        assert Ranked(tab, now.rank, n) && WellFormedDecl(tab, n);
        assert Untouched(now, before, mid, n);
      }
    }

    /** The first loop of sym_calc_choice: visibility of all members, and whether all that are visible
        have user values */
    method CalcMembers(s: nat, ghost j: nat, ghost start: seq<Cell>) returns (has: bool)
      requires Choosing(s, j, start)
      modifies this`cells
      ensures Choosing(s, j, start) && cells[s] == old(cells[s])
      ensures MembersSeen(s, tab.decls[s].role.members)
      ensures has <==> !NewMember(tab, now.base, s, now.den)
      decreases j + 1, 7, 0
    {
      var ms := tab.decls[s].role.members;
      ghost var env := WithChoice(now.den, s);
      has := true;
      assert WellFormedDecl(tab, s);
      assert ms[..|ms|] == ms;
      for i := 0 to |ms|
        invariant Choosing(s, j, start) && cells[s] == old(cells[s])
        invariant MembersSeen(s, ms[..i])
        invariant has <==> forall m :: m in ms[..i] && MemberVisible(tab, m, env) ==> now.base[m].has
      {
        var m := ms[i];
        CalcMember(s, m, ms[..i], j, start);
        assert ms[..i + 1] == ms[..i] + [m];
        if cells[m].visible != No && !cells[m].user.has { has := false; }
      }
    }

    /** sym_choice_default, the loop over the defaults of the choice */
    method ChoiceDefaultProp(s: nat, ghost j: nat, ghost start: seq<Cell>) returns (pick: Option<nat>)
      requires Choosing(s, j, start)
      requires MembersSeen(s, tab.decls[s].role.members)
      modifies this`cells
      ensures Choosing(s, j, start) && cells[s] == old(cells[s]) && MembersSeen(s, tab.decls[s].role.members)
      ensures pick == DefaultMember(tab, tab.decls[s].props, WithChoice(now.den, s))
      decreases j + 1, 6, 0
    {
      var props := tab.decls[s].props;
      ghost var env := WithChoice(now.den, s);
      assert WellFormedDecl(tab, s);
      for i := 0 to |props|
        invariant Choosing(s, j, start) && cells[s] == old(cells[s])
        invariant MembersSeen(s, tab.decls[s].role.members)
        invariant DefaultMember(tab, props[i..], env) == DefaultMember(tab, props, env)
        invariant DefaultConds(props[i..]) <= DefaultConds(props)
      {
        assert props[i..][0] == props[i] && props[i..][1..] == props[i + 1..];
        if props[i].Default? {
          CondsReady(s, j, start);
          ghost var before := cells;
          var vis := EvalOptional(props[i].vis, j, env);
          ComputingFramed(now, j, s, start, before, cells);
          forall m | m in tab.decls[s].role.members ensures cells[m] == before[m] {
            assert Ranked(tab, now.rank, m) && WellFormedDecl(tab, m);
            assert Untouched(now, before, cells, m);
          }
          assert props[i] in props;
          if vis != No && cells[props[i].expr.s.id].visible != No { return NamedSymbol(props[i].expr); }
        }
      }
      assert props[|props|..] == [];
      pick := None;
    }

    /** The first half of sym_calc_choice: the choice drops its flag when a visible member has none. */
    method ForgetUser(s: nat, ghost j: nat, ghost start: seq<Cell>)
      requires Choosing(s, j, start) && cells[s].user == now.base[s]
      modifies this`cells
      ensures Choosing(s, j, start) && MembersSeen(s, tab.decls[s].role.members)
      ensures cells[s].user == if NewMember(tab, now.base, s, now.den) then now.base[s].(has := false) else now.base[s]
      decreases j + 1, 8, 0
    {
      assert WellFormedDecl(tab, s);
      var has := CalcMembers(s, j, start);
      ghost var before := cells;
      if !has { cells := cells[s := cells[s].(user := cells[s].user.(has := false))]; }
      ComputingStored(now, j, s, start, before, cells);
    }

    /** sym_calc_choice */
    method CalcChoice(s: nat, ghost j: nat, ghost start: seq<Cell>) returns (pick: Option<nat>)
      requires Choosing(s, j, start) && cells[s].user == now.base[s]
      modifies this`cells
      ensures now.tab == tab && Computing(now, j, s, start, cells) && cells[s].curr == Value(Yes, Str("n"))
      ensures pick == ChoicePick(tab, tab.decls[s], now.base[s], WithChoice(now.den, s))
      ensures cells[s].user == if NewMember(tab, now.base, s, now.den) then now.base[s].(has := false) else now.base[s]
      decreases j + 1, 9, 0
    {
      assert WellFormedDecl(tab, s);
      ForgetUser(s, j, start);
      var val := cells[s].user.val;
      if val.Pick? && cells[val.member].visible != No { return Some(val.member); }
      pick := ChoiceDefaultProp(s, j, start);
      if pick.None? { pick := FirstVisibleMember(s, tab.decls[s].role.members); }
    }

    /** sym_choice_default, the loop over the members */
    method FirstVisibleMember(s: nat, ms: seq<nat>) returns (pick: Option<nat>)
      requires |cells| == |tab.decls| && MembersSeen(s, ms)
      ensures pick == FirstVisible(tab, ms, WithChoice(now.den, s))
    {
      for i := 0 to |ms|
        invariant FirstVisible(tab, ms[i..], WithChoice(now.den, s)) == FirstVisible(tab, ms, WithChoice(now.den, s))
      {
        assert ms[i] in ms && ms[i..][0] == ms[i] && ms[i..][1..] == ms[i + 1..];
        if cells[ms[i]].visible != No { return Some(ms[i]); }
      }
      assert ms[|ms|..] == [];
      pick := None;
    }

    /** What a valued choice writes to its members: they are written if it is. */
    method MarkMembers(s: nat, ghost j: nat, ghost start: seq<Cell>)
      requires s < |cells| && now.tab == tab && Computing(now, j, s, start, cells) && tab.decls[s].role.Choice?
      modifies this`cells
      ensures now.tab == tab && Computing(now, j, s, start, cells) && cells[s] == old(cells[s])
    {
      var ms := tab.decls[s].role.members;
      assert WellFormedDecl(tab, s);
      for i := 0 to |ms|
        invariant now.tab == tab && Computing(now, j, s, start, cells) && cells[s] == old(cells[s])
      {
        var m := ms[i];
        assert m in ms;
        ghost var before := cells;
        if cells[s].write && cells[m].visible != No { cells := cells[m := cells[m].(write := true)]; }
        MemberStored(now, j, s, start, before, cells, m);
      }
    }

    /** The value of a boolean, tristate or string symbol, once it has its visibility */
    method CalcNewValue(s: nat, ghost j: nat, ghost start: seq<Cell>)
      requires s < |cells| && now.tab == tab && Computing(now, j, s, start, cells) && Valued(tab.decls[s])
      requires cells[s].user == now.base[s] && (!tab.decls[s].role.Member? ==> !cells[s].write)
      modifies this`cells
      ensures now.tab == tab && Computing(now, j, s, start, cells)
      ensures cells[s].curr == Step(tab, now.base, s, now.den)
      ensures tab.decls[s].role.Plain? ==> cells[s].write == Written(tab.decls[s], now.den)
      ensures tab.decls[s].role.Choice? ==> cells[s].user == Remembered(tab, now.base, s, now.den)
      decreases j + 1, 11, 0
    {
      var newval := CalcOwnValue(s, j, start);
      ghost var before := cells;
      cells := cells[s := cells[s].(curr := newval)];
      ComputingStored(now, j, s, start, before, cells);
      if tab.decls[s].role.Choice? {
        if newval.tri == Yes { CalcPick(s, j, start); }
        MarkMembers(s, j, start);
      }
      before := cells;
      if tab.decls[s].auto { cells := cells[s := cells[s].(write := false)]; }
      ComputingStored(now, j, s, start, before, cells);
    }

    /** newval in sym_calc_value, before a choice looks for its member */
    method CalcOwnValue(s: nat, ghost j: nat, ghost start: seq<Cell>) returns (newval: Value)
      requires s < |cells| && now.tab == tab && Computing(now, j, s, start, cells)
      requires cells[s].user == now.base[s] && (!tab.decls[s].role.Member? ==> !cells[s].write)
      modifies this`cells
      ensures now.tab == tab && Computing(now, j, s, start, cells)
      ensures var d := tab.decls[s];
        if IsTriType(d.typ) then newval == Value(NewTri(s, d, now.base[s], now.den), Str("n"))
        else d.role.Plain? && newval == Step(tab, now.base, s, now.den)
      ensures IsTriType(tab.decls[s].typ) ==> cells[s].user == old(cells[s].user)
      ensures tab.decls[s].role.Plain? && !tab.decls[s].auto ==> cells[s].write == Written(tab.decls[s], now.den)
      decreases j + 1, 8, 0
    {
      assert WellFormedDecl(tab, s);
      if IsTriType(tab.decls[s].typ) {
        var t := CalcTri(s, j, start);
        newval := Value(t, Str("n"));
      } else {
        var val := CalcText(s, j, start);
        newval := Value(No, val);
      }
    }

    /** curr of a choice that is yes */
    method CalcPick(s: nat, ghost j: nat, ghost start: seq<Cell>)
      requires Choosing(s, j, start) && cells[s].user == now.base[s]
      modifies this`cells
      ensures s < |cells| && now.tab == tab && Computing(now, j, s, start, cells)
      ensures cells[s].user == if NewMember(tab, now.base, s, now.den) then now.base[s].(has := false) else now.base[s]
      ensures cells[s].curr == match ChoicePick(tab, tab.decls[s], now.base[s], WithChoice(now.den, s))
                               case None => Value(No, Null) case Some(m) => Value(Yes, Pick(m))
      decreases j + 1, 10, 0
    {
      var pick := CalcChoice(s, j, start);
      ghost var before := cells;
      cells := cells[s := cells[s].(curr := if pick.None? then Value(No, Null) else Value(Yes, Pick(pick.value)))];
      ComputingStored(now, j, s, start, before, cells);
    }

    /** sym_calc_value */
    method CalcValue(s: nat, ghost k: nat)
      requires Valid(k) && s < |cells| && (cells[s].valid || now.rank[s] < k)
      modifies this`cells
      ensures Valid(k) && Frame(now, k, old(cells), cells) && cells[s].valid
      decreases if cells[s].valid then 0 else now.rank[s] + 1, 12, 0
    {
      FrameReflexive(now, k, cells);
      if cells[s].valid { return; }
      var d := tab.decls[s];
      ghost var j, start := now.rank[s], cells;
      assert UserKept(now, start, s);
      cells := cells[s := cells[s].(valid := true)];
      if !Valued(d) {
        cells := cells[s := cells[s].(curr := Value(No, Str(d.name)))];
        EvaluationStarted(now, j, k, s, start, cells);
        assert WellFormedDecl(tab, s);
      } else {
        if !d.role.Member? { cells := cells[s := cells[s].(write := false)]; }
        EvaluationStarted(now, j, k, s, start, cells);
        ghost var started := cells;
        VisibilityReady(now, s, cells);
        ghost var mid := CalcVisibility(s, j, now.den);
        VisibilityStored(now, j, s, start, started, mid, cells);
        ghost var before := cells;
        cells := cells[s := cells[s].(curr := Value(No, if IsTriType(d.typ) then Str("n") else Str("")))];
        ComputingStored(now, j, s, start, before, cells);
        CalcNewValue(s, j, start);
      }
      EvaluationFinished(now, j, k, s, start, cells);
    }

    /** Between calls: every valid symbol holds its value. */
    ghost predicate Ok()
      reads this
    {
      && Valid(Height(now.rank)) && now.den == Denotation(tab, now.base, now.rank)
      && (modulesSym.Some? ==> modulesSym.value < |cells| && now.den.vals[modulesSym.value].tri == tab.modules)
    }

    /** With these user values modules_sym has the value that modules_val is taken to be. */
    ghost predicate ModulesSettled(users: seq<User>)
      requires |users| == |tab.decls| == |now.rank|
      reads this
    {
      modulesSym.Some? && modulesSym.value < |tab.decls| ==>
        Denotation(tab, users, now.rank).vals[modulesSym.value].tri == tab.modules
    }

    /** What does not depend on which symbols are valid. */
    ghost predicate Loaded()
      reads this
    {
      && now.tab == tab && WellFormed(tab) && Acyclic(tab, now.rank) && |cells| == |tab.decls|
      && PicksMembers(tab, Users(cells)) && (modulesSym.Some? ==> modulesSym.value < |cells|)
      && (forall id: nat :: id < |cells| && tab.decls[id].role.Member? ==> cells[id].dir == No && cells[id].rev == No)
      && (forall id: nat :: id < |cells| && !Valued(tab.decls[id]) ==> !cells[id].write)
    }

    constructor (tab: Table, modulesSym: Option<nat>, users: seq<User>, ghost rank: seq<nat>)
      requires WellFormed(tab) && Acyclic(tab, rank) && PicksMembers(tab, users)
      requires modulesSym.Some? ==> modulesSym.value < |tab.decls|
      requires modulesSym.Some? ==> Denotation(tab, users, rank).vals[modulesSym.value].tri == tab.modules
      ensures this.tab == tab && this.modulesSym == modulesSym && Ok() && now.base == users && now.rank == rank
      ensures forall id: nat :: id < |cells| ==> !cells[id].valid
    {
      this.tab, this.modulesSym := tab, modulesSym;
      cells := seq(|users|, i requires 0 <= i < |users| => Cell(false, false, Value(No, Null), No, No, No, users[i]));
      now := Epoch(tab, rank, users, Denotation(tab, users, rank), {});
      new;
      DenotationSolves(tab, users, rank);
    }

    /** sym_calc_value, called from outside an evaluation */
    method Calc(s: nat)
      requires Ok() && s < |cells|
      modifies this`cells
      ensures Ok() && |cells| == old(|cells|) && cells[s].valid
      ensures forall id: nat :: id < |cells| && old(cells[id].valid) ==> cells[id] == old(cells[id])
    {
      CalcValue(s, Height(now.rank));
      assert forall id: nat :: id < |cells| && old(cells[id].valid) ==> Decided(now, old(cells), id) by {
        forall id: nat | id < |cells| && old(cells[id].valid) ensures Decided(now, old(cells), id) {
          assert Done(now, old(cells), id);
        }
      }
    }

    /** The loop in sym_clear_all_valid; what the symbols should be is defined anew from the user's values. */
    method ClearValid()
      requires Loaded() && ModulesSettled(Users(cells))
      modifies this
      ensures Ok() && Users(cells) == old(Users(cells)) && now.base == Users(cells) && now.rank == old(now.rank)
      ensures now.printed == {}
      ensures forall id: nat :: id < |cells| ==> !cells[id].valid
    {
      ghost var was := cells;
      for i := 0 to |cells|
        invariant |cells| == |was| && now == old(now)
        invariant forall h :: 0 <= h < i ==> cells[h] == was[h].(valid := false)
        invariant forall h :: i <= h < |was| ==> cells[h] == was[h]
      {
        cells := cells[i := cells[i].(valid := false)];
      }
      assert Users(cells) == Users(was);
      now := Epoch(tab, now.rank, Users(cells), Denotation(tab, Users(cells), now.rank), {});
      DenotationSolves(tab, now.base, now.rank);
    }

    /** sym_clear_all_valid: only modules_sym, and what it takes to value it, is valid afterwards. */
    method ClearAllValid()
      requires Loaded() && ModulesSettled(Users(cells))
      modifies this
      ensures Ok() && now.base == old(Users(cells)) && now.rank == old(now.rank) && now.printed == {}
      ensures modulesSym.None? ==> forall id: nat :: id < |cells| ==> !cells[id].valid
      ensures modulesSym.Some? ==> cells[modulesSym.value].valid
    {
      ClearValid();
      if modulesSym.Some? { Calc(modulesSym.value); }
    }

    /** What is valid between calls holds the value the table and the user's choices determine. */
    lemma {:induction false} ValidIsDone(s: nat)
      requires Ok() && s < |cells| && cells[s].valid
      ensures Done(now, cells, s)
    {
      assert now.rank[s] < Height(now.rank);
    }

    /** Any sequence of requests, in any order, leaves the right value in all symbols asked for. */
    method CalcAll(order: seq<nat>)
      requires Ok() && forall i :: 0 <= i < |order| ==> order[i] < |cells|
      modifies this`cells
      ensures Ok() && |cells| == old(|cells|)
      ensures forall id: nat :: id < |cells| && old(cells[id].valid) ==> cells[id] == old(cells[id])
      ensures forall i :: 0 <= i < |order| ==> cells[order[i]].valid && cells[order[i]].curr == now.den.vals[order[i]]
    {
      if order != [] {
        Calc(order[0]);
        ValidIsDone(order[0]);
        CalcAll(order[1..]);
        assert forall i :: 0 < i < |order| ==> order[i] == order[1..][i - 1];
      }
    }

    /** sym_calc_visibility on a symbol that is valued already finds what it found before. */
    method Revisit(s: nat)
      requires Valid(Height(now.rank)) && s < |cells| && cells[s].valid && Valued(tab.decls[s])
      modifies this`cells
      ensures Valid(Height(now.rank)) && |cells| == old(|cells|)
      ensures forall id: nat :: id < |cells| && old(cells[id].valid) ==> cells[id] == old(cells[id])
    {
      ghost var h := Height(now.rank);
      VisibilityReady(now, s, cells);
      ghost var mid := CalcVisibility(s, now.rank[s], now.den);
      FrameWidens(now, now.rank[s], h, old(cells), mid);
      assert Done(now, mid, s);
      assert cells == mid;
    }

    /** The default in force of a symbol, between evaluations */
    method DefaultAtRest(s: nat) returns (t: Tri)
      requires Valid(Height(now.rank)) && s < |cells| && !tab.decls[s].role.Choice?
      modifies this`cells
      ensures Valid(Height(now.rank)) && |cells| == old(|cells|)
      ensures forall id: nat :: id < |cells| && old(cells[id].valid) ==> cells[id] == old(cells[id])
      ensures t == DefaultTri(tab.decls[s], now.den)
    {
      var d := tab.decls[s];
      ghost var h := Height(now.rank);
      DefaultsBelow(s);
      CondsInSyms(d.props);
      LowReady(now, h, DefaultSyms(d.props), cells);
      var p, vis := GetDefaultProp(s, h, now.den);
      FrameWidens(now, h, h, old(cells), cells);
      t := No;
      if p.Some? {
        DefaultPropIn(d.props, now.den);
        LowReady(now, h, DefaultSyms(d.props), cells);
        ghost var before := cells;
        t := EvalExpr(p.value.expr, h, now.den);
        FrameWidens(now, h, h, before, cells);
        t := Min(t, vis);
      }
    }

    /** sym_get_string_default for a boolean or tristate symbol but a choice, already valued */
    method GetTriDefault(s: nat) returns (t: Tri)
      requires Ok() && s < |cells| && cells[s].valid && IsTriType(tab.decls[s].typ) && !tab.decls[s].role.Choice?
      modifies this`cells
      ensures Ok() && |cells| == old(|cells|)
      ensures forall id: nat :: id < |cells| && old(cells[id].valid) ==> cells[id] == old(cells[id])
      ensures t == FullDefault(tab.decls[s], now.den)
    {
      Revisit(s);
      t := DefaultAtRest(s);
      ValidIsDone(s);
      var d := tab.decls[s];
      t := Promote(Promote(Max(t, cells[s].rev), !d.role.Member? && tab.modules == No), d.typ.Boolean?);
    }

    /** The string that the default in force of a symbol points at, between evaluations */
    method TextDefaultAtRest(s: nat) returns (val: Val)
      requires Ok() && s < |cells| && !tab.decls[s].role.Choice?
      modifies this`cells
      ensures Ok() && |cells| == old(|cells|)
      ensures forall id: nat :: id < |cells| && old(cells[id].valid) ==> cells[id] == old(cells[id])
      ensures val == DefaultVal(tab.decls[s], now.den)
    {
      var d := tab.decls[s];
      ghost var h := Height(now.rank);
      DefaultsBelow(s);
      CondsInSyms(d.props);
      LowReady(now, h, DefaultSyms(d.props), cells);
      var p, _ := GetDefaultProp(s, h, now.den);
      FrameWidens(now, h, h, old(cells), cells);
      val := Str("");
      if p.Some? && p.value.expr.Sym? {
        DefaultPropIn(d.props, now.den);
        ghost var before := cells;
        LowReady(now, h, {p.value.expr.s}, cells);
        CalcSymbol(p.value.expr.s, h, now.den);
        FrameWidens(now, h, h, before, cells);
        val := Current(p.value.expr.s).val;
      }
    }

    /** What defaults mention is ranked below everything. */
    lemma {:induction false} DefaultsBelow(s: nat)
      requires Valid(Height(now.rank)) && s < |cells| && !tab.decls[s].role.Choice?
      ensures forall x :: x in DefaultSyms(tab.decls[s].props) ==>
                InTable(tab, x) && Below(x, now.rank, Height(now.rank))
    {
      assert Ranked(now.tab, now.rank, s) && WellFormedDecl(tab, s) && now.rank[s] < Height(now.rank);
      forall x | x in DefaultSyms(tab.decls[s].props) ensures InTable(tab, x) && Below(x, now.rank, Height(now.rank)) {
        assert x in Deps(tab.decls[s]) && Below(x, now.rank, now.rank[s]);
      }
    }

    /** sym_get_string_default for a string or number, already valued */
    method GetTextDefault(s: nat) returns (val: Val)
      requires Ok() && s < |cells| && cells[s].valid && Valued(tab.decls[s]) && tab.decls[s].role.Plain?
      modifies this`cells
      ensures Ok() && |cells| == old(|cells|)
      ensures forall id: nat :: id < |cells| && old(cells[id].valid) ==> cells[id] == old(cells[id])
      ensures val == DefaultVal(tab.decls[s], now.den)
    {
      Revisit(s);
      val := TextDefaultAtRest(s);
    }

    /** A writer has dealt with the symbol: sym->flags &= ~SYMBOL_WRITE */
    method ClearWrite(s: nat)
      requires Ok() && s < |cells| && cells[s].valid
      modifies this
      ensures Ok() && now == old(now).(printed := old(now).printed + {s})
      ensures cells == old(cells)[s := old(cells[s]).(write := false)]
    {
      cells := cells[s := cells[s].(write := false)];
      now := now.(printed := now.printed + {s});
      WritersKeep(old(now), old(cells), now, cells, Height(now.rank));
    }

    /** sym_set_tristate_value: the loop over the members of the choice */
    method SettleMembers(c: nat)
      requires c < |cells| == |tab.decls| && tab.decls[c].role.Choice? && WellFormed(tab)
      modifies this`cells
      ensures |cells| == old(|cells|)
      ensures forall i: nat :: i < |cells| ==>
        cells[i] == old(cells[i]).(user := if tab.decls[i].role == Member(c) && old(cells[i].visible) != No
                                          then old(cells[i].user).(has := true) else old(cells[i].user))
    {
      var ms := tab.decls[c].role.members;
      assert WellFormedDecl(tab, c);
      ghost var was := cells;
      for k := 0 to |ms|
        invariant |cells| == |was|
        invariant forall i: nat :: i < |cells| ==>
          cells[i] == was[i].(user := if i in ms[..k] && was[i].visible != No then was[i].user.(has := true)
                                      else was[i].user)
      {
        assert ms[k] in ms && ms[..k + 1] == ms[..k] + [ms[k]];
        if cells[ms[k]].visible != No {
          cells := cells[ms[k] := cells[ms[k]].(user := cells[ms[k]].user.(has := true))];
        }
      }
      forall i: nat | i < |cells| ensures i in ms <==> tab.decls[i].role == Member(c) { assert WellFormedDecl(tab, i); }
    }

    /** What an accepted sym_set_tristate_value stores */
    method StoreUser(s: nat, val: Tri)
      requires s < |cells| == |tab.decls| && WellFormed(tab)
      modifies this`cells
      ensures |cells| == old(|cells|)
      ensures forall i: nat :: i < |cells| ==> cells[i] == old(cells[i]).(user := AfterSet(tab, old(cells), s, val)[i])
    {
      var d := tab.decls[s];
      assert WellFormedDecl(tab, s);
      cells := cells[s := cells[s].(user := cells[s].user.(has := true))];
      if d.role.Member? && val == Yes {
        var c := d.role.of;
        assert WellFormedDecl(tab, c);
        cells := cells[c := cells[c].(user := cells[c].user.(has := true, val := Pick(s)))];
        SettleMembers(c);
      }
      cells := cells[s := cells[s].(user := cells[s].user.(tri := val))];
    }

    lemma {:induction false} SetKeepsPicks(a: seq<Cell>, s: nat, val: Tri)
      requires s < |a| == |tab.decls| && WellFormed(tab) && PicksMembers(tab, Users(a))
      ensures PicksMembers(tab, AfterSet(tab, a, s, val))
    {
      var us := AfterSet(tab, a, s, val);
      assert WellFormedDecl(tab, s);
      forall c | 0 <= c < |a| && tab.decls[c].role.Choice? && us[c].val.Pick?
        ensures us[c].val.member in tab.decls[c].role.members
      {
        assert us[c].val == Users(a)[c].val || tab.decls[s].role == Member(c);
      }
    }

    lemma {:induction false} UsersSet(a: seq<Cell>, b: seq<Cell>, us: seq<User>)
      requires |a| == |b| == |us| && forall i: nat :: i < |b| ==> b[i] == a[i].(user := us[i])
      ensures Users(b) == us
    {
    }

    /** After an accepted change: a symbol or choice whose visibility implies its dependencies has the value asked
        for, except that a choice without a visible member is not y; so has a member visible as m; and a member
        made yes in a choice that is yes is now the one that is yes. */
    ghost predicate Effective(tab: Table, was: seq<Cell>, w: Valuation, s: nat, val: Tri)
      requires s < |was| == |tab.decls|
    {
      var d := tab.decls[s];
      && s in w.vals
      && (d.role.Plain? && (was[s].visible != No ==> was[s].dir != No) ==> w.vals[s].tri == val)
      && (d.role.Choice? && (was[s].visible != No ==> was[s].dir != No) ==>
            (w.vals[s].tri == val <==>
              (val == Yes ==> exists m :: m in d.role.members && MemberVisible(tab, m, WithChoice(w, s)))))
      && (d.role.Member? && was[s].visible == Mod ==> w.vals[s].tri == val)
      && (Switches(tab, was, s, val) ==> OnlyMember(tab, w, d.role.of, s))
    }

    /** s is a visible member, to be made yes, of a choice that is yes and whose members have no defaults. */
    ghost predicate Switches(tab: Table, was: seq<Cell>, s: nat, val: Tri)
      requires s < |was| == |tab.decls|
    {
      && val == Yes && was[s].visible == Yes
      && var r := tab.decls[s].role;
         && r.Member? && r.of < |was| && tab.decls[r.of].role.Choice? && was[r.of].curr.tri == Yes
         && forall m :: m in tab.decls[r.of].role.members && m < |was| ==> NoDefaults(tab.decls[m].props)
    }

    /** All that the subject depends on keeps its value if and only if no choice among that wavers. */
    lemma {:induction false} SetIsFelt(x: Epoch, was: seq<Cell>, y: Epoch, s: nat, val: Tri)
      requires x.tab == y.tab == tab && s < |was| == |tab.decls| && Inv(x, Height(x.rank), was)
      requires Static(y) && y.rank == x.rank && y.base == AfterSet(tab, was, s, val)
      ensures ReachedSame(tab, Subject(tab, s), x.den, y.den) <==> Steady(tab, was, s)
    {
      var top := Subject(tab, s);
      ReachedSameExactly(tab, x.base, y.base, x.rank, x.den, y.den, top);
      forall c | Reaches(tab, top, c) ensures Unmoved(tab, x.base, y.base, x.den, c) <==> !Wavers(tab, was, c) {
        SetElsewhere(x, was, s, val, c);
        DropIsWavering(x, was, y.base, c);
      }
    }

    lemma {:induction false} PlainIsEffective(x: Epoch, was: seq<Cell>, y: Epoch, s: nat, val: Tri)
      requires x.tab == y.tab == tab && s < |was| == |tab.decls| && Inv(x, Height(x.rank), was)
      requires Static(y) && y.rank == x.rank && y.base == AfterSet(tab, was, s, val)
      requires was[s].valid && tab.decls[s].role.Plain? && (was[s].visible != No ==> was[s].dir != No)
      requires WithinRange(tab.decls[s], was[s].visible, was[s].rev, tab.modules, val)
      requires ReachedSame(tab, s, x.den, y.den)
      ensures y.den.vals[s].tri == val
    {
      assert Done(x, was, s);
      ReachedReads(tab, s, x.den, y.den);
      AcceptedTakesEffect(tab, y.base, x.rank, x.den, y.den, s, val);
    }

    lemma {:induction false} SwitchIsEffective(x: Epoch, was: seq<Cell>, y: Epoch, s: nat)
      requires x.tab == y.tab == tab && s < |was| == |tab.decls| && Inv(x, Height(x.rank), was)
      requires Static(y) && y.rank == x.rank && y.base == AfterSet(tab, was, s, Yes)
      requires was[s].valid && Switches(tab, was, s, Yes)
      requires ReachedSame(tab, tab.decls[s].role.of, x.den, y.den)
      ensures OnlyMember(tab, y.den, tab.decls[s].role.of, s)
    {
      var c := tab.decls[s].role.of;
      assert Done(x, was, s) && WellFormedDecl(tab, s) && UserKept(x, was, c);
      assert x.rank[c] < Height(x.rank);
      assert Done(x, was, c);
      ReachedReads(tab, c, x.den, y.den);
      SwitchTakesEffect(tab, x.base, y.base, x.rank, x.den, y.den, c, s);
    }

    lemma {:induction false} ChoiceIsEffective(x: Epoch, was: seq<Cell>, y: Epoch, s: nat, val: Tri)
      requires x.tab == y.tab == tab && s < |was| == |tab.decls| && Inv(x, Height(x.rank), was)
      requires Static(y) && y.rank == x.rank && y.base == AfterSet(tab, was, s, val)
      requires was[s].valid && tab.decls[s].role.Choice? && (was[s].visible != No ==> was[s].dir != No)
      requires WithinRange(tab.decls[s], was[s].visible, was[s].rev, tab.modules, val)
      requires ReachedSame(tab, s, x.den, y.den)
      ensures y.den.vals[s].tri == val <==>
                (val == Yes ==>
                  exists m :: m in tab.decls[s].role.members && MemberVisible(tab, m, WithChoice(y.den, s)))
    {
      assert x.rank[s] < Height(x.rank) && WellFormedDecl(tab, s);
      assert Done(x, was, s);
      ReachedReads(tab, s, x.den, y.den);
      ChoiceTakesEffect(tab, y.base, x.rank, x.den, y.den, s, val);
    }

    lemma {:induction false} ModuleIsEffective(x: Epoch, was: seq<Cell>, y: Epoch, s: nat, val: Tri)
      requires x.tab == y.tab == tab && s < |was| == |tab.decls| && Inv(x, Height(x.rank), was)
      requires Static(y) && y.rank == x.rank && y.base == AfterSet(tab, was, s, val)
      requires was[s].valid && tab.decls[s].role.Member? && was[s].visible == Mod
      requires WithinRange(tab.decls[s], was[s].visible, was[s].rev, tab.modules, val)
      requires ReachedSame(tab, tab.decls[s].role.of, x.den, y.den)
      ensures y.den.vals[s].tri == val
    {
      var c := tab.decls[s].role.of;
      assert x.rank[s] < Height(x.rank) && WellFormedDecl(tab, s);
      assert Done(x, was, s);
      ModuleOfChoice(tab, x.den, c, s);
      NotYesNotDropped(x, was, c);
      ReachedReads(tab, c, x.den, y.den);
      assert Ranked(tab, x.rank, s);
      ModuleTakesEffect(tab, x.base, y.base, x.rank, x.den, y.den, c, s, val);
    }

    /** A choice that is not yes has not dropped its user flag. */
    lemma {:induction false} NotYesNotDropped(x: Epoch, was: seq<Cell>, c: nat)
      requires x.tab == tab && c < |was| == |tab.decls| && Inv(x, Height(x.rank), was)
      requires tab.decls[c].role.Choice? && x.den.vals[c].tri != Yes
      ensures was[c].user == x.base[c]
    {
      assert UserKept(x, was, c) && x.rank[c] < Height(x.rank);
      if was[c].valid && was[c].user != x.base[c] {
        assert Done(x, was, c);
        DropFelt(tab, x.base, x.base[c := was[c].user], x.den, c);
      }
    }

    lemma {:induction false} SetIsEffective(x: Epoch, was: seq<Cell>, y: Epoch, s: nat, val: Tri)
      requires x.tab == y.tab == tab && s < |was| == |tab.decls| && Inv(x, Height(x.rank), was)
      requires was[s].valid && Steady(tab, was, s)
      requires Static(y) && y.rank == x.rank && y.base == AfterSet(tab, was, s, val)
      requires was[s].curr.tri != val
      requires WithinRange(tab.decls[s], was[s].visible, was[s].rev, tab.modules, val)
      ensures Effective(tab, was, y.den, s, val)
    {
      SetIsFelt(x, was, y, s, val);
      if tab.decls[s].role.Plain? && (was[s].visible != No ==> was[s].dir != No) {
        PlainIsEffective(x, was, y, s, val);
      }
      if tab.decls[s].role.Choice? && (was[s].visible != No ==> was[s].dir != No) {
        ChoiceIsEffective(x, was, y, s, val);
      }
      if tab.decls[s].role.Member? && was[s].visible == Mod { ModuleIsEffective(x, was, y, s, val); }
      if Switches(tab, was, s, val) { SwitchIsEffective(x, was, y, s); }
    }

    /** For a symbol that depends on a member m of a choice, and on nothing else, the condition is exact: if m is y,
        setting the symbol to y takes effect if and only if the choice does not waver. */
    lemma {:induction false} DependentExactly(x: Epoch, was: seq<Cell>, y: Epoch, s: nat, m: nat)
      requires x.tab == y.tab == tab && s < |was| == |tab.decls| && Inv(x, Height(x.rank), was)
      requires Static(y) && y.rank == x.rank && y.base == AfterSet(tab, was, s, Yes)
      requires DependsAlone(tab, s, m) && tab.decls[m].role.Member? && NoDefaults(tab.decls[m].props)
      requires was[m].valid && was[m].curr.tri == Yes
      requires forall b :: Reaches(tab, tab.decls[m].role.of, b) ==> !Wavers(tab, was, b)
      ensures y.den.vals[s].tri == Yes <==> !Wavers(tab, was, tab.decls[m].role.of)
    {
      var c := tab.decls[m].role.of;
      assert WellFormedDecl(tab, m) && x.rank[m] < Height(x.rank);
      assert Done(x, was, m) && UserKept(x, was, m);
      DependentReach(x, was, s, m);
      ChoiceKept(x, was, y, s, c);
      MemberFollows(tab, x.base, y.base, x.rank, x.den, y.den, c, m);
      DependentFeels(tab, y.base, y.den, s, m);
    }

    /** The symbol leaves the user values of the member and of its choice alone. */
    lemma {:induction false} DependentReach(x: Epoch, was: seq<Cell>, s: nat, m: nat)
      requires x.tab == tab && s < |was| == |tab.decls| && Static(x)
      requires DependsAlone(tab, s, m) && tab.decls[m].role.Member?
      ensures Reaches(tab, s, tab.decls[m].role.of)
      ensures AfterSet(tab, was, s, Yes)[m] == was[m].user
    {
      OnePrompt(tab.decls[s], tab.decls[s].dirDep, x.den);
      assert Reads(tab, s, m);
      ReachesRead(tab, s, m);
      SetElsewhere(x, was, s, Yes, m);
      assert WellFormedDecl(tab, m);
      ReachesFurther(tab, s, m, tab.decls[m].role.of);
    }

    /** A choice that s depends on keeps its value if and only if it does not waver, if nothing below it does. */
    lemma {:induction false} ChoiceKept(x: Epoch, was: seq<Cell>, y: Epoch, s: nat, c: nat)
      requires x.tab == y.tab == tab && s < |was| == |tab.decls| && Inv(x, Height(x.rank), was)
      requires Static(y) && y.rank == x.rank && y.base == AfterSet(tab, was, s, Yes)
      requires tab.decls[s].role.Plain? && Reaches(tab, s, c)
      requires forall b :: Reaches(tab, c, b) ==> !Wavers(tab, was, b)
      ensures c < |was| && SameReads(tab, c, x.den, y.den)
      ensures y.den.vals[c] == x.den.vals[c] <==> !Wavers(tab, was, c)
    {
      SetElsewhere(x, was, s, Yes, c);
      forall b | Reaches(tab, c, b) ensures Unmoved(tab, x.base, y.base, x.den, b) {
        ReachesJoin(tab, s, c, b);
        SetElsewhere(x, was, s, Yes, b);
        DropIsWavering(x, was, y.base, b);
      }
      ReachedSameExactly(tab, x.base, y.base, x.rank, x.den, y.den, c);
      ReachedReads(tab, c, x.den, y.den);
      ReadsAgree(tab, x.rank, c, x.den, y.den);
      StepAgrees(tab, y.base, c, x.den, y.den);
      DropIsWavering(x, was, y.base, c);
    }

    /** A value stored again as the user's, and lasting: all that is computed stays right. */
    lemma {:induction false} UnchangedKeeps(x: Epoch, was: seq<Cell>, b: seq<Cell>, s: nat)
      requires x.tab == tab && s < |was| == |b| && Inv(x, Height(x.rank), was) && was[s].valid
      requires x.den == Denotation(tab, x.base, x.rank)
      requires tab.decls[s].role.Plain? && IsTriType(tab.decls[s].typ)
      requires b == was[s := was[s].(user := was[s].user.(has := true, tri := was[s].curr.tri))]
      ensures |x.base| == |tab.decls|
      ensures var y := x.(base := Chosen(x.base, s, was[s].curr.tri));
        && (Solves(tab, y.base, x.den) <==> Lasting(was[s].visible, was[s].rev, was[s].curr.tri))
        && (Solves(tab, y.base, x.den) ==> Inv(y, Height(y.rank), b) && y.den == Denotation(tab, y.base, y.rank))
    {
      var y := x.(base := Chosen(x.base, s, was[s].curr.tri));
      assert x.rank[s] < Height(x.rank);
      assert Done(x, was, s) && UserKept(x, was, s);
      UnchangedExactly(tab, x.base, x.den, s);
      if Solves(tab, y.base, x.den) {
        SameEpoch(x, was, y, b, s);
        DenotationUnique(tab, y.base, y.rank, y.den);
        assert y.den.vals == Denotation(tab, y.base, y.rank).vals;
      }
    }

    lemma {:induction false} SameEpoch(x: Epoch, was: seq<Cell>, y: Epoch, b: seq<Cell>, s: nat)
      requires x.tab == tab && s < |was| == |b| && Inv(x, Height(x.rank), was) && tab.decls[s].role.Plain?
      requires b == was[s := was[s].(user := was[s].user.(has := true, tri := was[s].curr.tri))]
      requires y == x.(base := Chosen(x.base, s, was[s].curr.tri)) && Solves(tab, y.base, x.den)
      ensures Inv(y, Height(y.rank), b)
    {
      forall id: nat | id < |b| ensures UserKept(y, b, id) { assert UserKept(x, was, id); }
      forall id: nat | id < |b| && b[id].valid && y.rank[id] < Height(y.rank) ensures Done(y, b, id) {
        assert Done(x, was, id) && WellFormedDecl(tab, id);
        if tab.decls[id].role.Choice? {
          assert forall m :: m in tab.decls[id].role.members ==> y.base[m] == x.base[m];
        }
      }
    }

    /** What an accepted new value does: all that the change turns on keeps its value if and only if no choice
        among that wavers, and then the value takes effect. */
    ghost predicate TakesEffect(x: Epoch, was: seq<Cell>, y: Epoch, s: nat, val: Tri)
      requires s < |was| == |tab.decls|
    {
      && (ReachedSame(tab, Subject(tab, s), x.den, y.den) <==> Steady(tab, was, s))
      && (was[s].valid && Steady(tab, was, s) ==> Effective(tab, was, y.den, s, val))
    }

    lemma {:induction false} SetTakesEffect(x: Epoch, was: seq<Cell>, y: Epoch, s: nat, val: Tri)
      requires x.tab == y.tab == tab && s < |was| == |tab.decls| && Inv(x, Height(x.rank), was)
      requires Static(y) && y.rank == x.rank && y.base == AfterSet(tab, was, s, val)
      requires was[s].curr.tri != val
      requires WithinRange(tab.decls[s], was[s].visible, was[s].rev, tab.modules, val)
      ensures TakesEffect(x, was, y, s, val)
    {
      SetIsFelt(x, was, y, s, val);
      if was[s].valid && Steady(tab, was, s) { SetIsEffective(x, was, y, s, val); }
    }

    /** The user values are stored, and all stays ready to be cleared. */
    method StoreLoaded(s: nat, val: Tri)
      requires Ok() && s < |cells|
      modifies this`cells
      ensures Loaded() && Users(cells) == AfterSet(tab, old(cells), s, val)
      ensures forall i :: 0 <= i < |cells| ==> cells[i] == old(cells[i]).(user := cells[i].user)
    {
      OkIsLoaded();
      StoreUser(s, val);
      UsersSet(old(cells), cells, AfterSet(tab, old(cells), s, val));
      SetKeepsPicks(old(cells), s, val);
    }

    /** sym_set_tristate_value */
    method SetTristateValue(s: nat, val: Tri) returns (ok: bool)
      requires Ok() && s < |cells| && ModulesSettled(AfterSet(tab, cells, s, val))
      modifies this
      ensures ok == (old(cells[s].curr.tri) == val ||
                     WithinRange(tab.decls[s], old(cells[s].visible), old(cells[s].rev), tab.modules, val))
      ensures !ok ==> cells == old(cells) && now == old(now)
      ensures ok ==> Loaded()
      // a new value
      ensures ok && old(cells[s].curr.tri) != val ==>
                Ok() && now.rank == old(now.rank) && now.base == AfterSet(tab, old(cells), s, val)
      ensures ok && old(cells[s].curr.tri) != val ==> TakesEffect(old(now), old(cells), now, s, val)
      // the old one: nothing is computed again, and nothing has to be if it is lasting
      ensures old(cells[s].curr.tri) == val ==> Users(cells) == AfterSet(tab, old(cells), s, val)
      ensures old(cells[s].curr.tri) == val ==>
                forall i :: 0 <= i < |cells| ==> cells[i] == old(cells[i]).(user := cells[i].user)
      ensures old(cells[s].curr.tri == val && cells[s].valid && RightAfter(s, val)) ==> Ok() && now.den == old(now.den)
    {
      var d, oldval := tab.decls[s], cells[s].curr.tri;
      ok := oldval == val || WithinRange(d, cells[s].visible, cells[s].rev, tab.modules, val);
      if !ok { return; }
      ghost var x, was := now, cells;
      StoreLoaded(s, val);
      if oldval != val {
        ClearAllValid();
        SetTakesEffect(x, was, now, s, val);
        OkIsLoaded();
      } else if was[s].valid && old(RightAfter(s, val)) {
        StoredAgain(was, cells, s);
        Unchanged(x, was, s);
      }
    }

    /** What storing a value again does to the symbols */
    lemma {:induction false} StoredAgain(was: seq<Cell>, b: seq<Cell>, s: nat)
      requires s < |was| == |b| == |tab.decls| && tab.decls[s].role.Plain?
      requires Users(b) == AfterSet(tab, was, s, was[s].curr.tri)
      requires forall i :: 0 <= i < |b| ==> b[i] == was[i].(user := b[i].user)
      ensures b == was[s := was[s].(user := was[s].user.(has := true, tri := was[s].curr.tri))]
    {
    }

    /** The stored value counts as if it had been there at the last clearing. */
    ghost method Unchanged(x: Epoch, was: seq<Cell>, s: nat)
      requires Loaded() && now == x && s < |was| && Inv(x, Height(x.rank), was) && was[s].valid
      requires x.den == Denotation(tab, x.base, x.rank)
      requires modulesSym.Some? && modulesSym.value < |tab.decls| ==> x.den.vals[modulesSym.value].tri == tab.modules
      requires tab.decls[s].role.Plain? && IsTriType(tab.decls[s].typ)
      requires Lasting(was[s].visible, was[s].rev, was[s].curr.tri)
      requires cells == was[s := was[s].(user := was[s].user.(has := true, tri := was[s].curr.tri))]
      modifies this`now
      ensures Ok() && Loaded() && now.den == x.den && now.rank == x.rank
    {
      UnchangedKeeps(x, was, cells, s);
      now := x.(base := Chosen(x.base, s, was[s].curr.tri));
    }

    /** The value of s may be stored as the user's without anything having to be computed again. */
    ghost predicate RightAfter(s: nat, val: Tri)
      requires s < |cells| == |tab.decls|
      reads this
    {
      tab.decls[s].role.Plain? && IsTriType(tab.decls[s].typ) && Lasting(cells[s].visible, cells[s].rev, val)
    }

    lemma {:induction false} OkIsLoaded()
      requires Ok()
      ensures Loaded()
    {
      forall id: nat | id < |cells| && tab.decls[id].role.Member?
        ensures cells[id].dir == No && cells[id].rev == No
      {
        assert UserKept(now, cells, id);
      }
      forall id: nat | id < |cells| && !Valued(tab.decls[id]) ensures !cells[id].write {
        assert UserKept(now, cells, id);
      }
      forall c | 0 <= c < |cells| && tab.decls[c].role.Choice? && Users(cells)[c].val.Pick?
        ensures Users(cells)[c].val.member in tab.decls[c].role.members
      {
        assert UserKept(now, cells, c);
      }
    }
  }
}
