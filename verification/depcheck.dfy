/** The search for recursive dependencies: sym_check_deps and its helpers (scripts/config/symbol.c:1057-1298)
    on tables without choices, and the sweep over all symbols in scripts/config/zconf.y:531-534. */
module DepChecks {
  import opened Tristate
  import opened Exprs
  import opened Symbols

  /* ---- the dependency relation ---- */

  /** Selects and choice properties are not followed: their conditions are in the rev_dep of what they select. */
  function PropSyms(p: Prop): set<Symbol> {
    match p
    case Select(_) => {}
    case Prompt(vis) => OSyms(vis)
    case Default(vis, e) => OSyms(vis) + Syms(e)
    case Other(vis) => OSyms(vis)
  }

  function PropsSyms(props: seq<Prop>): set<Symbol> {
    if props == [] then {} else PropSyms(props[0]) + PropsSyms(props[1..])
  }

  /** The size of the expressions of a property */
  function PropSize(p: Prop): nat {
    (if p.vis.None? then 0 else 1 + Size(p.vis.value)) + (if p.Default? then Size(p.expr) else 0)
  }

  /** The symbols that the check follows from a symbol. */
  function CheckedSyms(d: Decl): set<Symbol> { OSyms(d.revDep) + PropsSyms(d.props) }

  /** They are those of what selects it, and of the conditions and defaults of its properties, except selects. */
  lemma {:induction false} CheckedExactly(d: Decl, x: Symbol)
    ensures x in CheckedSyms(d) <==>
            || (d.revDep.Some? && x in Syms(d.revDep.value))
            || exists i :: 0 <= i < |d.props| && !d.props[i].Select?
                 && ((d.props[i].vis.Some? && x in Syms(d.props[i].vis.value))
                     || (d.props[i].Default? && x in Syms(d.props[i].expr)))
  {
    PropsExactly(d.props, x);
    assert forall i :: 0 <= i < |d.props| ==>
        (x in PropSyms(d.props[i]) <==>
         && !d.props[i].Select?
         && ((d.props[i].vis.Some? && x in Syms(d.props[i].vis.value))
             || (d.props[i].Default? && x in Syms(d.props[i].expr))));
  }

  lemma {:induction false} PropsExactly(props: seq<Prop>, x: Symbol)
    ensures x in PropsSyms(props) <==> exists i :: 0 <= i < |props| && x in PropSyms(props[i])
  {
    if props != [] {
      PropsExactly(props[1..], x);
      assert forall i :: 0 < i < |props| ==> props[i] == props[1..][i - 1];
      if i :| 0 <= i < |props| - 1 && x in PropSyms(props[1..][i]) { assert props[i + 1] == props[1..][i]; }
    }
  }

  predicate Known(tab: Table, xs: set<Symbol>) { forall x :: x in xs && x.Conf? ==> x.id < |tab.decls| }

  /** A table without choices all of whose expressions are about its own symbols */
  ghost predicate Checkable(tab: Table) {
    forall i :: 0 <= i < |tab.decls| ==> tab.decls[i].role.Plain? && Known(tab, CheckedSyms(tab.decls[i]))
  }

  predicate Mentions(xs: set<Symbol>, b: nat) { exists x :: x in xs && x.Conf? && x.id == b }

  ghost predicate Edge(tab: Table, a: nat, b: nat) {
    a < |tab.decls| && Mentions(CheckedSyms(tab.decls[a]), b)
  }

  ghost predicate Path(tab: Table, p: seq<nat>) {
    forall i :: 0 <= i < |p| - 1 ==> Edge(tab, p[i], p[i + 1])
  }

  ghost predicate Cycle(tab: Table, p: seq<nat>) {
    |p| >= 2 && p[0] == p[|p| - 1] && Path(tab, p)
  }

  ghost predicate Cyclic(tab: Table) { exists p :: Cycle(tab, p) }

  /** `fin` lists symbols so that each comes after all it depends on. */
  ghost predicate Ordered(tab: Table, fin: seq<nat>) {
    && (forall k :: 0 <= k < |fin| ==> fin[k] < |tab.decls| && Behind(tab, fin, k))
    && (forall j, k :: 0 <= j < k < |fin| ==> fin[j] != fin[k])
  }

  /** What the k-th symbol of the list depends on is earlier in the list. */
  ghost predicate Behind(tab: Table, fin: seq<nat>, k: nat)
    requires k < |fin|
  {
    fin[k] < |tab.decls| && Covered(CheckedSyms(tab.decls[fin[k]]), fin[..k])
  }

  predicate Covered(xs: set<Symbol>, ids: seq<nat>) { forall x :: x in xs && x.Conf? ==> x.id in ids }

  lemma {:induction false} ExtendOrder(tab: Table, fin: seq<nat>, s: nat)
    requires Ordered(tab, fin) && s < |tab.decls| && s !in fin && Covered(CheckedSyms(tab.decls[s]), fin)
    ensures Ordered(tab, fin + [s])
  {
    var g := fin + [s];
    forall k | 0 <= k < |g| ensures g[k] < |tab.decls| && Behind(tab, g, k) {
      if k < |fin| { assert Behind(tab, fin, k) && g[..k] == fin[..k]; } else { assert g[..k] == fin; }
    }
  }

  /** Along a path that starts in the order one goes back in it. */
  lemma {:induction false} PathGoesBack(tab: Table, fin: seq<nat>, p: seq<nat>, k: nat) returns (j: nat)
    requires Ordered(tab, fin) && Path(tab, p) && |p| >= 2 && k < |fin| && fin[k] == p[0]
    ensures j < k && fin[j] == p[|p| - 1]
    decreases |p|
  {
    assert Edge(tab, p[0], p[1]) && Behind(tab, fin, k);
    j :| 0 <= j < k && fin[..k][j] == p[1];
    if |p| > 2 {
      forall i | 0 <= i < |p[1..]| - 1 ensures Edge(tab, p[1..][i], p[1..][i + 1]) {
        assert Edge(tab, p[i + 1], p[i + 2]);
      }
      j := PathGoesBack(tab, fin, p[1..], j);
    }
  }

  predicate AllIn(tab: Table, fin: seq<nat>) { forall x: nat :: x < |tab.decls| ==> x in fin }

  /** A table whose symbols all have a place in such an order has no cycle. */
  lemma {:induction false} OrderedNotCyclic(tab: Table, fin: seq<nat>, p: seq<nat>)
    requires Ordered(tab, fin) && AllIn(tab, fin)
    ensures !Cycle(tab, p)
  {
    if Cycle(tab, p) {
      assert Edge(tab, p[0], p[1]) && p[0] in fin;
      var k: nat :| k < |fin| && fin[k] == p[0];
      var j := PathGoesBack(tab, fin, p, k);
    }
  }

  /* ---- the order is the ranking that evaluation needs ---- */

  function Place(fin: seq<nat>, x: nat): (k: nat)
    requires x in fin
    ensures k < |fin| && fin[k] == x
  {
    if fin[0] == x then 0 else 1 + Place(fin[1..], x)
  }

  /** The dependencies of a symbol are among the conditions the check follows: they are those of the
      property that records where the symbol is defined. */
  ghost predicate DepsFollowed(tab: Table) {
    forall i :: 0 <= i < |tab.decls| ==> OSyms(tab.decls[i].dirDep) <= CheckedSyms(tab.decls[i])
  }

  lemma {:induction false} PropsFollowed(props: seq<Prop>)
    ensures PromptSyms(props) + DefaultSyms(props) <= PropsSyms(props)
  {
    if props != [] { PropsFollowed(props[1..]); }
  }

  /** A sweep that reports nothing yields a ranking along which every symbol can be evaluated. */
  lemma {:induction false} OrderRanks(tab: Table, fin: seq<nat>) returns (rank: seq<nat>)
    requires WellFormed(tab) && Checkable(tab) && DepsFollowed(tab)
    requires Ordered(tab, fin) && AllIn(tab, fin)
    ensures Acyclic(tab, rank)
  {
    rank := seq(|tab.decls|, i requires 0 <= i < |tab.decls| => Place(fin, i));
    forall id | 0 <= id < |tab.decls| ensures Ranked(tab, rank, id) {
      var d, k := tab.decls[id], Place(fin, id);
      PropsFollowed(d.props);
      assert Behind(tab, fin, k) && WellFormedDecl(tab, id);
      forall x | x in Deps(d) ensures Below(x, rank, rank[id]) {
        assert x in CheckedSyms(d);
        if x.Conf? {
          var j :| 0 <= j < k && fin[..k][j] == x.id;
          assert fin[j] == x.id && fin[Place(fin, x.id)] == x.id;
        }
      }
    }
  }

  class DepChecker {
    const tab: Table
    /** SYMBOL_CHECK and SYMBOL_CHECKED */
    var check: seq<bool>
    var checked: seq<bool>
    /** the dep_stack entries from the bottom to check_top */
    var stack: seq<nat>
    /** how often sym_check_print_recursive has been called */
    var reports: nat
    /** the symbols whose check is complete, in the order of completion */
    ghost var fin: seq<nat>

    ghost predicate Valid()
      reads this
    {
      && Checkable(tab) && |check| == |checked| == |tab.decls|
      && Path(tab, stack)
      && (forall i :: 0 <= i < |stack| ==> stack[i] < |check|)
      && (forall x: nat :: x < |check| ==> (check[x] <==> x in stack))
      && (forall x: nat :: x < |check| && check[x] ==> checked[x])
      && (reports > 0 ==> Cyclic(tab))
      && (reports == 0 ==>
            Ordered(tab, fin) && forall x: nat :: x < |check| ==> (x in fin <==> checked[x] && !check[x]))
    }

    ghost function Unchecked(): set<nat>
      reads this
    {
      set x: nat | x < |checked| && !checked[x]
    }

    /** What a call leaves: the stack as it was, nothing unchecked again; a symbol it returns is one
        whose check is under way, and has been reported. */
    twostate predicate Step(new r: Option<nat>)
      reads this
    {
      && Valid() && stack == old(stack) && check == old(check)
      && Unchecked() <= old(Unchecked())
      && old(reports) <= reports
      && (r.Some? ==> r.value in stack && reports > 0)
      && old(fin) <= fin
    }

    constructor (tab: Table)
      requires Checkable(tab)
      ensures this.tab == tab && Valid() && stack == [] && reports == 0 && fin == []
      ensures forall i :: 0 <= i < |checked| ==> !checked[i]
    {
      this.tab := tab;
      check := seq(|tab.decls|, _ => false);
      checked := seq(|tab.decls|, _ => false);
      stack, reports, fin := [], 0, [];
    }

    /** sym_check_print_recursive: the stack from `s` to its top is the cycle it prints. */
    method Report(s: nat)
      requires Valid() && s < |check| && check[s]
      requires stack != [] && Edge(tab, stack[|stack| - 1], s)
      modifies this`reports
      ensures Valid() && reports > 0 && old(reports) <= reports
    {
      var i: int := |stack| - 1;
      while i >= 0 && stack[i] != s
        invariant -1 <= i < |stack| && s in stack[..i + 1]
      {
        assert stack[..i + 1] == stack[..i] + [stack[i]];
        i := i - 1;
      }
      ghost var p := stack[i..] + [s];
      assert Cycle(tab, p) by {
        forall k | 0 <= k < |p| - 1 ensures Edge(tab, p[k], p[k + 1]) {
          if k < |p| - 2 { assert Edge(tab, stack[i + k], stack[i + k + 1]); }
        }
      }
      reports := reports + 1;
    }

    /** sym_check_deps */
    method CheckDeps(s: nat) returns (r: Option<nat>)
      requires Valid() && s < |check|
      requires stack != [] ==> Edge(tab, stack[|stack| - 1], s)
      modifies this
      ensures Step(r)
      ensures reports == 0 ==> s in fin
      ensures old(stack) == [] ==> r == None
      decreases Unchecked(), 2
    {
      if check[s] {
        Report(s);
        return Some(s);
      }
      if checked[s] { return None; }
      r := CheckFresh(s);
    }

    /** sym_check_deps on a symbol not looked at before, with sym_check_sym_deps */
    method CheckFresh(s: nat) returns (r: Option<nat>)
      requires Valid() && s < |check| && !check[s] && !checked[s]
      requires stack != [] ==> Edge(tab, stack[|stack| - 1], s)
      modifies this
      ensures Step(r)
      ensures reports == 0 ==> s in fin
      ensures old(stack) == [] ==> r == None
      decreases Unchecked(), 1
    {
      ghost var below, flags := stack, check;
      Enter(s);
      r := CheckOptional(tab.decls[s].revDep, s);
      if r.None? { r := CheckProps(s); }
      Leave(s, below, flags);
      if r == Some(s) { r := None; }
    }

    /** SYMBOL_CHECK and SYMBOL_CHECKED are set, and the symbol goes on the stack. */
    method Enter(s: nat)
      requires Valid() && s < |check| && !check[s] && !checked[s]
      requires stack != [] ==> Edge(tab, stack[|stack| - 1], s)
      modifies this`check, this`checked, this`stack
      ensures Valid() && stack == old(stack) + [s] && check == old(check)[s := true]
      ensures Unchecked() < old(Unchecked())
    {
      check, checked := check[s := true], checked[s := true];
      stack := stack + [s];
      assert s !in Unchecked() && s in old(Unchecked());
    }

    /** The symbol leaves the stack, its check complete unless something was reported. */
    method Leave(s: nat, ghost below: seq<nat>, ghost flags: seq<bool>)
      requires Valid() && stack == below + [s] && s < |flags| && check == flags[s := true] && !flags[s]
      requires s !in below && (reports == 0 ==> Covered(CheckedSyms(tab.decls[s]), fin))
      modifies this`check, this`stack, this`fin
      ensures Valid() && stack == below && check == flags && old(fin) <= fin
      ensures reports == 0 ==> s in fin
    {
      assert check[s] && (reports == 0 ==> s !in fin);
      assert forall i :: 0 <= i < |below| ==> below[i] == stack[i];
      assert forall x :: x in stack <==> x in below || x == s;
      stack := stack[..|stack| - 1];
      check := check[s := false];
      if reports == 0 {
        ExtendOrder(tab, fin, s);
        fin := fin + [s];
      }
    }

    /** The loop over the properties in sym_check_sym_deps */
    method CheckProps(s: nat) returns (r: Option<nat>)
      requires Valid() && stack != [] && stack[|stack| - 1] == s
      modifies this
      ensures Step(r)
      ensures reports == 0 ==> Covered(PropsSyms(tab.decls[s].props), fin)
      decreases Unchecked(), 4, 0
    {
      var props := tab.decls[s].props;
      ghost var seen := {};
      r := None;
      for i := 0 to |props|
        invariant Step(r) && r == None
        invariant seen + PropsSyms(props[i..]) == PropsSyms(props)
        invariant reports == 0 ==> Covered(seen, fin)
      {
        assert props[i..][0] == props[i] && props[i..][1..] == props[i + 1..];
        var p := props[i];
        r := CheckProp(p, s);
        if r.Some? { return; }
        seen := seen + PropSyms(p);
      }
      assert props[|props|..] == [];
    }

    /** The body of that loop */
    method CheckProp(p: Prop, s: nat) returns (r: Option<nat>)
      requires Valid() && stack != [] && stack[|stack| - 1] == s && PropSyms(p) <= CheckedSyms(tab.decls[s])
      modifies this
      ensures Step(r)
      ensures reports == 0 ==> Covered(PropSyms(p), fin)
      decreases Unchecked(), 3, 1 + PropSize(p)
    {
      r := None;
      if p.Select? { return; }
      r := CheckOptional(p.vis, s);
      if r.None? && p.Default? { r := CheckExpr(p.expr, s); }
    }

    method CheckOptional(e: OExpr, s: nat) returns (r: Option<nat>)
      requires Valid() && stack != [] && stack[|stack| - 1] == s && OSyms(e) <= CheckedSyms(tab.decls[s])
      modifies this
      ensures Step(r)
      ensures reports == 0 ==> Covered(OSyms(e), fin)
      decreases Unchecked(), 3, if e.None? then 0 else 1 + Size(e.value)
    {
      r := None;
      if e.Some? { r := CheckExpr(e.value, s); }
    }

    /** sym_check_expr_deps */
    method CheckExpr(e: Expr, s: nat) returns (r: Option<nat>)
      requires Valid() && stack != [] && stack[|stack| - 1] == s && Syms(e) <= CheckedSyms(tab.decls[s])
      modifies this
      ensures Step(r)
      ensures reports == 0 ==> Covered(Syms(e), fin)
      decreases Unchecked(), 3, Size(e)
    {
      match e
      case Bin(_, a, b) =>
        r := CheckExpr(a, s);
        if r.Some? { return; }
        r := CheckExpr(b, s);
      case Not(x) => r := CheckExpr(x, s);
      case Sym(x) => r := CheckSymbol(x, s);
      case Cmp(_, a, b) =>
        r := CheckSymbol(a, s);
        if r.Some? { return; }
        r := CheckSymbol(b, s);
    }

    method CheckSymbol(x: Symbol, s: nat) returns (r: Option<nat>)
      requires Valid() && stack != [] && stack[|stack| - 1] == s && x in CheckedSyms(tab.decls[s])
      modifies this
      ensures Step(r)
      ensures reports == 0 ==> Covered({x}, fin)
      decreases Unchecked(), 3, 0
    {
      r := None;
      if x.Conf? { r := CheckDeps(x.id); }
    }

    /** The sweep after parsing: it reports a recursive dependency exactly if there is one, although no
        call returns a symbol for the parser to count. */
    method Sweep() returns (errors: int)
      requires Valid() && stack == [] && reports == 0 && fin == [] && forall i :: 0 <= i < |checked| ==> !checked[i]
      modifies this
      ensures Valid() && stack == [] && errors == 0
      ensures reports > 0 <==> Cyclic(tab)
      ensures reports == 0 ==> Ordered(tab, fin) && AllIn(tab, fin)
    {
      errors := 0;
      for s := 0 to |check|
        invariant Valid() && stack == [] && errors == 0 && |check| == |tab.decls|
        invariant reports == 0 ==> forall x: nat :: x < s ==> x in fin
      {
        var r := CheckDeps(s);
        if r.Some? { errors := errors + 1; }
      }
      if reports == 0 && Cyclic(tab) {
        var p :| Cycle(tab, p);
        OrderedNotCyclic(tab, fin, p);
      }
    }
  }
}
