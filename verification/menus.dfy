/** menu_finalize (scripts/config/menu.c:282-444) as a function on the tree of menu entries: dependencies
    are pushed down, following entries that depend on a symbol become its submenu, and the submenus of
    entries without a prompt are dissolved. */
module Menus {
  import opened Tristate
  import opened Exprs
  import opened Transforms
  import opened Equality
  import opened Dups
  import opened Compares

  /** An entry with the entries below it */
  datatype Tree = Node(id: nat, kids: seq<Tree>)

  /** What parsing fixes of an entry: its symbol, whether that is a choice, and which of the conditions
      belongs to the prompt, if there is one. */
  datatype Info = Info(sym: Option<Symbol>, choice: bool, prompt: Option<nat>)

  /** menu->dep and the visible.expr of the properties made for the entry.  The guard is the choice that must be
      y: menu_finalize puts that conjunct in front of all of these for boolean values of tristate choices, when
      it is done with the entry and its dependency has been pushed down; FinalDep and FinalCond are the
      expressions with it. */
  datatype Data = Data(dep: OExpr, conds: seq<OExpr>, guard: Option<Symbol>)

  /** All entries, the dir_dep.expr of the symbols, and the symbols that have become choice values */
  datatype State = State(data: seq<Data>, dir: map<Symbol, OExpr>, values: set<Symbol>)

  function AllocAnd(a: OExpr, b: OExpr): OExpr {
    if a.None? then b else if b.None? then a else Some(Bin(Conj, a.value, b.value))
  }

  function Guarded(d: Data, e: OExpr): OExpr {
    if d.guard.None? then e else AllocAnd(Some(Cmp(Eq, d.guard.value, SYM_YES)), e)
  }

  /** menu->dep as it is left */
  function FinalDep(d: Data): OExpr { Guarded(d, d.dep) }

  /** The visible.expr of the i-th property as it is left */
  function FinalCond(d: Data, i: nat): OExpr
    requires i < |d.conds|
  {
    Guarded(d, d.conds[i])
  }

  function AllocOr(a: OExpr, b: OExpr): OExpr {
    if a.None? then b else if b.None? then a else Some(Bin(Disj, a.value, b.value))
  }

  /* ---- pushing dependencies down one level ---- */

  function PromptCond(info: Info, d: Data): OExpr {
    if info.prompt.Some? && info.prompt.value < |d.conds| then d.conds[info.prompt.value] else None
  }

  /** parentdep: what every entry right below this one depends on */
  function Limit(info: Info, d: Data): OExpr {
    if info.choice && info.sym.Some? then Some(Sym(info.sym.value))
    else if info.prompt.Some? then PromptCond(info, d)
    else d.dep
  }

  predicate ForTristate(info: Info) { info.sym.None? || TypeOf(info.sym.value).Tristate? }

  function BaseDep(limit: OExpr, dep: OExpr): OExpr { OEliminateDups(AllocAnd(limit, OTransform(dep))) }

  function FinishCond(info: Info, base: OExpr, c: OExpr): OExpr {
    var x := BaseDep(base, c);
    if ForTristate(info) then x else OTransBool(x)
  }

  function PushInto(info: Info, limit: OExpr, d: Data): Data {
    var base := BaseDep(limit, d.dep);
    d.(dep := base, conds := seq(|d.conds|, i requires 0 <= i < |d.conds| => FinishCond(info, base, d.conds[i])))
  }

  /** The loop over the direct subentries */
  function PushDown(infos: seq<Info>, data: seq<Data>, limit: OExpr, ts: seq<Tree>): (r: seq<Data>)
    requires |infos| == |data| && forall t :: t in ts ==> t.id < |data|
    ensures |r| == |data|
    decreases |ts|
  {
    if ts == [] then data
    else
      var id := ts[0].id;
      PushDown(infos, data[id := PushInto(infos[id], limit, data[id])], limit, ts[1..])
  }

  /* ---- which following entries belong below a symbol ---- */

  function SubmenuCond(info: Info, d: Data): OExpr { if info.prompt.Some? then PromptCond(info, d) else d.dep }

  /** The entry x follows the entry m of a symbol: does it become part of m's submenu? */
  predicate Absorbs(infos: seq<Info>, data: seq<Data>, m: nat, x: nat)
    requires |infos| == |data| && m < |data| && x < |data|
  {
    var dep := SubmenuCond(infos[x], data[x]);
    infos[m].sym.Some? && ContainsSymbol(dep, infos[m].sym.value)
    && (DependsSymbol(dep.value, infos[m].sym.value)
        || EliminateEq(NotNo(dep), NotNo(PromptCond(infos[m], data[m]))).1 == Sym(SYM_YES))
  }

  /** The lists of trees, and their sizes */
  function Count(ts: seq<Tree>): nat {
    if ts == [] then 0 else 1 + Count(ts[0].kids) + Count(ts[1..])
  }

  function Preorder(ts: seq<Tree>): seq<nat> {
    if ts == [] then [] else [ts[0].id] + Preorder(ts[0].kids) + Preorder(ts[1..])
  }

  lemma {:induction false} CountAppend(a: seq<Tree>, b: seq<Tree>)
    ensures Count(a + b) == Count(a) + Count(b)
    decreases |a|
  {
    if a == [] {
      assert a + b == b;
    } else {
      assert (a + b)[1..] == a[1..] + b && (a + b)[0] == a[0];
      CountAppend(a[1..], b);
    }
  }

  lemma {:induction false} PreorderAppend(a: seq<Tree>, b: seq<Tree>)
    ensures Preorder(a + b) == Preorder(a) + Preorder(b)
    decreases |a|
  {
    if a == [] {
      assert a + b == b;
    } else {
      assert (a + b)[1..] == a[1..] + b && (a + b)[0] == a[0];
      PreorderAppend(a[1..], b);
      var x, y, z := [a[0].id] + Preorder(a[0].kids), Preorder(a[1..]), Preorder(b);
      assert x + (y + z) == x + y + z;
    }
  }

  lemma {:induction false} PreorderCons(t: Tree, ts: seq<Tree>)
    ensures Preorder([t] + ts) == [t.id] + Preorder(t.kids) + Preorder(ts)
    ensures Count([t] + ts) == 1 + Count(t.kids) + Count(ts)
  {
    assert ([t] + ts)[1..] == ts;
  }

  /* ---- every entry occurs once ---- */

  ghost predicate Disjoint(a: seq<nat>, b: seq<nat>) { forall x :: x in a ==> x !in b }

  ghost predicate Distinct(a: seq<nat>) { forall i, j :: 0 <= i < j < |a| ==> a[i] != a[j] }

  lemma {:induction false} DistinctParts(a: seq<nat>, b: seq<nat>)
    requires Distinct(a + b)
    ensures Distinct(a) && Distinct(b) && Disjoint(a, b) && Disjoint(b, a)
  {
    var c := a + b;
    assert forall i :: 0 <= i < |a| ==> c[i] == a[i];
    assert forall i :: 0 <= i < |b| ==> c[|a| + i] == b[i];
    forall x | x in a ensures x !in b {
      var i :| 0 <= i < |a| && a[i] == x;
      forall j | 0 <= j < |b| ensures b[j] != x { assert c[i] != c[|a| + j]; }
    }
  }

  lemma {:induction false} DistinctTree(t: Tree, ts: seq<Tree>)
    requires Distinct(Preorder([t] + ts))
    ensures Distinct(Preorder(t.kids)) && Distinct(Preorder(ts)) && Disjoint(Preorder(t.kids), Preorder(ts))
    ensures t.id !in Preorder(t.kids) && t.id !in Preorder(ts)
    ensures Disjoint(Preorder(ts), Preorder(t.kids))
  {
    PreorderCons(t, ts);
    var a, b := Preorder(t.kids), Preorder(ts);
    assert [t.id] + (a + b) == [t.id] + a + b;
    DistinctParts([t.id], a + b);
    DistinctParts(a, b);
    assert t.id in [t.id];
    assert t.id !in a + b;
  }

  lemma {:induction false} FlatHead(t: Tree, ts: seq<Tree>, rest: seq<Tree>)
    requires ts != [] && Preorder(rest) == Preorder(ts[0].kids + ts[1..]) && Count(rest) == Count(ts[0].kids + ts[1..])
    requires t == Node(ts[0].id, [])
    ensures Preorder([t] + rest) == Preorder(ts) && Count([t] + rest) == Count(ts)
  {
    CountAppend(ts[0].kids, ts[1..]);
    PreorderAppend(ts[0].kids, ts[1..]);
    PreorderCons(t, rest);
    Regrouped([t.id], Preorder(ts[0].kids), Preorder(ts[1..]));
  }

  lemma {:induction false} Regrouped(a: seq<nat>, b: seq<nat>, c: seq<nat>)
    ensures a + [] + (b + c) == a + b + c
  {
  }

  /** Entries whose prompt is missing lose their submenu to their own list. */
  function Flatten(infos: seq<Info>, ts: seq<Tree>): (r: seq<Tree>)
    ensures Preorder(r) == Preorder(ts) && Count(r) == Count(ts)
    decreases Count(ts)
  {
    if ts == [] then []
    else if ts[0].kids != [] && ts[0].id < |infos| && infos[ts[0].id].prompt.None? then
      CountAppend(ts[0].kids, ts[1..]);
      var rest := Flatten(infos, ts[0].kids + ts[1..]);
      FlatHead(Node(ts[0].id, []), ts, rest);
      [Node(ts[0].id, [])] + rest
    else
      var rest := Flatten(infos, ts[1..]);
      PreorderCons(ts[0], rest);
      [ts[0]] + rest
  }

  /** An entry of the choice c becomes its value; a boolean value of a tristate choice needs c at y. */
  function Mark(infos: seq<Info>, s: State, c: Symbol, id: nat): (r: State)
    requires |infos| == |s.data| && id < |infos|
    ensures |r.data| == |s.data|
  {
    var sym := infos[id].sym;
    if sym.None? || sym.value in s.values then s
    else
      s.(values := s.values + {sym.value},
         data := if TypeOf(c).Tristate? && !TypeOf(sym.value).Tristate? then s.data[id := s.data[id].(guard := Some(c))]
                 else s.data)
  }

  function PutGuards(infos: seq<Info>, s: State, c: Symbol, ts: seq<Tree>): (r: State)
    requires |infos| == |s.data| && forall t :: t in ts ==> t.id < |infos|
    ensures |r.data| == |s.data|
    decreases |ts|
  {
    if ts == [] then s else PutGuards(infos, Mark(infos, s, c, ts[0].id), c, ts[1..])
  }

  /* ---- menu_finalize ---- */

  predicate Fits(ts: seq<Tree>, n: nat) { forall id :: id in Preorder(ts) ==> id < n }

  lemma {:induction false} FitsParts(ts: seq<Tree>, n: nat)
    requires Fits(ts, n)
    ensures ts != [] ==> ts[0].id < n && Fits(ts[0].kids, n) && Fits(ts[1..], n)
    ensures forall t :: t in ts ==> t.id < n
    decreases |ts|
  {
    if ts != [] {
      var p := Preorder(ts);
      assert p[0] == ts[0].id && ts[0].id in p;
      assert forall id :: id in Preorder(ts[0].kids) || id in Preorder(ts[1..]) ==> id in p;
      FitsParts(ts[1..], n);
      forall t | t in ts ensures t.id < n { assert t == ts[0] || t in ts[1..]; }
    }
  }

  /** What menu_finalize leaves of the list it works on: the entry it was called on, the entries that
      still follow it, and the entries it was called on in turn, in order. */
  datatype Outcome = Outcome(s: State, head: Tree, rest: seq<Tree>, calls: seq<nat>)

  /** The same for the loops that call it on a list: the entries they are done with, and those left. */
  datatype ListOutcome = ListOutcome(s: State, done: seq<Tree>, rest: seq<Tree>, calls: seq<nat>)

  /** The last part of menu_finalize: submenus without a prompt are dissolved, choice values recorded. */
  function Close(infos: seq<Info>, s: State, m: nat, kids: seq<Tree>): (r: (State, seq<Tree>))
    requires |infos| == |s.data| && m < |infos| && Fits(kids, |infos|)
    ensures |r.0.data| == |s.data| && Preorder(r.1) == Preorder(kids) && Count(r.1) == Count(kids)
  {
    var flat := Flatten(infos, kids);
    FitsParts(flat, |infos|);
    (if infos[m].choice && infos[m].sym.Some? then PutGuards(infos, s, infos[m].sym.value, flat) else s, flat)
  }

  function WithDir(s: State, sym: Symbol, dep: OExpr): State {
    s.(dir := s.dir[sym := AllocOr(if sym in s.dir then s.dir[sym] else None, dep)])
  }

  lemma {:induction false} FitsCons(t: Tree, ts: seq<Tree>, n: nat)
    requires t.id < n && Fits(t.kids, n) && Fits(ts, n)
    ensures Fits([t] + ts, n)
  {
    PreorderCons(t, ts);
  }

  /** menu_finalize(ts[0]), where ts[1..] are the entries that follow it in its list */
  function Finalize(infos: seq<Info>, s: State, ts: seq<Tree>): (r: Outcome)
    requires ts != [] && |infos| == |s.data| && Fits(ts, |infos|)
    ensures |r.s.data| == |s.data|
    ensures Fits([r.head], |infos|) && Fits(r.rest, |infos|) && Count(r.rest) < Count(ts)
    decreases Count(ts), 0
  {
    FitsParts(ts, |infos|);
    var m, kids := ts[0].id, ts[0].kids;
    PreorderCons(ts[0], []);
    if kids != [] then
      FitsParts(kids, |infos|);
      var s1 := s.(data := PushDown(infos, s.data, Limit(infos[m], s.data[m]), kids));
      var r := FinalizeAll(infos, s1, kids);
      var (s2, sub) := Close(infos, r.s, m, r.done);
      FitsCons(Node(m, sub), [], |infos|);
      Outcome(s2, Node(m, sub), ts[1..], [m] + r.calls)
    else if infos[m].sym.Some? then
      var r := Absorb(infos, s, m, ts[1..]);
      var s1 := WithDir(r.s, infos[m].sym.value, r.s.data[m].dep);
      var (s2, sub) := Close(infos, s1, m, r.done);
      FitsCons(Node(m, sub), [], |infos|);
      Outcome(s2, Node(m, sub), r.rest, [m] + r.calls)
    else Outcome(s, ts[0], ts[1..], [m])
  }

  /** The loop that finalizes all subentries */
  function FinalizeAll(infos: seq<Info>, s: State, ts: seq<Tree>): (r: ListOutcome)
    requires |infos| == |s.data| && Fits(ts, |infos|)
    ensures |r.s.data| == |s.data| && r.rest == [] && Fits(r.done, |infos|)
    decreases Count(ts), 1
  {
    if ts == [] then ListOutcome(s, [], [], [])
    else
      var x := Finalize(infos, s, ts);
      var r := FinalizeAll(infos, x.s, x.rest);
      FitsJoin(x.head, r.done, |infos|);
      ListOutcome(r.s, [x.head] + r.done, [], x.calls + r.calls)
  }

  /** The loop that makes following entries a submenu of m */
  function Absorb(infos: seq<Info>, s: State, m: nat, ts: seq<Tree>): (r: ListOutcome)
    requires |infos| == |s.data| && m < |infos| && Fits(ts, |infos|)
    ensures |r.s.data| == |s.data| && Fits(r.done, |infos|) && Fits(r.rest, |infos|)
    ensures Count(r.rest) <= Count(ts)
    decreases Count(ts), 1
  {
    FitsParts(ts, |infos|);
    if ts == [] || !Absorbs(infos, s.data, m, ts[0].id) then ListOutcome(s, [], ts, [])
    else
      var x := Finalize(infos, s, ts);
      var r := Absorb(infos, x.s, m, x.rest);
      FitsJoin(x.head, r.done, |infos|);
      ListOutcome(r.s, [x.head] + r.done, r.rest, x.calls + r.calls)
  }

  lemma {:induction false} FitsJoin(t: Tree, ts: seq<Tree>, n: nat)
    requires Fits([t], n) && Fits(ts, n)
    ensures Fits([t] + ts, n)
  {
    PreorderAppend([t], ts);
  }

  /* ---- document order ---- */

  /** menu_finalize is called on every entry once, in document order, and keeps that order. */
  lemma {:induction false} FinalizeOrder(infos: seq<Info>, s: State, ts: seq<Tree>)
    requires ts != [] && |infos| == |s.data| && Fits(ts, |infos|)
    ensures var r := Finalize(infos, s, ts);
      && r.calls + Preorder(r.rest) == Preorder(ts)
      && Preorder([r.head]) == r.calls
    decreases Count(ts), 0
  {
    FitsParts(ts, |infos|);
    if ts[0].kids != [] {
      ParentOrder(infos, s, ts);
    } else if infos[ts[0].id].sym.Some? {
      SymbolOrder(infos, s, ts);
    } else {
      LeafOrder(infos, s, ts);
    }
  }

  lemma {:induction false} LeafOrder(infos: seq<Info>, s: State, ts: seq<Tree>)
    requires ts != [] && |infos| == |s.data| && Fits(ts, |infos|)
    requires ts[0].kids == [] && ts[0].id < |infos| && infos[ts[0].id].sym.None?
    ensures var r := Finalize(infos, s, ts);
      r.calls + Preorder(r.rest) == Preorder(ts) && Preorder([r.head]) == r.calls
  {
    assert Finalize(infos, s, ts) == Outcome(s, ts[0], ts[1..], [ts[0].id]);
    HeadOrder(ts[0].id, [], []);
    assert ts[0] == Node(ts[0].id, []);
  }

  lemma {:induction false} ParentOrder(infos: seq<Info>, s: State, ts: seq<Tree>)
    requires ts != [] && |infos| == |s.data| && Fits(ts, |infos|) && ts[0].kids != []
    ensures var r := Finalize(infos, s, ts);
      r.calls + Preorder(r.rest) == Preorder(ts) && Preorder([r.head]) == r.calls
    decreases Count(ts), 0, 0
  {
    FitsParts(ts, |infos|);
    var m, kids := ts[0].id, ts[0].kids;
    FitsParts(kids, |infos|);
    var s1 := s.(data := PushDown(infos, s.data, Limit(infos[m], s.data[m]), kids));
    FinalizeAllOrder(infos, s1, kids);
    var r := FinalizeAll(infos, s1, kids);
    HeadOrder(m, Close(infos, r.s, m, r.done).1, r.done);
  }

  /** The case of an entry with a symbol and no subentries, taken apart */
  lemma {:induction false} SymbolCase(infos: seq<Info>, s: State, ts: seq<Tree>)
        returns (r: ListOutcome, sub: seq<Tree>)
    requires ts != [] && |infos| == |s.data| && Fits(ts, |infos|)
    requires ts[0].kids == [] && ts[0].id < |infos| && infos[ts[0].id].sym.Some?
    ensures Fits(ts[1..], |infos|) && r == Absorb(infos, s, ts[0].id, ts[1..])
    ensures var f := Finalize(infos, s, ts);
      f.head == Node(ts[0].id, sub) && f.rest == r.rest && f.calls == [ts[0].id] + r.calls
    ensures Preorder(sub) == Preorder(r.done)
  {
    FitsParts(ts, |infos|);
    r := Absorb(infos, s, ts[0].id, ts[1..]);
    var s1 := WithDir(r.s, infos[ts[0].id].sym.value, r.s.data[ts[0].id].dep);
    sub := Close(infos, s1, ts[0].id, r.done).1;
  }

  lemma {:induction false} OrderOf(f: Outcome, ts: seq<Tree>, r: ListOutcome)
    requires ts != [] && ts[0].kids == [] && f.head.id == ts[0].id
    requires f.rest == r.rest && f.calls == [ts[0].id] + r.calls && Preorder(f.head.kids) == r.calls
    requires r.calls + Preorder(r.rest) == Preorder(ts[1..])
    ensures f.calls + Preorder(f.rest) == Preorder(ts) && Preorder([f.head]) == f.calls
  {
    HeadOrder(f.head.id, f.head.kids, f.head.kids);
    var x, y, z := [ts[0].id], r.calls, Preorder(r.rest);
    assert x + (y + z) == x + y + z;
    assert Preorder(ts) == x + Preorder(ts[1..]);
  }

  lemma {:induction false} SymbolOrder(infos: seq<Info>, s: State, ts: seq<Tree>)
    requires ts != [] && |infos| == |s.data| && Fits(ts, |infos|)
    requires ts[0].kids == [] && ts[0].id < |infos| && infos[ts[0].id].sym.Some?
    ensures var r := Finalize(infos, s, ts);
      r.calls + Preorder(r.rest) == Preorder(ts) && Preorder([r.head]) == r.calls
    decreases Count(ts), 0, 0
  {
    var r, sub := SymbolCase(infos, s, ts);
    AbsorbOrder(infos, s, ts[0].id, ts[1..]);
    OrderOf(Finalize(infos, s, ts), ts, r);
  }

  lemma {:induction false} HeadOrder(m: nat, kids: seq<Tree>, ks: seq<Tree>)
    requires Preorder(kids) == Preorder(ks)
    ensures Preorder([Node(m, kids)]) == [m] + Preorder(ks)
  {
    PreorderCons(Node(m, kids), []);
    assert [Node(m, kids)] + [] == [Node(m, kids)];
  }

  lemma {:induction false} FinalizeAllOrder(infos: seq<Info>, s: State, ts: seq<Tree>)
    requires |infos| == |s.data| && Fits(ts, |infos|)
    ensures var r := FinalizeAll(infos, s, ts); r.calls == Preorder(ts) && Preorder(r.done) == r.calls
    decreases Count(ts), 1
  {
    if ts != [] {
      var x := Finalize(infos, s, ts);
      FinalizeOrder(infos, s, ts);
      FinalizeAllOrder(infos, x.s, x.rest);
      PreorderAppend([x.head], FinalizeAll(infos, x.s, x.rest).done);
    }
  }

  lemma {:induction false} AbsorbOrder(infos: seq<Info>, s: State, m: nat, ts: seq<Tree>)
    requires |infos| == |s.data| && m < |infos| && Fits(ts, |infos|)
    ensures var r := Absorb(infos, s, m, ts);
      r.calls + Preorder(r.rest) == Preorder(ts) && Preorder(r.done) == r.calls
    decreases Count(ts), 1
  {
    FitsParts(ts, |infos|);
    if ts != [] && Absorbs(infos, s.data, m, ts[0].id) {
      var x := Finalize(infos, s, ts);
      FinalizeOrder(infos, s, ts);
      AbsorbOrder(infos, x.s, m, x.rest);
      PreorderAppend([x.head], Absorb(infos, x.s, m, x.rest).done);
    }
  }
}
