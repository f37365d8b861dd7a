/** What menu_finalize makes of the visibility of prompts, defaults and selects: it is bounded by the
    dependencies of every enclosing entry (scripts/config/menu.c:308-373). */
module MenuVisibility {
  import opened Tristate
  import opened Exprs
  import opened Transforms
  import opened Equality
  import opened Dups
  import opened Compares
  import opened Menus
  import opened MenuDeps
  import opened Symbols
  import opened SymbolProperties

  ghost predicate OSound(e: OExpr, v: Valuation) { e.Some? ==> Sound(e.value, v) }

  /** A condition menu_finalize has already worked on */
  ghost predicate Clean(e: OExpr, v: Valuation) { e.Some? ==> SettledIn(v, e.value) && NegOnSymbols(e.value) }

  ghost predicate SoundData(d: Data, v: Valuation) {
    OSound(d.dep, v) && forall i :: 0 <= i < |d.conds| ==> OSound(d.conds[i], v)
  }

  /** The prompt is one of the entry's properties, and a choice is a settled symbol. */
  ghost predicate WellFormed(info: Info, d: Data, v: Valuation) {
    && (info.prompt.Some? ==> info.prompt.value < |d.conds|)
    && (info.choice && info.sym.Some? ==> Settled(v, info.sym.value))
  }

  ghost predicate Ready(infos: seq<Info>, data: seq<Data>, v: Valuation) {
    |infos| == |data| && forall i :: 0 <= i < |data| ==> SoundData(data[i], v) && WellFormed(infos[i], data[i], v)
  }

  /** One dependency pushed into one condition */
  lemma {:induction false} BaseDepMeaning(limit: OExpr, dep: OExpr, v: Valuation)
    requires Clean(limit, v) && OSound(dep, v)
    ensures OEval(BaseDep(limit, dep), v) == Min(OEval(limit, v), OEval(dep, v))
    ensures Clean(BaseDep(limit, dep), v)
  {
    if dep.Some? {
      TransformMeaning(dep.value, v);
      TransformNormal(dep.value);
      NormalNegations(Transform(dep.value));
    }
    var x := AllocAnd(limit, OTransform(dep));
    if x.Some? {
      EliminateDupsMeaning(x.value, v);
      EliminateDupsNegations(x.value);
    }
  }

  /** The value `y` of a condition made from the value `x`: the same for tristate symbols, otherwise
      not above it and no only when `x` is. */
  predicate Follows(info: Info, y: Tri, x: Tri) {
    if ForTristate(info) then y == x else Le(y, x) && (y == No <==> x == No)
  }

  lemma {:induction false} FinishCondMeaning(info: Info, base: OExpr, c: OExpr, v: Valuation)
    requires Clean(base, v) && OSound(c, v)
    ensures Follows(info, OEval(FinishCond(info, base, c), v), Min(OEval(base, v), OEval(c, v)))
    ensures Clean(FinishCond(info, base, c), v)
  {
    BaseDepMeaning(base, c, v);
    var x := BaseDep(base, c);
    if x.Some? { TransBoolMeaning(x.value, v); }
  }

  /** The values the conditions of an entry have after the loop, from those before it: `a` is from `b`. */
  ghost predicate Derived(info: Info, b: Data, a: Data, limit: Tri, v: Valuation) {
    && OEval(a.dep, v) == Min(limit, OEval(b.dep, v))
    && |a.conds| == |b.conds|
    && forall i :: 0 <= i < |a.conds| ==>
         Follows(info, OEval(a.conds[i], v), Min(OEval(a.dep, v), OEval(b.conds[i], v)))
  }

  lemma {:induction false} PushIntoMeaning(info: Info, limit: OExpr, d: Data, v: Valuation)
    requires Clean(limit, v) && SoundData(d, v) && WellFormed(info, d, v)
    ensures Derived(info, d, PushInto(info, limit, d), OEval(limit, v), v)
    ensures Clean(Limit(info, PushInto(info, limit, d)), v)
  {
    BaseDepMeaning(limit, d.dep, v);
    var base := BaseDep(limit, d.dep);
    forall i | 0 <= i < |d.conds|
      ensures Follows(info, OEval(FinishCond(info, base, d.conds[i]), v), Min(OEval(base, v), OEval(d.conds[i], v)))
      ensures Clean(FinishCond(info, base, d.conds[i]), v)
    {
      FinishCondMeaning(info, base, d.conds[i], v);
    }
  }

  /** In the whole tree, each entry's conditions derive from its own and from its parent's limit. */
  ghost predicate Obeys(infos: seq<Info>, init: seq<Data>, fin: seq<Data>, limit: Tri, ts: seq<Tree>, v: Valuation)
    decreases ts
  {
    |infos| == |init| == |fin| &&
    (ts == [] ||
      (var id := ts[0].id;
       && id < |infos| && Derived(infos[id], init[id], fin[id], limit, v)
       && Obeys(infos, init, fin, OEval(Limit(infos[id], fin[id]), v), ts[0].kids, v)
       && Obeys(infos, init, fin, limit, ts[1..], v)))
  }

  lemma {:induction false} PushedObeys(infos: seq<Info>, init: seq<Data>, fin: seq<Data>, limit: OExpr, ts: seq<Tree>,
                                       v: Valuation)
    requires Ready(infos, init, v) && Clean(limit, v)
    requires Pushed(infos, init, fin, limit, ts)
    ensures Obeys(infos, init, fin, OEval(limit, v), ts, v)
    decreases ts
  {
    if ts != [] {
      var id := ts[0].id;
      PushIntoMeaning(infos[id], limit, init[id], v);
      PushedObeys(infos, init, fin, Limit(infos[id], fin[id]), ts[0].kids, v);
      PushedObeys(infos, init, fin, limit, ts[1..], v);
    }
  }

  /** Dependency propagation, for a whole menu tree: whatever is re-parented on the way, the visibility
      of each property ends up as the minimum of the original parent's limit, the entry's dependency and
      its own condition (up to not being no, for symbols that are not tristate). */
  lemma {:induction false} FinalizeVisibility(infos: seq<Info>, s: State, root: Tree, v: Valuation)
    requires Ready(infos, s.data, v) && Fits([root], |infos|) && Distinct(Preorder([root]))
    requires root.id < |infos| && Clean(Limit(infos[root.id], s.data[root.id]), v)
    ensures var fin := Finalize(infos, s, [root]).s.data;
      && SameDeps(s.data[root.id], fin[root.id])
      && Obeys(infos, s.data, fin, OEval(Limit(infos[root.id], s.data[root.id]), v), root.kids, v)
  {
    var r := Finalize(infos, s, [root]);
    FinalizePushes(infos, s, [root]);
    FinalizeFrame(infos, s, [root]);
    FinalizeUses(infos, s, [root]);
    assert r.rest == [] && Used([root], r.rest) == [root];
    assert [root] + [] == [root];
    DistinctTree(root, []);
    HeadInner([root]);
    PushedObeys(infos, s.data, r.s.data, Limit(infos[root.id], s.data[root.id]), root.kids, v);
  }

  /* ---- boolean values of tristate choices ---- */

  /** Such a value is available exactly as far as it was, and only while the choice is y. */
  lemma {:induction false} GuardedMeaning(d: Data, e: OExpr, v: Valuation)
    requires d.guard.Some? ==> IsTri(d.guard.value) && Settled(v, d.guard.value)
    ensures OEval(Guarded(d, e), v) ==
      if d.guard.Some? && TriOf(v, d.guard.value) != Yes then No else OEval(e, v)
  {
    if d.guard.Some? {
      TriCompareConst(Eq, d.guard.value, Yes, v);
      assert Eval(Cmp(Eq, d.guard.value, SYM_YES), v) == FromBool(TriOf(v, d.guard.value) == Yes);
    }
  }

  /** Recording the entries ts of the choice c puts the guard on the i-th. */
  predicate Guards(infos: seq<Info>, s: State, c: Symbol, ts: seq<Tree>, i: nat)
    requires i < |ts| && forall t :: t in ts ==> t.id < |infos|
  {
    var sym := infos[ts[i].id].sym;
    && sym.Some? && sym.value !in s.values && (forall j :: 0 <= j < i ==> infos[ts[j].id].sym != sym)
    && TypeOf(c).Tristate? && !TypeOf(sym.value).Tristate?
  }

  /** In the final list of a tristate choice just the first entry of each boolean symbol gets the guard, unless the
      symbol is a choice value already. */
  lemma {:induction false} GuardPut(infos: seq<Info>, s: State, c: Symbol, ts: seq<Tree>, i: nat)
    requires |infos| == |s.data| && (forall t :: t in ts ==> t.id < |infos|) && i < |ts| && Distinct(Roots(ts))
    ensures PutGuards(infos, s, c, ts).data[ts[i].id].guard ==
            if Guards(infos, s, c, ts, i) then Some(c) else s.data[ts[i].id].guard
    decreases |ts|
  {
    var id := ts[0].id;
    DistinctParts([id], Roots(ts[1..]));
    assert id in [id];
    var next := Mark(infos, s, c, id);
    if i == 0 {
      GuardKept(infos, next, c, ts[1..], id);
    } else {
      assert ts[1..][i - 1] == ts[i];
      RootOf(ts[1..], ts[i]);
      GuardPut(infos, next, c, ts[1..], i - 1);
      assert forall j :: 0 < j < i ==> ts[1..][j - 1] == ts[j];
      assert Guards(infos, next, c, ts[1..], i - 1) == Guards(infos, s, c, ts, i);
    }
  }

  /** All symbols of the list become choice values, and no others. */
  lemma {:induction false} ValuesPut(infos: seq<Info>, s: State, c: Symbol, ts: seq<Tree>, x: Symbol)
    requires |infos| == |s.data| && forall t :: t in ts ==> t.id < |infos|
    ensures x in PutGuards(infos, s, c, ts).values <==>
            x in s.values || exists t :: t in ts && infos[t.id].sym == Some(x)
    decreases |ts|
  {
    if ts != [] {
      ValuesPut(infos, Mark(infos, s, c, ts[0].id), c, ts[1..], x);
      assert forall t :: t in ts <==> t == ts[0] || t in ts[1..];
    }
  }

  lemma {:induction false} GuardKept(infos: seq<Info>, s: State, c: Symbol, ts: seq<Tree>, k: nat)
    requires |infos| == |s.data| && (forall t :: t in ts ==> t.id < |infos|) && k < |infos| && k !in Roots(ts)
    ensures PutGuards(infos, s, c, ts).data[k].guard == s.data[k].guard
    decreases |ts|
  {
    if ts != [] { GuardKept(infos, Mark(infos, s, c, ts[0].id), c, ts[1..], k); }
  }

  /** Every guard is a tristate choice with a settled value, on an entry whose symbol has become a choice value. */
  ghost predicate GuardsSound(infos: seq<Info>, s: State, v: Valuation) {
    |infos| == |s.data| && forall k :: 0 <= k < |infos| ==> GuardSound(infos[k], s.data[k], s.values, v)
  }

  ghost predicate GuardSound(info: Info, d: Data, values: set<Symbol>, v: Valuation) {
    d.guard.Some? ==>
      && TypeOf(d.guard.value).Tristate? && Settled(v, d.guard.value)
      && info.sym.Some? && info.sym.value in values && !TypeOf(info.sym.value).Tristate?
  }

  /** Nothing becomes less of a choice value, and the guards of choice values stay. */
  ghost predicate GuardsStay(infos: seq<Info>, s: State, r: State) {
    && |infos| == |s.data| == |r.data| && s.values <= r.values
    && forall k :: 0 <= k < |infos| && infos[k].sym.Some? && infos[k].sym.value in s.values ==>
         r.data[k].guard == s.data[k].guard
  }

  /** The choices of the table have settled values. */
  ghost predicate ChoicesSettled(infos: seq<Info>, v: Valuation) {
    forall k :: 0 <= k < |infos| && infos[k].choice && infos[k].sym.Some? ==> Settled(v, infos[k].sym.value)
  }

  ghost predicate GuardsKept(infos: seq<Info>, s: State, r: State, v: Valuation) {
    GuardsSound(infos, r, v) && GuardsStay(infos, s, r)
  }

  lemma {:induction false} PutGuardsKeeps(infos: seq<Info>, s: State, c: Symbol, ts: seq<Tree>, v: Valuation)
    requires GuardsSound(infos, s, v) && (forall t :: t in ts ==> t.id < |infos|)
    requires TypeOf(c).Tristate? ==> Settled(v, c)
    ensures GuardsKept(infos, s, PutGuards(infos, s, c, ts), v)
    decreases |ts|
  {
    if ts != [] {
      var next := Mark(infos, s, c, ts[0].id);
      assert GuardsKept(infos, s, next, v) by {
        forall k | 0 <= k < |infos| ensures GuardSound(infos[k], next.data[k], next.values, v) {
          assert GuardSound(infos[k], s.data[k], s.values, v);
        }
      }
      PutGuardsKeeps(infos, next, c, ts[1..], v);
    }
  }

  lemma {:induction false} CloseKeeps(infos: seq<Info>, s: State, m: nat, kids: seq<Tree>, v: Valuation)
    requires GuardsSound(infos, s, v) && ChoicesSettled(infos, v) && m < |infos| && Fits(kids, |infos|)
    ensures GuardsKept(infos, s, Close(infos, s, m, kids).0, v)
  {
    var flat := Flatten(infos, kids);
    FitsParts(flat, |infos|);
    if infos[m].choice && infos[m].sym.Some? { PutGuardsKeeps(infos, s, infos[m].sym.value, flat, v); }
  }

  lemma {:induction false} PushDownKeeps(infos: seq<Info>, s: State, limit: OExpr, ts: seq<Tree>, v: Valuation)
    requires GuardsSound(infos, s, v) && forall t :: t in ts ==> t.id < |infos|
    ensures GuardsKept(infos, s, s.(data := PushDown(infos, s.data, limit, ts)), v)
    decreases |ts|
  {
    if ts != [] {
      var id := ts[0].id;
      var next := s.(data := s.data[id := PushInto(infos[id], limit, s.data[id])]);
      assert GuardsKept(infos, s, next, v) by {
        forall k | 0 <= k < |infos| ensures GuardSound(infos[k], next.data[k], next.values, v) {
          assert GuardSound(infos[k], s.data[k], s.values, v);
        }
      }
      PushDownKeeps(infos, next, limit, ts[1..], v);
    }
  }

  /** menu_finalize puts guards only on values of choices, and takes none away. */
  lemma {:induction false} FinalizeGuards(infos: seq<Info>, s: State, ts: seq<Tree>, v: Valuation)
    requires ts != [] && GuardsSound(infos, s, v) && ChoicesSettled(infos, v) && Fits(ts, |infos|)
    ensures GuardsKept(infos, s, Finalize(infos, s, ts).s, v)
    decreases Count(ts), 0
  {
    FitsParts(ts, |infos|);
    var m, kids := ts[0].id, ts[0].kids;
    PreorderCons(ts[0], []);
    if kids != [] {
      FitsParts(kids, |infos|);
      var s1 := s.(data := PushDown(infos, s.data, Limit(infos[m], s.data[m]), kids));
      PushDownKeeps(infos, s, Limit(infos[m], s.data[m]), kids, v);
      FinalizeAllGuards(infos, s1, kids, v);
      var r := FinalizeAll(infos, s1, kids);
      CloseKeeps(infos, r.s, m, r.done, v);
    } else if infos[m].sym.Some? {
      AbsorbGuards(infos, s, m, ts[1..], v);
      var r := Absorb(infos, s, m, ts[1..]);
      CloseKeeps(infos, WithDir(r.s, infos[m].sym.value, r.s.data[m].dep), m, r.done, v);
    }
  }

  lemma {:induction false} FinalizeAllGuards(infos: seq<Info>, s: State, ts: seq<Tree>, v: Valuation)
    requires GuardsSound(infos, s, v) && ChoicesSettled(infos, v) && Fits(ts, |infos|)
    ensures GuardsKept(infos, s, FinalizeAll(infos, s, ts).s, v)
    decreases Count(ts), 1
  {
    if ts != [] {
      var x := Finalize(infos, s, ts);
      FinalizeGuards(infos, s, ts, v);
      FinalizeAllGuards(infos, x.s, x.rest, v);
    }
  }

  lemma {:induction false} AbsorbGuards(infos: seq<Info>, s: State, m: nat, ts: seq<Tree>, v: Valuation)
    requires GuardsSound(infos, s, v) && ChoicesSettled(infos, v) && m < |infos| && Fits(ts, |infos|)
    ensures GuardsKept(infos, s, Absorb(infos, s, m, ts).s, v)
    decreases Count(ts), 1
  {
    FitsParts(ts, |infos|);
    if ts != [] && Absorbs(infos, s.data, m, ts[0].id) {
      var x := Finalize(infos, s, ts);
      FinalizeGuards(infos, s, ts, v);
      AbsorbGuards(infos, x.s, m, x.rest, v);
    }
  }

  /* ---- bounds by enclosing entries ---- */

  /** Entry k lies below `t`, with no choice in between. */
  ghost predicate Encloses(infos: seq<Info>, t: Tree, k: nat)
    decreases t
  {
    exists i :: 0 <= i < |t.kids| &&
      (t.kids[i].id == k || (t.kids[i].id < |infos| && !infos[t.kids[i].id].choice && Encloses(infos, t.kids[i], k)))
  }

  /** The trees of a list that obeys, one by one */
  lemma {:induction false} ObeysAt(infos: seq<Info>, init: seq<Data>, fin: seq<Data>, limit: Tri, ts: seq<Tree>,
        v: Valuation, i: nat)
    requires Obeys(infos, init, fin, limit, ts, v) && i < |ts|
    ensures ts[i].id < |infos| == |init| == |fin|
    ensures Derived(infos[ts[i].id], init[ts[i].id], fin[ts[i].id], limit, v)
    ensures Obeys(infos, init, fin, OEval(Limit(infos[ts[i].id], fin[ts[i].id]), v), ts[i].kids, v)
    decreases i
  {
    if i > 0 { ObeysAt(infos, init, fin, limit, ts[1..], v, i - 1); }
  }

  /** No condition of an entry is above its own dependency. */
  lemma {:induction false} DerivedBounds(info: Info, b: Data, a: Data, limit: Tri, v: Valuation)
    requires Derived(info, b, a, limit, v) && WellFormed(info, b, v)
    ensures Le(OEval(a.dep, v), limit)
    ensures forall i :: 0 <= i < |a.conds| ==> Le(OEval(a.conds[i], v), OEval(a.dep, v))
    ensures !info.choice ==> Le(OEval(Limit(info, a), v), OEval(a.dep, v))
  {
    forall i | 0 <= i < |a.conds| ensures Le(OEval(a.conds[i], v), OEval(a.dep, v)) {
      assert Follows(info, OEval(a.conds[i], v), Min(OEval(a.dep, v), OEval(b.conds[i], v)));
    }
  }

  /** Every entry's dependency, and with it every property's visibility, is at most `limit` throughout a
      part of the tree without choices above it. */
  lemma {:induction false} LimitBoundsAll(infos: seq<Info>, init: seq<Data>, fin: seq<Data>, limit: Tri, t: Tree,
        v: Valuation, k: nat)
    requires Ready(infos, init, v) && Obeys(infos, init, fin, limit, t.kids, v)
    requires Encloses(infos, t, k)
    ensures k < |infos| == |fin| && Le(OEval(fin[k].dep, v), limit)
    ensures forall i :: 0 <= i < |fin[k].conds| ==> Le(OEval(fin[k].conds[i], v), OEval(fin[k].dep, v))
    decreases t
  {
    var i :| 0 <= i < |t.kids| &&
      (t.kids[i].id == k || (t.kids[i].id < |infos| && !infos[t.kids[i].id].choice && Encloses(infos, t.kids[i], k)));
    var u := t.kids[i];
    ObeysAt(infos, init, fin, limit, t.kids, v, i);
    DerivedBounds(infos[u.id], init[u.id], fin[u.id], limit, v);
    if u.id != k {
      LimitBoundsAll(infos, init, fin, OEval(Limit(infos[u.id], fin[u.id]), v), u, v, k);
    }
  }

  /** An entry of the original tree whose own conditions derive from some limit, and all below it */
  ghost predicate ObeysFrom(infos: seq<Info>, init: seq<Data>, fin: seq<Data>, limit: Tri, t: Tree, v: Valuation) {
    && t.id < |infos| == |init| == |fin| && Derived(infos[t.id], init[t.id], fin[t.id], limit, v)
    && Obeys(infos, init, fin, OEval(Limit(infos[t.id], fin[t.id]), v), t.kids, v)
  }

  /** t is an entry somewhere below u, with all below it. */
  ghost predicate Inside(t: Tree, u: Tree)
    decreases u
  {
    exists i :: 0 <= i < |u.kids| && (u.kids[i] == t || Inside(t, u.kids[i]))
  }

  lemma {:induction false} ObeysInside(infos: seq<Info>, init: seq<Data>, fin: seq<Data>, limit: Tri, u: Tree,
        v: Valuation, t: Tree)
      returns (up: Tri)
    requires Obeys(infos, init, fin, limit, u.kids, v) && Inside(t, u)
    ensures ObeysFrom(infos, init, fin, up, t, v)
    decreases u
  {
    var i :| 0 <= i < |u.kids| && (u.kids[i] == t || Inside(t, u.kids[i]));
    var x := u.kids[i];
    ObeysAt(infos, init, fin, limit, u.kids, v, i);
    if x == t {
      up := limit;
    } else {
      up := ObeysInside(infos, init, fin, OEval(Limit(infos[x.id], fin[x.id]), v), x, v, t);
    }
  }

  /** A table as the parser leaves it: settled expressions, and no choice values yet */
  ghost predicate Parsed(infos: seq<Info>, s: State, root: Tree, v: Valuation) {
    && Ready(infos, s.data, v) && Fits([root], |infos|) && Distinct(Preorder([root]))
    && root.id < |infos| && Clean(Limit(infos[root.id], s.data[root.id]), v)
    && forall k :: 0 <= k < |s.data| ==> s.data[k].guard == None
  }

  lemma {:induction false} ParsedGuards(infos: seq<Info>, s: State, root: Tree, v: Valuation)
    requires Parsed(infos, s, root, v)
    ensures GuardsSound(infos, Finalize(infos, s, [root]).s, v)
  {
    forall k | 0 <= k < |infos| && infos[k].choice && infos[k].sym.Some? ensures Settled(v, infos[k].sym.value) {
      assert WellFormed(infos[k], s.data[k], v);
    }
    FinalizeGuards(infos, s, [root], v);
  }

  /** The conditions of an entry are bounded by its dependency and that by `limit`. */
  predicate Bounded(d: Data, limit: Tri, v: Valuation) {
    Le(OEval(d.dep, v), limit) && forall i :: 0 <= i < |d.conds| ==> Le(OEval(d.conds[i], v), OEval(d.dep, v))
  }

  /** The same of the expressions as they are left */
  predicate FinalBounded(d: Data, limit: Tri, v: Valuation) {
    && Le(OEval(FinalDep(d), v), limit)
    && forall i :: 0 <= i < |d.conds| ==>
         Le(OEval(FinalCond(d, i), v), OEval(FinalDep(d), v)) && Le(OEval(FinalCond(d, i), v), limit)
  }

  lemma {:induction false} BoundedFinally(info: Info, d: Data, values: set<Symbol>, limit: Tri, v: Valuation)
    requires GuardSound(info, d, values, v) && Bounded(d, limit, v)
    ensures FinalBounded(d, limit, v)
  {
    GuardedMeaning(d, d.dep, v);
    forall i | 0 <= i < |d.conds|
      ensures Le(OEval(FinalCond(d, i), v), OEval(FinalDep(d), v)) && Le(OEval(FinalCond(d, i), v), limit)
    {
      GuardedMeaning(d, d.conds[i], v);
    }
  }

  /** Entries t and k as after FinalizeVisibility: t is bounded by its own limit, and k by that of t. */
  lemma {:induction false} InsideBound(infos: seq<Info>, init: seq<Data>, fin: seq<Data>, limit: Tri, root: Tree,
          v: Valuation, t: Tree,
        k: nat)
    requires Ready(infos, init, v) && Obeys(infos, init, fin, limit, root.kids, v)
    requires Inside(t, root) && Encloses(infos, t, k)
    ensures t.id < |infos| == |fin| && k < |fin|
    ensures !infos[t.id].choice ==> Bounded(fin[k], OEval(fin[t.id].dep, v), v)
    ensures infos[t.id].choice && infos[t.id].sym.Some? ==> Bounded(fin[k], TriOf(v, infos[t.id].sym.value), v)
  {
    var up := ObeysInside(infos, init, fin, limit, root, v, t);
    DerivedBounds(infos[t.id], init[t.id], fin[t.id], up, v);
    LimitBoundsAll(infos, init, fin, OEval(Limit(infos[t.id], fin[t.id]), v), t, v, k);
  }

  /** After menu_finalize, each property of an entry k is visible at most as far as the entry's own dependency
      and the dependency of every enclosing entry t, up to the nearest choice. */
  lemma {:induction false} EnclosingBound(infos: seq<Info>, s: State, root: Tree, v: Valuation, t: Tree, k: nat)
    requires Parsed(infos, s, root, v) && Inside(t, root) && Encloses(infos, t, k)
    requires t.id < |infos| ==> !infos[t.id].choice
    ensures var fin := Finalize(infos, s, [root]).s.data;
      t.id < |fin| && k < |fin| && FinalBounded(fin[k], OEval(fin[t.id].dep, v), v)
  {
    var r := Finalize(infos, s, [root]).s;
    FinalizeVisibility(infos, s, root, v);
    InsideBound(infos, s.data, r.data, OEval(Limit(infos[root.id], s.data[root.id]), v), root, v, t, k);
    ParsedGuards(infos, s, root, v);
    BoundedFinally(infos[k], r.data[k], r.values, OEval(r.data[t.id].dep, v), v);
  }

  /** Below a choice t, up to choices inside it, everything depends on the choice itself. */
  lemma {:induction false} ChoiceBound(infos: seq<Info>, s: State, root: Tree, v: Valuation, t: Tree, k: nat)
    requires Parsed(infos, s, root, v) && Inside(t, root) && Encloses(infos, t, k)
    requires t.id < |infos| && infos[t.id].choice && infos[t.id].sym.Some?
    ensures var fin := Finalize(infos, s, [root]).s.data;
      k < |fin| && FinalBounded(fin[k], TriOf(v, infos[t.id].sym.value), v)
  {
    var r := Finalize(infos, s, [root]).s;
    FinalizeVisibility(infos, s, root, v);
    InsideBound(infos, s.data, r.data, OEval(Limit(infos[root.id], s.data[root.id]), v), root, v, t, k);
    ParsedGuards(infos, s, root, v);
    BoundedFinally(infos[k], r.data[k], r.values, TriOf(v, infos[t.id].sym.value), v);
  }

  /** A boolean value of a tristate choice is visible only while the choice is y, and then as far as its own
      conditions and those around it say. */
  lemma {:induction false} ValueNeedsYes(infos: seq<Info>, s: State, root: Tree, v: Valuation, k: nat, i: nat)
    requires Parsed(infos, s, root, v) && k < |infos|
    ensures var d := Finalize(infos, s, [root]).s.data[k];
      d.guard.Some? && i < |d.conds| ==>
        && TypeOf(d.guard.value).Tristate?
        && OEval(FinalCond(d, i), v) == (if TriOf(v, d.guard.value) == Yes then OEval(d.conds[i], v) else No)
        && OEval(FinalDep(d), v) == (if TriOf(v, d.guard.value) == Yes then OEval(d.dep, v) else No)
  {
    var r := Finalize(infos, s, [root]).s;
    ParsedGuards(infos, s, root, v);
    assert GuardSound(infos[k], r.data[k], r.values, v);
    GuardedMeaning(r.data[k], r.data[k].dep, v);
    if i < |r.data[k].conds| { GuardedMeaning(r.data[k], r.data[k].conds[i], v); }
  }

  /* ---- following entries made part of a submenu ---- */

  /** An entry that becomes part of the submenu of a symbol is never visible unless the symbol is on or
      its prompt is visible: in a menu it would not show without its new parent. */
  lemma {:induction false} AbsorbedNeedsParent(infos: seq<Info>, data: seq<Data>, m: nat, x: nat, v: Valuation)
    requires |infos| == |data| && m < |data| && x < |data| && Absorbs(infos, data, m, x)
    requires IsTri(infos[m].sym.value) && Settled(v, infos[m].sym.value)
    requires OTestable(SubmenuCond(infos[x], data[x]), v) && OTestable(PromptCond(infos[m], data[m]), v)
    ensures OEval(SubmenuCond(infos[x], data[x]), v) != No ==>
      TriOf(v, infos[m].sym.value) != No || OEval(PromptCond(infos[m], data[m]), v) != No
  {
    var dep, base := SubmenuCond(infos[x], data[x]), PromptCond(infos[m], data[m]);
    if DependsSymbol(dep.value, infos[m].sym.value) {
      DependsMeaning(dep.value, infos[m].sym.value, v);
    } else {
      NotNoMeaning(dep, v);
      NotNoMeaning(base, v);
      EliminateEqImplies(NotNo(dep), NotNo(base), v);
    }
  }

  /* ---- dir_dep of a symbol and the conditions of its entries ---- */

  lemma {:induction false} ObeysBelow(infos: seq<Info>, init: seq<Data>, fin: seq<Data>, limit: Tri, ts: seq<Tree>,
        v: Valuation, k: nat)
      returns (up: Tri)
    requires Obeys(infos, init, fin, limit, ts, v) && k in Preorder(ts)
    ensures k < |infos| == |init| == |fin| && Derived(infos[k], init[k], fin[k], up, v)
    decreases ts
  {
    if k == ts[0].id {
      up := limit;
    } else if k in Preorder(ts[0].kids) {
      up := ObeysBelow(infos, init, fin, OEval(Limit(infos[ts[0].id], fin[ts[0].id]), v), ts[0].kids, v, k);
    } else {
      up := ObeysBelow(infos, init, fin, limit, ts[1..], v, k);
    }
  }

  /** m is an entry of x without subentries in the source text. */
  predicate EntryOf(infos: seq<Info>, root: Tree, x: Symbol, m: nat) {
    m in Leaves(root.kids) && m < |infos| && infos[m].sym == Some(x)
  }

  /** A symbol as it leaves menu_finalize: its properties carry conditions of its entries, and its dir_dep is what
      became of it. */
  ghost predicate DeclaredBy(d: Decl, infos: seq<Info>, s: State, root: Tree, x: Symbol) {
    && |s.data| == |infos| && !d.role.Member? && d.dirDep == Dir(s, x)
    && forall p :: p in d.props ==> exists m: nat :: EntryOf(infos, root, x, m) && p.vis in s.data[m].conds
  }

  predicate PropInForce(p: Prop, v: Valuation) { (p.Prompt? || p.Default?) && OEval(p.vis, v) != No }

  /** A prompt or default of an entry without any dependency is in force. */
  ghost predicate BareInForce(d: Decl, infos: seq<Info>, s: State, root: Tree, x: Symbol, v: Valuation)
    requires |s.data| == |infos|
  {
    exists p, m: nat :: p in d.props && PropInForce(p, v) && EntryOf(infos, root, x, m) && s.data[m].dep.None?
                   && p.vis in s.data[m].conds
  }

  /** Some entry has a dependency, and none that has one has it met. */
  ghost predicate AllUnmet(infos: seq<Info>, s: State, root: Tree, x: Symbol, v: Valuation)
    requires |s.data| == |infos|
  {
    && (exists m: nat :: EntryOf(infos, root, x, m) && s.data[m].dep.Some?)
    && forall m: nat :: EntryOf(infos, root, x, m) && s.data[m].dep.Some? ==> OEval(s.data[m].dep, v) == No
  }

  lemma {:induction false} SomePrompt(d: Decl, props: seq<Prop>, v: Valuation) returns (p: Prop)
    requires PromptsTri(d, props, v) != No
    ensures p in props && PropInForce(p, v)
  {
    if PromptTri(d, props[0], v) != No { p := props[0]; } else { p := SomePrompt(d, props[1..], v); }
  }

  lemma {:induction false} PromptShows(d: Decl, props: seq<Prop>, v: Valuation, p: Prop)
    requires p in props && p.Prompt? && OEval(p.vis, v) != No && !d.role.Member?
    ensures PromptsTri(d, props, v) != No
  {
    if p != props[0] { PromptShows(d, props[1..], v, p); }
  }

  lemma {:induction false} DirReaches(infos: seq<Info>, s: State, root: Tree, v: Valuation, x: Symbol, t: Tri)
    requires |infos| == |s.data| && Fits([root], |infos|) && Distinct(Preorder([root]))
    requires root.kids != [] && Dir(s, x) == None
    ensures var r := Finalize(infos, s, [root]);
      Reached(Dir(r.s, x), t, v) <==> exists m: nat :: EntryOf(infos, root, x, m) && Reached(r.s.data[m].dep, t, v)
  {
    var r := Finalize(infos, s, [root]);
    FinalizeUses(infos, s, [root]);
    assert Used([root], r.rest) == [root];
    FinalizeDir(infos, s, [root], x, t, v);
    assert Leaves([root]) == Leaves(root.kids) + Leaves([root][1..]);
    assert forall m: nat :: m in Leaves([root]) && EntryReaches(infos, r.s.data, m, x, t, v) <==>
        EntryOf(infos, root, x, m) && Reached(r.s.data[m].dep, t, v);
  }

  /** dir_dep is not met if and only if some entry has a dependency and none of them is met. */
  lemma {:induction false} DirDepUnmet(infos: seq<Info>, s: State, root: Tree, v: Valuation, x: Symbol, d: Decl)
    requires |infos| == |s.data| && Fits([root], |infos|) && Distinct(Preorder([root]))
    requires root.kids != [] && Dir(s, x) == None && !d.role.Member?
    requires d.dirDep == Dir(Finalize(infos, s, [root]).s, x)
    ensures DirDep(d, v) == No <==> AllUnmet(infos, Finalize(infos, s, [root]).s, root, x, v)
  {
    DirReaches(infos, s, root, v, x, No);
    DirReaches(infos, s, root, v, x, Mod);
    assert DirDep(d, v) == No <==> Reached(d.dirDep, No, v) && !Reached(d.dirDep, Mod, v);
    UnmetReaches(infos, Finalize(infos, s, [root]).s, root, x, v);
  }

  lemma {:induction false} UnmetReaches(infos: seq<Info>, s: State, root: Tree, x: Symbol, v: Valuation)
    requires |s.data| == |infos|
    ensures AllUnmet(infos, s, root, x, v) <==>
            && (exists m: nat :: EntryOf(infos, root, x, m) && Reached(s.data[m].dep, No, v))
            && !(exists m: nat :: EntryOf(infos, root, x, m) && Reached(s.data[m].dep, Mod, v))
  {
  }

  /** Every visible prompt and every default in force implies dir_dep, which is the assumption under which a selected
      symbol has its dependencies met and an accepted change takes effect, if and only if it is not so that one of an
      entry without any dependency is in force while other entries have dependencies and none of these is met. */
  lemma {:induction false} EntriesMeetDeps(infos: seq<Info>, s: State, root: Tree, v: Valuation, x: Symbol, d: Decl)
    requires Ready(infos, s.data, v) && Fits([root], |infos|) && Distinct(Preorder([root]))
    requires root.id < |infos| && Clean(Limit(infos[root.id], s.data[root.id]), v)
    requires root.kids != [] && Dir(s, x) == None && DeclaredBy(d, infos, Finalize(infos, s, [root]).s, root, x)
    ensures var f := Finalize(infos, s, [root]).s;
      ConditionsImplyDeps(d, v) <==> !(BareInForce(d, infos, f, root, x, v) && AllUnmet(infos, f, root, x, v))
  {
    var f := Finalize(infos, s, [root]).s;
    DirDepUnmet(infos, s, root, v, x, d);
    if AllUnmet(infos, f, root, x, v) {
      if BareInForce(d, infos, f, root, x, v) {
        var p, m: nat :| p in d.props && PropInForce(p, v) && EntryOf(infos, root, x, m) && p.vis in f.data[m].conds;
        if p.Prompt? { PromptShows(d, d.props, v, p); }
      } else {
        forall p | p in d.props ensures !PropInForce(p, v) { NotInForce(infos, s, root, v, x, d, p); }
        if Visible(d, v) != No { var p := SomePrompt(d, d.props, v); }
      }
    }
  }

  lemma {:induction false} NotInForce(infos: seq<Info>, s: State, root: Tree, v: Valuation, x: Symbol, d: Decl, p: Prop)
    requires Ready(infos, s.data, v) && Fits([root], |infos|) && Distinct(Preorder([root]))
    requires root.id < |infos| && Clean(Limit(infos[root.id], s.data[root.id]), v)
    requires DeclaredBy(d, infos, Finalize(infos, s, [root]).s, root, x) && p in d.props
    requires var f := Finalize(infos, s, [root]).s;
      !BareInForce(d, infos, f, root, x, v) && AllUnmet(infos, f, root, x, v)
    ensures !PropInForce(p, v)
  {
    var f := Finalize(infos, s, [root]).s;
    var m: nat :| EntryOf(infos, root, x, m) && p.vis in f.data[m].conds;
    EntryBounds(infos, s, root, v, m);
  }

  lemma {:induction false} EntryBounds(infos: seq<Info>, s: State, root: Tree, v: Valuation, m: nat)
    requires Ready(infos, s.data, v) && Fits([root], |infos|) && Distinct(Preorder([root]))
    requires root.id < |infos| && Clean(Limit(infos[root.id], s.data[root.id]), v) && m in Leaves(root.kids)
    ensures var fin := Finalize(infos, s, [root]).s.data;
      m < |fin| && forall i :: 0 <= i < |fin[m].conds| ==> Le(OEval(fin[m].conds[i], v), OEval(fin[m].dep, v))
  {
    var r := Finalize(infos, s, [root]);
    FinalizeVisibility(infos, s, root, v);
    LeavesIn(root.kids);
    var up := ObeysBelow(infos, s.data, r.s.data, OEval(Limit(infos[root.id], s.data[root.id]), v), root.kids, v, m);
    DerivedBounds(infos[m], s.data[m], r.s.data[m], up, v);
  }

  /* ---- a symbol one entry of which has no dependency ---- */

  const X := Conf(0, Boolean)

  const A := Conf(1, Boolean)

  /** The outermost menu, an entry of X with a prompt, and another that depends on A and has a default */
  predicate BareMenu(infos: seq<Info>, s: State, root: Tree) {
    && infos == [Info(None, false, Some(0)), Info(Some(X), false, Some(0)), Info(Some(X), false, None)]
    && s == State([Data(None, [None], None), Data(None, [None], None), Data(Some(Sym(A)), [None], None)], map[], {})
    && root == Node(0, [Node(1, []), Node(2, [])])
  }

  /** X as menu_finalize leaves it */
  predicate BareSymbol(d: Decl, f: State) {
    && |f.data| == 3 && |f.data[1].conds| == |f.data[2].conds| == 1
    && d == Decl(Boolean, "X", [Prompt(f.data[1].conds[0]), Default(f.data[2].conds[0], Sym(SYM_YES))], Dir(f, X),
                 None, Plain, false)
  }

  lemma {:induction false} BareOrder(infos: seq<Info>, s: State, root: Tree)
    requires BareMenu(infos, s, root)
    ensures Preorder([root]) == [0, 1, 2] && Leaves(root.kids) == [1, 2]
  {
    var leaf1, leaf2 := Node(1, []), Node(2, []);
    PreorderCons(leaf2, []);
    PreorderCons(leaf1, [leaf2]);
    PreorderCons(root, []);
    assert [leaf2] + [] == [leaf2] && [leaf1] + [leaf2] == root.kids && [root] + [] == [root];
    assert Preorder([leaf2]) == [2] && Preorder(root.kids) == [1, 2];
    LeavesAppend([leaf1], [leaf2]);
    assert Leaves([leaf1]) == [1] + Leaves([leaf1][1..]) && Leaves([leaf2]) == [2] + Leaves([leaf2][1..]);
  }

  lemma {:induction false} BareReady(infos: seq<Info>, s: State, root: Tree, v: Valuation)
    requires BareMenu(infos, s, root) && Settled(v, A)
    ensures Ready(infos, s.data, v) && Fits([root], |infos|) && Distinct(Preorder([root]))
    ensures Limit(infos[0], s.data[0]) == None && Dir(s, X) == None
  {
    BareOrder(infos, s, root);
  }

  lemma {:induction false} BarePushed(infos: seq<Info>, s: State, root: Tree, v: Valuation)
    requires BareMenu(infos, s, root) && Settled(v, A)
    ensures Fits([root], |infos|) && Pushed(infos, s.data, Finalize(infos, s, [root]).s.data, None, root.kids)
  {
    BareReady(infos, s, root, v);
    var r := Finalize(infos, s, [root]);
    FinalizePushes(infos, s, [root]);
    FinalizeFrame(infos, s, [root]);
    FinalizeUses(infos, s, [root]);
    DistinctTree(root, []);
    HeadInner([root]);
    assert Used([root], r.rest) == [root] == [root] + [];
  }

  /** What becomes of the two entries */
  ghost predicate BareLeft(data: seq<Data>, v: Valuation) {
    && |data| == 3 && data[1].dep == None && data[1].conds == [None]
    && data[2].dep.Some? && OEval(data[2].dep, v) == TriOf(v, A) && |data[2].conds| == 1
  }

  lemma {:induction false} BareFinal(infos: seq<Info>, s: State, root: Tree, data: seq<Data>, v: Valuation)
    requires BareMenu(infos, s, root) && Settled(v, A) && Pushed(infos, s.data, data, None, root.kids)
    ensures BareLeft(data, v)
  {
    assert root.kids[1..][0] == Node(2, []);
    assert SameDeps(data[1], PushInto(infos[1], None, s.data[1]));
    assert SameDeps(data[2], PushInto(infos[2], None, s.data[2]));
    BaseDepMeaning(None, Some(Sym(A)), v);
  }

  lemma {:induction false} BareDeclared(infos: seq<Info>, s: State, root: Tree, f: State, d: Decl, v: Valuation)
    requires BareMenu(infos, s, root) && BareLeft(f.data, v) && BareSymbol(d, f)
    ensures EntryOf(infos, root, X, 1) && EntryOf(infos, root, X, 2) && DeclaredBy(d, infos, f, root, X)
  {
    BareOrder(infos, s, root);
    assert Leaves(root.kids)[0] == 1 && Leaves(root.kids)[1] == 2;
    assert f.data[1].conds[0] in f.data[1].conds && f.data[2].conds[0] in f.data[2].conds;
  }

  /** While A is n the prompt of X is visible, but its dir_dep is not met: X would be n if it were selected. */
  lemma {:induction false} BareExample(infos: seq<Info>, s: State, root: Tree, v: Valuation) returns (f: State, d: Decl)
    requires BareMenu(infos, s, root) && Settled(v, A) && TriOf(v, A) == No
    ensures Fits([root], |infos|) && f == Finalize(infos, s, [root]).s
    ensures BareSymbol(d, f) && DeclaredBy(d, infos, f, root, X)
    ensures Visible(d, v) == Yes && DirDep(d, v) == No
  {
    BareReady(infos, s, root, v);
    BarePushed(infos, s, root, v);
    f := Finalize(infos, s, [root]).s;
    BareFinal(infos, s, root, f.data, v);
    d := Decl(Boolean, "X", [Prompt(f.data[1].conds[0]), Default(f.data[2].conds[0], Sym(SYM_YES))], Dir(f, X), None,
              Plain, false);
    BareDeclared(infos, s, root, f, d, v);
    DirDepUnmet(infos, s, root, v, X, d);
    PromptShows(d, d.props, v, d.props[0]);
  }

  /* ---- availability, entry by entry ---- */

  /** Entry k is right below entry p in the source text. */
  ghost predicate ChildOf(t: Tree, p: nat, k: nat)
    decreases t
  {
    exists i :: 0 <= i < |t.kids| && ((t.id == p && t.kids[i].id == k) || ChildOf(t.kids[i], p, k))
  }

  lemma {:induction false} ChildDerived(infos: seq<Info>, init: seq<Data>, fin: seq<Data>, t: Tree, v: Valuation,
                                        p: nat, k: nat)
    requires t.id < |infos| == |init| == |fin| && ChildOf(t, p, k)
    requires Obeys(infos, init, fin, OEval(Limit(infos[t.id], fin[t.id]), v), t.kids, v)
    ensures p < |infos| && k < |infos| && Derived(infos[k], init[k], fin[k], OEval(Limit(infos[p], fin[p]), v), v)
    decreases t
  {
    var i :| 0 <= i < |t.kids| && ((t.id == p && t.kids[i].id == k) || ChildOf(t.kids[i], p, k));
    ObeysAt(infos, init, fin, OEval(Limit(infos[t.id], fin[t.id]), v), t.kids, v, i);
    if t.id != p || t.kids[i].id != k { ChildDerived(infos, init, fin, t.kids[i], v, p, k); }
  }

  /** What an entry lets its subentries have: the value of the choice, if it is one, else the visibility of its prompt,
      if it has one, else its dependency */
  function Lets(info: Info, d: Data, v: Valuation): Tri {
    if info.choice && info.sym.Some? then TriOf(v, info.sym.value)
    else
      match info.prompt
      case Some(i) => if i < |d.conds| then OEval(d.conds[i], v) else Yes
      case None => OEval(d.dep, v)
  }

  /** x has the least of the values of a and b. */
  predicate LeastOf(x: Tri, a: Tri, b: Tri) { forall t :: Le(t, x) <==> Le(t, a) && Le(t, b) }

  /** The dependency of an entry has the least of the value of its own, in `before`, and of what it is let have; the
      condition of a property has the least of that and of its own, or at least is n together with it, where the symbol
      is not tristate. */
  ghost predicate Restricted(info: Info, before: Data, after: Data, lets: Tri, v: Valuation) {
    && LeastOf(OEval(after.dep, v), OEval(before.dep, v), lets)
    && |after.conds| == |before.conds|
    && forall i :: 0 <= i < |after.conds| ==>
         RestrictedCond(info, OEval(before.conds[i], v), OEval(after.conds[i], v), OEval(after.dep, v))
  }

  predicate RestrictedCond(info: Info, before: Tri, after: Tri, dep: Tri) {
    && (after != No <==> before != No && dep != No)
    && (info.sym.None? || TypeOf(info.sym.value).Tristate? ==> LeastOf(after, before, dep))
  }

  lemma {:induction false} DerivedRestricted(info: Info, b: Data, a: Data, limit: Tri, v: Valuation)
    requires Derived(info, b, a, limit, v)
    ensures Restricted(info, b, a, limit, v)
  {
    forall i | 0 <= i < |a.conds|
      ensures RestrictedCond(info, OEval(b.conds[i], v), OEval(a.conds[i], v), OEval(a.dep, v))
    {
      assert Follows(info, OEval(a.conds[i], v), Min(OEval(a.dep, v), OEval(b.conds[i], v)));
    }
  }

  /** So it is for every entry, before choice values get their conjunct: what restricts it is the entry above it in the
      source text. */
  lemma {:induction false} EntryExactly(infos: seq<Info>, s: State, root: Tree, v: Valuation, p: nat, k: nat)
    requires Ready(infos, s.data, v) && Fits([root], |infos|) && Distinct(Preorder([root]))
    requires root.id < |infos| && Clean(Limit(infos[root.id], s.data[root.id]), v) && ChildOf(root, p, k)
    ensures var fin := Finalize(infos, s, [root]).s.data;
      p < |fin| && k < |fin| && Restricted(infos[k], s.data[k], fin[k], Lets(infos[p], fin[p], v), v)
  {
    var fin := Finalize(infos, s, [root]).s.data;
    FinalizeVisibility(infos, s, root, v);
    assert Limit(infos[root.id], fin[root.id]) == Limit(infos[root.id], s.data[root.id]);
    ChildDerived(infos, s.data, fin, root, v, p, k);
    DerivedRestricted(infos[k], s.data[k], fin[k], OEval(Limit(infos[p], fin[p]), v), v);
    assert OEval(Limit(infos[p], fin[p]), v) == Lets(infos[p], fin[p], v);
  }
}
