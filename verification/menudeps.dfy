/** What the dependencies of the entries are once menu_finalize is through (scripts/config/menu.c:308-373):
    each comes from the original one and from the enclosing entry of the original tree, however the
    entries are re-parented in between. */
module MenuDeps {
  import opened Tristate
  import opened Exprs
  import opened Transforms
  import opened Equality
  import opened Dups
  import opened Compares
  import opened Menus

  /** Equal up to the guard of choice values */
  predicate SameDeps(a: Data, b: Data) { a.dep == b.dep && a.conds == b.conds }

  /** Every entry but those at the top */
  function Inner(ts: seq<Tree>): seq<nat> {
    if ts == [] then [] else Preorder(ts[0].kids) + Inner(ts[1..])
  }

  predicate Kept(a: seq<Data>, b: seq<Data>, ids: seq<nat>) {
    |a| == |b| && forall i: nat :: i < |a| && i !in ids ==> SameDeps(a[i], b[i])
  }

  lemma {:induction false} InnerAppend(a: seq<Tree>, b: seq<Tree>)
    ensures Inner(a + b) == Inner(a) + Inner(b)
    decreases |a|
  {
    if a == [] {
      assert a + b == b;
    } else {
      assert (a + b)[1..] == a[1..] + b && (a + b)[0] == a[0];
      InnerAppend(a[1..], b);
    }
  }

  function Roots(ts: seq<Tree>): seq<nat> { if ts == [] then [] else [ts[0].id] + Roots(ts[1..]) }

  lemma {:induction false} RootsAndInner(ts: seq<Tree>)
    ensures forall x :: x in Preorder(ts) <==> x in Roots(ts) || x in Inner(ts)
    decreases |ts|
  {
    if ts != [] { RootsAndInner(ts[1..]); }
  }

  /** The entries a call used up, which are the first of its list */
  function Used(ts: seq<Tree>, rest: seq<Tree>): seq<Tree> { if |rest| <= |ts| then ts[..|ts| - |rest|] else ts }

  /* ---- which entries a call touches ---- */

  lemma {:induction false} FinalizeUses(infos: seq<Info>, s: State, ts: seq<Tree>)
    requires ts != [] && |infos| == |s.data| && Fits(ts, |infos|)
    ensures var r := Finalize(infos, s, ts); |r.rest| < |ts| && ts == Used(ts, r.rest) + r.rest
    decreases Count(ts), 0
  {
    FitsParts(ts, |infos|);
    if ts[0].kids == [] && infos[ts[0].id].sym.Some? {
      var r, _ := SymbolCase(infos, s, ts);
      AbsorbUses(infos, s, ts[0].id, ts[1..]);
      UsedCons(ts, r.rest);
    } else {
      UsedCons(ts, ts[1..]);
    }
  }

  lemma {:induction false} UsedCons(ts: seq<Tree>, rest: seq<Tree>)
    requires ts != [] && |rest| < |ts| && ts[1..] == Used(ts[1..], rest) + rest
    ensures ts == Used(ts, rest) + rest
  {
    assert Used(ts, rest) == [ts[0]] + Used(ts[1..], rest);
  }

  lemma {:induction false} UsedJoin(ts: seq<Tree>, mid: seq<Tree>, rest: seq<Tree>)
    requires |mid| <= |ts| && ts == Used(ts, mid) + mid && |rest| <= |mid| && mid == Used(mid, rest) + rest
    ensures Used(ts, rest) == Used(ts, mid) + Used(mid, rest) && ts == Used(ts, rest) + rest
  {
  }

  /** One round of the loop */
  lemma {:induction false} AbsorbStep(infos: seq<Info>, s: State, m: nat, ts: seq<Tree>)
    requires |infos| == |s.data| && m < |infos| && Fits(ts, |infos|)
    requires ts != [] && ts[0].id < |infos| && Absorbs(infos, s.data, m, ts[0].id)
    ensures var x := Finalize(infos, s, ts); var r := Absorb(infos, s, m, ts); var y := Absorb(infos, x.s, m, x.rest);
      r.s == y.s && r.done == [x.head] + y.done && r.rest == y.rest && r.calls == x.calls + y.calls
  {
  }

  lemma {:induction false} AbsorbUses(infos: seq<Info>, s: State, m: nat, ts: seq<Tree>)
    requires |infos| == |s.data| && m < |infos| && Fits(ts, |infos|)
    ensures var r := Absorb(infos, s, m, ts); |r.rest| <= |ts| && ts == Used(ts, r.rest) + r.rest
    decreases Count(ts), 1
  {
    FitsParts(ts, |infos|);
    if ts != [] && Absorbs(infos, s.data, m, ts[0].id) {
      var x := Finalize(infos, s, ts);
      var y := Absorb(infos, x.s, m, x.rest);
      FinalizeUses(infos, s, ts);
      AbsorbUses(infos, x.s, m, x.rest);
      AbsorbStep(infos, s, m, ts);
      UsedJoin(ts, x.rest, y.rest);
    }
  }

  lemma {:induction false} PushDownFrame(infos: seq<Info>, data: seq<Data>, limit: OExpr, ts: seq<Tree>)
    requires |infos| == |data| && forall t :: t in ts ==> t.id < |data|
    ensures Kept(data, PushDown(infos, data, limit, ts), Roots(ts))
    decreases |ts|
  {
    if ts != [] {
      var id := ts[0].id;
      var next := data[id := PushInto(infos[id], limit, data[id])];
      PushDownFrame(infos, next, limit, ts[1..]);
      assert id in Roots(ts);
    }
  }

  lemma {:induction false} PutGuardsFrame(infos: seq<Info>, s: State, c: Symbol, ts: seq<Tree>)
    requires |infos| == |s.data| && forall t :: t in ts ==> t.id < |infos|
    ensures Kept(s.data, PutGuards(infos, s, c, ts).data, [])
    decreases |ts|
  {
    if ts != [] { PutGuardsFrame(infos, Mark(infos, s, c, ts[0].id), c, ts[1..]); }
  }

  lemma {:induction false} CloseFrame(infos: seq<Info>, s: State, m: nat, kids: seq<Tree>)
    requires |infos| == |s.data| && m < |infos| && Fits(kids, |infos|)
    ensures Kept(s.data, Close(infos, s, m, kids).0.data, [])
  {
    var flat := Flatten(infos, kids);
    FitsParts(flat, |infos|);
    if infos[m].choice && infos[m].sym.Some? { PutGuardsFrame(infos, s, infos[m].sym.value, flat); }
  }

  lemma {:induction false} KeptTrans(a: seq<Data>, b: seq<Data>, c: seq<Data>, ids: seq<nat>, jds: seq<nat>,
          all: seq<nat>)
    requires Kept(a, b, ids) && Kept(b, c, jds)
    requires (forall x :: x in ids ==> x in all) && forall x :: x in jds ==> x in all
    ensures Kept(a, c, all)
  {
  }

  /** A call leaves the conditions of the entry itself, and of the entries at its level, alone. */
  lemma {:induction false} FinalizeFrame(infos: seq<Info>, s: State, ts: seq<Tree>)
    requires ts != [] && |infos| == |s.data| && Fits(ts, |infos|)
    ensures var r := Finalize(infos, s, ts); Kept(s.data, r.s.data, Inner(Used(ts, r.rest)))
    decreases Count(ts), 0
  {
    FitsParts(ts, |infos|);
    if ts[0].kids != [] {
      ParentFrame(infos, s, ts);
      HeadInner(ts);
    } else if infos[ts[0].id].sym.Some? {
      SymbolFrame(infos, s, ts);
    }
  }

  lemma {:induction false} ParentFrame(infos: seq<Info>, s: State, ts: seq<Tree>)
    requires ts != [] && |infos| == |s.data| && Fits(ts, |infos|) && ts[0].kids != []
    ensures var r := Finalize(infos, s, ts); r.rest == ts[1..] && Kept(s.data, r.s.data, Preorder(ts[0].kids))
    decreases Count(ts), 0, 0
  {
    FitsParts(ts, |infos|);
    var m, kids := ts[0].id, ts[0].kids;
    FitsParts(kids, |infos|);
    var limit := Limit(infos[m], s.data[m]);
    var s1 := s.(data := PushDown(infos, s.data, limit, kids));
    PushDownFrame(infos, s.data, limit, kids);
    FinalizeAllFrame(infos, s1, kids);
    RootsAndInner(kids);
    var r := FinalizeAll(infos, s1, kids);
    KeptTrans(s.data, s1.data, r.s.data, Roots(kids), Inner(kids), Preorder(kids));
    CloseFrame(infos, r.s, m, r.done);
    KeptTrans(s.data, r.s.data, Close(infos, r.s, m, r.done).0.data, Preorder(kids), [], Preorder(kids));
  }

  lemma {:induction false} SymbolFrame(infos: seq<Info>, s: State, ts: seq<Tree>)
    requires ts != [] && |infos| == |s.data| && Fits(ts, |infos|)
    requires ts[0].kids == [] && ts[0].id < |infos| && infos[ts[0].id].sym.Some?
    ensures var r := Finalize(infos, s, ts); Kept(s.data, r.s.data, Inner(Used(ts, r.rest)))
    decreases Count(ts), 0, 0
  {
    FitsParts(ts, |infos|);
    var m := ts[0].id;
    AbsorbFrame(infos, s, m, ts[1..]);
    AbsorbUses(infos, s, m, ts[1..]);
    var r := Absorb(infos, s, m, ts[1..]);
    var s1 := WithDir(r.s, infos[m].sym.value, r.s.data[m].dep);
    var used := Used(ts[1..], r.rest);
    CloseFrame(infos, s1, m, r.done);
    HeadUsed(ts, r.rest);
    KeptTrans(s.data, r.s.data, Close(infos, s1, m, r.done).0.data, Inner(used), [], Inner(used));
  }

  lemma {:induction false} HeadUsed(ts: seq<Tree>, rest: seq<Tree>)
    requires ts != [] && ts[0].kids == [] && |rest| < |ts|
    ensures Inner(Used(ts, rest)) == Inner(Used(ts[1..], rest)) && Used(ts, rest) == [ts[0]] + Used(ts[1..], rest)
  {
    assert Used(ts, rest) == [ts[0]] + Used(ts[1..], rest);
    HeadInner(ts);
    InnerAppend([ts[0]], Used(ts[1..], rest));
  }

  lemma {:induction false} HeadInner(ts: seq<Tree>)
    requires ts != []
    ensures Inner([ts[0]]) == Preorder(ts[0].kids) && Used(ts, ts[1..]) == [ts[0]]
  {
    assert [ts[0]][1..] == [];
  }

  lemma {:induction false} FinalizeAllFrame(infos: seq<Info>, s: State, ts: seq<Tree>)
    requires |infos| == |s.data| && Fits(ts, |infos|)
    ensures Kept(s.data, FinalizeAll(infos, s, ts).s.data, Inner(ts))
    decreases Count(ts), 1
  {
    if ts != [] {
      var x := Finalize(infos, s, ts);
      FinalizeFrame(infos, s, ts);
      FinalizeAllFrame(infos, x.s, x.rest);
      FinalizeUses(infos, s, ts);
      var used := Used(ts, x.rest);
      InnerAppend(used, x.rest);
      KeptTrans(s.data, x.s.data, FinalizeAll(infos, x.s, x.rest).s.data, Inner(used), Inner(x.rest), Inner(ts));
    }
  }

  lemma {:induction false} AbsorbFrame(infos: seq<Info>, s: State, m: nat, ts: seq<Tree>)
    requires |infos| == |s.data| && m < |infos| && Fits(ts, |infos|)
    ensures var r := Absorb(infos, s, m, ts); Kept(s.data, r.s.data, Inner(Used(ts, r.rest)))
    decreases Count(ts), 1
  {
    FitsParts(ts, |infos|);
    if ts != [] && Absorbs(infos, s.data, m, ts[0].id) {
      var x := Finalize(infos, s, ts);
      FinalizeFrame(infos, s, ts);
      AbsorbFrame(infos, x.s, m, x.rest);
      var r := Absorb(infos, x.s, m, x.rest);
      AbsorbStep(infos, s, m, ts);
      FinalizeUses(infos, s, ts);
      AbsorbUses(infos, x.s, m, x.rest);
      UsedJoin(ts, x.rest, r.rest);
      var used, more := Used(ts, x.rest), Used(x.rest, r.rest);
      InnerAppend(used, more);
      KeptTrans(s.data, x.s.data, r.s.data, Inner(used), Inner(more), Inner(Used(ts, r.rest)));
    }
  }

  /* ---- where every condition comes from ---- */

  /** Below the trees `ts` of the original tree every entry got its final conditions from its original
      ones and from the limit of its original parent: `limit` at the top. */
  ghost predicate Pushed(infos: seq<Info>, init: seq<Data>, fin: seq<Data>, limit: OExpr, ts: seq<Tree>)
    decreases ts
  {
    |infos| == |init| == |fin| &&
    (ts == [] ||
      (var id := ts[0].id;
       && id < |infos| && SameDeps(fin[id], PushInto(infos[id], limit, init[id]))
       && Pushed(infos, init, fin, Limit(infos[id], fin[id]), ts[0].kids)
       && Pushed(infos, init, fin, limit, ts[1..])))
  }

  /** The same for what is below each of the trees. */
  ghost predicate Below(infos: seq<Info>, init: seq<Data>, fin: seq<Data>, ts: seq<Tree>) {
    |infos| == |init| == |fin| &&
    (ts == [] ||
      (var id := ts[0].id;
       && id < |infos| && Pushed(infos, init, fin, Limit(infos[id], fin[id]), ts[0].kids)
       && Below(infos, init, fin, ts[1..])))
  }

  ghost predicate SameOn(a: seq<Data>, b: seq<Data>, ids: seq<nat>) {
    |a| == |b| && forall i :: i in ids && i < |a| ==> SameDeps(a[i], b[i])
  }

  lemma {:induction false} PushedSame(infos: seq<Info>, i1: seq<Data>, f1: seq<Data>, i2: seq<Data>, f2: seq<Data>,
                                      limit: OExpr, ts: seq<Tree>)
    requires Pushed(infos, i1, f1, limit, ts)
    requires SameOn(i1, i2, Preorder(ts)) && SameOn(f1, f2, Preorder(ts))
    ensures Pushed(infos, i2, f2, limit, ts)
    decreases ts
  {
    if ts != [] {
      var id := ts[0].id;
      assert id in Preorder(ts);
      assert forall x :: x in Preorder(ts[0].kids) || x in Preorder(ts[1..]) ==> x in Preorder(ts);
      PushedSame(infos, i1, f1, i2, f2, Limit(infos[id], f1[id]), ts[0].kids);
      PushedSame(infos, i1, f1, i2, f2, limit, ts[1..]);
    }
  }

  lemma {:induction false} BelowSame(infos: seq<Info>, i1: seq<Data>, f1: seq<Data>, i2: seq<Data>, f2: seq<Data>,
        ts: seq<Tree>)
    requires Below(infos, i1, f1, ts)
    requires SameOn(i1, i2, Inner(ts)) && SameOn(f1, f2, Preorder(ts))
    ensures Below(infos, i2, f2, ts)
    decreases |ts|
  {
    if ts != [] {
      var id := ts[0].id;
      assert id in Preorder(ts);
      assert forall x :: x in Preorder(ts[0].kids) || x in Preorder(ts[1..]) ==> x in Preorder(ts);
      PushedSame(infos, i1, f1, i2, f2, Limit(infos[id], f1[id]), ts[0].kids);
      BelowSame(infos, i1, f1, i2, f2, ts[1..]);
    }
  }

  lemma {:induction false} BelowAppend(infos: seq<Info>, init: seq<Data>, fin: seq<Data>, a: seq<Tree>, b: seq<Tree>)
    requires Below(infos, init, fin, a) && Below(infos, init, fin, b)
    ensures Below(infos, init, fin, a + b)
    decreases |a|
  {
    if a == [] {
      assert a + b == b;
    } else {
      assert (a + b)[1..] == a[1..] + b && (a + b)[0] == a[0];
      BelowAppend(infos, init, fin, a[1..], b);
    }
  }

  /** The loop over the subentries gives each what PushInto computes. */
  lemma {:induction false} PushDownEach(infos: seq<Info>, data: seq<Data>, limit: OExpr, ts: seq<Tree>)
    requires |infos| == |data| && (forall t :: t in ts ==> t.id < |data|) && Distinct(Roots(ts))
    ensures var r := PushDown(infos, data, limit, ts);
      forall t :: t in ts ==> r[t.id] == PushInto(infos[t.id], limit, data[t.id])
    decreases |ts|
  {
    if ts != [] {
      var id := ts[0].id;
      var next := data[id := PushInto(infos[id], limit, data[id])];
      DistinctParts([id], Roots(ts[1..]));
      assert id in [id];
      PushDownEach(infos, next, limit, ts[1..]);
      PushDownOther(infos, next, limit, ts[1..], id);
      forall t | t in ts[1..] ensures t.id != id { RootOf(ts[1..], t); }
    }
  }

  lemma {:induction false} RootOf(ts: seq<Tree>, t: Tree)
    requires t in ts
    ensures t.id in Roots(ts)
    decreases |ts|
  {
    if t != ts[0] { RootOf(ts[1..], t); }
  }

  lemma {:induction false} PushDownOther(infos: seq<Info>, data: seq<Data>, limit: OExpr, ts: seq<Tree>, i: nat)
    requires |infos| == |data| && (forall t :: t in ts ==> t.id < |data|) && i !in Roots(ts) && i < |data|
    ensures PushDown(infos, data, limit, ts)[i] == data[i]
    decreases |ts|
  {
    if ts != [] {
      var id := ts[0].id;
      PushDownOther(infos, data[id := PushInto(infos[id], limit, data[id])], limit, ts[1..], i);
    }
  }

  lemma {:induction false} PushedOf(infos: seq<Info>, init: seq<Data>, fin: seq<Data>, limit: OExpr, ts: seq<Tree>)
    requires Below(infos, init, fin, ts)
    requires forall t :: t in ts ==> t.id < |infos| && SameDeps(fin[t.id], PushInto(infos[t.id], limit, init[t.id]))
    ensures Pushed(infos, init, fin, limit, ts)
    decreases |ts|
  {
    if ts != [] { PushedOf(infos, init, fin, limit, ts[1..]); }
  }

  lemma {:induction false} DistinctRoots(ts: seq<Tree>)
    requires Distinct(Preorder(ts))
    ensures Distinct(Roots(ts)) && Disjoint(Roots(ts), Inner(ts))
    decreases |ts|
  {
    if ts != [] {
      assert [ts[0]] + ts[1..] == ts;
      DistinctTree(ts[0], ts[1..]);
      DistinctRoots(ts[1..]);
      RootsAndInner(ts[1..]);
    }
  }

  lemma {:induction false} BelowJoin(infos: seq<Info>, a: seq<Data>, b: seq<Data>, c: seq<Data>, used: seq<Tree>,
          rest: seq<Tree>)
    requires Below(infos, a, b, used) && Below(infos, b, c, rest)
    requires Kept(a, b, Inner(used)) && Kept(b, c, Inner(rest)) && Distinct(Preorder(used + rest))
    ensures Below(infos, a, c, used + rest)
  {
    PreorderAppend(used, rest);
    DistinctParts(Preorder(used), Preorder(rest));
    RootsAndInner(used);
    RootsAndInner(rest);
    assert SameOn(b, c, Preorder(used)) && SameOn(a, b, Inner(rest)) && SameOn(a, a, Inner(used));
    BelowSame(infos, a, b, a, c, used);
    assert SameOn(b, a, Inner(rest)) && SameOn(c, c, Preorder(rest));
    BelowSame(infos, b, c, a, c, rest);
    BelowAppend(infos, a, c, used, rest);
  }

  lemma {:induction false} DistinctSuffix(ts: seq<Tree>, rest: seq<Tree>)
    requires |rest| <= |ts| && ts == Used(ts, rest) + rest && Distinct(Preorder(ts))
    ensures Distinct(Preorder(rest))
  {
    PreorderAppend(Used(ts, rest), rest);
    DistinctParts(Preorder(Used(ts, rest)), Preorder(rest));
  }

  /** menu_finalize pushes every limit down exactly once, and to the original subentries only. */
  lemma {:induction false} FinalizePushes(infos: seq<Info>, s: State, ts: seq<Tree>)
    requires ts != [] && |infos| == |s.data| && Fits(ts, |infos|) && Distinct(Preorder(ts))
    ensures var r := Finalize(infos, s, ts); Below(infos, s.data, r.s.data, Used(ts, r.rest))
    decreases Count(ts), 0
  {
    FitsParts(ts, |infos|);
    HeadInner(ts);
    if ts[0].kids != [] {
      ParentPushes(infos, s, ts);
    } else if infos[ts[0].id].sym.Some? {
      SymbolPushes(infos, s, ts);
    }
  }

  /** The two loops over the subentries, seen together */
  lemma {:induction false} KidsPushed(infos: seq<Info>, s: State, limit: OExpr, kids: seq<Tree>)
    requires |infos| == |s.data| && Fits(kids, |infos|) && Distinct(Preorder(kids))
    requires forall t :: t in kids ==> t.id < |infos|
    ensures var s1 := s.(data := PushDown(infos, s.data, limit, kids));
      Pushed(infos, s.data, FinalizeAll(infos, s1, kids).s.data, limit, kids)
    decreases Count(kids), 2
  {
    var s1 := s.(data := PushDown(infos, s.data, limit, kids));
    var r := FinalizeAll(infos, s1, kids);
    DistinctRoots(kids);
    PushDownEach(infos, s.data, limit, kids);
    PushDownFrame(infos, s.data, limit, kids);
    FinalizeAllPushes(infos, s1, kids);
    FinalizeAllFrame(infos, s1, kids);
    assert SameOn(s1.data, s.data, Inner(kids)) && SameOn(r.s.data, r.s.data, Preorder(kids));
    BelowSame(infos, s1.data, r.s.data, s.data, r.s.data, kids);
    forall t | t in kids ensures SameDeps(r.s.data[t.id], PushInto(infos[t.id], limit, s.data[t.id])) {
      RootOf(kids, t);
    }
    PushedOf(infos, s.data, r.s.data, limit, kids);
  }

  lemma {:induction false} ParentPushes(infos: seq<Info>, s: State, ts: seq<Tree>)
    requires ts != [] && |infos| == |s.data| && Fits(ts, |infos|) && Distinct(Preorder(ts)) && ts[0].kids != []
    ensures var r := Finalize(infos, s, ts); r.rest == ts[1..] && Below(infos, s.data, r.s.data, [ts[0]])
    decreases Count(ts), 0, 0
  {
    FitsParts(ts, |infos|);
    var m, kids := ts[0].id, ts[0].kids;
    FitsParts(kids, |infos|);
    assert [ts[0]] + ts[1..] == ts;
    DistinctTree(ts[0], ts[1..]);
    var limit := Limit(infos[m], s.data[m]);
    KidsPushed(infos, s, limit, kids);
    ParentFrame(infos, s, ts);
    var s1 := s.(data := PushDown(infos, s.data, limit, kids));
    var r := FinalizeAll(infos, s1, kids);
    CloseFrame(infos, r.s, m, r.done);
    HeadBelow(infos, s.data, r.s.data, Finalize(infos, s, ts).s.data, ts[0]);
  }

  lemma {:induction false} HeadBelow(infos: seq<Info>, init: seq<Data>, mid: seq<Data>, fin: seq<Data>, t: Tree)
    requires t.id < |infos| == |init| && Pushed(infos, init, mid, Limit(infos[t.id], init[t.id]), t.kids)
    requires Kept(mid, fin, []) && Kept(init, fin, Preorder(t.kids)) && t.id !in Preorder(t.kids)
    ensures Below(infos, init, fin, [t])
  {
    assert SameOn(init, init, Preorder(t.kids)) && SameOn(mid, fin, Preorder(t.kids));
    PushedSame(infos, init, mid, init, fin, Limit(infos[t.id], init[t.id]), t.kids);
    assert SameDeps(init[t.id], fin[t.id]);
    assert [t][1..] == [];
  }

  lemma {:induction false} SymbolPushes(infos: seq<Info>, s: State, ts: seq<Tree>)
    requires ts != [] && |infos| == |s.data| && Fits(ts, |infos|) && Distinct(Preorder(ts))
    requires ts[0].kids == [] && ts[0].id < |infos| && infos[ts[0].id].sym.Some?
    ensures var r := Finalize(infos, s, ts); Below(infos, s.data, r.s.data, Used(ts, r.rest))
    decreases Count(ts), 0, 0
  {
    FitsParts(ts, |infos|);
    var m := ts[0].id;
    assert [ts[0]] + ts[1..] == ts;
    DistinctTree(ts[0], ts[1..]);
    AbsorbPushes(infos, s, m, ts[1..]);
    AbsorbUses(infos, s, m, ts[1..]);
    var r := Absorb(infos, s, m, ts[1..]);
    var s1 := WithDir(r.s, infos[m].sym.value, r.s.data[m].dep);
    CloseFrame(infos, s1, m, r.done);
    BelowHead(infos, s.data, r.s.data, Close(infos, s1, m, r.done).0.data, ts, r.rest);
  }

  lemma {:induction false} BelowHead(infos: seq<Info>, init: seq<Data>, mid: seq<Data>, fin: seq<Data>, ts: seq<Tree>,
                                     rest: seq<Tree>)
    requires ts != [] && ts[0].kids == [] && |rest| < |ts| && Kept(mid, fin, []) && ts[0].id < |infos|
    requires Below(infos, init, mid, Used(ts[1..], rest))
    ensures Below(infos, init, fin, Used(ts, rest))
  {
    var used := Used(ts[1..], rest);
    assert SameOn(init, init, Inner(used)) && SameOn(mid, fin, Preorder(used));
    BelowSame(infos, init, mid, init, fin, used);
    HeadUsed(ts, rest);
    assert ([ts[0]] + used)[1..] == used;
  }

  lemma {:induction false} FinalizeAllPushes(infos: seq<Info>, s: State, ts: seq<Tree>)
    requires |infos| == |s.data| && Fits(ts, |infos|) && Distinct(Preorder(ts))
    ensures Below(infos, s.data, FinalizeAll(infos, s, ts).s.data, ts)
    decreases Count(ts), 1
  {
    if ts != [] {
      var x := Finalize(infos, s, ts);
      FinalizeUses(infos, s, ts);
      DistinctSuffix(ts, x.rest);
      FinalizePushes(infos, s, ts);
      FinalizeFrame(infos, s, ts);
      FinalizeAllPushes(infos, x.s, x.rest);
      FinalizeAllFrame(infos, x.s, x.rest);
      BelowJoin(infos, s.data, x.s.data, FinalizeAll(infos, x.s, x.rest).s.data, Used(ts, x.rest), x.rest);
    }
  }

  lemma {:induction false} AbsorbPushes(infos: seq<Info>, s: State, m: nat, ts: seq<Tree>)
    requires |infos| == |s.data| && m < |infos| && Fits(ts, |infos|) && Distinct(Preorder(ts))
    ensures var r := Absorb(infos, s, m, ts); Below(infos, s.data, r.s.data, Used(ts, r.rest))
    decreases Count(ts), 1
  {
    FitsParts(ts, |infos|);
    if ts != [] && Absorbs(infos, s.data, m, ts[0].id) {
      var x := Finalize(infos, s, ts);
      var y := Absorb(infos, x.s, m, x.rest);
      FinalizeUses(infos, s, ts);
      AbsorbUses(infos, x.s, m, x.rest);
      AbsorbStep(infos, s, m, ts);
      UsedJoin(ts, x.rest, y.rest);
      DistinctSuffix(ts, x.rest);
      FinalizePushes(infos, s, ts);
      FinalizeFrame(infos, s, ts);
      AbsorbPushes(infos, x.s, m, x.rest);
      AbsorbFrame(infos, x.s, m, x.rest);
      PrefixDistinct(ts, y.rest);
      BelowJoin(infos, s.data, x.s.data, y.s.data, Used(ts, x.rest), Used(x.rest, y.rest));
    }
  }

  lemma {:induction false} PrefixDistinct(ts: seq<Tree>, rest: seq<Tree>)
    requires |rest| <= |ts| && ts == Used(ts, rest) + rest && Distinct(Preorder(ts))
    ensures Distinct(Preorder(Used(ts, rest)))
  {
    PreorderAppend(Used(ts, rest), rest);
    DistinctParts(Preorder(Used(ts, rest)), Preorder(rest));
  }

  /* ---- dir_dep ---- */

  function Dir(s: State, x: Symbol): OExpr { if x in s.dir then s.dir[x] else None }

  /** The entries without subentries */
  function Leaves(ts: seq<Tree>): seq<nat> {
    if ts == [] then []
    else (if ts[0].kids == [] then [ts[0].id] else Leaves(ts[0].kids)) + Leaves(ts[1..])
  }

  lemma {:induction false} LeavesIn(ts: seq<Tree>)
    ensures forall x :: x in Leaves(ts) ==> x in Preorder(ts)
  {
    if ts != [] {
      LeavesIn(ts[0].kids);
      LeavesIn(ts[1..]);
    }
  }

  lemma {:induction false} LeavesAppend(a: seq<Tree>, b: seq<Tree>)
    ensures Leaves(a + b) == Leaves(a) + Leaves(b)
    decreases |a|
  {
    if a == [] {
      assert a + b == b;
    } else {
      assert (a + b)[1..] == a[1..] + b && (a + b)[0] == a[0];
      LeavesAppend(a[1..], b);
      var x, y, z := if a[0].kids == [] then [a[0].id] else Leaves(a[0].kids), Leaves(a[1..]), Leaves(b);
      assert x + (y + z) == x + y + z;
    }
  }

  /** There is a condition, and it has at least the value t. */
  predicate Reached(e: OExpr, t: Tri, v: Valuation) { e.Some? && Le(t, Eval(e.value, v)) }

  /** m is an entry of the symbol x, and its dependency reaches t. */
  predicate EntryReaches(infos: seq<Info>, data: seq<Data>, m: nat, x: Symbol, t: Tri, v: Valuation) {
    m < |infos| == |data| && infos[m].sym == Some(x) && Reached(data[m].dep, t, v)
  }

  /** Working on the trees `used` makes dir_dep of x reach what it reached, and what the dependency of some leaf among
      them reaches that is an entry of x. */
  ghost predicate DirSet(infos: seq<Info>, a: State, b: State, used: seq<Tree>, x: Symbol, t: Tri, v: Valuation) {
    Reached(Dir(b, x), t, v) <==>
      Reached(Dir(a, x), t, v) || exists m :: m in Leaves(used) && EntryReaches(infos, b.data, m, x, t, v)
  }

  lemma {:induction false} CloseDir(infos: seq<Info>, s: State, m: nat, kids: seq<Tree>)
    requires |infos| == |s.data| && m < |infos| && Fits(kids, |infos|)
    ensures Close(infos, s, m, kids).0.dir == s.dir
  {
    var flat := Flatten(infos, kids);
    FitsParts(flat, |infos|);
    if infos[m].choice && infos[m].sym.Some? { PutGuardsDir(infos, s, infos[m].sym.value, flat); }
  }

  lemma {:induction false} PutGuardsDir(infos: seq<Info>, s: State, c: Symbol, ts: seq<Tree>)
    requires |infos| == |s.data| && forall t :: t in ts ==> t.id < |infos|
    ensures PutGuards(infos, s, c, ts).dir == s.dir
    decreases |ts|
  {
    if ts != [] { PutGuardsDir(infos, Mark(infos, s, c, ts[0].id), c, ts[1..]); }
  }

  lemma {:induction false} DirJoin(infos: seq<Info>, a: State, b: State, c: State, used: seq<Tree>, rest: seq<Tree>,
          x: Symbol, t: Tri,
                v: Valuation)
    requires DirSet(infos, a, b, used, x, t, v) && DirSet(infos, b, c, rest, x, t, v)
    requires Kept(b.data, c.data, Inner(rest)) && Distinct(Preorder(used + rest))
    ensures DirSet(infos, a, c, used + rest, x, t, v)
  {
    PreorderAppend(used, rest);
    LeavesAppend(used, rest);
    DistinctParts(Preorder(used), Preorder(rest));
    LeavesIn(used);
    RootsAndInner(rest);
    forall m | m in Leaves(used)
      ensures EntryReaches(infos, b.data, m, x, t, v) == EntryReaches(infos, c.data, m, x, t, v)
    {
      assert m in Preorder(used) && m !in Inner(rest);
    }
  }

  /** dir_dep of a symbol is the OR of the dependencies of its entries without subentries, as far as they have any. */
  lemma {:induction false} FinalizeDir(infos: seq<Info>, s: State, ts: seq<Tree>, x: Symbol, t: Tri, v: Valuation)
    requires ts != [] && |infos| == |s.data| && Fits(ts, |infos|) && Distinct(Preorder(ts))
    ensures var r := Finalize(infos, s, ts); DirSet(infos, s, r.s, Used(ts, r.rest), x, t, v)
    decreases Count(ts), 0
  {
    FitsParts(ts, |infos|);
    HeadInner(ts);
    assert [ts[0]] + ts[1..] == ts;
    DistinctTree(ts[0], ts[1..]);
    if ts[0].kids != [] {
      ParentDir(infos, s, ts, x, t, v);
    } else if infos[ts[0].id].sym.Some? {
      SymbolDir(infos, s, ts, x, t, v);
    } else {
      assert Leaves([ts[0]]) == [ts[0].id] + Leaves([ts[0]][1..]);
    }
  }

  lemma {:induction false} ParentDir(infos: seq<Info>, s: State, ts: seq<Tree>, x: Symbol, t: Tri, v: Valuation)
    requires ts != [] && |infos| == |s.data| && Fits(ts, |infos|) && Distinct(Preorder(ts[0].kids))
    requires ts[0].kids != []
    ensures var r := Finalize(infos, s, ts); r.rest == ts[1..] && DirSet(infos, s, r.s, [ts[0]], x, t, v)
    decreases Count(ts), 0, 0
  {
    FitsParts(ts, |infos|);
    var p, kids := ts[0].id, ts[0].kids;
    FitsParts(kids, |infos|);
    var s1 := s.(data := PushDown(infos, s.data, Limit(infos[p], s.data[p]), kids));
    FinalizeAllDir(infos, s1, kids, x, t, v);
    var r := FinalizeAll(infos, s1, kids);
    CloseDir(infos, r.s, p, r.done);
    CloseFrame(infos, r.s, p, r.done);
    SameEntries(infos, r.s.data, Close(infos, r.s, p, r.done).0.data, x, t, v);
    assert Leaves([ts[0]]) == Leaves(kids) + Leaves([ts[0]][1..]);
  }

  lemma {:induction false} SameEntries(infos: seq<Info>, a: seq<Data>, b: seq<Data>, x: Symbol, t: Tri, v: Valuation)
    requires Kept(a, b, [])
    ensures forall m :: EntryReaches(infos, a, m, x, t, v) == EntryReaches(infos, b, m, x, t, v)
  {
  }

  lemma {:induction false} SymbolDir(infos: seq<Info>, s: State, ts: seq<Tree>, x: Symbol, t: Tri, v: Valuation)
    requires ts != [] && |infos| == |s.data| && Fits(ts, |infos|) && Distinct(Preorder(ts))
    requires ts[0].kids == [] && ts[0].id < |infos| && infos[ts[0].id].sym.Some?
    ensures var r := Finalize(infos, s, ts); DirSet(infos, s, r.s, Used(ts, r.rest), x, t, v)
    decreases Count(ts), 0, 0
  {
    FitsParts(ts, |infos|);
    var p := ts[0].id;
    assert [ts[0]] + ts[1..] == ts;
    DistinctTree(ts[0], ts[1..]);
    AbsorbDir(infos, s, p, ts[1..], x, t, v);
    AbsorbUses(infos, s, p, ts[1..]);
    var r := Absorb(infos, s, p, ts[1..]);
    var s1 := WithDir(r.s, infos[p].sym.value, r.s.data[p].dep);
    CloseDir(infos, s1, p, r.done);
    CloseFrame(infos, s1, p, r.done);
    HeadUsed(ts, r.rest);
    DirHead(infos, s, r.s, Close(infos, s1, p, r.done).0, ts[0], Used(ts[1..], r.rest), x, t, v);
  }

  /** A leaf before the trees `used`, which is worked on last */
  lemma {:induction false} DirHead(infos: seq<Info>, a: State, b: State, c: State, l: Tree, used: seq<Tree>, x: Symbol,
          t: Tri,
                v: Valuation)
    requires DirSet(infos, a, b, used, x, t, v) && l.kids == []
    requires l.id < |infos| == |b.data| && infos[l.id].sym.Some?
    requires c.dir == WithDir(b, infos[l.id].sym.value, b.data[l.id].dep).dir && Kept(b.data, c.data, [])
    ensures DirSet(infos, a, c, [l] + used, x, t, v)
  {
    LeavesAppend([l], used);
    assert Leaves([l]) == [l.id] + Leaves([l][1..]);
    SameEntries(infos, b.data, c.data, x, t, v);
    assert Reached(Dir(c, x), t, v) <==> Reached(Dir(b, x), t, v) || EntryReaches(infos, b.data, l.id, x, t, v);
    assert forall m :: m in Leaves([l] + used) <==> m == l.id || m in Leaves(used);
  }

  lemma {:induction false} FinalizeAllDir(infos: seq<Info>, s: State, ts: seq<Tree>, x: Symbol, t: Tri, v: Valuation)
    requires |infos| == |s.data| && Fits(ts, |infos|) && Distinct(Preorder(ts))
    ensures DirSet(infos, s, FinalizeAll(infos, s, ts).s, ts, x, t, v)
    decreases Count(ts), 1
  {
    if ts != [] {
      var y := Finalize(infos, s, ts);
      FinalizeUses(infos, s, ts);
      DistinctSuffix(ts, y.rest);
      FinalizeDir(infos, s, ts, x, t, v);
      FinalizeAllDir(infos, y.s, y.rest, x, t, v);
      FinalizeAllFrame(infos, y.s, y.rest);
      DirJoin(infos, s, y.s, FinalizeAll(infos, y.s, y.rest).s, Used(ts, y.rest), y.rest, x, t, v);
    }
  }

  lemma {:induction false} AbsorbDir(infos: seq<Info>, s: State, p: nat, ts: seq<Tree>, x: Symbol, t: Tri,
                                     v: Valuation)
    requires |infos| == |s.data| && p < |infos| && Fits(ts, |infos|) && Distinct(Preorder(ts))
    ensures var r := Absorb(infos, s, p, ts); DirSet(infos, s, r.s, Used(ts, r.rest), x, t, v)
    decreases Count(ts), 1
  {
    FitsParts(ts, |infos|);
    if ts != [] && Absorbs(infos, s.data, p, ts[0].id) {
      var y := Finalize(infos, s, ts);
      var z := Absorb(infos, y.s, p, y.rest);
      FinalizeUses(infos, s, ts);
      AbsorbUses(infos, y.s, p, y.rest);
      AbsorbStep(infos, s, p, ts);
      UsedJoin(ts, y.rest, z.rest);
      DistinctSuffix(ts, y.rest);
      FinalizeDir(infos, s, ts, x, t, v);
      AbsorbDir(infos, y.s, p, y.rest, x, t, v);
      AbsorbFrame(infos, y.s, p, y.rest);
      PrefixDistinct(ts, z.rest);
      DirJoin(infos, s, y.s, z.s, Used(ts, y.rest), Used(y.rest, z.rest), x, t, v);
    } else {
      assert Used(ts, ts) == [] && Leaves([]) == [];
    }
  }
}
