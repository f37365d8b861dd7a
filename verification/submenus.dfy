/** Which entries end up below which (scripts/config/menu.c:341-371 and 415-424): dissolved are exactly the submenus
    of entries without a prompt, and a symbol takes the following entries that depend on it. */
module Submenus {
  import opened Tristate
  import opened Exprs
  import opened Equality
  import opened Compares
  import opened Menus
  import opened MenuDeps

  /* ---- what is left has a prompt ---- */

  /** Every entry with subentries has a prompt, at all depths. */
  ghost predicate Prompted(infos: seq<Info>, ts: seq<Tree>) {
    ts == [] ||
    (&& (ts[0].kids != [] ==> ts[0].id < |infos| && infos[ts[0].id].prompt.Some?)
     && Prompted(infos, ts[0].kids) && Prompted(infos, ts[1..]))
  }

  /** The same below the first level */
  ghost predicate PromptedInside(infos: seq<Info>, ts: seq<Tree>) {
    ts == [] || (Prompted(infos, ts[0].kids) && PromptedInside(infos, ts[1..]))
  }

  lemma {:induction false} PromptedBoth(infos: seq<Info>, ts: seq<Tree>)
    requires Prompted(infos, ts)
    ensures PromptedInside(infos, ts)
    decreases |ts|
  {
    if ts != [] { PromptedBoth(infos, ts[1..]); }
  }

  lemma {:induction false} InsideAppend(infos: seq<Info>, a: seq<Tree>, b: seq<Tree>)
    requires PromptedInside(infos, a) && PromptedInside(infos, b)
    ensures PromptedInside(infos, a + b)
    decreases |a|
  {
    if a == [] {
      assert a + b == b;
    } else {
      assert (a + b)[1..] == a[1..] + b && (a + b)[0] == a[0];
      InsideAppend(infos, a[1..], b);
    }
  }

  lemma {:induction false} FlattenPrompted(infos: seq<Info>, ts: seq<Tree>)
    requires Fits(ts, |infos|) && PromptedInside(infos, ts)
    ensures Prompted(infos, Flatten(infos, ts))
    decreases Count(ts)
  {
    if ts != [] {
      FitsParts(ts, |infos|);
      if ts[0].kids != [] && infos[ts[0].id].prompt.None? {
        CountAppend(ts[0].kids, ts[1..]);
        PreorderAppend(ts[0].kids, ts[1..]);
        PromptedBoth(infos, ts[0].kids);
        InsideAppend(infos, ts[0].kids, ts[1..]);
        var rest := Flatten(infos, ts[0].kids + ts[1..]);
        FlattenPrompted(infos, ts[0].kids + ts[1..]);
        assert ([Node(ts[0].id, [])] + rest)[1..] == rest;
      } else {
        var rest := Flatten(infos, ts[1..]);
        FlattenPrompted(infos, ts[1..]);
        assert ([ts[0]] + rest)[1..] == rest;
      }
    }
  }

  /** Below the entry that menu_finalize was called on, an entry with subentries has a prompt. */
  lemma {:induction false} FinalizePrompted(infos: seq<Info>, s: State, ts: seq<Tree>)
    requires ts != [] && |infos| == |s.data| && Fits(ts, |infos|)
    ensures Prompted(infos, Finalize(infos, s, ts).head.kids)
    decreases Count(ts), 0
  {
    FitsParts(ts, |infos|);
    var m, kids := ts[0].id, ts[0].kids;
    PreorderCons(ts[0], []);
    if kids != [] {
      FitsParts(kids, |infos|);
      var s1 := s.(data := PushDown(infos, s.data, Limit(infos[m], s.data[m]), kids));
      FinalizeAllPrompted(infos, s1, kids);
      FlattenPrompted(infos, FinalizeAll(infos, s1, kids).done);
    } else if infos[m].sym.Some? {
      AbsorbPrompted(infos, s, m, ts[1..]);
      FlattenPrompted(infos, Absorb(infos, s, m, ts[1..]).done);
    }
  }

  lemma {:induction false} FinalizeAllPrompted(infos: seq<Info>, s: State, ts: seq<Tree>)
    requires |infos| == |s.data| && Fits(ts, |infos|)
    ensures PromptedInside(infos, FinalizeAll(infos, s, ts).done)
    decreases Count(ts), 1
  {
    if ts != [] {
      var x := Finalize(infos, s, ts);
      FinalizePrompted(infos, s, ts);
      FinalizeAllPrompted(infos, x.s, x.rest);
      assert ([x.head] + FinalizeAll(infos, x.s, x.rest).done)[1..] == FinalizeAll(infos, x.s, x.rest).done;
    }
  }

  lemma {:induction false} AbsorbPrompted(infos: seq<Info>, s: State, m: nat, ts: seq<Tree>)
    requires |infos| == |s.data| && m < |infos| && Fits(ts, |infos|)
    ensures PromptedInside(infos, Absorb(infos, s, m, ts).done)
    decreases Count(ts), 1
  {
    FitsParts(ts, |infos|);
    if ts != [] && Absorbs(infos, s.data, m, ts[0].id) {
      var x := Finalize(infos, s, ts);
      FinalizePrompted(infos, s, ts);
      AbsorbPrompted(infos, x.s, m, x.rest);
      AbsorbStep(infos, s, m, ts);
      assert ([x.head] + Absorb(infos, x.s, m, x.rest).done)[1..] == Absorb(infos, x.s, m, x.rest).done;
    }
  }

  /* ---- what lies below an entry with a prompt stays below it ---- */

  /** Entry b lies somewhere below entry a. */
  ghost predicate Under(ts: seq<Tree>, a: nat, b: nat) {
    ts != [] &&
    ((ts[0].id == a && b in Preorder(ts[0].kids)) || Under(ts[0].kids, a, b) || Under(ts[1..], a, b))
  }

  lemma {:induction false} UnderAppend(x: seq<Tree>, y: seq<Tree>, a: nat, b: nat)
    ensures Under(x + y, a, b) <==> Under(x, a, b) || Under(y, a, b)
    decreases |x|
  {
    if x == [] {
      assert x + y == y;
    } else {
      assert (x + y)[1..] == x[1..] + y && (x + y)[0] == x[0];
      UnderAppend(x[1..], y, a, b);
    }
  }

  lemma {:induction false} UnderHead(t: Tree, ts: seq<Tree>, a: nat, b: nat)
    ensures Under([t] + ts, a, b) <==>
            (t.id == a && b in Preorder(t.kids)) || Under(t.kids, a, b) || Under(ts, a, b)
    ensures Under([t], a, b) <==> (t.id == a && b in Preorder(t.kids)) || Under(t.kids, a, b)
  {
    assert ([t] + ts)[1..] == ts && [t][1..] == [];
  }

  /** Dissolving submenus puts nothing below an entry that was not there, and takes nothing away below one with a
      prompt. */
  lemma {:induction false} FlattenUnder(infos: seq<Info>, ts: seq<Tree>, a: nat, b: nat)
    ensures Under(Flatten(infos, ts), a, b) ==> Under(ts, a, b)
    ensures a < |infos| && infos[a].prompt.Some? && Under(ts, a, b) ==> Under(Flatten(infos, ts), a, b)
    decreases Count(ts)
  {
    if ts != [] {
      UnderHead(ts[0], ts[1..], a, b);
      assert [ts[0]] + ts[1..] == ts;
      if ts[0].kids != [] && ts[0].id < |infos| && infos[ts[0].id].prompt.None? {
        CountAppend(ts[0].kids, ts[1..]);
        FlattenUnder(infos, ts[0].kids + ts[1..], a, b);
        UnderAppend(ts[0].kids, ts[1..], a, b);
        UnderHead(Node(ts[0].id, []), Flatten(infos, ts[0].kids + ts[1..]), a, b);
      } else {
        FlattenUnder(infos, ts[1..], a, b);
        UnderHead(ts[0], Flatten(infos, ts[1..]), a, b);
      }
    }
  }

  /** From `from` to `to` the entry a keeps what lies below it if it has a prompt, and gets new entries below it only
      if it was an entry of a symbol without any. */
  ghost predicate KeepsUnder(infos: seq<Info>, from: seq<Tree>, to: seq<Tree>, a: nat, b: nat) {
    && (a < |infos| && infos[a].prompt.Some? && Under(from, a, b) ==> Under(to, a, b))
    && (Under(to, a, b) ==> Under(from, a, b) || (a < |infos| && infos[a].sym.Some? && a in Leaves(from)))
  }

  lemma {:induction false} KeepsJoin(infos: seq<Info>, f: seq<Tree>, t: seq<Tree>, f': seq<Tree>, t': seq<Tree>,
          a: nat, b: nat)
    requires KeepsUnder(infos, f, t, a, b) && KeepsUnder(infos, f', t', a, b)
    ensures KeepsUnder(infos, f + f', t + t', a, b)
  {
    UnderAppend(f, f', a, b);
    UnderAppend(t, t', a, b);
    LeavesAppend(f, f');
  }

  /** menu_finalize, on the entries that it uses up */
  lemma {:induction false} FinalizeUnder(infos: seq<Info>, s: State, ts: seq<Tree>, a: nat, b: nat)
    requires ts != [] && |infos| == |s.data| && Fits(ts, |infos|)
    ensures var r := Finalize(infos, s, ts); KeepsUnder(infos, Used(ts, r.rest), [r.head], a, b)
    decreases Count(ts), 0
  {
    FitsParts(ts, |infos|);
    HeadInner(ts);
    if ts[0].kids != [] {
      ParentUnder(infos, s, ts, a, b);
    } else if infos[ts[0].id].sym.Some? {
      SymbolUnder(infos, s, ts, a, b);
    }
  }

  lemma {:induction false} ParentUnder(infos: seq<Info>, s: State, ts: seq<Tree>, a: nat, b: nat)
    requires ts != [] && |infos| == |s.data| && Fits(ts, |infos|) && ts[0].kids != []
    ensures KeepsUnder(infos, [ts[0]], [Finalize(infos, s, ts).head], a, b)
    decreases Count(ts), 0, 0
  {
    FitsParts(ts, |infos|);
    var m, kids := ts[0].id, ts[0].kids;
    FitsParts(kids, |infos|);
    var s1 := s.(data := PushDown(infos, s.data, Limit(infos[m], s.data[m]), kids));
    var r := FinalizeAll(infos, s1, kids);
    FinalizeAllUnder(infos, s1, kids, a, b);
    FinalizeAllOrder(infos, s1, kids);
    FlattenUnder(infos, r.done, a, b);
    UnderHead(ts[0], [], a, b);
    UnderHead(Node(m, Flatten(infos, r.done)), [], a, b);
    assert Leaves([ts[0]]) == Leaves(kids) + Leaves([ts[0]][1..]);
  }

  lemma {:induction false} SymbolUnder(infos: seq<Info>, s: State, ts: seq<Tree>, a: nat, b: nat)
    requires ts != [] && |infos| == |s.data| && Fits(ts, |infos|)
    requires ts[0].kids == [] && ts[0].id < |infos| && infos[ts[0].id].sym.Some?
    ensures var r := Finalize(infos, s, ts); KeepsUnder(infos, Used(ts, r.rest), [r.head], a, b)
    decreases Count(ts), 0, 0
  {
    FitsParts(ts, |infos|);
    var m := ts[0].id;
    var r := Absorb(infos, s, m, ts[1..]);
    var used := Used(ts[1..], r.rest);
    AbsorbUnder(infos, s, m, ts[1..], a, b);
    AbsorbUses(infos, s, m, ts[1..]);
    FlattenUnder(infos, r.done, a, b);
    HeadUsed(ts, r.rest);
    UnderHead(ts[0], used, a, b);
    UnderHead(Node(m, Flatten(infos, r.done)), [], a, b);
    LeavesAppend([ts[0]], used);
    assert Leaves([ts[0]]) == [m] + Leaves([ts[0]][1..]);
  }

  lemma {:induction false} FinalizeAllUnder(infos: seq<Info>, s: State, ts: seq<Tree>, a: nat, b: nat)
    requires |infos| == |s.data| && Fits(ts, |infos|)
    ensures KeepsUnder(infos, ts, FinalizeAll(infos, s, ts).done, a, b)
    decreases Count(ts), 1
  {
    if ts != [] {
      var x := Finalize(infos, s, ts);
      FinalizeUnder(infos, s, ts, a, b);
      FinalizeUses(infos, s, ts);
      FinalizeAllUnder(infos, x.s, x.rest, a, b);
      KeepsJoin(infos, Used(ts, x.rest), [x.head], x.rest, FinalizeAll(infos, x.s, x.rest).done, a, b);
    }
  }

  lemma {:induction false} AbsorbUnder(infos: seq<Info>, s: State, m: nat, ts: seq<Tree>, a: nat, b: nat)
    requires |infos| == |s.data| && m < |infos| && Fits(ts, |infos|)
    ensures var r := Absorb(infos, s, m, ts); KeepsUnder(infos, Used(ts, r.rest), r.done, a, b)
    decreases Count(ts), 1
  {
    FitsParts(ts, |infos|);
    if ts != [] && Absorbs(infos, s.data, m, ts[0].id) {
      var x := Finalize(infos, s, ts);
      var y := Absorb(infos, x.s, m, x.rest);
      FinalizeUnder(infos, s, ts, a, b);
      FinalizeUses(infos, s, ts);
      AbsorbUnder(infos, x.s, m, x.rest, a, b);
      AbsorbUses(infos, x.s, m, x.rest);
      AbsorbStep(infos, s, m, ts);
      UsedJoin(ts, x.rest, y.rest);
      KeepsJoin(infos, Used(ts, x.rest), [x.head], Used(x.rest, y.rest), y.done, a, b);
    }
  }

  /** The whole menu: whatever lies below an entry with a prompt still does, and new entries come only below an entry
      of a symbol that had none. */
  lemma {:induction false} MenuKeepsUnder(infos: seq<Info>, s: State, root: Tree, a: nat, b: nat)
    requires |infos| == |s.data| && Fits([root], |infos|)
    ensures var head := Finalize(infos, s, [root]).head;
      && (a < |infos| && infos[a].prompt.Some? && Under([root], a, b) ==> Under([head], a, b))
      && (Under([head], a, b) ==>
            Under([root], a, b) || (a < |infos| && infos[a].sym.Some? && a in Leaves([root])))
      && Prompted(infos, head.kids)
  {
    FinalizeUnder(infos, s, [root], a, b);
    FinalizeUses(infos, s, [root]);
    FinalizePrompted(infos, s, [root]);
    assert Used([root], Finalize(infos, s, [root]).rest) == [root];
  }

  /* ---- which following entries a symbol takes ---- */

  /** The condition of the entry x depends on the symbol, or mentions it while the prompt of m has no condition. */
  predicate Claims(infos: seq<Info>, data: seq<Data>, m: nat, x: nat)
    requires |infos| == |data| && m < |data| && x < |data|
  {
    var dep := if infos[x].prompt.None? then data[x].dep else PromptCond(infos[x], data[x]);
    infos[m].sym.Some? && dep.Some? && infos[m].sym.value in Syms(dep.value)
    && (DependsSymbol(dep.value, infos[m].sym.value) || PromptCond(infos[m], data[m]).None?)
  }

  /** The constants y and n cancel against nothing. */
  lemma {:induction false} YesStays(op: Op, e: Expr)
    ensures Cancel(op, e, Sym(SYM_YES)) == (Cancel(op, e, Sym(SYM_YES)).0, Sym(SYM_YES))
  {
    if IsOp(op, e) { YesStays(op, e.l); YesStays(op, e.r); }
  }

  lemma {:induction false} ClaimsAbsorbs(infos: seq<Info>, data: seq<Data>, m: nat, x: nat)
    requires |infos| == |data| && m < |data| && x < |data| && Claims(infos, data, m, x)
    ensures Absorbs(infos, data, m, x)
  {
    if PromptCond(infos[m], data[m]).None? {
      var dep := NotNo(SubmenuCond(infos[x], data[x]));
      assert NotNo(None) == Sym(SYM_YES);
      if dep.Bin? { YesStays(dep.op, dep); }
    }
  }

  lemma {:induction false} ClaimsKept(infos: seq<Info>, a: seq<Data>, b: seq<Data>, m: nat, x: nat)
    requires |infos| == |a| == |b| && m < |a| && x < |a| && SameDeps(a[m], b[m]) && SameDeps(a[x], b[x])
    ensures Claims(infos, a, m, x) == Claims(infos, b, m, x)
  {
  }

  lemma {:induction false} SamePrefix(a: seq<nat>, b: seq<nat>, c: seq<nat>)
    requires a + c == b + c
    ensures a == b
  {
    assert a == (a + c)[..|a|] && b == (b + c)[..|b|] && |a| == |b|;
  }

  /** The head that a call leaves holds just the entries it used up. */
  lemma {:induction false} HeadHolds(infos: seq<Info>, s: State, ts: seq<Tree>)
    requires ts != [] && |infos| == |s.data| && Fits(ts, |infos|)
    ensures var x := Finalize(infos, s, ts); Preorder([x.head]) == Preorder(Used(ts, x.rest))
  {
    var x := Finalize(infos, s, ts);
    FinalizeOrder(infos, s, ts);
    FinalizeUses(infos, s, ts);
    PreorderAppend(Used(ts, x.rest), x.rest);
    SamePrefix(x.calls, Preorder(Used(ts, x.rest)), Preorder(x.rest));
  }

  /** An entry that a call leaves over keeps its conditions. */
  lemma {:induction false} LaterSame(infos: seq<Info>, s: State, ts: seq<Tree>, t: Tree)
    requires ts != [] && |infos| == |s.data| && Fits(ts, |infos|) && Distinct(Preorder(ts))
    requires t in Finalize(infos, s, ts).rest && t.id < |infos|
    ensures SameDeps(s.data[t.id], Finalize(infos, s, ts).s.data[t.id])
  {
    var x := Finalize(infos, s, ts);
    var used := Used(ts, x.rest);
    FinalizeUses(infos, s, ts);
    FinalizeFrame(infos, s, ts);
    PreorderAppend(used, x.rest);
    DistinctParts(Preorder(used), Preorder(x.rest));
    RootsAndInner(used);
    RootsAndInner(x.rest);
    RootOf(x.rest, t);
  }

  lemma {:induction false} ParentSame(infos: seq<Info>, s: State, m: nat, ts: seq<Tree>)
    requires ts != [] && |infos| == |s.data| && m < |infos| && Fits(ts, |infos|) && m !in Preorder(ts)
    ensures SameDeps(s.data[m], Finalize(infos, s, ts).s.data[m])
  {
    var x := Finalize(infos, s, ts);
    FinalizeUses(infos, s, ts);
    FinalizeFrame(infos, s, ts);
    PreorderAppend(Used(ts, x.rest), x.rest);
    RootsAndInner(Used(ts, x.rest));
  }

  /** What is left after a call claims what it claimed before. */
  lemma {:induction false} LaterClaims(infos: seq<Info>, s: State, m: nat, ts: seq<Tree>, i: nat)
    requires ts != [] && |infos| == |s.data| && m < |infos| && Fits(ts, |infos|)
    requires Distinct(Preorder(ts)) && m !in Preorder(ts)
    requires i < |ts| && ts[i].id < |infos| && Claims(infos, s.data, m, ts[i].id)
    ensures var x := Finalize(infos, s, ts); var n := |ts| - |x.rest|;
      n > 0 && (i >= n ==> x.rest[i - n] == ts[i] && Claims(infos, x.s.data, m, ts[i].id))
  {
    var x := Finalize(infos, s, ts);
    FinalizeUses(infos, s, ts);
    var n := |ts| - |x.rest|;
    if i >= n {
      assert x.rest[i - n] == ts[i];
      LaterSame(infos, s, ts, ts[i]);
      ParentSame(infos, s, m, ts);
      ClaimsKept(infos, s.data, x.s.data, m, ts[i].id);
    }
  }

  /** Following entries that claim to go below m do so, up to the first that does not. */
  lemma {:induction false} AbsorbTakes(infos: seq<Info>, s: State, m: nat, ts: seq<Tree>, j: nat)
    requires |infos| == |s.data| && m < |infos| && Fits(ts, |infos|) && Distinct(Preorder(ts)) && m !in Preorder(ts)
    requires j < |ts| && forall i :: 0 <= i <= j ==> ts[i].id < |infos| && Claims(infos, s.data, m, ts[i].id)
    ensures ts[j].id in Preorder(Absorb(infos, s, m, ts).done)
    decreases Count(ts), 1
  {
    ClaimsAbsorbs(infos, s.data, m, ts[0].id);
    var x := Finalize(infos, s, ts);
    AbsorbStep(infos, s, m, ts);
    PreorderAppend([x.head], Absorb(infos, x.s, m, x.rest).done);
    HeadHolds(infos, s, ts);
    FinalizeUses(infos, s, ts);
    var n := |ts| - |x.rest|;
    if j < n {
      RootOf(Used(ts, x.rest), ts[j]);
      RootsAndInner(Used(ts, x.rest));
    } else {
      forall i: nat | i <= j - n
        ensures x.rest[i] == ts[n + i] && x.rest[i].id < |infos| && Claims(infos, x.s.data, m, x.rest[i].id)
      {
        LaterClaims(infos, s, m, ts, n + i);
      }
      PreorderAppend(Used(ts, x.rest), x.rest);
      DistinctSuffix(ts, x.rest);
      AbsorbTakes(infos, x.s, m, x.rest, j - n);
    }
  }

  /** An entry of a symbol without subentries takes the following entries while they claim to go below it. */
  lemma {:induction false} SymbolTakes(infos: seq<Info>, s: State, ts: seq<Tree>, j: nat)
    requires ts != [] && |infos| == |s.data| && Fits(ts, |infos|) && Distinct(Preorder(ts))
    requires ts[0].kids == [] && ts[0].id < |infos| && infos[ts[0].id].sym.Some? && 0 < j < |ts|
    requires forall i :: 0 < i <= j ==> ts[i].id < |infos| && Claims(infos, s.data, ts[0].id, ts[i].id)
    ensures ts[j].id in Preorder(Finalize(infos, s, ts).head.kids)
  {
    var r, sub := SymbolCase(infos, s, ts);
    assert [ts[0]] + ts[1..] == ts;
    DistinctTree(ts[0], ts[1..]);
    assert forall i :: 0 <= i <= j - 1 ==> ts[1..][i] == ts[i + 1];
    AbsorbTakes(infos, s, ts[0].id, ts[1..], j - 1);
  }

  /** It takes none if the condition of the next one does not even mention the symbol. */
  lemma {:induction false} SymbolTakesNone(infos: seq<Info>, s: State, ts: seq<Tree>)
    requires |ts| >= 2 && |infos| == |s.data| && Fits(ts, |infos|)
    requires ts[0].kids == [] && ts[0].id < |infos| && infos[ts[0].id].sym.Some? && ts[1].id < |infos|
    requires var info, d := infos[ts[1].id], s.data[ts[1].id];
      var dep := if info.prompt.None? then d.dep else PromptCond(info, d);
      dep.None? || infos[ts[0].id].sym.value !in Syms(dep.value)
    ensures var r := Finalize(infos, s, ts); r.head.kids == [] && r.rest == ts[1..]
  {
    var r, sub := SymbolCase(infos, s, ts);
    assert ts[1..][0] == ts[1];
    assert r == ListOutcome(s, [], ts[1..], []);
    assert Preorder(sub) == [];
  }
}
