/** The pointers between menu entries, and menu_finalize (scripts/config/menu.c:282-444) as the in-place
    pass over them: it re-links the very lists it is walking. */
module MenuLinks {
  import opened Tristate
  import opened Exprs
  import opened Equality
  import opened Compares
  import opened Menus
  import opened MenuDeps
  import opened Submenus

  /** The fields next, list and parent of all entries */
  datatype Links = Links(next: seq<Option<nat>>, list: seq<Option<nat>>, parent: seq<Option<nat>>)

  function Total(l: Links): nat { |l.next| }

  ghost predicate Sized(l: Links) { |l.next| == |l.list| == |l.parent| }

  function First(ts: seq<Tree>, end: Option<nat>): Option<nat> { if ts == [] then end else Some(ts[0].id) }

  /** The trees `ts` are linked up as (part of) a list of entries: each next pointer leads to the next
      tree and from the last one to `end`, each list pointer to the subentries, and each parent pointer
      is right. */
  ghost predicate Seg(l: Links, ts: seq<Tree>, par: Option<nat>, end: Option<nat>) {
    Sized(l) &&
    (ts == [] ||
      (var id := ts[0].id;
       && id < Total(l) && l.parent[id] == par && l.next[id] == First(ts[1..], end)
       && l.list[id] == First(ts[0].kids, None)
       && Seg(l, ts[0].kids, Some(id), None)
       && Seg(l, ts[1..], par, end)))
  }

  ghost predicate SameAt(a: Links, b: Links, id: nat)
    requires Sized(a) && Sized(b) && Total(a) == Total(b)
  {
    id < Total(a) ==> a.next[id] == b.next[id] && a.list[id] == b.list[id] && a.parent[id] == b.parent[id]
  }

  /** The links of all entries but those in `ids` are the same. */
  ghost predicate SameOutside(a: Links, b: Links, ids: seq<nat>) {
    Sized(a) && Sized(b) && Total(a) == Total(b) && forall id: nat :: id !in ids ==> SameAt(a, b, id)
  }

  lemma {:induction false} SegFrame(a: Links, b: Links, ts: seq<Tree>, par: Option<nat>, end: Option<nat>,
                                    ids: seq<nat>)
    requires Seg(a, ts, par, end) && SameOutside(a, b, ids) && Disjoint(Preorder(ts), ids)
    ensures Seg(b, ts, par, end)
    decreases ts
  {
    if ts != [] {
      assert ts[0].id in Preorder(ts) && SameAt(a, b, ts[0].id);
      assert forall x :: x in Preorder(ts[0].kids) || x in Preorder(ts[1..]) ==> x in Preorder(ts);
      SegFrame(a, b, ts[0].kids, Some(ts[0].id), None, ids);
      SegFrame(a, b, ts[1..], par, end, ids);
    }
  }

  lemma {:induction false} SegAppend(l: Links, ts: seq<Tree>, us: seq<Tree>, par: Option<nat>, end: Option<nat>)
    requires Sized(l)
    ensures Seg(l, ts + us, par, end) <==> Seg(l, ts, par, First(us, end)) && Seg(l, us, par, end)
    decreases |ts|
  {
    if ts == [] {
      assert ts + us == us;
    } else {
      assert (ts + us)[1..] == ts[1..] + us && (ts + us)[0] == ts[0];
      SegAppend(l, ts[1..], us, par, end);
    }
  }

  /** Changing where a segment ends */
  lemma {:induction false} SegRetarget(l: Links, ts: seq<Tree>, par: Option<nat>, end: Option<nat>, to: Option<nat>)
    requires Seg(l, ts, par, end) && ts != [] && Distinct(Preorder(ts))
    ensures ts[|ts| - 1].id < Total(l) && ts[|ts| - 1].id in Preorder(ts) && l.next[ts[|ts| - 1].id] == end
    ensures Seg(l.(next := l.next[ts[|ts| - 1].id := to]), ts, par, to)
    decreases |ts|
  {
    var last := ts[|ts| - 1].id;
    var k := l.(next := l.next[if last < Total(l) then last else 0 := to]);
    DistinctTree(ts[0], ts[1..]);
    if |ts| == 1 {
      assert SameOutside(l, k, [last]);
      SegFrame(l, k, ts[0].kids, Some(ts[0].id), None, [last]);
    } else {
      SegRetarget(l, ts[1..], par, end, to);
      assert ts[1..][|ts[1..]| - 1] == ts[|ts| - 1];
      assert last in Preorder(ts[1..]);
      assert SameOutside(l, k, [last]);
      SegFrame(l, k, ts[0].kids, Some(ts[0].id), None, [last]);
    }
  }

  lemma {:induction false} SameOutsideTrans(a: Links, b: Links, c: Links, ids: seq<nat>, jds: seq<nat>)
    requires SameOutside(a, b, ids) && SameOutside(b, c, jds) && forall x :: x in jds ==> x in ids
    ensures SameOutside(a, c, ids)
  {
    forall id: nat | id !in ids ensures SameAt(a, c, id) { assert SameAt(a, b, id) && SameAt(b, c, id); }
  }

  /** An entry at the head of a list gets another parent. */
  lemma {:induction false} SegAdopt(l: Links, ts: seq<Tree>, par: Option<nat>, end: Option<nat>, to: Option<nat>)
    requires Seg(l, ts, par, end) && ts != [] && Distinct(Preorder(ts))
    ensures ts[0].id < Total(l)
    ensures var k := l.(parent := l.parent[ts[0].id := to]);
      Seg(k, [ts[0]], to, First(ts[1..], end)) && Seg(k, ts[1..], par, end) && SameOutside(l, k, [ts[0].id])
  {
    var t := ts[0];
    var k := l.(parent := l.parent[t.id := to]);
    assert [t] + ts[1..] == ts;
    DistinctTree(t, ts[1..]);
    assert SameOutside(l, k, [t.id]);
    SegFrame(l, k, t.kids, Some(t.id), None, [t.id]);
    SegFrame(l, k, ts[1..], par, end, [t.id]);
    assert [t][1..] == [];
  }

  lemma {:induction false} FirstOf(ts: seq<Tree>, us: seq<Tree>, end: Option<nat>)
    requires Preorder(ts) == Preorder(us)
    ensures First(ts, end) == First(us, end)
  {
    if ts != [] { assert Preorder(ts)[0] == ts[0].id; }
    if us != [] { assert Preorder(us)[0] == us[0].id; }
  }

  /** Taking the first tree of a list to the trees that are done with */
  lemma {:induction false} Shift(done: seq<Tree>, t: Tree, rest: seq<Tree>)
    ensures done + ([t] + rest) == (done + [t]) + rest
    ensures Preorder(done) + Preorder([t] + rest) == Preorder(done + [t]) + Preorder(rest)
  {
    PreorderAppend(done, [t] + rest);
    PreorderAppend(done + [t], rest);
    assert done + ([t] + rest) == (done + [t]) + rest;
  }

  /** A list worked on from the front: `done` is, and has the parent `up` now, `rest` is not, and nothing
      outside has changed. */
  ghost predicate Halfway(before: Links, l: Links, done: seq<Tree>, rest: seq<Tree>, up: Option<nat>, par: Option<nat>,
                          all: seq<nat>) {
    && Seg(l, done, up, First(rest, None)) && Seg(l, rest, par, None)
    && Preorder(done) + Preorder(rest) == all && Distinct(all) && SameOutside(before, l, all)
  }

  lemma {:induction false} HalfwayStart(l: Links, ts: seq<Tree>, up: Option<nat>, par: Option<nat>)
    requires Seg(l, ts, par, None) && Distinct(Preorder(ts))
    ensures Halfway(l, l, [], ts, up, par, Preorder(ts))
  {
    assert [] + Preorder(ts) == Preorder(ts);
  }

  /** One more entry: the list `ts` became `us`, and the first of these is done. */
  lemma {:induction false} OneMore(before: Links, a: Links, b: Links, done: seq<Tree>, ts: seq<Tree>, t: Tree,
          rest: seq<Tree>,
                up: Option<nat>, par: Option<nat>, all: seq<nat>)
    requires Halfway(before, a, done, ts, up, par, all)
    requires Seg(b, [t], up, First(rest, None)) && Seg(b, rest, par, None)
    requires SameOutside(a, b, Preorder(ts)) && Preorder([t] + rest) == Preorder(ts)
    ensures Halfway(before, b, done + [t], rest, up, par, all)
    ensures ts != [] && t.id == ts[0].id < Total(b) && b.next[t.id] == First(rest, None)
  {
    var us := [t] + rest;
    assert us[1..] == rest && us[0] == t;
    DistinctParts(Preorder(done), Preorder(ts));
    FirstOf(ts, us, None);
    SegFrame(a, b, done, up, First(ts, None), Preorder(ts));
    SegAppend(b, done, [t], up, First(rest, None));
    Shift(done, t, rest);
    SameOutsideTrans(before, a, b, all, Preorder(ts));
  }

  /** The entry at the front of a list, apart from the others */
  lemma {:induction false} SegCons(l: Links, t: Tree, rest: seq<Tree>, par: Option<nat>, end: Option<nat>)
    requires Seg(l, [t] + rest, par, end)
    ensures Seg(l, [t], par, First(rest, end)) && Seg(l, rest, par, end)
  {
    SegAppend(l, [t], rest, par, end);
  }

  lemma {:induction false} Assoc(a: seq<nat>, b: seq<nat>, c: seq<nat>)
    ensures a + b + c == a + (b + c)
  {
  }

  /** A run of a loop ends in `total`; `r` is what is still to come of it. */
  predicate Ahead(total: ListOutcome, r: ListOutcome, done: seq<Tree>, calls: seq<nat>) {
    total.s == r.s && total.done == done + r.done && total.calls == calls + r.calls && total.rest == r.rest
  }

  lemma {:induction false} AheadStep(total: ListOutcome, r: ListOutcome, t: Tree, c: seq<nat>, next: ListOutcome,
          done: seq<Tree>,
        calls: seq<nat>)
    requires Ahead(total, r, done, calls)
    requires r.s == next.s && r.done == [t] + next.done && r.calls == c + next.calls && r.rest == next.rest
    ensures Ahead(total, next, done + [t], calls + c)
  {
    assert done + ([t] + next.done) == (done + [t]) + next.done;
    assert calls + (c + next.calls) == (calls + c) + next.calls;
  }

  /** The loop over subentries, when it is at `rest` */
  ghost predicate Pending(infos: seq<Info>, total: ListOutcome, s: State, done: seq<Tree>, rest: seq<Tree>,
        calls: seq<nat>) {
    |infos| == |s.data| && Fits(rest, |infos|) && Ahead(total, FinalizeAll(infos, s, rest), done, calls)
  }

  lemma {:induction false} PendingStep(infos: seq<Info>, total: ListOutcome, s: State, done: seq<Tree>,
          rest: seq<Tree>, calls: seq<nat>)
    requires Pending(infos, total, s, done, rest, calls) && rest != []
    ensures var x := Menus.Finalize(infos, s, rest);
      && Pending(infos, total, x.s, done + [x.head], x.rest, calls + x.calls)
      && Preorder([x.head] + x.rest) == Preorder(rest) && Count(x.rest) < Count(rest)
  {
    var x := Menus.Finalize(infos, s, rest);
    HeadAndRest(infos, s, rest);
    AheadStep(total, FinalizeAll(infos, s, rest), x.head, x.calls, FinalizeAll(infos, x.s, x.rest), done, calls);
  }

  lemma {:induction false} HeadAndRest(infos: seq<Info>, s: State, ts: seq<Tree>)
    requires |infos| == |s.data| && Fits(ts, |infos|) && ts != []
    ensures var x := Menus.Finalize(infos, s, ts); Preorder([x.head] + x.rest) == Preorder(ts)
  {
    var x := Menus.Finalize(infos, s, ts);
    FinalizeOrder(infos, s, ts);
    PreorderAppend([x.head], x.rest);
  }

  /** The loop over following entries, when it is at `rest` */
  ghost predicate PendingAbsorb(infos: seq<Info>, total: ListOutcome, m: nat, s: State, done: seq<Tree>,
                                rest: seq<Tree>,
                                calls: seq<nat>) {
    m < |infos| == |s.data| && Fits(rest, |infos|) && Ahead(total, Absorb(infos, s, m, rest), done, calls)
  }

  lemma {:induction false} PendingAbsorbStep(infos: seq<Info>, total: ListOutcome, m: nat, s: State, done: seq<Tree>,
          rest: seq<Tree>,
        calls: seq<nat>)
    requires PendingAbsorb(infos, total, m, s, done, rest, calls)
    requires rest != [] && rest[0].id < |infos| && Absorbs(infos, s.data, m, rest[0].id)
    ensures var x := Menus.Finalize(infos, s, rest);
      && PendingAbsorb(infos, total, m, x.s, done + [x.head], x.rest, calls + x.calls)
      && Preorder([x.head] + x.rest) == Preorder(rest) && Count(x.rest) < Count(rest)
  {
    var x := Menus.Finalize(infos, s, rest);
    AbsorbStep(infos, s, m, rest);
    HeadAndRest(infos, s, rest);
    AheadStep(total, Absorb(infos, s, m, rest), x.head, x.calls, Absorb(infos, x.s, m, x.rest), done, calls);
  }

  lemma {:induction false} PendingAbsorbStart(infos: seq<Info>, m: nat, s: State, ts: seq<Tree>)
    requires m < |infos| == |s.data| && Fits(ts, |infos|)
    ensures PendingAbsorb(infos, Absorb(infos, s, m, ts), m, s, [], ts, [])
  {
    var r := Absorb(infos, s, m, ts);
    assert [] + r.done == r.done && [] + r.calls == r.calls;
  }

  lemma {:induction false} PendingAbsorbEnd(infos: seq<Info>, total: ListOutcome, m: nat, s: State, done: seq<Tree>,
          rest: seq<Tree>,
        calls: seq<nat>)
    requires PendingAbsorb(infos, total, m, s, done, rest, calls)
    requires rest == [] || (rest[0].id < |infos| && !Absorbs(infos, s.data, m, rest[0].id))
    ensures total == ListOutcome(s, done, rest, calls)
  {
    assert done + [] == done && calls + [] == calls;
  }

  /** Finalizing the entries that follow m leaves the conditions of m alone. */
  lemma {:induction false} FinalizeSpares(infos: seq<Info>, s: State, m: nat, ts: seq<Tree>)
    requires m < |infos| == |s.data| && Fits(ts, |infos|) && ts != [] && m !in Preorder(ts)
    ensures PromptCond(infos[m], s.data[m]) == PromptCond(infos[m], Menus.Finalize(infos, s, ts).s.data[m])
    ensures m !in Preorder(Menus.Finalize(infos, s, ts).rest)
  {
    var rest := Menus.Finalize(infos, s, ts).rest;
    FinalizeFrame(infos, s, ts);
    FinalizeUses(infos, s, ts);
    InnerInPreorder(Used(ts, rest));
    PreorderAppend(Used(ts, rest), rest);
  }

  lemma {:induction false} InnerInPreorder(ts: seq<Tree>)
    ensures forall x :: x in Inner(ts) ==> x in Preorder(ts)
  {
    RootsAndInner(ts);
  }

  /** The finished entries are taken out of the list after m and become its submenu. */
  lemma {:induction false} Relinked(l: Links, m: nat, done: seq<Tree>, rest: seq<Tree>,
          par: Option<nat>) returns (k: Links, last: nat)
    requires Seg(l, done, Some(m), First(rest, None)) && Seg(l, rest, par, None) && done != []
    requires m < Total(l) && l.next[m] == First(done, None) && Distinct(Preorder(done) + Preorder(rest))
    requires m !in Preorder(done) && m !in Preorder(rest)
    ensures last == done[|done| - 1].id < Total(l) && last != m && l.next[last] == First(rest, None)
    ensures k == l.(list := l.list[m := l.next[m]], next := l.next[m := l.next[last]][last := None])
    ensures Seg(k, done, Some(m), None) && Seg(k, rest, par, None)
    ensures SameOutside(l, k, [m] + Preorder(done))
    ensures k.list[m] == First(done, None) && k.next[m] == First(rest, None) && k.parent[m] == l.parent[m]
  {
    DistinctParts(Preorder(done), Preorder(rest));
    last := done[|done| - 1].id;
    SegRetarget(l, done, Some(m), First(rest, None), None);
    var a := l.(next := l.next[last := None]);
    assert SameOutside(l, a, Preorder(done));
    SegFrame(l, a, rest, par, None, Preorder(done));
    k := l.(list := l.list[m := l.next[m]], next := l.next[m := l.next[last]][last := None]);
    assert SameOutside(a, k, [m]);
    SegFrame(a, k, done, Some(m), None, [m]);
    SegFrame(a, k, rest, par, None, [m]);
  }

  /* ---- dissolving submenus ---- */

  /** What is still to come of the loop over the final submenu, when it is at `rest` */
  ghost predicate PendingClose(infos: seq<Info>, total: (State, seq<Tree>), choice: Option<Symbol>, s: State,
                               done: seq<Tree>, rest: seq<Tree>) {
    |infos| == |s.data| && Fits(rest, |infos|) && Fits(Flatten(infos, rest), |infos|) &&
    var flat := Flatten(infos, rest);
    FitsParts(flat, |infos|);
    total.1 == done + flat && total.0 == if choice.Some? then PutGuards(infos, s, choice.value, flat) else s
  }

  predicate Dissolves(infos: seq<Info>, t: Tree) { t.kids != [] && t.id < |infos| && infos[t.id].prompt.None? }

  /** The entry at the front as it stays, and what is in the list after it */
  function Settle(infos: seq<Info>, ts: seq<Tree>): (Tree, seq<Tree>)
    requires ts != []
  {
    if Dissolves(infos, ts[0]) then (Node(ts[0].id, []), ts[0].kids + ts[1..]) else (ts[0], ts[1..])
  }

  lemma {:induction false} SettleOrder(infos: seq<Info>, ts: seq<Tree>)
    requires ts != []
    ensures var (t, more) := Settle(infos, ts);
      && Preorder([t] + more) == Preorder(ts) && Count(more) < Count(ts)
      && Flatten(infos, ts) == [t] + Flatten(infos, more)
  {
    var (t, more) := Settle(infos, ts);
    assert [ts[0]] + ts[1..] == ts;
    PreorderCons(t, more);
    PreorderCons(ts[0], ts[1..]);
    if Dissolves(infos, ts[0]) {
      CountAppend(ts[0].kids, ts[1..]);
      PreorderAppend(ts[0].kids, ts[1..]);
      var a, b, c := [t.id], Preorder(ts[0].kids), Preorder(ts[1..]);
      assert a + (b + c) == a + b + c && a + [] == a;
    }
  }

  lemma {:induction false} PendingCloseStep(infos: seq<Info>, total: (State, seq<Tree>), choice: Option<Symbol>,
          s: State, done: seq<Tree>,
                         rest: seq<Tree>)
    requires PendingClose(infos, total, choice, s, done, rest) && rest != []
    ensures rest[0].id < |infos|
    ensures var (t, more) := Settle(infos, rest);
      var s1 := if choice.Some? then Mark(infos, s, choice.value, rest[0].id) else s;
      PendingClose(infos, total, choice, s1, done + [t], more)
  {
    FitsParts(rest, |infos|);
    var (t, more) := Settle(infos, rest);
    SettleOrder(infos, rest);
    PreorderAppend([t], more);
    var flat := Flatten(infos, more);
    assert ([t] + flat)[1..] == flat && done + ([t] + flat) == (done + [t]) + flat;
    FitsParts([t] + flat, |infos|);
  }

  /** The submenu of t goes behind t into t's own list. */
  lemma {:induction false} Dissolved(l: Links, t: Tree, rest: seq<Tree>, par: Option<nat>) returns (k: Links, last: nat)
    requires Sized(l) && t.id < Total(l) && t.kids != [] && Distinct(Preorder([t] + rest))
    requires l.parent[t.id] == par && l.list[t.id] == First(t.kids, None) && l.next[t.id] == First(rest, None)
    requires Seg(l, t.kids, par, None) && Seg(l, rest, par, None)
    ensures last == t.kids[|t.kids| - 1].id < Total(l) && last != t.id
    ensures k == l.(next := l.next[last := l.next[t.id]][t.id := l.list[t.id]], list := l.list[t.id := None])
    ensures Seg(k, [Node(t.id, [])], par, First(t.kids + rest, None)) && Seg(k, t.kids + rest, par, None)
    ensures SameOutside(l, k, Preorder([t]))
  {
    DistinctTree(t, rest);
    last := t.kids[|t.kids| - 1].id;
    Spliced(l, t.kids, rest, par);
    var a := l.(next := l.next[last := First(rest, None)]);
    k := l.(next := l.next[last := l.next[t.id]][t.id := l.list[t.id]], list := l.list[t.id := None]);
    assert SameOutside(a, k, [t.id]);
    PreorderAppend(t.kids, rest);
    SegFrame(a, k, t.kids + rest, par, None, [t.id]);
    assert First(t.kids + rest, None) == First(t.kids, None);
    SegLeaf(k, t.id, par, First(t.kids + rest, None));
    HeadOrder(t.id, t.kids, t.kids);
    assert SameOutside(l, k, [t.id] + Preorder(t.kids));
  }

  lemma {:induction false} SegLeaf(l: Links, id: nat, par: Option<nat>, end: Option<nat>)
    requires Sized(l) && id < Total(l) && l.parent[id] == par && l.next[id] == end && l.list[id] == None
    ensures Seg(l, [Node(id, [])], par, end)
  {
    var leaf := [Node(id, [])];
    assert leaf[0].id == id && leaf[0].kids == [] && leaf[1..] == [];
    assert Seg(l, leaf[0].kids, Some(id), None) && Seg(l, leaf[1..], par, end);
  }

  /** Two lists with the same parent become one. */
  lemma {:induction false} Spliced(l: Links, ts: seq<Tree>, us: seq<Tree>, par: Option<nat>)
    requires ts != [] && Distinct(Preorder(ts)) && Disjoint(Preorder(us), Preorder(ts))
    requires Seg(l, ts, par, None) && Seg(l, us, par, None)
    ensures ts[|ts| - 1].id < Total(l) && ts[|ts| - 1].id in Preorder(ts)
    ensures Seg(l.(next := l.next[ts[|ts| - 1].id := First(us, None)]), ts + us, par, None)
  {
    SegRetarget(l, ts, par, None, First(us, None));
    var a := l.(next := l.next[ts[|ts| - 1].id := First(us, None)]);
    assert SameOutside(l, a, Preorder(ts));
    SegFrame(l, a, us, par, None, Preorder(ts));
    SegAppend(a, ts, us, par, None);
  }

  lemma {:induction false} PendingCloseStart(infos: seq<Info>, m: nat, s: State, kids: seq<Tree>)
    requires m < |infos| == |s.data| && Fits(kids, |infos|)
    ensures PendingClose(infos, Close(infos, s, m, kids), if infos[m].choice then infos[m].sym else None, s, [], kids)
  {
    FitsParts(Flatten(infos, kids), |infos|);
    assert [] + Flatten(infos, kids) == Flatten(infos, kids);
  }

  lemma {:induction false} PendingCloseEnd(infos: seq<Info>, total: (State, seq<Tree>), choice: Option<Symbol>,
          s: State, done: seq<Tree>)
    requires PendingClose(infos, total, choice, s, done, [])
    ensures total == (s, done)
  {
    assert done + [] == done;
  }

  /* ---- one entry, its submenu and what follows it ---- */

  ghost predicate Assembly(before: Links, l: Links, m: nat, kids: seq<Tree>, rest: seq<Tree>, par: Option<nat>,
        all: seq<nat>) {
    && Seg(l, kids, Some(m), None) && Seg(l, rest, par, None) && m < Total(l)
    && l.list[m] == First(kids, None) && l.next[m] == First(rest, None) && l.parent[m] == par
    && [m] + Preorder(kids) + Preorder(rest) == all && Distinct(all) && SameOutside(before, l, all)
  }

  lemma {:induction false} AssemblyStart(l: Links, ts: seq<Tree>, par: Option<nat>)
    requires Seg(l, ts, par, None) && Distinct(Preorder(ts)) && ts != []
    ensures Assembly(l, l, ts[0].id, ts[0].kids, ts[1..], par, Preorder(ts))
  {
  }

  lemma {:induction false} AssemblyParts(before: Links, l: Links, m: nat, kids: seq<Tree>, rest: seq<Tree>,
          par: Option<nat>,
        all: seq<nat>)
    requires Assembly(before, l, m, kids, rest, par, all)
    ensures m !in Preorder(kids) && m !in Preorder(rest) && Distinct(Preorder(kids)) && Distinct(Preorder(rest))
    ensures Disjoint(Preorder(rest), Preorder(kids)) && Distinct(Preorder(kids) + Preorder(rest))
  {
    var a, b := Preorder(kids), Preorder(rest);
    assert [m] + (a + b) == [m] + a + b;
    DistinctParts([m], a + b);
    DistinctParts(a, b);
    assert m in [m] && m !in a + b;
  }

  /** Work inside the submenu */
  lemma {:induction false} AssemblyKids(before: Links, l: Links, k: Links, m: nat, kids: seq<Tree>, done: seq<Tree>,
          rest: seq<Tree>,
                     par: Option<nat>, all: seq<nat>)
    requires Assembly(before, l, m, kids, rest, par, all)
    requires Seg(k, done, Some(m), None) && Preorder(done) == Preorder(kids) && SameOutside(l, k, Preorder(kids))
    ensures Assembly(before, k, m, done, rest, par, all)
  {
    AssemblyParts(before, l, m, kids, rest, par, all);
    SegFrame(l, k, rest, par, None, Preorder(kids));
    FirstOf(kids, done, None);
    assert SameAt(l, k, m);
    SameOutsideTrans(before, l, k, all, Preorder(kids));
  }

  /** Entries after m have been finalized, and given the parent m; they are still in the list after m. */
  lemma {:induction false} AssemblyAbsorb(before: Links, l: Links, k: Links, m: nat, ts: seq<Tree>, done: seq<Tree>,
          rest: seq<Tree>,
                       par: Option<nat>, all: seq<nat>)
      returns (j: Links)
    requires Assembly(before, l, m, [], ts, par, all)
    requires Halfway(l, k, done, rest, Some(m), par, Preorder(ts))
    ensures m < Total(k)
    ensures done != [] ==> done[|done| - 1].id < Total(k) && k.next[done[|done| - 1].id] == First(rest, None)
    ensures j == if done == [] then k
                 else k.(list := k.list[m := k.next[m]],
                         next := k.next[m := First(rest, None)][done[|done| - 1].id := None])
    ensures Assembly(before, j, m, done, rest, par, all)
  {
    AssemblyParts(before, l, m, [], ts, par, all);
    assert SameAt(l, k, m);
    SameOutsideTrans(before, l, k, all, Preorder(ts));
    assert [m] + [] + Preorder(ts) == [m] + Preorder(done) + Preorder(rest);
    if done == [] {
      j := k;
      assert Preorder(done) == [];
      FirstOf(ts, rest, None);
    } else {
      PreorderAppend(done, rest);
      FirstOf(ts, done + rest, None);
      var last: nat;
      j, last := Relinked(k, m, done, rest, par);
      SameOutsideTrans(before, k, j, all, [m] + Preorder(done));
    }
  }

  lemma {:induction false} AssemblyEnd(before: Links, l: Links, m: nat, kids: seq<Tree>, rest: seq<Tree>,
          par: Option<nat>, all: seq<nat>)
    requires Assembly(before, l, m, kids, rest, par, all)
    ensures Seg(l, [Node(m, kids)] + rest, par, None) && SameOutside(before, l, all)
  {
    assert ([Node(m, kids)] + rest)[1..] == rest;
  }

  /* ---- the result, put together from the parts ---- */

  function Assembled(infos: seq<Info>, s: State, m: nat, done: seq<Tree>, rest: seq<Tree>, calls: seq<nat>): Outcome
    requires |infos| == |s.data| && m < |infos| && Fits(done, |infos|)
  {
    var (s1, sub) := Close(infos, s, m, done);
    Outcome(s1, Node(m, sub), rest, [m] + calls)
  }

  lemma {:induction false} ParentOutcome(infos: seq<Info>, s: State, ts: seq<Tree>, r: ListOutcome)
    requires ts != [] && ts[0].kids != [] && |infos| == |s.data| && Fits(ts, |infos|) && ts[0].id < |infos|
    requires Fits(ts[0].kids, |infos|) && forall t :: t in ts[0].kids ==> t.id < |infos|
    requires var limit := Limit(infos[ts[0].id], s.data[ts[0].id]);
      r == FinalizeAll(infos, s.(data := PushDown(infos, s.data, limit, ts[0].kids)), ts[0].kids)
    ensures Menus.Finalize(infos, s, ts) == Assembled(infos, r.s, ts[0].id, r.done, ts[1..], r.calls)
  {
  }

  lemma {:induction false} SymbolOutcome(infos: seq<Info>, s: State, ts: seq<Tree>, r: ListOutcome)
    requires ts != [] && ts[0].kids == [] && |infos| == |s.data| && Fits(ts, |infos|) && ts[0].id < |infos|
    requires infos[ts[0].id].sym.Some? && Fits(ts[1..], |infos|)
    requires r == Absorb(infos, s, ts[0].id, ts[1..])
    ensures Menus.Finalize(infos, s, ts) ==
      Assembled(infos, WithDir(r.s, infos[ts[0].id].sym.value, r.s.data[ts[0].id].dep), ts[0].id, r.done, r.rest,
            r.calls)
  {
  }

  lemma {:induction false} PlainOutcome(infos: seq<Info>, s: State, ts: seq<Tree>)
    requires ts != [] && ts[0].kids == [] && |infos| == |s.data| && Fits(ts, |infos|) && ts[0].id < |infos|
    requires infos[ts[0].id].sym.None?
    ensures Menus.Finalize(infos, s, ts) == Assembled(infos, s, ts[0].id, [], ts[1..], [])
  {
    assert [ts[0].id] + [] == [ts[0].id];
  }

  lemma {:induction false} Slices(ts: seq<Tree>, i: nat)
    requires i < |ts|
    ensures ts[i..][0] == ts[i] && ts[..i] + [ts[i]] == ts[..i + 1] && ts[i..][1..] == ts[i + 1..]
  {
  }

  /** The outermost entry has no entries after it. */
  lemma {:induction false} MenuOutcome(infos: seq<Info>, s: State, t: Tree)
    requires |infos| == |s.data| && Fits([t], |infos|)
    ensures var r := Menus.Finalize(infos, s, [t]);
      && [r.head] + r.rest == [r.head] && r.calls == Preorder([t])
      && r.head.id == t.id && Preorder(r.head.kids) == Preorder(t.kids)
  {
    FinalizeUses(infos, s, [t]);
    FinalizeOrder(infos, s, [t]);
    MenuShape(t, Menus.Finalize(infos, s, [t]));
  }

  lemma {:induction false} MenuShape(t: Tree, r: Outcome)
    requires |r.rest| < 1 && r.calls + Preorder(r.rest) == Preorder([t]) && Preorder([r.head]) == r.calls
    ensures [r.head] + r.rest == [r.head] && r.calls == Preorder([t])
    ensures r.head.id == t.id && Preorder(r.head.kids) == Preorder(t.kids)
  {
    assert r.rest == [] && r.calls + [] == r.calls;
    HeadOrder(t.id, t.kids, t.kids);
    HeadOrder(r.head.id, r.head.kids, r.head.kids);
    assert Preorder(r.head.kids) == Preorder([r.head])[1..] && Preorder(t.kids) == Preorder([t])[1..];
  }

  /* ---- walking a menu by its pointers ---- */

  /** What follows above a list: `up` is the entry the list belongs to, `pend[0]` what follows that entry
      in its own list, and so on up to the outermost entry. */
  ghost predicate Climb(l: Links, up: Option<nat>, pend: seq<seq<Tree>>)
    decreases |pend|
  {
    Sized(l) &&
    if pend == [] then up == None
    else
      && up.Some? && up.value < Total(l) && l.next[up.value] == First(pend[0], None)
      && Seg(l, pend[0], l.parent[up.value], None) && Climb(l, l.parent[up.value], pend[1..])
  }

  function Pend(pend: seq<seq<Tree>>): seq<nat> { if pend == [] then [] else Preorder(pend[0]) + Pend(pend[1..]) }

  function PendCount(pend: seq<seq<Tree>>): nat { if pend == [] then 0 else Count(pend[0]) + PendCount(pend[1..]) }

  /** The entries a walk has still to come by */
  function ToCome(cur: seq<Tree>, pend: seq<seq<Tree>>): seq<nat> { Preorder(cur) + Pend(pend) }

  lemma {:induction false} WalkStart(kids: seq<Tree>)
    ensures ToCome(kids, [[]]) == Preorder(kids) == [] + ToCome(kids, [[]])
  {
    assert Pend([[]]) == Preorder([]) + Pend([[]][1..]);
    assert ToCome(kids, [[]]) == Preorder(kids) + [];
  }

  /** Down to the subentries of the entry at hand */
  lemma {:induction false} Descend(l: Links, up: Option<nat>, cur: seq<Tree>, pend: seq<seq<Tree>>)
    requires Seg(l, cur, up, None) && Climb(l, up, pend) && cur != []
    ensures cur[0].id < Total(l) && Seg(l, cur[0].kids, Some(cur[0].id), None)
    ensures l.list[cur[0].id] == First(cur[0].kids, None) && l.next[cur[0].id] == First(cur[1..], None)
    ensures l.parent[cur[0].id] == up
    ensures Climb(l, Some(cur[0].id), [cur[1..]] + pend)
    ensures ToCome(cur, pend) == [cur[0].id] + ToCome(cur[0].kids, [cur[1..]] + pend)
    ensures Count(cur) + PendCount(pend) == 1 + Count(cur[0].kids) + PendCount([cur[1..]] + pend)
  {
    assert ([cur[1..]] + pend)[1..] == pend;
    var a, b, c, d := [cur[0].id], Preorder(cur[0].kids), Preorder(cur[1..]), Pend(pend);
    assert a + b + c + d == a + (b + (c + d));
  }

  class MenuTable {
    const infos: seq<Info>
    var links: Links
    var s: State
    /** the entries menu_finalize has been called on */
    ghost var visited: seq<nat>

    ghost predicate Holds(ts: seq<Tree>, par: Option<nat>, end: Option<nat>)
      reads this
    {
      && |infos| == Total(links) == |s.data|
      && Seg(links, ts, par, end) && Fits(ts, |infos|) && Distinct(Preorder(ts))
    }

    /** The loop over the direct subentries that pushes dependencies down */
    method PushDownAll(m: nat, limit: OExpr, ghost kids: seq<Tree>)
      requires m < Total(links) && Holds(kids, Some(m), None) && links.list[m] == First(kids, None)
      requires forall t :: t in kids ==> t.id < |s.data|
      modifies this`s
      ensures s == old(s).(data := PushDown(infos, old(s.data), limit, kids))
    {
      var menu := links.list[m];
      ghost var rest := kids;
      while menu.Some?
        invariant Seg(links, rest, Some(m), None) && menu == First(rest, None)
        invariant |s.data| == |infos| && s == old(s).(data := s.data)
        invariant forall t :: t in rest ==> t.id < |s.data|
        invariant PushDown(infos, s.data, limit, rest) == PushDown(infos, old(s.data), limit, kids)
        decreases |rest|
      {
        var id := menu.value;
        s := s.(data := s.data[id := PushInto(infos[id], limit, s.data[id])]);
        rest := rest[1..];
        menu := links.next[id];
      }
    }

    /** Where that loop stands: `done` is below m, `rest` still follows it. */
    ghost predicate Absorbing(m: nat, total: ListOutcome, before: Links, visits: seq<nat>, done: seq<Tree>,
                              rest: seq<Tree>, par: Option<nat>, all: seq<nat>, calls: seq<nat>)
      reads this
    {
      && Total(links) == |infos| == |s.data| && m < |infos| && m !in Preorder(rest)
      && Halfway(before, links, done, rest, Some(m), par, all)
      && PendingAbsorb(infos, total, m, s, done, rest, calls) && visited == visits + calls
    }

    static ghost function LastId(ts: seq<Tree>): Option<nat> { if ts == [] then None else Some(ts[|ts| - 1].id) }

    /** The loop that moves following entries below m: the last of them, if any */
    method AbsorbFollowing(m: nat, sym: Symbol, ghost ts: seq<Tree>, ghost par: Option<nat>)
        returns (last: Option<nat>, ghost r: ListOutcome)
      requires m < Total(links) && Holds(ts, par, None) && links.next[m] == First(ts, None)
      requires m !in Preorder(ts) && infos[m].sym == Some(sym)
      modifies this
      ensures Total(links) == |infos| == |s.data|
      ensures r == Absorb(infos, old(s), m, ts) && s == r.s && visited == old(visited) + r.calls
      ensures Halfway(old(links), links, r.done, r.rest, Some(m), par, Preorder(ts))
      ensures last == LastId(r.done)
      decreases Count(ts), 2
    {
      ghost var done, rest: seq<Tree>, calls: seq<nat> := [], ts, [];
      r := Absorb(infos, s, m, ts);
      HalfwayStart(links, ts, Some(m), par);
      PendingAbsorbStart(infos, m, s, ts);
      var base := NotNo(PromptCond(infos[m], s.data[m]));
      var menu := links.next[m];
      last := None;
      while menu.Some?
        invariant Absorbing(m, r, old(links), old(visited), done, rest, par, Preorder(ts), calls)
        invariant menu == First(rest, None) && base == NotNo(PromptCond(infos[m], s.data[m]))
        invariant last == LastId(done) && Count(rest) <= Count(ts)
        decreases Count(rest)
      {
        var follows := Follows(menu.value, m, sym, base);
        if !follows { break; }
        done, rest, calls := AbsorbOne(menu.value, m, r, old(links), old(visited), done, rest, par, Preorder(ts),
              calls);
        last := menu;
        menu := links.next[menu.value];
      }
      PendingAbsorbEnd(infos, r, m, s, done, rest, calls);
    }

    /** The body of that loop, for an entry that does belong below m */
    method AbsorbOne(id: nat, m: nat, ghost total: ListOutcome, ghost before: Links, ghost visits: seq<nat>,
                     ghost done: seq<Tree>, ghost rest: seq<Tree>, ghost par: Option<nat>, ghost all: seq<nat>,
                     ghost calls: seq<nat>)
        returns (ghost done': seq<Tree>, ghost rest': seq<Tree>, ghost calls': seq<nat>)
      requires rest != [] && id == rest[0].id && Total(links) == |infos| == |s.data| && Fits(rest, |infos|)
      requires Halfway(before, links, done, rest, Some(m), par, all) && m !in Preorder(rest) && m < |infos|
      requires PendingAbsorb(infos, total, m, s, done, rest, calls) && visited == visits + calls
      requires id < |infos| && Absorbs(infos, s.data, m, id)
      modifies this
      ensures Total(links) == |infos| == |s.data| && Count(rest') < Count(rest) && m !in Preorder(rest')
      ensures PromptCond(infos[m], s.data[m]) == old(PromptCond(infos[m], s.data[m]))
      ensures Halfway(before, links, done', rest', Some(m), par, all)
      ensures PendingAbsorb(infos, total, m, s, done', rest', calls') && visited == visits + calls'
      ensures |done'| > 0 && done'[|done'| - 1].id == id < Total(links) && links.next[id] == First(rest', None)
      decreases Count(rest), 1
    {
      ghost var x := Menus.Finalize(infos, s, rest);
      Assoc(visits, calls, x.calls);
      PendingAbsorbStep(infos, total, m, s, done, rest, calls);
      FinalizeSpares(infos, s, m, rest);
      FinalizeAndAdopt(id, m, before, done, rest, par, all);
      done', rest', calls' := done + [x.head], x.rest, calls + x.calls;
    }

    /** Does the entry x belong below m? */
    method Follows(x: nat, m: nat, sym: Symbol, base: Expr) returns (b: bool)
      requires x < |infos| == |s.data| && m < |infos| && infos[m].sym == Some(sym)
      requires base == NotNo(PromptCond(infos[m], s.data[m]))
      ensures b == Absorbs(infos, s.data, m, x)
    {
      var dep := SubmenuCond(infos[x], s.data[x]);
      if !ContainsSymbol(dep, sym) { return false; }
      if DependsSymbol(dep.value, sym) { return true; }
      return EliminateEq(NotNo(dep), base).1 == Sym(SYM_YES);
    }

    /** menu_finalize(menu); menu->parent = parent */
    method FinalizeAndAdopt(id: nat, m: nat, ghost before: Links, ghost done: seq<Tree>, ghost rest: seq<Tree>,
                            ghost par: Option<nat>, ghost all: seq<nat>)
      requires rest != [] && id == rest[0].id && Total(links) == |infos| == |s.data| && Fits(rest, |infos|)
      requires Halfway(before, links, done, rest, Some(m), par, all)
      modifies this
      ensures Total(links) == |infos| == |s.data|
      ensures var x := Menus.Finalize(infos, old(s), rest);
        && s == x.s && visited == old(visited) + x.calls
        && Halfway(before, links, done + [x.head], x.rest, Some(m), par, all)
        && id == x.head.id < Total(links) && links.next[id] == First(x.rest, None)
      decreases Count(rest), 1, 0
    {
      ghost var l := links;
      ghost var x := Menus.Finalize(infos, s, rest);
      DistinctParts(Preorder(done), Preorder(rest));
      HeadAndRest(infos, s, rest);
      Finalize(id, rest, par);
      Adopt(id, m, l, x.head, x.rest, par, rest);
      OneMore(before, l, links, done, rest, x.head, x.rest, Some(m), par, all);
    }

    /** menu->parent = parent */
    method Adopt(id: nat, m: nat, ghost before: Links, ghost t: Tree, ghost rest: seq<Tree>, ghost par: Option<nat>,
                 ghost ts: seq<Tree>)
      requires Seg(links, [t] + rest, par, None) && t.id == id && Distinct(Preorder([t] + rest))
      requires SameOutside(before, links, Preorder(ts)) && Preorder([t] + rest) == Preorder(ts)
      modifies this`links
      ensures id < Total(links) && Total(links) == Total(old(links))
      ensures links == old(links).(parent := old(links).parent[id := Some(m)])
      ensures Seg(links, [t], Some(m), First(rest, None)) && Seg(links, rest, par, None)
      ensures SameOutside(before, links, Preorder(ts))
    {
      assert ([t] + rest)[1..] == rest;
      SegAdopt(links, [t] + rest, par, None, Some(m));
      PreorderCons(t, rest);
      SameOutsideTrans(before, links, links.(parent := links.parent[id := Some(m)]), Preorder(ts), [id]);
      links := links.(parent := links.parent[id := Some(m)]);
    }

    /* ---- dissolving the submenus of promptless entries ---- */

    /** Making m the parent of all entries of a list: the last of them */
    method ReparentAll(first: nat, m: nat, ghost kids: seq<Tree>, ghost par: Option<nat>) returns (last: nat)
      requires Seg(links, kids, par, None) && Distinct(Preorder(kids)) && kids != [] && first == kids[0].id
      modifies this`links
      ensures links == old(links).(parent := links.parent) && Seg(links, kids, Some(m), None)
      ensures SameOutside(old(links), links, Preorder(kids)) && last == kids[|kids| - 1].id < Total(links)
    {
      ghost var i := 1;
      assert kids[..0] == [] && kids[0..] == kids;
      Slices(kids, 0);
      HalfwayStart(links, kids, Some(m), par);
      last := first;
      AdoptNext(last, m, links, [], kids, par, Preorder(kids));
      while links.next[last].Some?
        invariant 0 < i <= |kids| && Halfway(old(links), links, kids[..i], kids[i..], Some(m), par, Preorder(kids))
        invariant last == kids[i - 1].id < Total(links) && links.next[last] == First(kids[i..], None)
        invariant links == old(links).(parent := links.parent)
        decreases |kids| - i
      {
        last := links.next[last].value;
        Slices(kids, i);
        AdoptNext(last, m, old(links), kids[..i], kids[i..], par, Preorder(kids));
        i := i + 1;
      }
      assert kids[..|kids|] == kids;
    }

    method AdoptNext(id: nat, m: nat, ghost before: Links, ghost done: seq<Tree>, ghost rest: seq<Tree>,
                     ghost par: Option<nat>, ghost all: seq<nat>)
      requires Halfway(before, links, done, rest, Some(m), par, all) && rest != [] && rest[0].id == id
      modifies this`links
      ensures Halfway(before, links, done + [rest[0]], rest[1..], Some(m), par, all)
      ensures id < Total(links) && links.next[id] == First(rest[1..], None)
      ensures links == old(links).(parent := links.parent)
    {
      ghost var l := links;
      assert [rest[0]] + rest[1..] == rest;
      DistinctParts(Preorder(done), Preorder(rest));
      Adopt(id, m, links, rest[0], rest[1..], par, rest);
      OneMore(before, l, links, done, rest, rest[0], rest[1..], Some(m), par, all);
    }

    /** The submenu of the entry t goes behind t into the list of m that t is in. */
    method Dissolve(id: nat, m: nat, ghost t: Tree, ghost rest: seq<Tree>)
      requires Seg(links, [t] + rest, Some(m), None) && Distinct(Preorder([t] + rest)) && t.id == id && t.kids != []
      modifies this`links
      ensures Seg(links, [Node(id, [])], Some(m), First(t.kids + rest, None))
          && Seg(links, t.kids + rest, Some(m), None)
      ensures SameOutside(old(links), links, Preorder([t]))
    {
      SegCons(links, t, rest, Some(m), None);
      DistinctTree(t, rest);
      PreorderCons(t, []);
      assert [t] + [] == [t];
      ghost var l := links;
      var last := ReparentAll(links.list[id].value, m, t.kids, Some(id));
      SegFrame(l, links, rest, Some(m), None, Preorder(t.kids));
      assert SameAt(l, links, id);
      ghost var k, z := Dissolved(links, t, rest, Some(m));
      SameOutsideTrans(l, links, k, Preorder([t]), Preorder([t]));
      links := links.(next := links.next[last := links.next[id]]);
      links := links.(next := links.next[id := links.list[id]]);
      links := links.(list := links.list[id := None]);
    }

    /** The loop over the final submenu of m */
    method CloseAll(m: nat, ghost kids: seq<Tree>)
      requires m < Total(links) && Holds(kids, Some(m), None) && links.list[m] == First(kids, None)
      requires m !in Preorder(kids)
      modifies this`links, this`s
      ensures Total(links) == |infos| == |s.data|
      ensures s == Close(infos, old(s), m, kids).0 && Seg(links, Close(infos, old(s), m, kids).1, Some(m), None)
      ensures SameOutside(old(links), links, Preorder(kids))
    {
      var choice := if infos[m].choice then infos[m].sym else None;
      ghost var total := Close(infos, s, m, kids);
      ghost var done, rest: seq<Tree> := [], kids;
      HalfwayStart(links, kids, Some(m), Some(m));
      PendingCloseStart(infos, m, s, kids);
      var menu := links.list[m];
      while menu.Some?
        invariant Total(links) == |infos| == |s.data|
        invariant Halfway(old(links), links, done, rest, Some(m), Some(m), Preorder(kids))
        invariant menu == First(rest, None) && PendingClose(infos, total, choice, s, done, rest)
        decreases Count(rest)
      {
        done, rest := CloseOne(menu.value, m, choice, total, old(links), done, rest, Preorder(kids));
        menu := links.next[menu.value];
      }
      PendingCloseEnd(infos, total, choice, s, done);
    }

    /** The body of that loop */
    method CloseOne(id: nat, m: nat, choice: Option<Symbol>, ghost total: (State, seq<Tree>), ghost before: Links,
                    ghost done: seq<Tree>, ghost rest: seq<Tree>, ghost all: seq<nat>)
        returns (ghost done': seq<Tree>, ghost rest': seq<Tree>)
      requires rest != [] && id == rest[0].id && Total(links) == |infos| == |s.data|
      requires Halfway(before, links, done, rest, Some(m), Some(m), all)
      requires PendingClose(infos, total, choice, s, done, rest)
      modifies this`links, this`s
      ensures Total(links) == |infos| == |s.data| && Count(rest') < Count(rest)
      ensures Halfway(before, links, done', rest', Some(m), Some(m), all)
      ensures PendingClose(infos, total, choice, s, done', rest')
      ensures id < Total(links) && links.next[id] == First(rest', None)
    {
      PendingCloseStep(infos, total, choice, s, done, rest);
      SettleOrder(infos, rest);
      ghost var (t, more) := Settle(infos, rest);
      ghost var l := links;
      DistinctParts(Preorder(done), Preorder(rest));
      if choice.Some? { s := Mark(infos, s, choice.value, id); }
      SettleOne(id, m, rest);
      OneMore(before, l, links, done, rest, t, more, Some(m), Some(m), all);
      done', rest' := done + [t], more;
    }

    /** An entry without a prompt gives its submenu to the list it is in. */
    method SettleOne(id: nat, m: nat, ghost rest: seq<Tree>)
      requires rest != [] && id == rest[0].id && id < |infos| == Total(links)
      requires Seg(links, rest, Some(m), None) && Distinct(Preorder(rest))
      modifies this`links
      ensures var (t, more) := Settle(infos, rest);
        Seg(links, [t], Some(m), First(more, None)) && Seg(links, more, Some(m), None)
      ensures SameOutside(old(links), links, Preorder(rest))
    {
      assert [rest[0]] + rest[1..] == rest;
      if links.list[id].Some? && infos[id].prompt.None? {
        Dissolve(id, m, rest[0], rest[1..]);
        PreorderAppend([rest[0]], rest[1..]);
        SameOutsideTrans(old(links), old(links), links, Preorder(rest), Preorder([rest[0]]));
      } else {
        SegCons(links, rest[0], rest[1..], Some(m), None);
      }
    }

    /** menu_finalize(m), where ts[0] is the entry m and ts[1..] are those that follow it */
    method Finalize(m: nat, ghost ts: seq<Tree>, ghost par: Option<nat>)
      requires ts != [] && ts[0].id == m && Holds(ts, par, None)
      modifies this
      ensures Total(links) == |infos| == |s.data|
      ensures s == Menus.Finalize(infos, old(s), ts).s
      ensures visited == old(visited) + Menus.Finalize(infos, old(s), ts).calls
      ensures var r := Menus.Finalize(infos, old(s), ts); Seg(links, [r.head] + r.rest, par, None)
      ensures SameOutside(old(links), links, Preorder(ts))
      decreases Count(ts), 0
    {
      visited := visited + [m];
      ghost var was, r := s, ListOutcome(s, [], ts[1..], []);
      AssemblyStart(links, ts, par);
      FitsParts(ts, |infos|);
      if links.list[m].Some? {
        FitsParts(ts[0].kids, |infos|);
        r := FinalizeParent(m, old(links), ts[0].kids, ts[1..], par, Preorder(ts));
        ParentOutcome(infos, was, ts, r);
        r := r.(rest := ts[1..]);
      } else if infos[m].sym.Some? {
        r := FinalizeSymbol(m, infos[m].sym.value, old(links), ts[1..], par, Preorder(ts));
        SymbolOutcome(infos, was, ts, r);
      } else {
        PlainOutcome(infos, was, ts);
      }
      Assoc(old(visited), [m], r.calls);
      Finish(m, old(links), r.done, r.rest, par, Preorder(ts));
    }

    /** The last part: the submenu is in place, and is gone through once more. */
    method Finish(m: nat, ghost before: Links, ghost kids: seq<Tree>, ghost rest: seq<Tree>, ghost par: Option<nat>,
                  ghost all: seq<nat>)
      requires Assembly(before, links, m, kids, rest, par, all) && Total(links) == |infos| == |s.data|
          && Fits(kids, |infos|)
      modifies this`links, this`s
      ensures Total(links) == |infos| == |s.data| && s == Close(infos, old(s), m, kids).0
      ensures Seg(links, [Node(m, Close(infos, old(s), m, kids).1)] + rest, par, None)
          && SameOutside(before, links, all)
    {
      ghost var l, sub := links, Close(infos, s, m, kids).1;
      AssemblyParts(before, links, m, kids, rest, par, all);
      CloseAll(m, kids);
      AssemblyKids(before, l, links, m, kids, sub, rest, par, all);
      AssemblyEnd(before, links, m, sub, rest, par, all);
    }

    /** The case of an entry with subentries */
    method FinalizeParent(m: nat, ghost before: Links, ghost kids: seq<Tree>, ghost rest: seq<Tree>,
                          ghost par: Option<nat>,
                          ghost all: seq<nat>)
        returns (ghost r: ListOutcome)
      requires Assembly(before, links, m, kids, rest, par, all) && Total(links) == |infos| == |s.data|
          && Fits(kids, |infos|)
      requires kids != [] && forall t :: t in kids ==> t.id < |infos|
      modifies this
      ensures Total(links) == |infos| == |s.data| && Fits(r.done, |infos|)
      ensures Assembly(before, links, m, r.done, rest, par, all)
      ensures var limit := Limit(infos[m], old(s.data[m]));
        r == FinalizeAll(infos, old(s).(data := PushDown(infos, old(s.data), limit, kids)), kids)
      ensures s == r.s && visited == old(visited) + r.calls
      decreases Count(kids), 2
    {
      ghost var l := links;
      AssemblyParts(before, links, m, kids, rest, par, all);
      PushDownAll(m, Limit(infos[m], s.data[m]), kids);
      r := FinalizeAll(infos, s, kids);
      FinalizeAllOrder(infos, s, kids);
      FinalizeKids(m, kids);
      AssemblyKids(before, l, links, m, kids, r.done, rest, par, all);
    }

    /** The case of a symbol without subentries */
    method FinalizeSymbol(m: nat, sym: Symbol, ghost before: Links, ghost ts: seq<Tree>, ghost par: Option<nat>,
                          ghost all: seq<nat>)
        returns (ghost r: ListOutcome)
      requires Assembly(before, links, m, [], ts, par, all) && Total(links) == |infos| == |s.data| && Fits(ts, |infos|)
      requires infos[m].sym == Some(sym)
      modifies this
      ensures Total(links) == |infos| == |s.data| && Fits(r.done, |infos|)
      ensures Assembly(before, links, m, r.done, r.rest, par, all)
      ensures r == Absorb(infos, old(s), m, ts)
      ensures s == WithDir(r.s, sym, r.s.data[m].dep) && visited == old(visited) + r.calls
      decreases Count(ts), 3
    {
      ghost var l := links;
      AssemblyParts(before, links, m, [], ts, par, all);
      var last;
      last, r := AbsorbFollowing(m, sym, ts, par);
      ghost var j := AssemblyAbsorb(before, l, links, m, ts, r.done, r.rest, par, all);
      if last.Some? {
        links := links.(list := links.list[m := links.next[m]]);
        links := links.(next := links.next[m := links.next[last.value]]);
        links := links.(next := links.next[last.value := None]);
      }
      s := WithDir(s, sym, s.data[m].dep);
    }

    /** The loop that finalizes all subentries of m */
    method FinalizeKids(m: nat, ghost kids: seq<Tree>)
      requires m < Total(links) && Holds(kids, Some(m), None) && links.list[m] == First(kids, None)
      requires m !in Preorder(kids)
      modifies this
      ensures Total(links) == |infos| == |s.data|
      ensures s == FinalizeAll(infos, old(s), kids).s
      ensures visited == old(visited) + FinalizeAll(infos, old(s), kids).calls
      ensures Seg(links, FinalizeAll(infos, old(s), kids).done, Some(m), None)
      ensures SameOutside(old(links), links, Preorder(kids))
      decreases Count(kids), 1
    {
      ghost var done, rest: seq<Tree>, calls: seq<nat> := [], kids, [];
      ghost var total := FinalizeAll(infos, s, kids);
      var menu := links.list[m];
      while menu.Some?
        invariant Total(links) == |infos| == |s.data| && Count(rest) <= Count(kids)
        invariant Halfway(old(links), links, done, rest, Some(m), Some(m), Preorder(kids))
        invariant menu == First(rest, None)
        invariant Pending(infos, total, s, done, rest, calls) && visited == old(visited) + calls
        decreases Count(rest)
      {
        ghost var before := links;
        ghost var x := Menus.Finalize(infos, s, rest);
        Assoc(old(visited), calls, x.calls);
        DistinctParts(Preorder(done), Preorder(rest));
        PendingStep(infos, total, s, done, rest, calls);
        Finalize(menu.value, rest, Some(m));
        SegCons(links, x.head, x.rest, Some(m), None);
        OneMore(old(links), before, links, done, rest, x.head, x.rest, Some(m), Some(m), Preorder(kids));
        menu := links.next[menu.value];
        done, rest, calls := done + [x.head], x.rest, calls + x.calls;
      }
      assert done + [] == done && calls + [] == calls;
    }

    /* ---- the whole menu ---- */

    constructor (infos: seq<Info>, links: Links, s: State)
      ensures this.infos == infos && this.links == links && this.s == s && visited == []
    {
      this.infos, this.links, this.s, this.visited := infos, links, s, [];
    }

    /** menu_finalize(&rootmenu): it is called on every entry once, in document order, keeps that order,
        and leaves all pointers, parents included, consistent with the new tree. */
    method FinalizeMenu(root: nat, ghost t: Tree) returns (ghost done: Tree)
      requires t.id == root && Holds([t], None, None)
      modifies this
      ensures Total(links) == |infos| == |s.data| && s == Menus.Finalize(infos, old(s), [t]).s
      ensures visited == old(visited) + Preorder([t])
      ensures done.id == root && Preorder(done.kids) == Preorder(t.kids) && Prompted(infos, done.kids)
      ensures forall a: nat, b: nat :: a < |infos| && infos[a].prompt.Some? && Under([t], a, b) ==> Under([done], a, b)
      ensures Sized(links) && root < Total(links) && links.parent[root] == None && links.next[root] == None
      ensures links.list[root] == First(done.kids, None) && Seg(links, done.kids, Some(root), None)
      ensures SameOutside(old(links), links, Preorder([t]))
    {
      MenuOutcome(infos, s, t);
      done := Menus.Finalize(infos, s, [t]).head;
      forall a: nat, b: nat | a < |infos| && infos[a].prompt.Some? && Under([t], a, b) ensures Under([done], a, b) {
        MenuKeepsUnder(infos, s, t, a, b);
      }
      FinalizePrompted(infos, s, [t]);
      Finalize(root, [t], None);
    }

    /** The walk of conf_write and conf_write_defconfig, from the list of the outermost entry: it comes
        by every entry below it, in document order. */
    method Walk(root: nat, ghost kids: seq<Tree>) returns (order: seq<nat>)
      requires root < Total(links) && Seg(links, kids, Some(root), None)
      requires links.list[root] == First(kids, None) && links.next[root] == None && links.parent[root] == None
      ensures order == Preorder(kids)
    {
      ghost var cur, pend: seq<seq<Tree>>, up := kids, [[]], Some(root);
      WalkStart(kids);
      order := [];
      var menu := links.list[root];
      while menu.Some?
        invariant Seg(links, cur, up, None) && Climb(links, up, pend) && menu == First(cur, None)
        invariant order + ToCome(cur, pend) == Preorder(kids) && (cur == [] ==> ToCome(cur, pend) == [])
        decreases Count(cur) + PendCount(pend)
      {
        order := order + [menu.value];
        menu, up, cur, pend := NextEntry(menu.value, order[..|order| - 1], up, cur, pend);
      }
    }

    /** Down to the subentries if there are any, else on */
    method NextEntry(id: nat, ghost seen: seq<nat>, ghost up: Option<nat>, ghost cur: seq<Tree>,
          ghost pend: seq<seq<Tree>>)
        returns (menu: Option<nat>, ghost up': Option<nat>, ghost cur': seq<Tree>, ghost pend': seq<seq<Tree>>)
      requires Seg(links, cur, up, None) && Climb(links, up, pend) && cur != [] && id == cur[0].id
      ensures Seg(links, cur', up', None) && Climb(links, up', pend') && menu == First(cur', None)
      ensures seen + ToCome(cur, pend) == seen + [id] + ToCome(cur', pend')
      ensures cur' == [] ==> ToCome(cur', pend') == []
      ensures Count(cur') + PendCount(pend') < Count(cur) + PendCount(pend)
    {
      Descend(links, up, cur, pend);
      ghost var below := [cur[1..]] + pend;
      Assoc(seen, [id], ToCome(cur[0].kids, below));
      if links.list[id].Some? {
        menu, up', cur', pend' := links.list[id], Some(id), cur[0].kids, below;
      } else {
        assert ToCome(cur[0].kids, below) == Pend(below);
        menu, up', cur', pend' := After(id, below);
      }
    }

    /** The next entry in the list of this one or, if there is none, of the closest one above it */
    method After(id: nat, ghost todo: seq<seq<Tree>>)
        returns (menu: Option<nat>, ghost up: Option<nat>, ghost cur: seq<Tree>, ghost pend: seq<seq<Tree>>)
      requires Climb(links, Some(id), todo)
      ensures Seg(links, cur, up, None) && Climb(links, up, pend) && menu == First(cur, None)
      ensures ToCome(cur, pend) == Pend(todo) && (cur == [] ==> ToCome(cur, pend) == [])
      ensures Count(cur) + PendCount(pend) == PendCount(todo)
    {
      up, pend := Some(id), todo;
      menu := Some(id);
      while menu.Some? && links.next[menu.value].None?
        invariant Climb(links, up, pend) && menu == up && Pend(pend) == Pend(todo) && PendCount(pend) == PendCount(todo)
        decreases |pend|
      {
        assert Preorder(pend[0]) + Pend(pend[1..]) == Pend(pend[1..]);
        menu := links.parent[menu.value];
        up, pend := menu, pend[1..];
      }
      if menu.Some? {
        cur, up, pend := pend[0], links.parent[menu.value], pend[1..];
        menu := links.next[menu.value];
      } else {
        cur := [];
      }
    }
  }
}
