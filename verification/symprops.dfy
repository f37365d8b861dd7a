/** What the evaluator guarantees about the values it computes: dependencies of selected symbols, changes
    that take effect, and choices with exactly one member. */
module SymbolProperties {
  import opened Tristate
  import opened Exprs
  import opened Symbols

  /* ---- settled values ---- */

  /** The computed values meet the assumption under which expressions may be rewritten. */
  lemma {:induction false} DenotationSettled(tab: Table, users: seq<User>, v: Valuation, s: Symbol)
    requires |users| == |tab.decls| && Solves(tab, users, v) && InTable(tab, s)
    ensures Settled(v, s)
  {
    if s.Conf? { assert v.vals[s.id] == Step(tab, users, s.id, v); }
  }

  /* ---- select and dependencies ---- */

  /** Every visible prompt and every default in force implies the symbol's dependencies. */
  ghost predicate ConditionsImplyDeps(d: Decl, v: Valuation) {
    && (Visible(d, v) != No ==> DirDep(d, v) != No)
    && (forall p :: p in d.props && p.Default? && OEval(p.vis, v) != No ==> DirDep(d, v) != No)
  }

  /** A symbol that is set has its dependencies met, even when it is selected; and with its
      dependencies met it is at least what its selectors ask for. */
  lemma {:induction false} SelectedMeetsDeps(tab: Table, users: seq<User>, v: Valuation, id: nat)
    requires |users| == |tab.decls| && Solves(tab, users, v) && id < |tab.decls|
    requires var d := tab.decls[id]; IsTriType(d.typ) && !d.role.Member? && ConditionsImplyDeps(d, v)
    ensures v.vals[id].tri != No ==> DirDep(tab.decls[id], v) != No
    ensures DirDep(tab.decls[id], v) != No && tab.decls[id].role.Plain? ==>
              Le(RevDep(tab.decls[id], v), v.vals[id].tri)
  {
    var d := tab.decls[id];
    assert v.vals[id] == Step(tab, users, id, v);
    if DefaultProp(d.props, v).Some? { DefaultPropIn(d.props, v); }
  }

  /* ---- accepted changes ---- */

  /** sym_tristate_within_range, on the cached fields of a symbol */
  predicate WithinRange(d: Decl, visible: Tri, rev: Tri, modules: Tri, val: Tri) {
    && visible != No
    && IsTriType(d.typ)
    && !(BooleanNow(d, visible, modules) && val == Mod)
    && !Le(visible, rev)
    && (if d.role.Member? && visible == Yes then val == Yes else Le(rev, val) && Le(val, visible))
  }

  function Chosen(users: seq<User>, id: nat, val: Tri): seq<User>
    requires id < |users|
  {
    users[id := users[id].(has := true, tri := val)]
  }

  /* ---- what a value is computed from ---- */

  /** The value of b is read when the value of a is computed. */
  ghost predicate Reads(tab: Table, a: nat, b: nat) {
    && a < |tab.decls| && b < |tab.decls|
    && var d, x := tab.decls[a], Conf(b, tab.decls[b].typ);
       || x in Deps(d) || d.role == Member(b)
       || (d.role.Choice? && b != a
           && exists m :: m in d.role.members && m < |tab.decls| && x in PromptSyms(tab.decls[m].props))
  }

  ghost predicate Route(tab: Table, p: seq<nat>) { forall i :: 0 <= i < |p| - 1 ==> Reads(tab, p[i], p[i + 1]) }

  ghost predicate RouteTo(tab: Table, p: seq<nat>, a: nat, b: nat) {
    |p| >= 2 && p[0] == a && p[|p| - 1] == b && Route(tab, p)
  }

  /** a depends on b, directly or through other symbols. */
  ghost predicate Reaches(tab: Table, a: nat, b: nat) { exists p :: RouteTo(tab, p, a, b) }

  lemma {:induction false} ReachesRead(tab: Table, a: nat, b: nat)
    requires Reads(tab, a, b)
    ensures Reaches(tab, a, b)
  {
    assert RouteTo(tab, [a, b], a, b);
  }

  lemma {:induction false} ReachesFurther(tab: Table, a: nat, b: nat, c: nat)
    requires Reaches(tab, a, b) && Reads(tab, b, c)
    ensures Reaches(tab, a, c)
  {
    var p :| RouteTo(tab, p, a, b);
    var q := p + [c];
    forall i | 0 <= i < |q| - 1 ensures Reads(tab, q[i], q[i + 1]) {
      if i < |p| - 1 { assert Reads(tab, p[i], p[i + 1]); }
    }
    assert RouteTo(tab, q, a, c);
  }

  lemma {:induction false} ReachesJoin(tab: Table, a: nat, b: nat, c: nat)
    requires Reaches(tab, a, b) && Reaches(tab, b, c)
    ensures Reaches(tab, a, c)
  {
    var p :| RouteTo(tab, p, a, b);
    var q :| RouteTo(tab, q, b, c);
    var r := p + q[1..];
    forall i | 0 <= i < |r| - 1 ensures Reads(tab, r[i], r[i + 1]) {
      if i < |p| - 1 {
        assert Reads(tab, p[i], p[i + 1]);
      } else {
        assert Reads(tab, q[i + 1 - |p|], q[i + 2 - |p|]);
      }
    }
    assert RouteTo(tab, r, a, c);
  }

  lemma {:induction false} ReadsBelow(tab: Table, rank: seq<nat>, a: nat, b: nat)
    requires WellFormed(tab) && Acyclic(tab, rank) && Reads(tab, a, b)
    ensures rank[b] < rank[a]
  {
    var d, x := tab.decls[a], Conf(b, tab.decls[b].typ);
    assert Ranked(tab, rank, a) && WellFormedDecl(tab, a);
    if x !in Deps(d) && d.role != Member(b) {
      var m :| m in d.role.members && m < |tab.decls| && x in PromptSyms(tab.decls[m].props);
      assert Ranked(tab, rank, m);
    }
  }

  lemma {:induction false} RouteBelow(tab: Table, rank: seq<nat>, p: seq<nat>, a: nat, b: nat)
    requires WellFormed(tab) && Acyclic(tab, rank) && RouteTo(tab, p, a, b)
    ensures a < |rank| && b < |rank| && rank[b] < rank[a]
    decreases |p|
  {
    assert Reads(tab, p[0], p[1]);
    ReadsBelow(tab, rank, a, p[1]);
    if |p| > 2 {
      var q := p[1..];
      forall i | 0 <= i < |q| - 1 ensures Reads(tab, q[i], q[i + 1]) { assert Reads(tab, p[i + 1], p[i + 2]); }
      RouteBelow(tab, rank, q, p[1], b);
    }
  }

  lemma {:induction false} ReachesBelow(tab: Table, rank: seq<nat>, a: nat, b: nat)
    requires WellFormed(tab) && Acyclic(tab, rank) && Reaches(tab, a, b)
    ensures a < |rank| && b < |rank| && rank[b] < rank[a]
  {
    var p :| RouteTo(tab, p, a, b);
    RouteBelow(tab, rank, p, a, b);
  }

  /** Two valuations with the same values of all that is read */
  ghost predicate SameReads(tab: Table, id: nat, v: Valuation, w: Valuation) {
    v.modules == w.modules && forall b :: Reads(tab, id, b) ==> SameAt(v, w, b)
  }

  lemma {:induction false} ReadsAgree(tab: Table, rank: seq<nat>, id: nat, v: Valuation, w: Valuation)
    requires WellFormed(tab) && Acyclic(tab, rank) && id < |rank| && SameReads(tab, id, v, w)
    ensures AgreeFor(tab, id, v, w) && Conf(id, tab.decls[id].typ) !in Deps(tab.decls[id])
  {
    var d := tab.decls[id];
    assert WellFormedDecl(tab, id) && Ranked(tab, rank, id);
    forall x | x in Deps(d) ensures Look(v, x) == Look(w, x) {
      if x.Conf? { assert x == Conf(x.id, tab.decls[x.id].typ) && Reads(tab, id, x.id); }
    }
    if d.role.Member? { assert Reads(tab, id, d.role.of); }
    forall m | d.role.Choice? && m in d.role.members && m < |tab.decls|
      ensures Agree(WithChoice(v, id), WithChoice(w, id), PromptSyms(tab.decls[m].props))
    {
      MemberReadsAgree(tab, id, m, v, w);
    }
  }

  lemma {:induction false} MemberReadsAgree(tab: Table, id: nat, m: nat, v: Valuation, w: Valuation)
    requires WellFormed(tab) && id < |tab.decls| && tab.decls[id].role.Choice?
    requires m in tab.decls[id].role.members && m < |tab.decls| && SameReads(tab, id, v, w)
    ensures Agree(WithChoice(v, id), WithChoice(w, id), PromptSyms(tab.decls[m].props))
  {
    assert WellFormedDecl(tab, m);
    PromptSymsInDeps(tab.decls[m]);
    forall x | x in PromptSyms(tab.decls[m].props) ensures Look(WithChoice(v, id), x) == Look(WithChoice(w, id), x) {
      if x.Conf? && x.id != id {
        assert InTable(tab, x) && x == Conf(x.id, tab.decls[x.id].typ);
        assert Reads(tab, id, x.id);
      }
    }
  }

  lemma {:induction false} PromptSymsInDeps(d: Decl)
    ensures PromptSyms(d.props) <= Deps(d)
  {
  }

  /* ---- changes of user values that can and cannot be felt ---- */

  /** The user values `us` and `ws` give id the same value, all else being as in v. */
  predicate Unmoved(tab: Table, us: seq<User>, ws: seq<User>, v: Valuation, id: nat)
    requires |us| == |ws| == |tab.decls|
  {
    id < |tab.decls| && Step(tab, us, id, v) == Step(tab, ws, id, v)
  }

  lemma {:induction false} ReachedKept(tab: Table, us: seq<User>, ws: seq<User>, rank: seq<nat>, v: Valuation,
                                       w: Valuation,
                                       s: nat, id: nat)
    requires WellFormed(tab) && Acyclic(tab, rank) && PicksMembers(tab, us) && PicksMembers(tab, ws)
    requires Solves(tab, us, v) && Solves(tab, ws, w) && Reaches(tab, s, id)
    requires forall x :: Reaches(tab, s, x) ==> Unmoved(tab, us, ws, v, x)
    ensures SameAt(v, w, id)
    decreases if id < |rank| then rank[id] else 0
  {
    ReachesBelow(tab, rank, s, id);
    forall b | Reads(tab, id, b) ensures SameAt(v, w, b) {
      ReadsBelow(tab, rank, id, b);
      ReachesFurther(tab, s, id, b);
      ReachedKept(tab, us, ws, rank, v, w, s, b);
    }
    ReadsAgree(tab, rank, id, v, w);
    StepAgrees(tab, ws, id, v, w);
    assert Unmoved(tab, us, ws, v, id);
  }

  ghost predicate ReachedSame(tab: Table, s: nat, v: Valuation, w: Valuation) {
    forall x :: Reaches(tab, s, x) ==> SameAt(v, w, x)
  }

  /** All that s depends on keeps its value if and only if no single change of a user value among that is felt. */
  lemma {:induction false} ReachedSameExactly(tab: Table, us: seq<User>, ws: seq<User>, rank: seq<nat>, v: Valuation,
          w: Valuation, s: nat)
    requires WellFormed(tab) && Acyclic(tab, rank) && PicksMembers(tab, us) && PicksMembers(tab, ws)
    requires Solves(tab, us, v) && Solves(tab, ws, w)
    ensures ReachedSame(tab, s, v, w) <==> forall x :: Reaches(tab, s, x) ==> Unmoved(tab, us, ws, v, x)
  {
    if forall x :: Reaches(tab, s, x) ==> Unmoved(tab, us, ws, v, x) {
      forall x | Reaches(tab, s, x) ensures SameAt(v, w, x) { ReachedKept(tab, us, ws, rank, v, w, s, x); }
    }
    if ReachedSame(tab, s, v, w) {
      forall x | Reaches(tab, s, x) ensures Unmoved(tab, us, ws, v, x) {
        ReachesBelow(tab, rank, s, x);
        forall b | Reads(tab, x, b) ensures SameAt(v, w, b) { ReachesFurther(tab, s, x, b); }
        ReadsAgree(tab, rank, x, v, w);
        StepAgrees(tab, ws, x, v, w);
      }
    }
  }

  lemma {:induction false} ReachedReads(tab: Table, s: nat, v: Valuation, w: Valuation)
    requires ReachedSame(tab, s, v, w) && v.modules == w.modules
    ensures SameReads(tab, s, v, w)
  {
    forall b | Reads(tab, s, b) ensures SameAt(v, w, b) { ReachesRead(tab, s, b); }
  }

  /** Storing the value a symbol has as the user's leaves all values right if and only if that value does not
      exceed what the symbol is visible or selected as: a default may have. */
  lemma {:induction false} UnchangedExactly(tab: Table, us: seq<User>, v: Valuation, s: nat)
    requires |us| == |tab.decls| && Solves(tab, us, v) && s < |tab.decls|
    requires tab.decls[s].role.Plain? && IsTriType(tab.decls[s].typ)
    ensures Solves(tab, Chosen(us, s, v.vals[s].tri), v) <==>
            Lasting(Visible(tab.decls[s], v), RevDep(tab.decls[s], v), v.vals[s].tri)
  {
    var d, ws := tab.decls[s], Chosen(us, s, v.vals[s].tri);
    assert v.vals[s] == Step(tab, us, s, v);
    assert Step(tab, ws, s, v) == v.vals[s] <==> Lasting(Visible(d, v), RevDep(d, v), v.vals[s].tri);
    forall id: nat | id < |tab.decls| && id != s ensures v.vals[id] == Step(tab, ws, id, v) {
      assert v.vals[id] == Step(tab, us, id, v);
    }
  }

  predicate Lasting(visible: Tri, rev: Tri, val: Tri) { visible == No || Le(val, Max(visible, rev)) }

  /** A value that sym_tristate_within_range lets through is the value the symbol gets, whatever else
      changes, if all that it is computed from keeps its value. */
  lemma {:induction false} AcceptedTakesEffect(tab: Table, ws: seq<User>, rank: seq<nat>, v: Valuation, w: Valuation,
          id: nat, val: Tri)
    requires WellFormed(tab) && Acyclic(tab, rank) && PicksMembers(tab, ws)
    requires id < |tab.decls| && tab.decls[id].role.Plain? && v.modules == tab.modules
    requires Solves(tab, ws, w) && SameReads(tab, id, v, w)
    requires ws[id].has && ws[id].tri == val
    requires WithinRange(tab.decls[id], Visible(tab.decls[id], v), RevDep(tab.decls[id], v), tab.modules, val)
    requires Visible(tab.decls[id], v) != No ==> DirDep(tab.decls[id], v) != No
    ensures w.vals[id].tri == val
  {
    ReadsAgree(tab, rank, id, v, w);
    PiecesAgree(tab, id, v, w);
    assert w.vals[id] == Step(tab, ws, id, w);
  }

  /* ---- choices ---- */

  predicate NoDefaults(props: seq<Prop>) { forall p :: p in props ==> !p.Default? }

  lemma {:induction false} NoDefaultSyms(props: seq<Prop>)
    requires NoDefaults(props)
    ensures DefaultSyms(props) == {}
  {
    if props != [] {
      assert props[0] in props;
      NoDefaultSyms(props[1..]);
    }
  }

  lemma {:induction false} NoDefaultProp(props: seq<Prop>, v: Valuation)
    requires NoDefaults(props)
    ensures DefaultProp(props, v) == None
  {
    if props != [] {
      assert props[0] in props;
      NoDefaultProp(props[1..], v);
    }
  }

  /** Expressions see of a symbol its tristate value and its string. */
  lemma {:induction false} EvalLooks(e: Expr, v: Valuation, w: Valuation)
    requires forall s :: s in Syms(e) ==> TriOf(v, s) == TriOf(w, s) && StringOf(v, s) == StringOf(w, s)
    ensures Eval(e, v) == Eval(e, w)
  {
    match e
    case Sym(s) =>
    case Cmp(rel, a, b) =>
    case Not(x) => EvalLooks(x, v, w);
    case Bin(_, l, r) => EvalLooks(l, v, w); EvalLooks(r, v, w);
  }

  lemma {:induction false} PromptsLook(d: Decl, props: seq<Prop>, v: Valuation, w: Valuation)
    requires ChoiceTri(d, v) == ChoiceTri(d, w)
    requires forall s :: s in PromptSyms(props) ==> TriOf(v, s) == TriOf(w, s) && StringOf(v, s) == StringOf(w, s)
    ensures PromptsTri(d, props, v) == PromptsTri(d, props, w)
  {
    if props != [] {
      if props[0].Prompt? && props[0].vis.Some? { EvalLooks(props[0].vis.value, v, w); }
      PromptsLook(d, props[1..], v, w);
    }
  }

  /** Under a choice that is yes its members look as they did while it was choosing. */
  lemma {:induction false} MemberLooks(tab: Table, v: Valuation, c: nat, m: nat)
    requires WellFormed(tab) && c < |tab.decls| && tab.decls[c].role.Choice? && m in tab.decls[c].role.members
    requires c in v.vals && v.vals[c].tri == Yes
    ensures m < |tab.decls| && Visible(tab.decls[m], WithChoice(v, c)) == Visible(tab.decls[m], v)
  {
    assert WellFormedDecl(tab, c) && WellFormedDecl(tab, m);
    var d, w := tab.decls[m], WithChoice(v, c);
    forall s | s in PromptSyms(d.props) ensures TriOf(v, s) == TriOf(w, s) && StringOf(v, s) == StringOf(w, s) {
      PromptSymsInDeps(d);
      assert InTable(tab, s);
    }
    PromptsLook(d, d.props, v, w);
  }

  /** Under a choice that is yes a member is visible or not, but never mod. */
  lemma {:induction false} MemberNotMod(d: Decl, props: seq<Prop>, v: Valuation)
    requires d.role.Member? && d.typ.Tristate? && ChoiceTri(d, v) == Yes
    ensures PromptsTri(d, props, v) != Mod
  {
    if props != [] { MemberNotMod(d, props[1..], v); }
  }

  lemma {:induction false} FirstVisibleIn(tab: Table, ms: seq<nat>, v: Valuation)
    ensures var f := FirstVisible(tab, ms, v);
      if f.Some? then f.value in ms && MemberVisible(tab, f.value, v)
      else forall m :: m in ms ==> !MemberVisible(tab, m, v)
  {
    if ms != [] { FirstVisibleIn(tab, ms[1..], v); }
  }

  lemma {:induction false} DefaultMemberIn(tab: Table, props: seq<Prop>, v: Valuation)
    requires DefaultMember(tab, props, v).Some?
    ensures var m := DefaultMember(tab, props, v).value;
      MemberVisible(tab, m, v) && exists p :: p in props && p.Default? && NamedSymbol(p.expr) == Some(m)
  {
    if props[0].Default? && NamedSymbol(props[0].expr) == DefaultMember(tab, props, v) {
      assert props[0] in props;
      if !MemberVisible(tab, NamedSymbol(props[0].expr).value, v) || OEval(props[0].vis, v) == No {
        DefaultMemberIn(tab, props[1..], v);
      }
    } else {
      DefaultMemberIn(tab, props[1..], v);
    }
  }

  /** sym_calc_choice finds a visible member whenever there is one. */
  lemma {:induction false} PickIsVisibleMember(tab: Table, users: seq<User>, c: nat, v: Valuation)
    requires WellFormed(tab) && PicksMembers(tab, users) && c < |tab.decls| && tab.decls[c].role.Choice?
    ensures var ms := tab.decls[c].role.members; var pick := ChoicePick(tab, tab.decls[c], users[c], v);
      if pick.Some? then pick.value in ms && MemberVisible(tab, pick.value, v)
      else forall m :: m in ms ==> !MemberVisible(tab, m, v)
  {
    var d := tab.decls[c];
    assert WellFormedDecl(tab, c);
    FirstVisibleIn(tab, d.role.members, v);
    if DefaultMember(tab, d.props, v).Some? { DefaultMemberIn(tab, d.props, v); }
  }

  /** The member of a choice that is yes: visible, and the only one that is yes. */
  ghost predicate OnlyMember(tab: Table, v: Valuation, c: nat, pick: nat)
    requires c < |tab.decls| && tab.decls[c].role.Choice?
  {
    && pick in tab.decls[c].role.members && pick < |tab.decls| && c in v.vals
    && v.vals[c].val == Pick(pick) && Visible(tab.decls[pick], v) == Yes
    && forall m :: m in tab.decls[c].role.members ==>
         m in v.vals && v.vals[m].tri == FromBool(m == pick)
  }

  /** A choice that is yes has exactly one member that is yes, a visible one, and all others are no;
      a choice that is mod has none; and a choice is yes only if some member is visible then. */
  lemma {:induction false} ChoiceExclusive(tab: Table, users: seq<User>, v: Valuation, c: nat)
    requires WellFormed(tab) && PicksMembers(tab, users) && Solves(tab, users, v)
    requires c < |tab.decls| && tab.decls[c].role.Choice?
    requires forall m :: m in tab.decls[c].role.members && m < |tab.decls| ==> NoDefaults(tab.decls[m].props)
    ensures v.vals[c].tri == Yes ==> exists pick :: OnlyMember(tab, v, c, pick)
    ensures v.vals[c].tri == Mod ==>
              forall m :: m in tab.decls[c].role.members ==> m in v.vals && v.vals[m].tri != Yes
    ensures NewTri(c, tab.decls[c], users[c], v) == Yes ==>
              (v.vals[c].tri == Yes <==>
                exists m :: m in tab.decls[c].role.members && MemberVisible(tab, m, WithChoice(v, c)))
    ensures NewTri(c, tab.decls[c], users[c], v) == Yes && v.vals[c].tri != Yes ==> v.vals[c].tri == No
  {
    var d, ms := tab.decls[c], tab.decls[c].role.members;
    assert WellFormedDecl(tab, c) && v.vals[c] == Step(tab, users, c, v);
    PickIsVisibleMember(tab, users, c, WithChoice(v, c));
    if v.vals[c].tri == Yes {
      var pick := v.vals[c].val.member;
      forall m | m in ms ensures v.vals[m].tri == FromBool(m == pick) { MemberValue(tab, users, v, c, m); }
      MemberValue(tab, users, v, c, pick);
      assert OnlyMember(tab, v, c, pick);
    }
    forall m | m in ms && v.vals[c].tri == Mod ensures v.vals[m].tri != Yes { MemberValue(tab, users, v, c, m); }
  }

  lemma {:induction false} MemberValue(tab: Table, users: seq<User>, v: Valuation, c: nat, m: nat)
    requires WellFormed(tab) && PicksMembers(tab, users) && Solves(tab, users, v)
    requires c < |tab.decls| && tab.decls[c].role.Choice? && m in tab.decls[c].role.members
    requires m < |tab.decls| ==> NoDefaults(tab.decls[m].props)
    ensures m < |tab.decls| && m in v.vals
    ensures v.vals[c].tri == Yes ==>
              && v.vals[m].tri == FromBool(Visible(tab.decls[m], v) == Yes && v.vals[c].val == Pick(m))
              && (MemberVisible(tab, m, WithChoice(v, c)) ==> Visible(tab.decls[m], v) == Yes)
    ensures v.vals[c].tri != Yes ==> v.vals[m].tri != Yes
  {
    var d := tab.decls[m];
    assert WellFormedDecl(tab, c) && WellFormedDecl(tab, m);
    assert v.vals[m] == Step(tab, users, m, v) && v.vals[c] == Step(tab, users, c, v);
    NoDefaultProp(d.props, v);
    if v.vals[c].tri == Yes {
      MemberLooks(tab, v, c, m);
      if d.typ.Tristate? { MemberNotMod(d, d.props, v); }
    }
  }

  /* ---- choices that forget the user ---- */

  /** Some member would be visible under the choice, and the user has said nothing about it. */
  ghost predicate NewMember(tab: Table, users: seq<User>, c: nat, v: Valuation)
    requires c < |tab.decls| == |users|
  {
    tab.decls[c].role.Choice?
    && exists m :: m in tab.decls[c].role.members && MemberVisible(tab, m, WithChoice(v, c)) && !users[m].has
  }

  /** What is left of the user value of a choice after sym_calc_choice: the flag goes when a member is new. */
  ghost function Remembered(tab: Table, users: seq<User>, c: nat, v: Valuation): User
    requires c < |tab.decls| == |users|
  {
    if NewTri(c, tab.decls[c], users[c], v) == Yes && NewMember(tab, users, c, v) then users[c].(has := false)
    else users[c]
  }

  /** The value of a choice without a user value, from the cached fields: what selects it, if its dependencies
      are met */
  function Alone(d: Decl, visible: Tri, dir: Tri, rev: Tri, modules: Tri): Tri {
    Promote(if dir == No then No else rev, BooleanNow(d, visible, modules))
  }

  /** A choice that has dropped its flag is yes, and stays so if and only if it is yes without the user. */
  lemma {:induction false} DropFelt(tab: Table, us: seq<User>, ws: seq<User>, v: Valuation, c: nat)
    requires WellFormed(tab) && PicksMembers(tab, us) && Solves(tab, us, v) && c < |tab.decls| == |ws|
    requires tab.decls[c].role.Choice? && ws[c] == Remembered(tab, us, c, v) != us[c]
    ensures v.vals[c].tri == Yes
    ensures var d := tab.decls[c];
      && (Unmoved(tab, us, ws, v, c) <==> Alone(d, Visible(d, v), DirDep(d, v), RevDep(d, v), v.modules) == Yes)
      && (Unmoved(tab, us, ws, v, c) <==> Step(tab, ws, c, v).tri == Yes)
  {
    var d := tab.decls[c];
    assert WellFormedDecl(tab, c) && v.vals[c] == Step(tab, us, c, v);
    PickIsVisibleMember(tab, us, c, WithChoice(v, c));
    assert ChoicePick(tab, d, ws[c], WithChoice(v, c)) == ChoicePick(tab, d, us[c], WithChoice(v, c));
  }

  lemma {:induction false} YesWithoutUser(tab: Table, us: seq<User>, v: Valuation, c: nat)
    requires |us| == |tab.decls| && Solves(tab, us, v) && c < |tab.decls| && WellFormed(tab)
    requires tab.decls[c].role.Choice? && !us[c].has && v.vals[c].tri == Yes
    ensures var d := tab.decls[c]; Alone(d, Visible(d, v), DirDep(d, v), RevDep(d, v), v.modules) == Yes
  {
    assert WellFormedDecl(tab, c) && v.vals[c] == Step(tab, us, c, v);
  }

  /** A symbol whose prompt and dependencies are another symbol, and which can follow its value */
  predicate DependsAlone(tab: Table, s: nat, m: nat) {
    && s < |tab.decls| && m < |tab.decls|
    && var d, x := tab.decls[s], Some(Sym(Conf(m, tab.decls[m].typ)));
       && d.role.Plain? && d.props == [Prompt(x)] && d.dirDep == x && d.revDep == None
       && (d.typ.Tristate? || (d.typ.Boolean? && tab.decls[m].typ.Boolean?))
  }

  /** Set to y it gets that value if and only if the other symbol is y. */
  lemma {:induction false} DependentFeels(tab: Table, ws: seq<User>, w: Valuation, s: nat, m: nat)
    requires |ws| == |tab.decls| && Solves(tab, ws, w) && DependsAlone(tab, s, m)
    requires ws[s].has && ws[s].tri == Yes
    ensures w.vals[s].tri == Yes <==> w.vals[m].tri == Yes
  {
    var d := tab.decls[s];
    assert w.vals[s] == Step(tab, ws, s, w);
    DenotationSettled(tab, ws, w, Conf(m, tab.decls[m].typ));
    OnePrompt(d, d.dirDep, w);
  }

  /** A choice value is computed from the choice and from what the choice looks at. */
  lemma {:induction false} MemberReads(tab: Table, c: nat, m: nat, b: nat)
    requires WellFormed(tab) && c < |tab.decls| && tab.decls[c].role.Choice? && m in tab.decls[c].role.members
    requires m < |tab.decls| && NoDefaults(tab.decls[m].props) && Reads(tab, m, b)
    ensures b == c || Reads(tab, c, b)
  {
    assert WellFormedDecl(tab, c);
    NoDefaultSyms(tab.decls[m].props);
  }

  /** A member that is y stays so when its choice keeps its value. */
  lemma {:induction false} MemberFollows(tab: Table, us: seq<User>, ws: seq<User>, rank: seq<nat>, v: Valuation,
          w: Valuation, c: nat,
                      m: nat)
    requires WellFormed(tab) && Acyclic(tab, rank) && PicksMembers(tab, us) && PicksMembers(tab, ws)
    requires Solves(tab, us, v) && Solves(tab, ws, w)
    requires c < |tab.decls| && tab.decls[c].role.Choice? && m in tab.decls[c].role.members && m < |tab.decls|
    requires NoDefaults(tab.decls[m].props) && us[m] == ws[m] && SameReads(tab, c, v, w) && v.vals[m].tri == Yes
    ensures v.vals[c].tri == Yes
    ensures w.vals[m].tri == Yes <==> w.vals[c] == v.vals[c]
  {
    MemberValue(tab, us, v, c, m);
    MemberValue(tab, ws, w, c, m);
    if w.vals[c] == v.vals[c] {
      forall b | Reads(tab, m, b) ensures SameAt(v, w, b) { MemberReads(tab, c, m, b); }
      ReadsAgree(tab, rank, m, v, w);
      StepAgrees(tab, us, m, v, w);
    }
  }

  /** A boolean choice that is optional, with one member, and a symbol that depends on the member, as menu_finalize
      leaves them */
  function WaveringTable(): Table {
    var c, m := Some(Sym(Conf(0, Boolean))), Some(Sym(Conf(1, Boolean)));
    Table([Decl(Boolean, "C", [Prompt(None)], None, None, Choice([1]), false),
           Decl(Boolean, "M", [Prompt(c)], c, None, Member(0), false),
           Decl(Boolean, "S", [Prompt(m)], m, None, Plain, false)], No)
  }

  /** The user has set the choice itself and nothing else. */
  function WaveringUsers(): seq<User> { [User(true, Yes, Null), User(false, No, Null), User(false, No, Null)] }

  lemma {:induction false} OnePrompt(d: Decl, vis: OExpr, v: Valuation)
    requires d.props == [Prompt(vis)]
    ensures PromptsTri(d, d.props, v) == PromptTri(d, d.props[0], v) && DefaultProp(d.props, v) == None
    ensures PromptSyms(d.props) == OSyms(vis) && DefaultSyms(d.props) == {} && DefaultConds(d.props) == {}
  {
    assert d.props[1..] == [];
    assert PromptsTri(d, d.props[1..], v) == No && DefaultProp(d.props[1..], v) == None;
    assert PromptSyms(d.props[1..]) == {} && DefaultSyms(d.props[1..]) == {} && DefaultConds(d.props[1..]) == {};
  }

  lemma {:induction false} WaveringWellFormed()
    ensures WellFormed(WaveringTable()) && Acyclic(WaveringTable(), [0, 1, 2])
  {
    var tab, v := WaveringTable(), Valuation(map[], No);
    OnePrompt(tab.decls[0], None, v);
    OnePrompt(tab.decls[1], Some(Sym(Conf(0, Boolean))), v);
    OnePrompt(tab.decls[2], Some(Sym(Conf(1, Boolean))), v);
    assert tab.decls[1].props[0] in tab.decls[1].props;
    forall id | 0 <= id < 3 ensures WellFormedDecl(tab, id) && Ranked(tab, [0, 1, 2], id) {
      if id == 0 {} else if id == 1 {} else { assert id == 2; }
    }
  }

  /** What the choice is worth, given the user's values */
  lemma {:induction false} WaveringChoice(us: seq<User>, v: Valuation)
    requires |us| == 3 && Solves(WaveringTable(), us, v) && us[0].tri == Yes && us[0].val == Null
    ensures v.vals[0].tri == FromBool(us[0].has) == NewTri(0, WaveringTable().decls[0], us[0], v)
    ensures NewMember(WaveringTable(), us, 0, v) == !us[1].has
  {
    var tab, c := WaveringTable(), Some(Sym(Conf(0, Boolean)));
    assert v.vals[0] == Step(tab, us, 0, v);
    OnePrompt(tab.decls[0], None, v);
    OnePrompt(tab.decls[1], c, WithChoice(v, 0));
    assert Visible(tab.decls[0], v) == Yes && MemberVisible(tab, 1, WithChoice(v, 0));
    assert NewTri(0, tab.decls[0], us[0], v) == FromBool(us[0].has);
    assert tab.decls[0].role.members[0] == 1;
    assert WithChoice(v, 0).vals[0].tri == Yes;
    WaveringWellFormed();
    if us[0].has { PickIsVisibleMember(tab, us, 0, WithChoice(v, 0)); }
  }

  /** ... and its member, and the symbol */
  lemma {:induction false} WaveringValues(us: seq<User>, v: Valuation)
    requires |us| == 3 && Solves(WaveringTable(), us, v) && us[0].tri == Yes && us[0].val == Null
    ensures v.vals[1].tri == FromBool(us[0].has)
    ensures var d := WaveringTable().decls[2];
      Visible(d, v) == DirDep(d, v) == FromBool(us[0].has) && RevDep(d, v) == No
    ensures us[2].tri != Mod ==> v.vals[2].tri == if us[2].has then Min(us[2].tri, v.vals[1].tri) else No
  {
    var tab := WaveringTable();
    WaveringChoice(us, v);
    WaveringWellFormed();
    if us[0].has { OnlyWavering(us, v); }
    MemberValue(tab, us, v, 0, 1) by {
      assert tab.decls[0].role.members[0] == 1;
    }
    assert v.vals[1] == Step(tab, us, 1, v) && v.vals[2] == Step(tab, us, 2, v);
    OnePrompt(tab.decls[1], Some(Sym(Conf(0, Boolean))), v);
    OnePrompt(tab.decls[2], Some(Sym(Conf(1, Boolean))), v);
  }

  lemma {:induction false} OnlyWavering(us: seq<User>, v: Valuation)
    requires |us| == 3 && Solves(WaveringTable(), us, v) && us[0] == User(true, Yes, Null)
    ensures v.vals[0].val == Pick(1)
  {
    var tab := WaveringTable();
    WaveringChoice(us, v);
    WaveringWellFormed();
    PickIsVisibleMember(tab, us, 0, WithChoice(v, 0));
    assert v.vals[0] == Step(tab, us, 0, v);
  }

  /** A change that is accepted and does not take effect: the choice is y by the user, but its member is new, so
      that valuing the choice drops the flag; y is in range for the symbol, and after the clearing choice, member
      and symbol are n. */
  lemma {:induction false} WaveringExample(v: Valuation, ws: seq<User>, w: Valuation)
    requires var tab, us := WaveringTable(), WaveringUsers();
      Solves(tab, us, v) && ws == Chosen(us[0 := Remembered(tab, us, 0, v)], 2, Yes) && Solves(tab, ws, w)
    ensures var d := WaveringTable().decls[2];
      && WithinRange(d, Visible(d, v), RevDep(d, v), No, Yes) && DirDep(d, v) == Yes
      && v.vals[0].tri == v.vals[1].tri == Yes && v.vals[2].tri == No
      && w.vals[0].tri == w.vals[1].tri == w.vals[2].tri == No
  {
    WaveringChoice(WaveringUsers(), v);
    WaveringValues(WaveringUsers(), v);
    WaveringChoice(ws, w);
    WaveringValues(ws, w);
  }

  /** A value in range for a member visible as m, of a choice that is then not y, is the value it gets. */
  lemma {:induction false} ModuleTakesEffect(tab: Table, us: seq<User>, ws: seq<User>, rank: seq<nat>, v: Valuation,
          w: Valuation, c: nat,
                          m: nat, val: Tri)
    requires WellFormed(tab) && Acyclic(tab, rank) && PicksMembers(tab, us) && PicksMembers(tab, ws)
    requires Solves(tab, us, v) && Solves(tab, ws, w)
    requires c < |tab.decls| && tab.decls[c].role.Choice? && m in tab.decls[c].role.members && m < |tab.decls|
    requires Visible(tab.decls[m], v) == Mod && val != Yes && ws[m].has && ws[m].tri == val
    requires v.vals[c].tri != Yes && us[c] == ws[c] && SameReads(tab, c, v, w)
    ensures w.vals[m].tri == val
  {
    assert WellFormedDecl(tab, c) && w.vals[m] == Step(tab, ws, m, w);
    ReadsAgree(tab, rank, c, v, w);
    StepAgrees(tab, us, c, v, w);
    assert v.vals[c] == Step(tab, us, c, v) && w.vals[c] == Step(tab, ws, c, w);
    MemberSees(tab, c, m, v, w);
  }

  lemma {:induction false} MemberSees(tab: Table, c: nat, m: nat, v: Valuation, w: Valuation)
    requires WellFormed(tab) && c < |tab.decls| && tab.decls[c].role.Choice? && m in tab.decls[c].role.members
    requires m < |tab.decls| && SameReads(tab, c, v, w) && c in v.vals && c in w.vals && v.vals[c] == w.vals[c]
    ensures Visible(tab.decls[m], v) == Visible(tab.decls[m], w)
  {
    var d := tab.decls[m];
    assert WellFormedDecl(tab, c);
    forall x | x in PromptSyms(d.props) ensures Look(v, x) == Look(w, x) { PromptReads(tab, c, m, x); }
    PromptsAgree(d, d.props, v, w);
  }

  lemma {:induction false} PromptReads(tab: Table, c: nat, m: nat, x: Symbol)
    requires WellFormed(tab) && c < |tab.decls| && tab.decls[c].role.Choice? && m in tab.decls[c].role.members
    requires m < |tab.decls| && x in PromptSyms(tab.decls[m].props)
    ensures x.Conf? && x.id != c ==> Reads(tab, c, x.id)
  {
    assert WellFormedDecl(tab, m);
    PromptSymsInDeps(tab.decls[m]);
    assert InTable(tab, x);
  }

  /** A member visible as m belongs to a choice that is not y. */
  lemma {:induction false} ModuleOfChoice(tab: Table, v: Valuation, c: nat, m: nat)
    requires WellFormed(tab) && c < |tab.decls| && tab.decls[c].role.Choice? && m in tab.decls[c].role.members
    requires m < |tab.decls| && c in v.vals && Visible(tab.decls[m], v) == Mod
    ensures v.vals[c].tri != Yes
  {
    assert WellFormedDecl(tab, c);
    if v.vals[c].tri == Yes { MemberNotMod(tab.decls[m], tab.decls[m].props, v); }
  }

  /** A value in range for a choice is the value it gets, but for y when it has no visible member. */
  lemma {:induction false} ChoiceTakesEffect(tab: Table, ws: seq<User>, rank: seq<nat>, v: Valuation, w: Valuation,
          c: nat, val: Tri)
    requires WellFormed(tab) && Acyclic(tab, rank) && PicksMembers(tab, ws)
    requires c < |tab.decls| && tab.decls[c].role.Choice? && v.modules == tab.modules
    requires Solves(tab, ws, w) && SameReads(tab, c, v, w) && ws[c].has && ws[c].tri == val
    requires WithinRange(tab.decls[c], Visible(tab.decls[c], v), RevDep(tab.decls[c], v), tab.modules, val)
    requires Visible(tab.decls[c], v) != No ==> DirDep(tab.decls[c], v) != No
    ensures w.vals[c].tri == val <==>
              (val == Yes ==> exists m :: m in tab.decls[c].role.members && MemberVisible(tab, m, WithChoice(w, c)))
  {
    ReadsAgree(tab, rank, c, v, w);
    PiecesAgree(tab, c, v, w);
    assert w.vals[c] == Step(tab, ws, c, w);
    PickIsVisibleMember(tab, ws, c, WithChoice(w, c));
  }

  /** Making a visible member of a choice that is yes the user's member switches the choice to it. */
  lemma {:induction false} SwitchTakesEffect(tab: Table, us: seq<User>, ws: seq<User>, rank: seq<nat>, v: Valuation,
          w: Valuation,
        c: nat, m: nat)
    requires WellFormed(tab) && Acyclic(tab, rank) && PicksMembers(tab, us) && PicksMembers(tab, ws)
    requires Solves(tab, us, v) && Solves(tab, ws, w)
    requires c < |tab.decls| && tab.decls[c].role.Choice? && m in tab.decls[c].role.members && m < |tab.decls|
    requires v.vals[c].tri == Yes && Visible(tab.decls[m], v) == Yes
    requires ws[c] == us[c].(has := true, val := Pick(m)) && SameReads(tab, c, v, w)
    requires forall x :: x in tab.decls[c].role.members && x < |tab.decls| ==> NoDefaults(tab.decls[x].props)
    ensures OnlyMember(tab, w, c, m)
  {
    SwitchedValue(tab, us, ws, rank, v, w, c, m);
    ChoiceExclusive(tab, ws, w, c);
  }

  lemma {:induction false} SwitchedValue(tab: Table, us: seq<User>, ws: seq<User>, rank: seq<nat>, v: Valuation,
          w: Valuation, c: nat,
        m: nat)
    requires WellFormed(tab) && Acyclic(tab, rank) && PicksMembers(tab, us) && PicksMembers(tab, ws)
    requires Solves(tab, us, v) && Solves(tab, ws, w)
    requires c < |tab.decls| && tab.decls[c].role.Choice? && m in tab.decls[c].role.members && m < |tab.decls|
    requires v.vals[c].tri == Yes && Visible(tab.decls[m], v) == Yes
    requires ws[c] == us[c].(has := true, val := Pick(m)) && SameReads(tab, c, v, w)
    ensures w.vals[c] == Value(Yes, Pick(m))
  {
    assert WellFormedDecl(tab, c) && v.vals[c] == Step(tab, us, c, v) && w.vals[c] == Step(tab, ws, c, w);
    ReadsAgree(tab, rank, c, v, w);
    StillYes(tab, us[c], ws[c], v, w, c);
    StillVisible(tab, v, w, c, m);
  }

  /** A choice that is yes stays yes when it is marked as set by the user. */
  lemma {:induction false} StillYes(tab: Table, u: User, u': User, v: Valuation, w: Valuation, c: nat)
    requires c < |tab.decls| && AgreeFor(tab, c, v, w) && tab.decls[c].role.Choice?
    requires NewTri(c, tab.decls[c], u, v) == Yes && u'.has && u'.tri == u.tri
    ensures NewTri(c, tab.decls[c], u', w) == Yes
  {
    PiecesAgree(tab, c, v, w);
  }

  lemma {:induction false} StillVisible(tab: Table, v: Valuation, w: Valuation, c: nat, m: nat)
    requires WellFormed(tab) && c < |tab.decls| && tab.decls[c].role.Choice? && AgreeFor(tab, c, v, w)
    requires m in tab.decls[c].role.members && m < |tab.decls|
    requires c in v.vals && v.vals[c].tri == Yes && Visible(tab.decls[m], v) == Yes
    ensures MemberVisible(tab, m, WithChoice(w, c))
  {
    assert WellFormedDecl(tab, c);
    MemberLooks(tab, v, c, m);
    PromptsAgree(tab.decls[m], tab.decls[m].props, WithChoice(v, c), WithChoice(w, c));
  }
}
