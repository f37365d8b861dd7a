/** Symbols, their properties, and what their values should be: the recursive definition that the
    memoising evaluator of scripts/config/symbol.c computes. */
module Symbols {
  import opened Tristate
  import opened Exprs

  /** A property: a prompt, a default, a select or choice property, whose effect is in the revDep or the role of
      the symbols it names, or anything else that only carries a condition. */
  datatype Prop =
    | Prompt(vis: OExpr)
    | Default(vis: OExpr, expr: Expr)
    | Select(vis: OExpr)
    | Other(vis: OExpr)

  /** SYMBOL_CHOICE, SYMBOL_CHOICEVAL or neither. */
  datatype Role = Plain | Choice(members: seq<nat>) | Member(of: nat)

  datatype Decl = Decl(typ: SymType, name: string, props: seq<Prop>, dirDep: OExpr, revDep: OExpr,
                       role: Role, auto: bool)

  /** SYMBOL_DEF_USER with def[S_DEF_USER] */
  datatype User = User(has: bool, tri: Tri, val: Val)

  /** All symbols, with modules_val settled. */
  datatype Table = Table(decls: seq<Decl>, modules: Tri)

  /* ---- the pieces of sym_calc_visibility and sym_calc_value ---- */

  /** sym_get_type(sym) == S_BOOLEAN, for a symbol whose visibility is `vis` */
  predicate BooleanNow(d: Decl, vis: Tri, modules: Tri) {
    || d.typ.Boolean?
    || (d.typ.Tristate? && ((d.role.Member? && vis == Yes) || modules == No))
  }

  function Promote(t: Tri, boolean: bool): Tri { if t == Mod && boolean then Yes else t }

  function ChoiceTri(d: Decl, v: Valuation): Tri {
    if d.role.Member? && d.role.of in v.vals then v.vals[d.role.of].tri else No
  }

  /** A mod prompt of a tristate choice value is hidden while its choice is yes. */
  function PromptTri(d: Decl, p: Prop, v: Valuation): Tri {
    if !p.Prompt? then No
    else if d.role.Member? && d.typ.Tristate? && OEval(p.vis, v) == Mod && ChoiceTri(d, v) == Yes then No
    else OEval(p.vis, v)
  }

  function PromptsTri(d: Decl, props: seq<Prop>, v: Valuation): Tri {
    if props == [] then No else Max(PromptTri(d, props[0], v), PromptsTri(d, props[1..], v))
  }

  function Visible(d: Decl, v: Valuation): Tri {
    Promote(PromptsTri(d, d.props, v), !d.typ.Tristate? || v.modules == No)
  }

  /** dir_dep.tri and rev_dep.tri, which are never computed for choice values. */
  function DirDep(d: Decl, v: Valuation): Tri {
    if d.role.Member? then No else Promote(OEval(d.dirDep, v), true)
  }

  function RevDep(d: Decl, v: Valuation): Tri {
    if d.role.Member? || d.revDep.None? then No
    else Promote(Eval(d.revDep.value, v), BooleanNow(d, No, v.modules))
  }

  /** sym_get_default_prop */
  function DefaultProp(props: seq<Prop>, v: Valuation): Option<Prop> {
    if props == [] then None
    else if props[0].Default? && OEval(props[0].vis, v) != No then Some(props[0])
    else DefaultProp(props[1..], v)
  }

  function DefaultTri(d: Decl, v: Valuation): Tri {
    var p := DefaultProp(d.props, v);
    if p.Some? && p.value.Default? then Min(Eval(p.value.expr, v), OEval(p.value.vis, v)) else No
  }

  /** prop_get_symbol of the default that applies, and the string it points at */
  function DefaultVal(d: Decl, v: Valuation): Val {
    var p := DefaultProp(d.props, v);
    if p.Some? && p.value.Default? && p.value.expr.Sym? then Look(v, p.value.expr.s).val else Str("")
  }

  /** sym_get_string_default for a boolean or tristate symbol, as a value */
  function FullDefault(d: Decl, v: Valuation): Tri {
    Promote(Promote(Max(DefaultTri(d, v), RevDep(d, v)), !d.role.Member? && v.modules == No), d.typ.Boolean?)
  }

  /** newval.tri before select and dependencies have their say */
  function OwnTri(d: Decl, u: User, v: Valuation): Tri {
    if Visible(d, v) != No && u.has then Min(u.tri, Visible(d, v))
    else if d.role.Choice? then No
    else DefaultTri(d, v)
  }

  /** The value a boolean or tristate symbol gets, before a choice looks for its member. */
  function NewTri(id: nat, d: Decl, u: User, v: Valuation): Tri {
    var vis := Visible(d, v);
    var t :=
      if d.role.Member? && vis == Yes then
        FromBool(d.role.of in v.vals && v.vals[d.role.of].val == Pick(id))
      else if DirDep(d, v) == No && RevDep(d, v) != No then No
      else Max(OwnTri(d, u, v), RevDep(d, v));
    Promote(t, BooleanNow(d, vis, v.modules))
  }

  /* ---- choices ---- */

  predicate MemberVisible(tab: Table, m: nat, v: Valuation) {
    m < |tab.decls| && Visible(tab.decls[m], v) != No
  }

  /** prop_get_symbol */
  function NamedSymbol(e: Expr): Option<nat> { if e.Sym? && e.s.Conf? then Some(e.s.id) else None }

  /** The defaults of a choice, tried in order: the first in force whose symbol is visible. */
  function DefaultMember(tab: Table, props: seq<Prop>, v: Valuation): Option<nat> {
    if props == [] then None
    else if
      && props[0].Default? && OEval(props[0].vis, v) != No
      && NamedSymbol(props[0].expr).Some? && MemberVisible(tab, NamedSymbol(props[0].expr).value, v)
    then NamedSymbol(props[0].expr)
    else DefaultMember(tab, props[1..], v)
  }

  function FirstVisible(tab: Table, members: seq<nat>, v: Valuation): Option<nat> {
    if members == [] then None
    else if MemberVisible(tab, members[0], v) then Some(members[0])
    else FirstVisible(tab, members[1..], v)
  }

  /** sym_choice_default */
  function ChoiceDefault(tab: Table, d: Decl, v: Valuation): Option<nat> {
    var m := DefaultMember(tab, d.props, v);
    if m.Some? || !d.role.Choice? then m else FirstVisible(tab, d.role.members, v)
  }

  /** sym_calc_choice: the user's member if it is visible, else the default one. */
  function ChoicePick(tab: Table, d: Decl, u: User, v: Valuation): Option<nat> {
    if u.val.Pick? && MemberVisible(tab, u.val.member, v) then Some(u.val.member)
    else ChoiceDefault(tab, d, v)
  }

  /** What members of the choice c see while it looks for one of them: c itself is yes. */
  function WithChoice(v: Valuation, c: nat): Valuation {
    v.(vals := v.vals[c := Value(Yes, Str("n"))])
  }

  /** The value of symbol `id`, given the values of the symbols it depends on. */
  function Step(tab: Table, users: seq<User>, id: nat, v: Valuation): Value
    requires id < |tab.decls| && |users| == |tab.decls|
  {
    var d, u := tab.decls[id], users[id];
    match d.typ
    case Boolean => TriStep(tab, users, id, v)
    case Tristate => TriStep(tab, users, id, v)
    case Unknown => Value(No, Str(d.name))
    case Other => Value(No, Str(d.name))
    case _ => Value(No, if Visible(d, v) != No && u.has then u.val else DefaultVal(d, v))
  }

  function TriStep(tab: Table, users: seq<User>, id: nat, v: Valuation): Value
    requires id < |tab.decls| && |users| == |tab.decls|
  {
    var d, u := tab.decls[id], users[id];
    var t := NewTri(id, d, u, v);
    if d.role.Choice? && t == Yes then
      match ChoicePick(tab, d, u, WithChoice(v, id))
      case None => Value(No, Null)
      case Some(m) => Value(Yes, Pick(m))
    else Value(t, Str("n"))
  }

  /** SYMBOL_WRITE after sym_calc_value, for anything but a choice or a choice value */
  predicate Written(d: Decl, v: Valuation) {
    && !d.typ.Unknown? && !d.typ.Other? && !d.auto
    && (Visible(d, v) != No || (IsTriType(d.typ) && RevDep(d, v) != No)
        || (DefaultProp(d.props, v).Some? && (IsTriType(d.typ) || HasDefaultSymbol(d, v))))
  }

  predicate HasDefaultSymbol(d: Decl, v: Valuation) {
    var p := DefaultProp(d.props, v);
    p.Some? && p.value.Default? && p.value.expr.Sym?
  }

  /* ---- well-formed and acyclic tables ---- */

  function PromptSyms(props: seq<Prop>): set<Symbol> {
    if props == [] then {}
    else (if props[0].Prompt? then OSyms(props[0].vis) else {}) + PromptSyms(props[1..])
  }

  function DefaultSyms(props: seq<Prop>): set<Symbol> {
    if props == [] then {}
    else (if props[0].Default? then OSyms(props[0].vis) + Syms(props[0].expr) else {}) + DefaultSyms(props[1..])
  }

  /** The conditions of the defaults alone: all a choice evaluates of them. */
  function DefaultConds(props: seq<Prop>): set<Symbol> {
    if props == [] then {}
    else (if props[0].Default? then OSyms(props[0].vis) else {}) + DefaultConds(props[1..])
  }

  /** The symbols whose values the value of a symbol is computed from. */
  function Deps(d: Decl): set<Symbol> {
    PromptSyms(d.props)
    + (if d.role.Choice? then DefaultConds(d.props) else DefaultSyms(d.props))
    + (if d.role.Member? then {} else OSyms(d.dirDep) + OSyms(d.revDep))
  }

  predicate InTable(tab: Table, x: Symbol) {
    x.Conf? ==> x.id < |tab.decls| && tab.decls[x.id].typ == x.typ
  }

  /** Every prompt of a choice value, and there is one, is conditional on its choice, as menu_finalize
      makes it. */
  predicate PromptsMention(props: seq<Prop>, c: Symbol) {
    forall p :: p in props && p.Prompt? ==> c in OSyms(p.vis)
  }

  predicate WellFormedDecl(tab: Table, id: nat)
    requires id < |tab.decls|
  {
    var d := tab.decls[id];
    && (forall x :: x in Deps(d) ==> InTable(tab, x))
    && (match d.role
        case Plain => true
        case Member(c) =>
          && c < |tab.decls| && tab.decls[c].role.Choice? && id in tab.decls[c].role.members
          && IsTriType(d.typ) && PromptsMention(d.props, Conf(c, tab.decls[c].typ))
          && exists p :: p in d.props && p.Prompt?
        case Choice(ms) =>
          && IsTriType(d.typ)
          && (forall m :: m in ms ==> m < |tab.decls| && tab.decls[m].role == Member(id))
          && (forall i, j :: 0 <= i < j < |ms| ==> ms[i] != ms[j])
          && (forall p :: p in d.props && p.Default? ==>
                NamedSymbol(p.expr).Some? && NamedSymbol(p.expr).value in ms))
  }

  ghost predicate WellFormed(tab: Table) {
    forall id :: 0 <= id < |tab.decls| ==> WellFormedDecl(tab, id)
  }

  predicate Below(x: Symbol, rank: seq<nat>, k: nat) { x.Conf? ==> x.id < |rank| && rank[x.id] < k }

  /** `rank` decreases along every dependency; what the members of a choice need, apart from the
      choice itself, is ranked below the choice. */
  predicate Ranked(tab: Table, rank: seq<nat>, id: nat)
    requires id < |tab.decls| == |rank|
  {
    var d := tab.decls[id];
    && (forall x :: x in Deps(d) ==> Below(x, rank, rank[id]))
    && (d.role.Member? && d.role.of < |tab.decls| ==>
          && rank[d.role.of] < rank[id]
          && forall x :: x in PromptSyms(d.props) ==>
               Below(x, rank, rank[d.role.of]) || x == Conf(d.role.of, tab.decls[d.role.of].typ))
  }

  ghost predicate Acyclic(tab: Table, rank: seq<nat>) {
    |rank| == |tab.decls| && forall id :: 0 <= id < |tab.decls| ==> Ranked(tab, rank, id)
  }

  /** The user's member of a choice, if any, is one of its members. */
  ghost predicate PicksMembers(tab: Table, users: seq<User>) {
    && |users| == |tab.decls|
    && forall c :: 0 <= c < |users| && tab.decls[c].role.Choice? && users[c].val.Pick? ==>
         users[c].val.member in tab.decls[c].role.members
  }

  /* ---- the denotation ---- */

  /** The value of a symbol, by recursion along the ranking. */
  function ValueOf(tab: Table, users: seq<User>, rank: seq<nat>, id: nat): Value
    requires |users| == |tab.decls| == |rank| && id < |rank|
    decreases rank[id], 1
  {
    Step(tab, users, id, Lower(tab, users, rank, rank[id]))
  }

  /** The values of all symbols of rank below k */
  function Lower(tab: Table, users: seq<User>, rank: seq<nat>, k: nat): (v: Valuation)
    requires |users| == |tab.decls| == |rank|
    ensures v.modules == tab.modules
    ensures forall id: nat :: id in v.vals <==> id < |rank| && rank[id] < k
    decreases k, 0
  {
    Valuation(map id: nat | id < |rank| && rank[id] < k :: ValueOf(tab, users, rank, id), tab.modules)
  }

  function Height(rank: seq<nat>): (h: nat)
    ensures forall i :: 0 <= i < |rank| ==> rank[i] < h
  {
    if rank == [] then 0
    else
      var rest := Height(rank[1..]);
      assert forall i :: 0 < i < |rank| ==> rank[i] == rank[1..][i - 1];
      if rank[0] < rest then rest else rank[0] + 1
  }

  /** What every symbol's value should be. */
  function Denotation(tab: Table, users: seq<User>, rank: seq<nat>): (v: Valuation)
    requires |users| == |tab.decls| == |rank|
    ensures v.modules == tab.modules
    ensures forall id: nat :: id in v.vals <==> id < |tab.decls|
  {
    Lower(tab, users, rank, Height(rank))
  }

  /* ---- a value depends on its dependencies only ---- */

  predicate Agree(v: Valuation, w: Valuation, xs: set<Symbol>) {
    v.modules == w.modules && forall x :: x in xs ==> Look(v, x) == Look(w, x)
  }

  lemma {:induction false} OEvalAgree(e: OExpr, v: Valuation, w: Valuation)
    requires Agree(v, w, OSyms(e))
    ensures OEval(e, v) == OEval(e, w)
  {
    if e.Some? { EvalAgree(e.value, v, w); }
  }

  lemma {:induction false} PromptsAgree(d: Decl, props: seq<Prop>, v: Valuation, w: Valuation)
    requires Agree(v, w, PromptSyms(props)) && ChoiceTri(d, v) == ChoiceTri(d, w)
    ensures PromptsTri(d, props, v) == PromptsTri(d, props, w)
  {
    if props != [] {
      if props[0].Prompt? { OEvalAgree(props[0].vis, v, w); }
      PromptsAgree(d, props[1..], v, w);
    }
  }

  lemma {:induction false} CondsAgree(tab: Table, props: seq<Prop>, v: Valuation, w: Valuation)
    requires Agree(v, w, DefaultConds(props))
    ensures DefaultProp(props, v) == DefaultProp(props, w)
  {
    if props != [] {
      if props[0].Default? { OEvalAgree(props[0].vis, v, w); }
      CondsAgree(tab, props[1..], v, w);
    }
  }

  lemma {:induction false} DefaultPropIn(props: seq<Prop>, v: Valuation)
    requires DefaultProp(props, v).Some?
    ensures var p := DefaultProp(props, v).value;
      p in props && p.Default? && OEval(p.vis, v) != No && OSyms(p.vis) + Syms(p.expr) <= DefaultSyms(props)
  {
    if !(props[0].Default? && OEval(props[0].vis, v) != No) { DefaultPropIn(props[1..], v); }
  }

  lemma {:induction false} CondsInSyms(props: seq<Prop>)
    ensures DefaultConds(props) <= DefaultSyms(props)
  {
    if props != [] { CondsInSyms(props[1..]); }
  }

  lemma {:induction false} DefaultsAgree(d: Decl, v: Valuation, w: Valuation)
    requires Agree(v, w, DefaultSyms(d.props))
    ensures DefaultProp(d.props, v) == DefaultProp(d.props, w)
    ensures DefaultTri(d, v) == DefaultTri(d, w) && DefaultVal(d, v) == DefaultVal(d, w)
  {
    CondsInSyms(d.props);
    CondsAgree(Table([], No), d.props, v, w);
    if DefaultProp(d.props, v).Some? {
      DefaultPropIn(d.props, v);
      var p := DefaultProp(d.props, v).value;
      EvalAgree(p.expr, v, w);
      OEvalAgree(p.vis, v, w);
    }
  }

  lemma {:induction false} DefaultMemberAgree(tab: Table, props: seq<Prop>, v: Valuation, w: Valuation)
    requires Agree(v, w, DefaultConds(props))
    requires forall p :: p in props && p.Default? && NamedSymbol(p.expr).Some? ==>
               MemberVisible(tab, NamedSymbol(p.expr).value, v) == MemberVisible(tab, NamedSymbol(p.expr).value, w)
    ensures DefaultMember(tab, props, v) == DefaultMember(tab, props, w)
  {
    if props != [] {
      assert props[0] in props;
      if props[0].Default? { OEvalAgree(props[0].vis, v, w); }
      DefaultMemberAgree(tab, props[1..], v, w);
    }
  }

  lemma {:induction false} FirstVisibleAgree(tab: Table, ms: seq<nat>, v: Valuation, w: Valuation)
    requires forall m :: m in ms ==> MemberVisible(tab, m, v) == MemberVisible(tab, m, w)
    ensures FirstVisible(tab, ms, v) == FirstVisible(tab, ms, w)
  {
    if ms != [] {
      assert ms[0] in ms;
      FirstVisibleAgree(tab, ms[1..], v, w);
    }
  }

  predicate SameAt(v: Valuation, w: Valuation, id: nat) {
    (id in v.vals <==> id in w.vals) && (id in v.vals ==> v.vals[id] == w.vals[id])
  }

  /** What the value of `id` reads: its dependencies, the value of the choice it belongs to, and for a
      choice the dependencies of its members. */
  ghost predicate AgreeFor(tab: Table, id: nat, v: Valuation, w: Valuation)
    requires id < |tab.decls|
  {
    var d := tab.decls[id];
    && Agree(v, w, Deps(d))
    && (d.role.Member? ==> SameAt(v, w, d.role.of))
    && (d.role.Choice? ==> forall m :: m in d.role.members && m < |tab.decls| ==>
          Agree(WithChoice(v, id), WithChoice(w, id), PromptSyms(tab.decls[m].props)))
  }

  lemma {:induction false} PiecesAgree(tab: Table, id: nat, v: Valuation, w: Valuation)
    requires id < |tab.decls| && AgreeFor(tab, id, v, w)
    ensures var d := tab.decls[id];
      && Visible(d, v) == Visible(d, w) && DirDep(d, v) == DirDep(d, w) && RevDep(d, v) == RevDep(d, w)
      && DefaultProp(d.props, v) == DefaultProp(d.props, w)
      && (!d.role.Choice? ==> DefaultTri(d, v) == DefaultTri(d, w) && DefaultVal(d, v) == DefaultVal(d, w))
  {
    var d := tab.decls[id];
    PromptsAgree(d, d.props, v, w);
    if d.role.Choice? { CondsAgree(tab, d.props, v, w); } else { DefaultsAgree(d, v, w); }
    if !d.role.Member? {
      OEvalAgree(d.dirDep, v, w);
      OEvalAgree(d.revDep, v, w);
    }
  }

  lemma {:induction false} PickAgrees(tab: Table, users: seq<User>, id: nat, v: Valuation, w: Valuation)
    requires id < |tab.decls| && WellFormed(tab) && PicksMembers(tab, users)
    requires tab.decls[id].role.Choice? && AgreeFor(tab, id, v, w)
    requires Conf(id, tab.decls[id].typ) !in DefaultConds(tab.decls[id].props)
    ensures ChoicePick(tab, tab.decls[id], users[id], WithChoice(v, id))
         == ChoicePick(tab, tab.decls[id], users[id], WithChoice(w, id))
  {
    var d := tab.decls[id];
    var v', w' := WithChoice(v, id), WithChoice(w, id);
    assert WellFormedDecl(tab, id);
    forall m | m in d.role.members ensures MemberVisible(tab, m, v') == MemberVisible(tab, m, w') {
      PromptsAgree(tab.decls[m], tab.decls[m].props, v', w');
    }
    assert forall x :: x in DefaultConds(d.props) ==> InTable(tab, x);
    assert Agree(v', w', DefaultConds(d.props));
    DefaultMemberAgree(tab, d.props, v', w');
    FirstVisibleAgree(tab, d.role.members, v', w');
  }

  lemma {:induction false} StepAgrees(tab: Table, users: seq<User>, id: nat, v: Valuation, w: Valuation)
    requires id < |tab.decls| && WellFormed(tab) && PicksMembers(tab, users)
    requires AgreeFor(tab, id, v, w) && Conf(id, tab.decls[id].typ) !in Deps(tab.decls[id])
    ensures Step(tab, users, id, v) == Step(tab, users, id, w)
  {
    PiecesAgree(tab, id, v, w);
    if tab.decls[id].role.Choice? { PickAgrees(tab, users, id, v, w); }
    assert WellFormedDecl(tab, id);
  }

  /* ---- the denotation is the one solution of the value equations ---- */

  /** Two valuations that agree below the rank of `id` give it the same value. */
  lemma {:induction false} AgreeBelow(tab: Table, rank: seq<nat>, id: nat, v: Valuation, w: Valuation)
    requires WellFormed(tab) && Acyclic(tab, rank) && id < |rank| && v.modules == w.modules
    requires forall x: nat :: x < |rank| && rank[x] < rank[id] ==> SameAt(v, w, x)
    ensures AgreeFor(tab, id, v, w) && Conf(id, tab.decls[id].typ) !in Deps(tab.decls[id])
  {
    var d := tab.decls[id];
    assert WellFormedDecl(tab, id) && Ranked(tab, rank, id);
    forall x | x in Deps(d) ensures Look(v, x) == Look(w, x) { assert Below(x, rank, rank[id]); }
    if d.role.Choice? {
      forall m | m in d.role.members && m < |tab.decls|
        ensures Agree(WithChoice(v, id), WithChoice(w, id), PromptSyms(tab.decls[m].props))
      {
        assert Ranked(tab, rank, m);
        forall x | x in PromptSyms(tab.decls[m].props)
          ensures Look(WithChoice(v, id), x) == Look(WithChoice(w, id), x)
        {
          assert Below(x, rank, rank[id]) || x == Conf(id, d.typ);
        }
      }
    }
  }

  /** D assigns to every symbol the value computed from D itself. */
  ghost predicate Solves(tab: Table, users: seq<User>, v: Valuation)
    requires |users| == |tab.decls|
  {
    && v.modules == tab.modules
    && forall id: nat :: id < |tab.decls| ==> id in v.vals && v.vals[id] == Step(tab, users, id, v)
  }

  lemma {:induction false} DenotationSolves(tab: Table, users: seq<User>, rank: seq<nat>)
    requires WellFormed(tab) && Acyclic(tab, rank) && PicksMembers(tab, users)
    ensures Solves(tab, users, Denotation(tab, users, rank))
  {
    var v := Denotation(tab, users, rank);
    forall id: nat | id < |tab.decls| ensures v.vals[id] == Step(tab, users, id, v) {
      var w := Lower(tab, users, rank, rank[id]);
      AgreeBelow(tab, rank, id, w, v);
      StepAgrees(tab, users, id, w, v);
      assert v.vals[id] == ValueOf(tab, users, rank, id);
    }
  }

  /** Below rank k a solution depends only on the user values of the symbols ranked below k. */
  lemma {:induction false} SolutionsAgree(tab: Table, us: seq<User>, ws: seq<User>, rank: seq<nat>,
                                          v: Valuation, w: Valuation, k: nat)
    requires WellFormed(tab) && Acyclic(tab, rank) && PicksMembers(tab, us) && PicksMembers(tab, ws)
    requires Solves(tab, us, v) && Solves(tab, ws, w)
    requires forall id: nat :: id < |rank| && rank[id] < k ==> us[id] == ws[id]
    ensures forall id: nat :: id < |rank| && rank[id] < k ==> v.vals[id] == w.vals[id]
  {
    if k > 0 {
      SolutionsAgree(tab, us, ws, rank, v, w, k - 1);
      forall id: nat | id < |rank| && rank[id] < k ensures v.vals[id] == w.vals[id] {
        AgreeBelow(tab, rank, id, v, w);
        StepAgrees(tab, us, id, v, w);
        assert us[id] == ws[id];
      }
    }
  }

  /** The equations have one solution, whatever ranking shows the table acyclic. */
  lemma {:induction false} DenotationUnique(tab: Table, users: seq<User>, rank: seq<nat>, v: Valuation)
    requires WellFormed(tab) && Acyclic(tab, rank) && PicksMembers(tab, users)
    requires Solves(tab, users, v)
    ensures forall id: nat :: id < |tab.decls| ==> v.vals[id] == Denotation(tab, users, rank).vals[id]
  {
    DenotationSolves(tab, users, rank);
    SolutionsAgree(tab, users, users, rank, v, Denotation(tab, users, rank), Height(rank));
  }
}
