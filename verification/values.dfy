/** What the computed values are (sym_calc_visibility, sym_calc_value, sym_calc_choice and sym_choice_default,
    scripts/config/symbol.c:208-480), said of any valuation that solves the table, property by property. */
module SymbolValues {
  import opened Tristate
  import opened Exprs
  import opened Symbols
  import opened SymbolProperties

  /* ---- connectives ---- */

  function Rank(t: Tri): int { match t case No => 0 case Mod => 1 case Yes => 2 }

  /** AND is the minimum, OR the maximum, and NOT the difference from y, counting n, m and y as 0, 1 and 2. */
  lemma {:induction false} ConnectivesExactly(e: Expr, f: Expr, v: Valuation)
    ensures var x, y := Rank(Eval(e, v)), Rank(Eval(f, v));
      && Rank(Eval(Bin(Conj, e, f), v)) == (if x < y then x else y)
      && Rank(Eval(Bin(Disj, e, f), v)) == (if x < y then y else x)
      && Rank(Eval(Not(e), v)) == 2 - x
  {
  }

  /** t comes out of x: m is y where the symbol can only be n or y. */
  predicate Becomes(t: Tri, x: Tri, boolean: bool) {
    (t == No <==> x == No) && (t == Yes <==> x == Yes || (x == Mod && boolean))
  }

  /* ---- visibility ---- */

  /** The i-th property is a prompt that shows the symbol as t; one that shows a tristate choice value as m is
      hidden while the choice is y. */
  predicate Shows(d: Decl, i: nat, v: Valuation, t: Tri) {
    && i < |d.props| && d.props[i].Prompt? && OEval(d.props[i].vis, v) == t
    && !(t == Mod && d.typ.Tristate? && d.role.Member? && d.role.of in v.vals && v.vals[d.role.of].tri == Yes)
  }

  /** The visibility is y or m as some prompt shows it so, m being as good as y except for tristates. */
  lemma {:induction false} VisibleExactly(d: Decl, v: Valuation)
    ensures Visible(d, v) != No <==> exists i: nat :: Shows(d, i, v, Mod) || Shows(d, i, v, Yes)
    ensures Visible(d, v) == Yes <==>
            exists i: nat :: Shows(d, i, v, Yes) || (Shows(d, i, v, Mod) && (!d.typ.Tristate? || v.modules == No))
  {
    PromptsShow(d, 0, v);
    assert d.props[0..] == d.props;
  }

  lemma {:induction false} PromptsShow(d: Decl, k: nat, v: Valuation)
    requires k <= |d.props|
    ensures var t := PromptsTri(d, d.props[k..], v);
      && (t == Yes <==> exists i: nat :: k <= i && Shows(d, i, v, Yes))
      && (t != No <==> exists i: nat :: k <= i && (Shows(d, i, v, Mod) || Shows(d, i, v, Yes)))
    decreases |d.props| - k
  {
    if k < |d.props| {
      PromptsShow(d, k + 1, v);
      assert d.props[k..][0] == d.props[k] && d.props[k..][1..] == d.props[k + 1..];
      assert PromptTri(d, d.props[k], v) == Yes <==> Shows(d, k, v, Yes);
      assert PromptTri(d, d.props[k], v) == Mod <==> Shows(d, k, v, Mod);
    }
  }

  /* ---- defaults ---- */

  /** The i-th property is a default in force. */
  predicate InForce(props: seq<Prop>, i: nat, v: Valuation) {
    i < |props| && props[i].Default? && OEval(props[i].vis, v) != No
  }

  /** ... and the first of them */
  predicate FirstInForce(props: seq<Prop>, i: nat, v: Valuation) {
    InForce(props, i, v) && forall j: nat :: j < i ==> !InForce(props, j, v)
  }

  predicate NoneInForce(props: seq<Prop>, v: Valuation) { forall j: nat :: j < |props| ==> !InForce(props, j, v) }

  /** x is what the defaults give: the value of the first in force, as far as its condition goes. */
  ghost predicate Given(d: Decl, v: Valuation, x: Tri) {
    || (NoneInForce(d.props, v) && x == No)
    || exists i: nat :: FirstInForce(d.props, i, v)
         && Rank(x) == Least(Rank(Eval(d.props[i].expr, v)), Rank(OEval(d.props[i].vis, v)))
  }

  function Least(x: int, y: int): int { if x < y then x else y }

  function Greatest(x: int, y: int): int { if x < y then y else x }

  lemma {:induction false} DefaultPropAt(props: seq<Prop>, v: Valuation) returns (i: nat)
    ensures if DefaultProp(props, v).Some? then FirstInForce(props, i, v) && DefaultProp(props, v).value == props[i]
            else NoneInForce(props, v)
  {
    i := 0;
    if props != [] && !InForce(props, 0, v) {
      var k := DefaultPropAt(props[1..], v);
      i := k + 1;
      forall j: nat | j > 0 ensures InForce(props, j, v) == InForce(props[1..], j - 1, v) {}
    }
  }

  lemma {:induction false} DefaultGiven(d: Decl, v: Valuation, x: Tri)
    ensures Given(d, v, x) <==> DefaultTri(d, v) == x
  {
    var i := DefaultPropAt(d.props, v);
    if DefaultProp(d.props, v).Some? {
      assert forall k: nat :: FirstInForce(d.props, k, v) ==> k == i;
    }
  }

  /* ---- booleans and tristates ---- */

  /** A symbol that can only be n or y now */
  predicate TwoValued(d: Decl, v: Valuation) { d.typ.Boolean? || v.modules == No }

  /** What the selecting symbols ask for */
  function Asked(d: Decl, v: Valuation): Tri { if d.revDep.Some? then Eval(d.revDep.value, v) else No }

  predicate DepsUnmet(d: Decl, v: Valuation) { d.dirDep.Some? && Eval(d.dirDep.value, v) == No }

  /** The cached fields dir_dep and rev_dep: whether the dependencies are met, and what the selectors ask for; never
      computed for choice values. */
  lemma {:induction false} CachedExactly(d: Decl, v: Valuation)
    ensures d.role.Member? ==> DirDep(d, v) == RevDep(d, v) == No
    ensures !d.role.Member? ==> DirDep(d, v) == if DepsUnmet(d, v) then No else Yes
    ensures !d.role.Member? && IsTriType(d.typ) ==> Becomes(RevDep(d, v), Asked(d, v), TwoValued(d, v))
    ensures !d.role.Member? && !IsTriType(d.typ) ==> RevDep(d, v) == Asked(d, v)
  {
  }

  /** A plain boolean or tristate symbol: n if it is selected with dependencies unmet; else the greater of what its
      selectors ask for and of its own value, which is the user's as far as the symbol is visible, or what the
      defaults give. */
  lemma {:induction false} PlainExactly(tab: Table, users: seq<User>, v: Valuation, id: nat)
    requires |users| == |tab.decls| && Solves(tab, users, v) && id < |tab.decls|
    requires IsTriType(tab.decls[id].typ) && tab.decls[id].role.Plain?
    ensures var d, u, t := tab.decls[id], users[id], v.vals[id].tri; var rev := Asked(d, v);
      if DepsUnmet(d, v) && rev != No then t == No
      else exists own, x ::
        && (if Visible(d, v) != No && u.has then Rank(own) == Least(Rank(u.tri), Rank(Visible(d, v)))
            else Given(d, v, own))
        && Rank(x) == Greatest(Rank(own), Rank(rev)) && Becomes(t, x, TwoValued(d, v))
  {
    var d, u := tab.decls[id], users[id];
    assert v.vals[id] == Step(tab, users, id, v);
    DefaultGiven(d, v, DefaultTri(d, v));
    var own := OwnTri(d, u, v);
    assert Becomes(v.vals[id].tri, if DepsUnmet(d, v) && Asked(d, v) != No then No else Max(own, Asked(d, v)),
                   TwoValued(d, v));
    assert Rank(Max(own, Asked(d, v))) == Greatest(Rank(own), Rank(Asked(d, v)));
  }

  /** A choice value: visible as y, it is y if it is the chosen one and else n; otherwise it has the user's value as
      far as it is visible, or what the defaults give. */
  lemma {:induction false} MemberExactly(tab: Table, users: seq<User>, v: Valuation, id: nat)
    requires |users| == |tab.decls| && Solves(tab, users, v) && id < |tab.decls|
    requires IsTriType(tab.decls[id].typ) && tab.decls[id].role.Member? && tab.decls[id].role.of < |tab.decls|
    ensures var d, u, t := tab.decls[id], users[id], v.vals[id].tri;
      if Visible(d, v) == Yes then t == if v.vals[d.role.of].val == Pick(id) then Yes else No
      else if Visible(d, v) == Mod && u.has then t == if u.tri == No then No else Mod
      else exists own :: Given(d, v, own) && Becomes(t, own, TwoValued(d, v))
  {
    var d, u := tab.decls[id], users[id];
    assert v.vals[id] == Step(tab, users, id, v);
    DefaultGiven(d, v, DefaultTri(d, v));
  }

  /** A choice: n if it is selected with dependencies unmet; else the greater of what its selectors ask for and of
      the user's value as far as it is visible; but not y without a member to choose. */
  lemma {:induction false} ChoiceExactly(tab: Table, users: seq<User>, v: Valuation, id: nat)
    requires |users| == |tab.decls| && Solves(tab, users, v) && id < |tab.decls|
    requires IsTriType(tab.decls[id].typ) && tab.decls[id].role.Choice?
    ensures var d, u, t := tab.decls[id], users[id], v.vals[id].tri; var rev := Asked(d, v);
      if DepsUnmet(d, v) && rev != No then t == No
      else exists x ::
        && Rank(x) == Greatest(if u.has then Least(Rank(u.tri), Rank(Visible(d, v))) else 0, Rank(rev))
        && (Becomes(t, x, TwoValued(d, v))
            || (t == No && Becomes(Yes, x, TwoValued(d, v)) && ChoicePick(tab, d, u, WithChoice(v, id)).None?))
  {
    var d, u := tab.decls[id], users[id];
    assert v.vals[id] == Step(tab, users, id, v);
    var x := Max(OwnTri(d, u, v), Asked(d, v));
    assert Rank(x) == Greatest(if u.has then Least(Rank(u.tri), Rank(Visible(d, v))) else 0, Rank(Asked(d, v)));
    if !(DepsUnmet(d, v) && Asked(d, v) != No) { assert Becomes(NewTri(id, d, u, v), x, TwoValued(d, v)); }
  }

  /* ---- the member of a choice ---- */

  /** The i-th property is a default in force that names a visible symbol. */
  predicate Offers(tab: Table, props: seq<Prop>, i: nat, v: Valuation) {
    InForce(props, i, v) && props[i].expr.Sym? && props[i].expr.s.Conf? && MemberVisible(tab, props[i].expr.s.id, v)
  }

  /** ... and the first that does */
  predicate FirstOffer(tab: Table, props: seq<Prop>, i: nat, v: Valuation) {
    Offers(tab, props, i, v) && forall j: nat :: j < i ==> !Offers(tab, props, j, v)
  }

  predicate NoOffer(tab: Table, props: seq<Prop>, v: Valuation) {
    forall j: nat :: j < |props| ==> !Offers(tab, props, j, v)
  }

  /** m is the first visible one of ms. */
  ghost predicate FirstSeen(tab: Table, ms: seq<nat>, m: nat, v: Valuation) {
    exists i: nat :: i < |ms| && ms[i] == m && MemberVisible(tab, m, v)
                     && forall j :: 0 <= j < i ==> !MemberVisible(tab, ms[j], v)
  }

  lemma {:induction false} DefaultMemberAt(tab: Table, props: seq<Prop>, v: Valuation) returns (i: nat)
    ensures if DefaultMember(tab, props, v).Some? then
              FirstOffer(tab, props, i, v) && props[i].expr.s.id == DefaultMember(tab, props, v).value
            else NoOffer(tab, props, v)
  {
    i := 0;
    if props != [] && !Offers(tab, props, 0, v) {
      var k := DefaultMemberAt(tab, props[1..], v);
      i := k + 1;
      forall j: nat | j > 0 ensures Offers(tab, props, j, v) == Offers(tab, props[1..], j - 1, v) {}
    }
  }

  lemma {:induction false} FirstVisibleAt(tab: Table, ms: seq<nat>, v: Valuation)
    requires FirstVisible(tab, ms, v).Some?
    ensures FirstSeen(tab, ms, FirstVisible(tab, ms, v).value, v)
  {
    var m := FirstVisible(tab, ms, v).value;
    if MemberVisible(tab, ms[0], v) {
      assert ms[0] == m;
    } else {
      FirstVisibleAt(tab, ms[1..], v);
      var i: nat :| i < |ms| - 1 && ms[1..][i] == m && MemberVisible(tab, m, v)
                    && forall j :: 0 <= j < i ==> !MemberVisible(tab, ms[1..][j], v);
      assert ms[i + 1] == m;
      forall j | 0 <= j < i + 1 ensures !MemberVisible(tab, ms[j], v) {
        if j > 0 { assert ms[j] == ms[1..][j - 1]; }
      }
    }
  }

  /** Defaults and members look the same from the choice that is y as they did while it was choosing. */
  lemma {:induction false} ChoosingLooks(tab: Table, rank: seq<nat>, v: Valuation, c: nat)
    requires WellFormed(tab) && Acyclic(tab, rank) && c < |tab.decls| && tab.decls[c].role.Choice?
    requires c in v.vals && v.vals[c].tri == Yes
    ensures forall m :: m in tab.decls[c].role.members ==>
              (MemberVisible(tab, m, WithChoice(v, c)) <==> MemberVisible(tab, m, v))
    ensures forall i: nat :: InForce(tab.decls[c].props, i, WithChoice(v, c)) == InForce(tab.decls[c].props, i, v)
  {
    var d := tab.decls[c];
    forall m | m in d.role.members
      ensures MemberVisible(tab, m, WithChoice(v, c)) <==> MemberVisible(tab, m, v)
    {
      MemberLooks(tab, v, c, m);
    }
    forall i: nat ensures InForce(d.props, i, WithChoice(v, c)) == InForce(d.props, i, v) {
      if i < |d.props| && d.props[i].Default? {
        CondsOf(d.props, i);
        assert Ranked(tab, rank, c);
        forall x | x in OSyms(d.props[i].vis) ensures Look(WithChoice(v, c), x) == Look(v, x) {
          assert x in Deps(d) && Below(x, rank, rank[c]);
        }
        OEvalAgree(d.props[i].vis, WithChoice(v, c), v);
      }
    }
  }

  lemma {:induction false} CondsOf(props: seq<Prop>, i: nat)
    requires i < |props| && props[i].Default?
    ensures OSyms(props[i].vis) <= DefaultConds(props)
  {
    if i > 0 { CondsOf(props[1..], i - 1); }
  }

  /** The member of a choice that is y: the user's, if it is visible; else the one that the first default in force
      with a visible member names; else the first visible one. */
  lemma {:induction false} PickExactly(tab: Table, users: seq<User>, rank: seq<nat>, v: Valuation, c: nat)
    requires WellFormed(tab) && Acyclic(tab, rank) && PicksMembers(tab, users) && Solves(tab, users, v)
    requires c < |tab.decls| && tab.decls[c].role.Choice? && v.vals[c].tri == Yes
    ensures v.vals[c].val.Pick?
    ensures var d, u, m := tab.decls[c], users[c], v.vals[c].val.member;
      if u.val.Pick? && MemberVisible(tab, u.val.member, v) then m == u.val.member
      else if NoOffer(tab, d.props, v) then FirstSeen(tab, d.role.members, m, v)
      else exists i: nat :: FirstOffer(tab, d.props, i, v) && d.props[i].expr.s.id == m
  {
    var d, u, w := tab.decls[c], users[c], WithChoice(v, c);
    assert v.vals[c] == Step(tab, users, c, v) && WellFormedDecl(tab, c);
    var m := v.vals[c].val.member;
    ChoosingLooks(tab, rank, v, c);
    OffersSame(tab, c, v);
    if !(u.val.Pick? && MemberVisible(tab, u.val.member, v)) {
      var i := DefaultMemberAt(tab, d.props, w);
      if DefaultMember(tab, d.props, w).Some? {
        assert FirstOffer(tab, d.props, i, v) && d.props[i].expr.s.id == m;
      } else {
        FirstVisibleAt(tab, d.role.members, w);
        FirstSeenSame(tab, d.role.members, m, w, v);
      }
    }
  }

  lemma {:induction false} FirstSeenSame(tab: Table, ms: seq<nat>, m: nat, v: Valuation, w: Valuation)
    requires FirstSeen(tab, ms, m, v)
    requires forall x :: x in ms ==> (MemberVisible(tab, x, v) <==> MemberVisible(tab, x, w))
    ensures FirstSeen(tab, ms, m, w)
  {
    var i: nat :| i < |ms| && ms[i] == m && MemberVisible(tab, m, v)
             && forall j :: 0 <= j < i ==> !MemberVisible(tab, ms[j], v);
    assert forall j :: 0 <= j < i ==> ms[j] in ms;
  }

  lemma {:induction false} OffersSame(tab: Table, c: nat, v: Valuation)
    requires c < |tab.decls| && tab.decls[c].role.Choice? && WellFormed(tab)
    requires forall m :: m in tab.decls[c].role.members ==>
               (MemberVisible(tab, m, WithChoice(v, c)) <==> MemberVisible(tab, m, v))
    requires forall i: nat :: InForce(tab.decls[c].props, i, WithChoice(v, c)) == InForce(tab.decls[c].props, i, v)
    ensures forall i: nat ::
              Offers(tab, tab.decls[c].props, i, WithChoice(v, c)) == Offers(tab, tab.decls[c].props, i, v)
  {
    var d := tab.decls[c];
    assert WellFormedDecl(tab, c);
    forall i: nat ensures Offers(tab, d.props, i, WithChoice(v, c)) == Offers(tab, d.props, i, v) {
      if i < |d.props| && d.props[i].Default? { assert d.props[i] in d.props; }
    }
  }

  /* ---- strings and numbers, and what is written ---- */

  ghost predicate TextGiven(d: Decl, v: Valuation, val: Val) {
    if NoneInForce(d.props, v) then val == Str("")
    else exists i: nat :: FirstInForce(d.props, i, v) && val == NamedValue(d.props[i].expr, v)
  }

  function NamedValue(e: Expr, v: Valuation): Val { if e.Sym? then Look(v, e.s).val else Str("") }

  /** A string or number: the user's, if it is visible; else the value of the symbol that the first default in force
      names; else empty. */
  lemma {:induction false} TextExactly(tab: Table, users: seq<User>, v: Valuation, id: nat)
    requires |users| == |tab.decls| && Solves(tab, users, v) && id < |tab.decls|
    requires tab.decls[id].typ.Int? || tab.decls[id].typ.Hex? || tab.decls[id].typ.Text?
    ensures v.vals[id].tri == No
    ensures var d, u, val := tab.decls[id], users[id], v.vals[id].val;
      if Visible(d, v) != No && u.has then val == u.val
      else TextGiven(d, v, val)
  {
    assert v.vals[id] == Step(tab, users, id, v);
    var i := DefaultPropAt(tab.decls[id].props, v);
  }

  /** A symbol without a type stands for its own name. */
  lemma {:induction false} NameExactly(tab: Table, users: seq<User>, v: Valuation, id: nat)
    requires |users| == |tab.decls| && Solves(tab, users, v) && id < |tab.decls|
    requires tab.decls[id].typ.Unknown? || tab.decls[id].typ.Other?
    ensures v.vals[id].tri == No && v.vals[id].val == Str(tab.decls[id].name)
  {
    assert v.vals[id] == Step(tab, users, id, v);
  }

  /** Written are symbols that are visible, selected (booleans and tristates only) or have a default in force (for
      strings and numbers the first of them must name a symbol), unless they are SYMBOL_AUTO. */
  lemma {:induction false} WrittenExactly(d: Decl, v: Valuation)
    requires d.role.Plain?
    ensures Written(d, v) <==>
            && !d.auto && !d.typ.Unknown? && !d.typ.Other?
            && (|| Visible(d, v) != No
                || (IsTriType(d.typ) && Asked(d, v) != No)
                || exists i: nat :: FirstInForce(d.props, i, v) && (IsTriType(d.typ) || d.props[i].expr.Sym?))
  {
    var i := DefaultPropAt(d.props, v);
    if DefaultProp(d.props, v).Some? { assert forall k: nat :: FirstInForce(d.props, k, v) ==> k == i; }
  }

  /** The default of a boolean or tristate, without the user: what the defaults give or the selectors ask for */
  lemma {:induction false} FullDefaultExactly(d: Decl, v: Valuation)
    requires d.role.Plain? && IsTriType(d.typ)
    ensures exists own, x :: Given(d, v, own) && Rank(x) == Greatest(Rank(own), Rank(Asked(d, v)))
                             && Becomes(FullDefault(d, v), x, TwoValued(d, v))
  {
    var own := DefaultTri(d, v);
    DefaultGiven(d, v, own);
    assert Rank(Max(own, Asked(d, v))) == Greatest(Rank(own), Rank(Asked(d, v)));
    assert Becomes(FullDefault(d, v), Max(own, Asked(d, v)), TwoValued(d, v));
  }

  /* ---- refused changes ---- */

  /** A new value for a plain symbol takes effect if and only if it is let through, or is just what the selectors ask
      for, above a visibility that is no more; all else that the symbol is computed from keeping its value. */
  lemma {:induction false} RefusedExactly(tab: Table, us: seq<User>, ws: seq<User>, rank: seq<nat>, v: Valuation,
          w: Valuation, id: nat,
                       val: Tri)
    requires WellFormed(tab) && Acyclic(tab, rank) && PicksMembers(tab, us) && PicksMembers(tab, ws)
    requires Solves(tab, us, v) && Solves(tab, ws, w) && SameReads(tab, id, v, w)
    requires id < |tab.decls| && tab.decls[id].role.Plain? && IsTriType(tab.decls[id].typ)
    requires Visible(tab.decls[id], v) != No ==> DirDep(tab.decls[id], v) != No
    requires ws[id].has && ws[id].tri == val && val != v.vals[id].tri
    ensures var d := tab.decls[id]; var vis, rev := Visible(d, v), RevDep(d, v);
      w.vals[id].tri == val <==>
      WithinRange(d, vis, rev, tab.modules, val) || (vis != No && Le(vis, rev) && val == rev)
  {
    ReadsAgree(tab, rank, id, v, w);
    PiecesAgree(tab, id, v, w);
    assert v.vals[id] == Step(tab, us, id, v) && w.vals[id] == Step(tab, ws, id, w);
  }

  /** A new value that is refused for a choice value would not take effect. */
  lemma {:induction false} RefusedMember(tab: Table, us: seq<User>, ws: seq<User>, rank: seq<nat>, v: Valuation,
          w: Valuation, id: nat,
                      val: Tri)
    requires WellFormed(tab) && Acyclic(tab, rank) && PicksMembers(tab, us) && PicksMembers(tab, ws)
    requires Solves(tab, us, v) && Solves(tab, ws, w) && SameReads(tab, id, v, w)
    requires id < |tab.decls| && tab.decls[id].role.Member?
    requires ws[id].has && ws[id].tri == val && val != v.vals[id].tri
    requires !WithinRange(tab.decls[id], Visible(tab.decls[id], v), RevDep(tab.decls[id], v), tab.modules, val)
    ensures w.vals[id].tri != val
  {
    assert WellFormedDecl(tab, id);
    ReadsAgree(tab, rank, id, v, w);
    PiecesAgree(tab, id, v, w);
    assert Reads(tab, id, tab.decls[id].role.of);
    assert v.vals[id] == Step(tab, us, id, v) && w.vals[id] == Step(tab, ws, id, w);
  }

  /** Nor would one for a choice, but for one that is just what its selectors ask for. */
  lemma {:induction false} RefusedChoice(tab: Table, us: seq<User>, ws: seq<User>, rank: seq<nat>, v: Valuation,
          w: Valuation, id: nat,
                      val: Tri)
    requires WellFormed(tab) && Acyclic(tab, rank) && PicksMembers(tab, us) && PicksMembers(tab, ws)
    requires Solves(tab, us, v) && Solves(tab, ws, w) && SameReads(tab, id, v, w)
    requires id < |tab.decls| && tab.decls[id].role.Choice?
    requires ws[id].has && ws[id].tri == val && ws[id].val == us[id].val && val != v.vals[id].tri
    requires !WithinRange(tab.decls[id], Visible(tab.decls[id], v), RevDep(tab.decls[id], v), tab.modules, val)
    requires val != RevDep(tab.decls[id], v)
    ensures w.vals[id].tri != val
  {
    assert WellFormedDecl(tab, id);
    ReadsAgree(tab, rank, id, v, w);
    PiecesAgree(tab, id, v, w);
    PickAgrees(tab, us, id, v, w);
    assert v.vals[id] == Step(tab, us, id, v) && w.vals[id] == Step(tab, ws, id, w);
  }

  /** A new value for a choice value that is visible as y takes effect, together with its becoming the user's choice if
      it is y, if and only if it is let through. */
  lemma {:induction false} MemberRangeExactly(tab: Table, us: seq<User>, ws: seq<User>, rank: seq<nat>, v: Valuation,
        w: Valuation, c: nat, m: nat, val: Tri)
    requires WellFormed(tab) && Acyclic(tab, rank) && PicksMembers(tab, us) && PicksMembers(tab, ws)
    requires Solves(tab, us, v) && Solves(tab, ws, w) && SameReads(tab, c, v, w)
    requires c < |tab.decls| && tab.decls[c].role.Choice? && m in tab.decls[c].role.members && m < |tab.decls|
    requires v.vals[c].tri == Yes && Visible(tab.decls[m], v) == Yes && val != v.vals[m].tri
    requires ws[c] == if val == Yes then us[c].(has := true, val := Pick(m)) else us[c]
    requires forall x :: x in tab.decls[c].role.members && x < |tab.decls| ==> NoDefaults(tab.decls[x].props)
    ensures w.vals[m].tri == val <==>
            WithinRange(tab.decls[m], Visible(tab.decls[m], v), RevDep(tab.decls[m], v), tab.modules, val)
  {
    assert WellFormedDecl(tab, c);
    if val == Yes {
      SwitchTakesEffect(tab, us, ws, rank, v, w, c, m);
    } else {
      ReadsAgree(tab, rank, c, v, w);
      StepAgrees(tab, us, c, v, w);
      assert v.vals[c] == Step(tab, us, c, v) && w.vals[c] == Step(tab, ws, c, w);
      MemberValue(tab, us, v, c, m);
      MemberValue(tab, ws, w, c, m);
      MemberSees(tab, c, m, v, w);
    }
  }
}
