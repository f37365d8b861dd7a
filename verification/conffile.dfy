/** Writing and reading configurations with a live symbol table: conf_write_defconfig, conf_write and conf_read
    (scripts/config/confdata.c:276-480 and 671-850). */
module ConfFiles {
  import opened Tristate
  import opened Exprs
  import opened Symbols
  import opened SymTabs
  import opened Escapes
  import opened Confdata

  /** The table is at rest, in the epoch given by its first four arguments. */
  ghost predicate InEpoch(t: SymTab, rank: seq<nat>, base: seq<User>, den: Valuation, printed: set<nat>)
    reads t
  {
    t.Ok() && t.now == Epoch(t.tab, rank, base, den, printed)
  }

  /** Looking at a symbol takes SYMBOL_WRITE from it, if it has the flag. */
  method TakeWrite(t: SymTab, s: nat) returns (write: bool)
    requires t.Ok() && PlainTable(t.tab) && s < |t.tab.decls|
    modifies t
    ensures var x := old(t.now); var marked := Written(t.tab.decls[s], x.den);
      && InEpoch(t, x.rank, x.base, x.den, if marked then x.printed + {s} else x.printed)
      && write == (marked && s !in x.printed)
    ensures |t.cells| == |t.tab.decls| && t.cells[s].valid
  {
    t.Calc(s);
    t.ValidIsDone(s);
    assert UserKept(t.now, t.cells, s);
    write := t.cells[s].write;
    if write {
      t.ClearWrite(s);
    } else if Written(t.tab.decls[s], t.now.den) {
      assert t.now.printed + {s} == t.now.printed;
    }
  }

  /** strcmp with sym_get_string_default */
  method HasDefault(t: SymTab, s: nat) returns (b: bool)
    requires t.Ok() && PlainTable(t.tab) && s < |t.cells| && t.cells[s].valid && Valued(t.tab.decls[s])
    modifies t`cells
    ensures t.Ok() && |t.cells| == |t.tab.decls| && t.cells[s] == old(t.cells[s])
    ensures b == (StringOf(t.now.den, Conf(s, t.tab.decls[s].typ)) == StringDefault(t.tab.decls[s], t.now.den))
  {
    var d := t.tab.decls[s];
    t.ValidIsDone(s);
    var value := ValueString(Conf(s, d.typ), t.cells[s].curr, t.tab.modules);
    if IsTriType(d.typ) {
      var def := t.GetTriDefault(s);
      b := value == TriName(def);
    } else {
      var def := t.GetTextDefault(s);
      b := value == if def.Str? then def.text else "";
    }
  }

  /** conf_write_symbol */
  method SymbolText(t: SymTab, s: nat) returns (line: string)
    requires t.Ok() && s < |t.cells| && t.cells[s].valid
    ensures line == SymbolLine(t.tab, t.now.den, s)
  {
    var d := t.tab.decls[s];
    t.ValidIsDone(s);
    var value := ValueString(Conf(s, d.typ), t.cells[s].curr, t.tab.modules);
    line := PrintSymbol(d.typ, d.name, if d.typ.Text? then Quoted(value) else value);
  }

  /** One menu entry in conf_write, or in conf_write_defconfig */
  method WriteEntry(full: bool, t: SymTab, s: nat) returns (line: Option<string>)
    requires t.Ok() && PlainTable(t.tab) && s < |t.tab.decls|
    modifies t
    ensures var x := old(t.now);
      && InEpoch(t, x.rank, x.base, x.den, if Written(t.tab.decls[s], x.den) then x.printed + {s} else x.printed)
      && line == if s !in x.printed && Saves(full, t.tab, x.den, s) then Some(SymbolLine(t.tab, x.den, s)) else None
  {
    var write := TakeWrite(t, s);
    if !write { return None; }
    if !full {
      t.ValidIsDone(s);
      if Le(t.cells[s].visible, t.cells[s].rev) { return None; }
      var same := HasDefault(t, s);
      if same { return None; }
    }
    var text := SymbolText(t, s);
    line := Some(text);
  }

  /** The symbols looked at so far: those that could be written have been marked. */
  ghost predicate Looked(tab: Table, den: Valuation, printed: set<nat>, done: set<nat>) {
    printed <= done && forall id :: id in done && id !in printed ==> id < |tab.decls| && !Written(tab.decls[id], den)
  }

  /** One more menu entry: `line` is what is written for it, and `all` the whole file. */
  lemma {:induction false} LinesStep(full: bool, tab: Table, v: Valuation, order: seq<nat>, i: nat, printed: set<nat>,
          done: set<nat>,
                  lines: seq<string>, line: Option<string>, all: seq<string>)
    requires i < |order| && forall k :: 0 <= k < |order| ==> order[k] < |tab.decls|
    requires Looked(tab, v, printed, done) && lines + Lines(full, tab, v, order[i..], done) == all
    requires line == if order[i] !in printed && Saves(full, tab, v, order[i])
                     then Some(SymbolLine(tab, v, order[i])) else None
    ensures (if line.Some? then lines + [line.value] else lines)
            + Lines(full, tab, v, order[i + 1..], done + {order[i]}) == all
  {
    var rest := Lines(full, tab, v, order[i + 1..], done + {order[i]});
    assert order[i..][0] == order[i] && order[i..][1..] == order[i + 1..];
    assert Lines(full, tab, v, order[i..], done) == if line.Some? then [line.value] + rest else [] + rest;
    if line.Some? { assert lines + ([line.value] + rest) == lines + [line.value] + rest; }
  }

  /** The first i entries have been looked at, and `lines` is what was written for them. */
  ghost predicate Writing(full: bool, t: SymTab, x: Epoch, order: seq<nat>, i: nat, done: set<nat>, lines: seq<string>)
    requires i <= |order| && forall k :: 0 <= k < |order| ==> order[k] < |x.tab.decls|
    reads t
  {
    && t.tab == x.tab && PlainTable(t.tab) && InEpoch(t, x.rank, x.base, x.den, t.now.printed)
    && Looked(x.tab, x.den, t.now.printed, done)
    && lines + Lines(full, x.tab, x.den, order[i..], done) == Lines(full, x.tab, x.den, order, {})
  }

  /** The body of the loop over the menu */
  method WriteNext(full: bool, t: SymTab, order: seq<nat>, i: nat, lines: seq<string>, ghost x: Epoch,
                   ghost done: set<nat>) returns (lines': seq<string>)
    requires i < |order| && (forall k :: 0 <= k < |order| ==> order[k] < |x.tab.decls|)
    requires Writing(full, t, x, order, i, done, lines)
    modifies t
    ensures Writing(full, t, x, order, i + 1, done + {order[i]}, lines')
  {
    ghost var printed := t.now.printed;
    var line := WriteEntry(full, t, order[i]);
    LinesStep(full, x.tab, x.den, order, i, printed, done, lines, line, Lines(full, x.tab, x.den, order, {}));
    lines' := if line.Some? then lines + [line.value] else lines;
  }

  /** The loop that conf_write and conf_write_defconfig share, for the symbols of the menu entries in document order */
  method WriteEntries(full: bool, t: SymTab, order: seq<nat>) returns (lines: seq<string>)
    requires t.Ok() && t.now.printed == {} && PlainTable(t.tab)
    requires forall i :: 0 <= i < |order| ==> order[i] < |t.tab.decls|
    modifies t
    ensures t.Ok() && t.now.base == old(t.now.base) && t.now.rank == old(t.now.rank)
    ensures lines == Lines(full, t.tab, t.now.den, order, {})
  {
    lines := [];
    ghost var x, done := t.now, {};
    assert order[0..] == order && [] + Lines(full, x.tab, x.den, order, {}) == Lines(full, x.tab, x.den, order, {});
    for i := 0 to |order|
      invariant Writing(full, t, x, order, i, done, lines)
    {
      lines := WriteNext(full, t, order, i, lines, x, done);
      done := done + {order[i]};
    }
    assert order[|order|..] == [] && lines + [] == lines;
  }

  /** conf_write_defconfig */
  method WriteDefconfig(t: SymTab, order: seq<nat>) returns (lines: seq<string>)
    requires t.Loaded() && t.ModulesSettled(Users(t.cells)) && PlainTable(t.tab)
    requires forall i :: 0 <= i < |order| ==> order[i] < |t.tab.decls|
    modifies t
    ensures t.Ok() && t.now.base == old(Users(t.cells)) && t.now.rank == old(t.now.rank)
    ensures lines == Lines(false, t.tab, t.now.den, order, {})
  {
    t.ClearAllValid();
    lines := WriteEntries(false, t, order);
  }

  /** conf_write: values are cleared first, unless there have been changes, and then nothing may have been written
      since the last clearing. */
  method WriteConfig(t: SymTab, order: seq<nat>, changed: bool) returns (lines: seq<string>)
    requires t.Loaded() && t.ModulesSettled(Users(t.cells)) && PlainTable(t.tab)
    requires forall i :: 0 <= i < |order| ==> order[i] < |t.tab.decls|
    requires changed ==> t.Ok() && t.now.printed == {}
    modifies t
    ensures t.Ok() && t.now.base == (if changed then old(t.now.base) else old(Users(t.cells)))
    ensures t.now.rank == old(t.now.rank) && lines == Lines(true, t.tab, t.now.den, order, {})
  {
    if !changed { t.ClearAllValid(); }
    lines := WriteEntries(true, t, order);
  }

  /* ---- reading ---- */

  /** Only user values differ. */
  ghost predicate SameButUsers(a: seq<Cell>, b: seq<Cell>) {
    |a| == |b| && forall i :: 0 <= i < |a| ==> b[i] == a[i].(user := b[i].user, valid := b[i].valid)
  }

  lemma {:induction false} UsersAt(a: seq<Cell>, us: seq<User>)
    requires |a| == |us| && forall i :: 0 <= i < |a| ==> a[i].user == us[i]
    ensures Users(a) == us
  {
  }

  /** conf_reset */
  method ResetUsers(t: SymTab)
    requires |t.cells| == |t.tab.decls|
    modifies t`cells
    ensures Users(t.cells) == Reset(t.tab) && SameButUsers(old(t.cells), t.cells)
  {
    for i := 0 to |t.cells|
      invariant SameButUsers(old(t.cells), t.cells)
      invariant forall k :: 0 <= k < i ==> t.cells[k].user == Reset(t.tab)[k]
    {
      t.cells := t.cells[i := t.cells[i].(valid := false, user := User(t.tab.decls[i].role.Choice?, No, Null))];
    }
    UsersAt(t.cells, Reset(t.tab));
  }

  /** The tail of the loop body of conf_read_simple */
  method NoteMember(t: SymTab, id: nat)
    requires id < |t.cells| == |t.tab.decls|
    modifies t`cells
    ensures Users(t.cells) == NoteChoice(t.tab, old(Users(t.cells)), id) && SameButUsers(old(t.cells), t.cells)
  {
    var role := t.tab.decls[id].role;
    if role.Member? && role.of < |t.cells| {
      var c := t.cells[role.of].user;
      match t.cells[id].user.tri {
        case No =>
        case Mod => if c.tri == Yes { c := c.(has := false); }
        case Yes => c := c.(val := Pick(id));
      }
      c := c.(tri := Max(c.tri, t.cells[id].user.tri));
      t.cells := t.cells[role.of := t.cells[role.of].(user := c)];
    }
    UsersAt(t.cells, NoteChoice(t.tab, old(Users(t.cells)), id));
  }

  /** One line in conf_read_simple */
  method ReadLine(t: SymTab, line: string)
    requires |t.cells| == |t.tab.decls|
    modifies t`cells
    ensures Users(t.cells) == ReadEntry(t.tab, old(Users(t.cells)), ParseLine(line))
        && SameButUsers(old(t.cells), t.cells)
  {
    var e := ParseLine(line);
    if e.Ignored? { return; }
    var found := Find(t.tab, e.name);
    if found.None? || found.value >= |t.cells| { return; }
    var id := found.value;
    ghost var was := Users(t.cells);
    var u := t.cells[id].user;
    if e.NotSet? {
      if IsTriType(t.tab.decls[id].typ) { u := u.(has := true, tri := No); }
    } else {
      var set_ := SetVal(t.tab.decls[id].typ, u, e.text);
      if set_.None? { return; }
      u := set_.value;
    }
    t.cells := t.cells[id := t.cells[id].(user := u)];
    UsersAt(t.cells, was[id := u]);
    assert was[id := was[id]] == was;
    NoteMember(t, id);
  }

  /** conf_read_simple for the user's values, the file given as its lines */
  method ReadConfig(t: SymTab, lines: seq<string>)
    requires |t.cells| == |t.tab.decls|
    modifies t`cells
    ensures Users(t.cells) == ReadLines(t.tab, Reset(t.tab), lines) && SameButUsers(old(t.cells), t.cells)
  {
    ResetUsers(t);
    assert lines[0..] == lines;
    for i := 0 to |lines|
      invariant SameButUsers(old(t.cells), t.cells) && |t.cells| == |t.tab.decls|
      invariant ReadLines(t.tab, Users(t.cells), lines[i..]) == ReadLines(t.tab, Reset(t.tab), lines)
    {
      assert lines[i..][0] == lines[i] && lines[i..][1..] == lines[i + 1..];
      ReadLine(t, lines[i]);
    }
    assert lines[|lines|..] == [];
  }

  /** A table without choices, all of whose values may be read */
  ghost predicate Choiceless(tab: Table) { forall i :: 0 <= i < |tab.decls| ==> tab.decls[i].role.Plain? }

  /** Reading into a table without choices keeps it ready for evaluation. */
  method LoadConfig(t: SymTab, lines: seq<string>)
    requires t.Loaded() && Choiceless(t.tab)
    modifies t`cells
    ensures t.Loaded() && Users(t.cells) == ReadLines(t.tab, Reset(t.tab), lines)
  {
    ReadConfig(t, lines);
  }

  /** Does a symbol that is not to be saved have no value in the file, and any other its own? */
  predicate AsSaved(d: Decl, c: Cell) {
    d.auto ||
    if c.user.has && c.write then if IsTriType(d.typ) then c.user.tri == c.curr.tri else c.curr.val == c.user.val
    else !c.user.has && !c.write
  }

  /** The first n symbols are valid, and `none` says whether all of them are as saved. */
  ghost predicate Compared(t: SymTab, n: nat, none: bool)
    reads t
  {
    && t.Ok() && n <= |t.cells| == |t.tab.decls|
    && (forall id: nat :: id < n ==> t.cells[id].valid)
    && (none <==> forall id: nat :: id < n ==> AsSaved(t.tab.decls[id], t.cells[id]))
  }

  /** The first loop of conf_read: everything is valued, and compared with the file. */
  method CountUnsaved(t: SymTab) returns (unsaved: nat)
    requires t.Ok() && Choiceless(t.tab)
    modifies t`cells
    ensures Compared(t, |t.tab.decls|, unsaved == 0)
  {
    unsaved := 0;
    for i := 0 to |t.cells|
      invariant Compared(t, i, unsaved == 0)
    {
      var same := CompareOne(t, i, unsaved == 0);
      if !same { unsaved := unsaved + 1; }
    }
  }

  method CompareOne(t: SymTab, i: nat, ghost none: bool) returns (same: bool)
    requires i < |t.tab.decls| && Compared(t, i, none)
    modifies t`cells
    ensures Compared(t, i + 1, none && same)
  {
    t.Calc(i);
    same := AsSaved(t.tab.decls[i], t.cells[i]);
  }

  /** What the second loop leaves of a user value: none if the symbol is invisible and the file was as saved */
  function KeptUser(c: Cell, unsaved: nat): User {
    if c.user.has && c.visible == No && unsaved == 0 then c.user.(has := false) else c.user
  }

  /** The user's value of a symbol that is not visible makes no difference. */
  lemma {:induction false} DropSolves(x: Epoch, a: seq<Cell>, us: seq<User>, id: nat)
    requires Inv(x, Height(x.rank), a) && Choiceless(x.tab) && x.den == Denotation(x.tab, x.base, x.rank)
    requires id < |a| && a[id].valid && (Valued(x.tab.decls[id]) ==> a[id].visible == No)
    requires |x.base| == |a| && us == x.base[id := x.base[id].(has := false)]
    ensures PicksMembers(x.tab, us) && Solves(x.tab, us, x.den) && x.den == Denotation(x.tab, us, x.rank)
  {
    assert x.rank[id] < Height(x.rank);
    assert Done(x, a, id);
    InvisibleUserIrrelevant(x.tab, x.base, us, x.rank);
    DenotationSolves(x.tab, us, x.rank);
    assert x.den.vals == Denotation(x.tab, us, x.rank).vals;
  }

  lemma {:induction false} DropKeeps(x: Epoch, a: seq<Cell>, y: Epoch, b: seq<Cell>, id: nat)
    requires Inv(x, Height(x.rank), a) && Choiceless(x.tab) && id < |a| && a[id].valid && |x.base| == |a|
    requires y == x.(base := x.base[id := x.base[id].(has := false)])
    requires PicksMembers(y.tab, y.base) && Solves(y.tab, y.base, y.den)
    requires b == a[id := a[id].(user := a[id].user.(has := false))]
    ensures Inv(y, Height(y.rank), b)
  {
    forall k: nat | k < |b| ensures UserKept(y, b, k) { assert UserKept(x, a, k); }
    forall k: nat | k < |b| && b[k].valid && y.rank[k] < Height(y.rank) ensures Done(y, b, k) { assert Done(x, a, k); }
  }

  /** sym->flags &= ~SYMBOL_DEF_USER for a symbol that is valid and not visible */
  method DropUser(t: SymTab, i: nat)
    requires t.Ok() && Choiceless(t.tab) && i < |t.cells| && t.cells[i].valid && t.cells[i].visible == No
    modifies t
    ensures t.Ok() && t.now.den == old(t.now.den) && t.now.rank == old(t.now.rank)
    ensures t.cells == old(t.cells)[i := old(t.cells[i]).(user := old(t.cells[i]).user.(has := false))]
  {
    ghost var x, a := t.now, t.cells;
    ghost var us := x.base[i := x.base[i].(has := false)];
    t.cells := t.cells[i := t.cells[i].(user := t.cells[i].user.(has := false))];
    t.now := x.(base := us);
    DropSolves(x, a, us, i);
    DropKeeps(x, a, t.now, t.cells, i);
  }

  /** The second loop of conf_read: user values of what is invisible are dropped, and no value changes. */
  method SettleUsers(t: SymTab, unsaved: nat)
    requires t.Ok() && Choiceless(t.tab) && forall id: nat :: id < |t.cells| ==> t.cells[id].valid
    modifies t
    ensures t.Ok() && t.now.den == old(t.now.den) && t.now.rank == old(t.now.rank) && |t.cells| == old(|t.cells|)
    ensures forall id: nat :: id < |t.cells| ==>
              t.cells[id] == old(t.cells[id]).(user := KeptUser(old(t.cells[id]), unsaved))
  {
    ghost var was := t.cells;
    for i := 0 to |t.cells|
      invariant t.Ok() && t.now.den == old(t.now.den) && t.now.rank == old(t.now.rank) && |t.cells| == |was|
      invariant forall id: nat :: id < |was| ==>
                  t.cells[id] == was[id].(user := if id < i then KeptUser(was[id], unsaved) else was[id].user)
    {
      if t.cells[i].user.has && t.cells[i].visible == No && unsaved == 0 { DropUser(t, i); }
    }
  }

  /** conf_read: the file is read, everything is valued, and user values without effect are dropped. */
  method ReadBack(t: SymTab, lines: seq<string>) returns (unsaved: nat)
    requires t.Loaded() && Choiceless(t.tab) && t.ModulesSettled(ReadLines(t.tab, Reset(t.tab), lines))
    modifies t
    ensures t.Ok() && t.now.rank == old(t.now.rank) && forall id: nat :: id < |t.cells| ==> t.cells[id].valid
    ensures t.now.den == Denotation(t.tab, ReadLines(t.tab, Reset(t.tab), lines), t.now.rank)
  {
    LoadConfig(t, lines);
    t.ClearAllValid();
    unsaved := CountUnsaved(t);
    SettleUsers(t, unsaved);
  }

  /** Every symbol is valid, and has the value of v. */
  ghost predicate Holds(t: SymTab, v: Valuation)
    reads t
  {
    && |t.cells| == |t.tab.decls|
    && forall id: nat :: id < |t.cells| ==> t.cells[id].valid && id in v.vals && t.cells[id].curr == v.vals[id]
  }

  lemma {:induction false} HoldsOwn(t: SymTab, v: Valuation)
    requires t.Ok() && (forall id: nat :: id < |t.cells| ==> t.cells[id].valid)
    requires forall id: nat :: id < |t.tab.decls| ==> id in v.vals
    ensures |t.cells| == |t.tab.decls|
    ensures Holds(t, v) <==> SameValues(t.tab, v, t.now.den)
  {
    forall id: nat | id < |t.cells| ensures t.cells[id].curr == t.now.den.vals[id] { t.ValidIsDone(id); }
  }

  /** modules_val is settled for the old user values, and for those that come back. */
  ghost predicate Settling(full: bool, t: SymTab, order: seq<nat>)
    requires t.Loaded() && forall i :: 0 <= i < |order| ==> order[i] < |t.tab.decls|
    reads t
  {
    && t.ModulesSettled(Users(t.cells))
    && t.ModulesSettled(Reread(full, t.tab, Denotation(t.tab, Users(t.cells), t.now.rank), order))
  }

  /** Saving the full or the minimal configuration */
  method Save(full: bool, t: SymTab, order: seq<nat>) returns (lines: seq<string>)
    requires t.Loaded() && t.ModulesSettled(Users(t.cells)) && PlainTable(t.tab)
    requires forall i :: 0 <= i < |order| ==> order[i] < |t.tab.decls|
    modifies t
    ensures t.Loaded() && t.now.rank == old(t.now.rank)
    ensures lines == Lines(full, t.tab, Denotation(t.tab, old(Users(t.cells)), old(t.now.rank)), order, {})
  {
    if full { lines := WriteConfig(t, order, false); } else { lines := WriteDefconfig(t, order); }
    t.OkIsLoaded();
  }

  /** Saving a configuration and reading it back: every symbol has its old value exactly when nothing is lost, that
      is, no value is overridden in the full configuration or forgotten in the minimal one. */
  method SaveAndReload(full: bool, t: SymTab, order: seq<nat>)
    requires t.Loaded() && Filed(t.tab, Users(t.cells), t.now.rank, order) && Settling(full, t, order)
    modifies t
    ensures t.Ok()
    ensures var us := old(Users(t.cells)); var v := Denotation(t.tab, us, old(t.now.rank));
      Holds(t, v) <==> NothingLost(full, t.tab, us, v)
  {
    ghost var us, rank := Users(t.cells), t.now.rank;
    ghost var v := Denotation(t.tab, us, rank);
    Lossless(full, t.tab, us, rank, order);
    Reload(full, t, order, v);
    HoldsOwn(t, v);
  }

  method Reload(full: bool, t: SymTab, order: seq<nat>, ghost v: Valuation)
    requires t.Loaded() && PlainTable(t.tab) && (forall i :: 0 <= i < |order| ==> order[i] < |t.tab.decls|)
    requires v == Denotation(t.tab, Users(t.cells), t.now.rank) && Settling(full, t, order)
    modifies t
    ensures t.Ok() && forall id: nat :: id < |t.cells| ==> t.cells[id].valid
    ensures t.now.den == Denotation(t.tab, Reread(full, t.tab, v, order), old(t.now.rank))
  {
    var lines := Save(full, t, order);
    var _ := ReadBack(t, lines);
  }
}
