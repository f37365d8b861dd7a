/** Configuration files (scripts/config/confdata.c): the lines that are written, how lines are read back,
    and the minimal configuration, which leaves out every value that is the default anyway. */
module Confdata {
  import opened Tristate
  import opened Exprs
  import opened Symbols
  import opened SymbolProperties
  import opened Escapes

  const PREFIX := "CONFIG_"
  const IS_NOT_SET := "is not set"

  /* ---- one line ---- */

  /** kconfig_print_symbol, asked to print unset symbols too */
  function PrintSymbol(typ: SymType, name: string, value: string): string {
    if IsTriType(typ) && value != [] && value[0] == 'n' then "# " + PREFIX + name + " " + IS_NOT_SET + "\n"
    else PREFIX + name + "=" + value + "\n"
  }

  predicate StartsWith(s: string, t: string) { t <= s }

  /** The text before and after the first c */
  function Cut(s: string, c: char): Option<(string, string)> {
    if s == [] then None
    else if s[0] == c then Some(([], s[1..]))
    else
      var r := Cut(s[1..], c);
      if r.None? then None else Some(([s[0]] + r.value.0, r.value.1))
  }

  /** A value ends at the newline, or before a carriage return in front of it. */
  function StripEol(text: string): string {
    var r := Cut(text, '\n');
    if r.None? then text
    else
      var t := r.value.0;
      if t != [] && t[|t| - 1] == '\r' then t[..|t| - 1] else t
  }

  datatype Entry = Ignored | NotSet(name: string) | Assigned(name: string, text: string)

  /** The two forms of line that conf_read_simple understands */
  function ParseLine(line: string): Entry {
    if line != [] && line[0] == '#' then
      if |line| < 2 || !StartsWith(line[2..], PREFIX) then Ignored
      else
        var r := Cut(line[2..][|PREFIX|..], ' ');
        if r.Some? && StartsWith(r.value.1, IS_NOT_SET) then NotSet(r.value.0) else Ignored
    else if StartsWith(line, PREFIX) then
      var r := Cut(line[|PREFIX|..], '=');
      if r.None? then Ignored else Assigned(r.value.0, StripEol(r.value.1))
    else Ignored
  }

  /** What the lexer lets through as a symbol name, so that neither separator occurs in it */
  predicate WordChar(c: char) {
    'a' <= c <= 'z' || 'A' <= c <= 'Z' || '0' <= c <= '9' || c == '_' || c == '-'
  }

  predicate Word(s: string) { s != [] && forall c :: c in s ==> WordChar(c) }

  lemma {:induction false} CutAt(s: string, c: char, rest: string)
    requires c !in s
    ensures Cut(s + [c] + rest, c) == Some((s, rest))
  {
    if s != [] {
      assert (s + [c] + rest)[1..] == s[1..] + [c] + rest;
      CutAt(s[1..], c, rest);
      assert [s[0]] + s[1..] == s;
    }
  }

  lemma {:induction false} AfterPrefix(s: string, t: string)
    ensures StartsWith(s + t, s) && (s + t)[|s|..] == t
  {
  }

  lemma {:induction false} NotSetRoundTrip(typ: SymType, name: string, value: string)
    requires Word(name) && IsTriType(typ) && value != [] && value[0] == 'n'
    ensures ParseLine(PrintSymbol(typ, name, value)) == NotSet(name)
  {
    var rest := IS_NOT_SET + "\n";
    var tail := name + [' '] + rest;
    assert PrintSymbol(typ, name, value) == "# " + (PREFIX + tail);
    AfterPrefix("# ", PREFIX + tail);
    AfterPrefix(PREFIX, tail);
    CutAt(name, ' ', rest);
  }

  /** A text that ends where the line does: without a newline, nor a carriage return at its end */
  predicate OneLine(s: string) { '\n' !in s && (s == [] || s[|s| - 1] != '\r') }

  lemma {:induction false} AssignedRoundTrip(typ: SymType, name: string, value: string)
    requires Word(name) && OneLine(value) && (IsTriType(typ) && value != [] ==> value[0] != 'n')
    ensures ParseLine(PrintSymbol(typ, name, value)) == Assigned(name, value)
  {
    var line := PrintSymbol(typ, name, value);
    var rest := value + ['\n'] + [];
    assert line == PREFIX + (name + ['='] + rest);
    assert line[|PREFIX|..] == name + ['='] + rest;
    assert line[0] == 'C';
    CutAt(name, '=', rest);
    CutAt(value, '\n', []);
  }

  /* ---- setting a value ---- */

  predicate IsDigit(c: char) { '0' <= c <= '9' }

  predicate IsXDigit(c: char) { DigitOf(c) < 16 }

  /** sym_string_valid for S_INT */
  predicate IntValid(s: string) {
    var t := if s != [] && s[0] == '-' then s[1..] else s;
    t != [] && (forall c :: c in t ==> IsDigit(c)) && (t[0] == '0' ==> |t| == 1)
  }

  /** sym_string_valid for S_HEX */
  predicate HexValid(s: string) {
    var t := if |s| >= 2 && s[0] == '0' && (s[1] == 'x' || s[1] == 'X') then s[2..] else s;
    t != [] && forall c :: c in t ==> IsXDigit(c)
  }

  /** conf_set_sym_val for the user's values: the new user value, or None when the text is refused.  Text that is
      not quoted also makes an S_OTHER symbol one of type S_STRING, whose values are all valid; quoted text is
      refused, because no value of an S_OTHER symbol is. */
  function SetVal(typ: SymType, u: User, p: string): Option<User> {
    match typ
    case Unknown => Some(u)
    case Other => if p == [] || p[0] != '"' then Some(u.(has := true, val := Str(p))) else None
    case Text =>
      if p == [] || p[0] != '"' then Some(u)
      else
        var r := Unescape(p[1..]);
        if r.None? then None else Some(u.(has := true, val := Str(r.value)))
    case Int => if IntValid(p) then Some(u.(has := true, val := Str(p))) else None
    case Hex => if HexValid(p) then Some(u.(has := true, val := Str(p))) else None
    case _ =>
      if p != [] && p[0] == 'm' && typ.Tristate? then Some(u.(has := true, tri := Mod))
      else if p != [] && p[0] == 'y' then Some(u.(has := true, tri := Yes))
      else if p != [] && p[0] == 'n' then Some(u.(has := true, tri := No))
      else None
  }

  /** A string survives being quoted, written, read and unquoted. */
  lemma {:induction false} StringRoundTrip(name: string, s: string, u: User)
    requires Word(name) && CString(s) && '\n' !in s
    ensures var line := PrintSymbol(Text, name, Quoted(s));
      && ParseLine(line) == Assigned(name, Quoted(s))
      && SetVal(Text, u, Quoted(s)) == Some(u.(has := true, val := Str(s)))
  {
    EscapeAdds(s, '\n');
    AssignedRoundTrip(Text, name, Quoted(s));
    EscapeRoundTrip(s, "");
    assert Quoted(s)[1..] == Escape(s) + "\"" + "";
  }

  lemma {:induction false} EscapeAdds(s: string, c: char)
    requires c !in s && c != '\\'
    ensures c !in Escape(s)
  {
    if s != [] { EscapeAdds(s[1..], c); }
  }

  /* ---- reading ---- */

  /** sym_find: the symbol of that name that is not a constant */
  function FindFrom(tab: Table, name: string, i: nat): Option<nat>
    decreases |tab.decls| - i
  {
    if i >= |tab.decls| then None
    else if tab.decls[i].name == name then Some(i)
    else FindFrom(tab, name, i + 1)
  }

  function Find(tab: Table, name: string): Option<nat> {
    if name == "" || name == "y" || name == "m" || name == "n" then None else FindFrom(tab, name, 0)
  }

  /** conf_reset */
  function Reset(tab: Table): (us: seq<User>)
    ensures |us| == |tab.decls|
  {
    seq(|tab.decls|, i requires 0 <= i < |tab.decls| => User(tab.decls[i].role.Choice?, No, Null))
  }

  /** The tail of the reading loop: what a member's value does to its choice */
  function NoteChoice(tab: Table, us: seq<User>, id: nat): (r: seq<User>)
    requires id < |us| == |tab.decls|
    ensures |r| == |us|
  {
    var role := tab.decls[id].role;
    if !role.Member? || role.of >= |us| then us
    else
      var c, t := us[role.of], us[id].tri;
      var c' := c.(has := c.has && !(t == Mod && c.tri == Yes), val := if t == Yes then Pick(id) else c.val,
                   tri := Max(c.tri, t));
      us[role.of := c']
  }

  function ReadEntry(tab: Table, us: seq<User>, e: Entry): (r: seq<User>)
    requires |us| == |tab.decls|
    ensures |r| == |us|
  {
    match e
    case Ignored => us
    case NotSet(name) =>
      (match Find(tab, name)
       case None => us
       case Some(id) =>
         if id >= |us| then us
         else if IsTriType(tab.decls[id].typ) then NoteChoice(tab, us[id := us[id].(has := true, tri := No)], id)
         else NoteChoice(tab, us, id))
    case Assigned(name, text) =>
      match Find(tab, name)
      case None => us
      case Some(id) =>
        if id >= |us| then us
        else
          var u := SetVal(tab.decls[id].typ, us[id], text);
          if u.None? then us else NoteChoice(tab, us[id := u.value], id)
  }

  /** conf_read_simple, after conf_reset */
  function ReadLines(tab: Table, us: seq<User>, lines: seq<string>): (r: seq<User>)
    requires |us| == |tab.decls|
    ensures |r| == |us|
    decreases |lines|
  {
    if lines == [] then us else ReadLines(tab, ReadEntry(tab, us, ParseLine(lines[0])), lines[1..])
  }

  /* ---- what is written ---- */

  function TriName(t: Tri): string { match t case No => "n" case Mod => "m" case Yes => "y" }

  /** sym_get_string_default */
  function StringDefault(d: Decl, v: Valuation): string {
    if IsTriType(d.typ) then TriName(FullDefault(d, v))
    else if d.typ.Unknown? || d.typ.Other? then ""
    else match DefaultVal(d, v) case Str(s) => s case _ => ""
  }

  /** The tests conf_write_defconfig makes on a symbol outside choices */
  predicate Recorded(tab: Table, v: Valuation, id: nat)
    requires id < |tab.decls|
  {
    var d := tab.decls[id];
    && Written(d, v)
    && !Le(Visible(d, v), RevDep(d, v))
    && StringOf(v, Conf(id, d.typ)) != StringDefault(d, v)
  }

  /** conf_write_symbol */
  function SymbolLine(tab: Table, v: Valuation, id: nat): string
    requires id < |tab.decls|
  {
    var d := tab.decls[id];
    var s := StringOf(v, Conf(id, d.typ));
    PrintSymbol(d.typ, d.name, if d.typ.Text? then Quoted(s) else s)
  }

  /** Is the symbol saved, in the full configuration or in the minimal one? */
  predicate Saves(full: bool, tab: Table, v: Valuation, id: nat)
    requires id < |tab.decls|
  {
    if full then Written(tab.decls[id], v) else Recorded(tab, v, id)
  }

  /** The lines of conf_write, or else of conf_write_defconfig, for the symbols of the menu entries in `order`; a
      symbol with several entries is looked at once, because SYMBOL_WRITE is cleared the first time. */
  function Lines(full: bool, tab: Table, v: Valuation, order: seq<nat>, done: set<nat>): seq<string>
    requires forall i :: 0 <= i < |order| ==> order[i] < |tab.decls|
  {
    if order == [] then []
    else
      var rest := Lines(full, tab, v, order[1..], done + {order[0]});
      if order[0] !in done && Saves(full, tab, v, order[0]) then [SymbolLine(tab, v, order[0])] + rest else rest
  }

  predicate Promptless(props: seq<Prop>) { forall p :: p in props ==> !p.Prompt? }

  lemma {:induction false} PromptlessInvisible(d: Decl, props: seq<Prop>, v: Valuation)
    requires Promptless(props)
    ensures PromptsTri(d, props, v) == No
  {
    if props != [] {
      assert props[0] in props;
      PromptlessInvisible(d, props[1..], v);
    }
  }

  /** A table without choices, whose symbols have names of their own; those set by the environment have no prompt. */
  predicate PlainTable(tab: Table) {
    && (forall i :: 0 <= i < |tab.decls| ==>
          && tab.decls[i].role.Plain? && (tab.decls[i].auto ==> Promptless(tab.decls[i].props))
          && Word(tab.decls[i].name) && tab.decls[i].name !in ["y", "m", "n"])
    && DistinctNames(tab)
  }

  predicate DistinctNames(tab: Table) {
    forall i, j :: 0 <= i < j < |tab.decls| ==> tab.decls[i].name != tab.decls[j].name
  }

  lemma {:induction false} FindFromOwn(tab: Table, id: nat, i: nat)
    requires DistinctNames(tab) && i <= id < |tab.decls|
    ensures FindFrom(tab, tab.decls[id].name, i) == Some(id)
    decreases id - i
  {
    if i < id { FindFromOwn(tab, id, i + 1); }
  }

  /** A value that fits into a line of the file */
  predicate Storable(typ: SymType, x: Value) {
    IsTriType(typ) ||
    (x.val.Str? && if typ.Text? then CString(x.val.text) && '\n' !in x.val.text else OneLine(x.val.text))
  }

  ghost predicate AllStorable(tab: Table, v: Valuation) {
    forall id: nat :: id < |tab.decls| && id in v.vals && Written(tab.decls[id], v) ==>
      Storable(tab.decls[id].typ, v.vals[id])
  }

  /* ---- reading one line back ---- */

  /** sym_string_valid for the values of strings and numbers */
  predicate ValidText(typ: SymType, x: Value) {
    x.val.Str? && (typ.Int? ==> IntValid(x.val.text)) && (typ.Hex? ==> HexValid(x.val.text))
  }

  /** The user value that a value comes back as: invalid text is refused. */
  function Recovered(typ: SymType, u: User, x: Value): User {
    if IsTriType(typ) then u.(has := true, tri := x.tri)
    else if ValidText(typ, x) then u.(has := true, val := x.val)
    else u
  }

  /** The line of a symbol reads back as an assignment of its value, or as not set. */
  lemma {:induction false} LineParses(tab: Table, v: Valuation, id: nat)
    requires PlainTable(tab) && id < |tab.decls| && id in v.vals && v.modules == tab.modules
    requires Written(tab.decls[id], v) && Storable(tab.decls[id].typ, v.vals[id])
    requires Settled(v, Conf(id, tab.decls[id].typ))
    ensures var d := tab.decls[id]; var s := StringOf(v, Conf(id, d.typ));
      ParseLine(SymbolLine(tab, v, id)) ==
        if IsTriType(d.typ) && s == "n" then NotSet(d.name)
        else Assigned(d.name, if d.typ.Text? then Quoted(s) else s)
  {
    var d := tab.decls[id];
    var s := StringOf(v, Conf(id, d.typ));
    match d.typ
    case Boolean => TriLine(d, s);
    case Tristate => TriLine(d, s);
    case Text => StringRoundTrip(d.name, s, User(false, No, Null));
    case Int => AssignedRoundTrip(Int, d.name, s);
    case Hex => AssignedRoundTrip(Hex, d.name, s);
    case _ =>
  }

  lemma {:induction false} TriLine(d: Decl, s: string)
    requires Word(d.name) && IsTriType(d.typ) && (s == "y" || s == "m" || s == "n")
    ensures ParseLine(PrintSymbol(d.typ, d.name, s)) == if s == "n" then NotSet(d.name) else Assigned(d.name, s)
  {
    if s == "n" { NotSetRoundTrip(d.typ, d.name, s); } else { AssignedRoundTrip(d.typ, d.name, s); }
  }

  /** Reading the line of a symbol makes its value the user's, if it is valid, and touches no other symbol. */
  lemma {:induction false} LineRecovers(tab: Table, v: Valuation, us: seq<User>, id: nat)
    requires PlainTable(tab) && id < |tab.decls| == |us| && id in v.vals && v.modules == tab.modules
    requires Written(tab.decls[id], v) && Storable(tab.decls[id].typ, v.vals[id])
    requires Settled(v, Conf(id, tab.decls[id].typ))
    ensures ReadEntry(tab, us, ParseLine(SymbolLine(tab, v, id))) ==
            us[id := Recovered(tab.decls[id].typ, us[id], v.vals[id])]
  {
    var d := tab.decls[id];
    var s := StringOf(v, Conf(id, d.typ));
    LineParses(tab, v, id);
    FindFromOwn(tab, id, 0);
    assert d.name != "" && d.name != "y" && d.name != "m" && d.name != "n" by {
      assert "y" in ["y", "m", "n"] && "m" in ["y", "m", "n"] && "n" in ["y", "m", "n"];
    }
    ValueRecovers(d.typ, us[id], v.vals[id], s);
    assert us[id := us[id]] == us;
  }

  /** What conf_set_sym_val makes of the text of a value */
  lemma {:induction false} ValueRecovers(typ: SymType, u: User, x: Value, s: string)
    requires !typ.Unknown? && !typ.Other? && Storable(typ, x)
    requires if IsTriType(typ) then s == TriName(x.tri) && (typ.Boolean? ==> x.tri != Mod) else s == x.val.text
    ensures SetVal(typ, u, if typ.Text? then Quoted(s) else s) ==
            if IsTriType(typ) || ValidText(typ, x) then Some(Recovered(typ, u, x)) else None
  {
    if typ.Text? {
      EscapeRoundTrip(s, "");
      assert Quoted(s)[1..] == Escape(s) + "\"" + "";
    }
  }

  /** The user values after a whole configuration has been read */
  lemma {:induction false} LinesReadBack(full: bool, tab: Table, v: Valuation, us: seq<User>, order: seq<nat>,
                                         done: set<nat>, id: nat)
    requires PlainTable(tab) && id < |tab.decls| == |us| && v.modules == tab.modules && AllStorable(tab, v)
    requires forall i :: 0 <= i < |order| ==> order[i] < |tab.decls|
    requires forall i: nat :: i < |tab.decls| ==> i in v.vals && Settled(v, Conf(i, tab.decls[i].typ))
    ensures ReadLines(tab, us, Lines(full, tab, v, order, done))[id] ==
            if id in order && id !in done && Saves(full, tab, v, id)
            then Recovered(tab.decls[id].typ, us[id], v.vals[id]) else us[id]
    decreases |order|
  {
    if order != [] {
      var x := order[0];
      var rest := Lines(full, tab, v, order[1..], done + {x});
      assert order == [x] + order[1..];
      if x !in done && Saves(full, tab, v, x) {
        var line := SymbolLine(tab, v, x);
        LineRecovers(tab, v, us, x);
        assert ([line] + rest)[1..] == rest;
        var us' := ReadEntry(tab, us, ParseLine(line));
        assert ReadLines(tab, us, [line] + rest) == ReadLines(tab, us', rest);
        LinesReadBack(full, tab, v, us', order[1..], done + {x}, id);
      } else {
        LinesReadBack(full, tab, v, us, order[1..], done + {x}, id);
      }
    }
  }

  /* ---- which values come back ---- */

  /** What conf_reset leaves of a user value outside choices */
  const NO_USER := User(false, No, Null)

  /** The user values after a configuration has been written and read back */
  function Reread(full: bool, tab: Table, v: Valuation, order: seq<nat>): (ws: seq<User>)
    requires forall i :: 0 <= i < |order| ==> order[i] < |tab.decls|
    ensures |ws| == |tab.decls|
  {
    ReadLines(tab, Reset(tab), Lines(full, tab, v, order, {}))
  }

  /** What the minimal configuration loses of a boolean or tristate symbol: it can only be m, because it is visible
      as m and selected as m, and keeps a user value; without one its default y would win. */
  predicate ForgottenTri(d: Decl, u: User, v: Valuation) {
    && d.typ.Tristate? && u.has
    && Visible(d, v) == Mod && RevDep(d, v) == Mod && DirDep(d, v) != No
    && DefaultTri(d, v) == Yes
  }

  /** ... and of a string or number: one that is not its default, but either selected, as far as it is visible, or
      not valid */
  predicate ForgottenText(d: Decl, v: Valuation, x: Value) {
    && Visible(d, v) != No && x.val != DefaultVal(d, v)
    && (Le(Visible(d, v), RevDep(d, v)) || !ValidText(d.typ, x))
  }

  predicate IsText(typ: SymType) { typ.Text? || typ.Int? || typ.Hex? }

  predicate Forgotten(d: Decl, u: User, v: Valuation, x: Value) {
    if IsTriType(d.typ) then ForgottenTri(d, u, v) else IsText(d.typ) && ForgottenText(d, v, x)
  }

  /** What the full configuration loses: a boolean or tristate value above what the symbol is visible or selected
      as, which a default may have given it, and a string or number that is neither its default nor valid */
  predicate Overridden(d: Decl, v: Valuation, x: Value) {
    if IsTriType(d.typ) then !Lasting(Visible(d, v), RevDep(d, v), x.tri)
    else IsText(d.typ) && Visible(d, v) != No && x.val != DefaultVal(d, v) && !ValidText(d.typ, x)
  }

  predicate Lost(full: bool, d: Decl, u: User, v: Valuation, x: Value) {
    if full then Overridden(d, v, x) else Forgotten(d, u, v, x)
  }

  lemma {:induction false} RestoredTri(tab: Table, us: seq<User>, ws: seq<User>, v: Valuation, w: Valuation, id: nat)
    requires PlainTable(tab) && |us| == |ws| == |tab.decls| && v.modules == w.modules == tab.modules
    requires id < |tab.decls| && IsTriType(tab.decls[id].typ) && id in v.vals && id in w.vals
    requires Visible(tab.decls[id], v) == Visible(tab.decls[id], w)
        && DirDep(tab.decls[id], v) == DirDep(tab.decls[id], w)
    requires RevDep(tab.decls[id], v) == RevDep(tab.decls[id], w)
        && DefaultTri(tab.decls[id], v) == DefaultTri(tab.decls[id], w)
    requires v.vals[id] == Value(NewTri(id, tab.decls[id], us[id], v), Str("n"))
    requires w.vals[id] == Value(NewTri(id, tab.decls[id], ws[id], w), Str("n"))
    requires !ws[id].has || (Recorded(tab, v, id) && ws[id].tri == v.vals[id].tri)
    requires Recorded(tab, v, id) ==> ws[id].has
    ensures w.vals[id] == v.vals[id] <==> !ForgottenTri(tab.decls[id], us[id], v)
  {
    var d := tab.decls[id];
    if d.auto { PromptlessInvisible(d, d.props, v); }
    assert StringOf(v, Conf(id, d.typ)) == TriName(v.vals[id].tri);
    assert Recorded(tab, v, id) <==>
      Visible(d, v) != No && !Le(Visible(d, v), RevDep(d, v)) && v.vals[id].tri != FullDefault(d, v);
  }

  lemma {:induction false} RestoredText(full: bool, tab: Table, us: seq<User>, ws: seq<User>, v: Valuation,
          w: Valuation, id: nat, r: bool)
    requires PlainTable(tab) && |us| == |ws| == |tab.decls| && v.modules == w.modules == tab.modules
    requires id < |tab.decls| && IsText(tab.decls[id].typ) && id in v.vals && id in w.vals
    requires var d := tab.decls[id]; Visible(d, v) == Visible(d, w) && DefaultVal(d, v) == DefaultVal(d, w)
    requires v.vals[id] == Step(tab, us, id, v) && w.vals[id] == Step(tab, ws, id, w)
    requires DefaultVal(tab.decls[id], v).Str? && v.vals[id].val.Str?
    requires ws[id] == if r then Recovered(tab.decls[id].typ, NO_USER, v.vals[id]) else NO_USER
    requires r ==> Saves(full, tab, v, id)
    requires Saves(full, tab, v, id) && Visible(tab.decls[id], v) != No ==> r
    ensures w.vals[id] == v.vals[id] <==> !Lost(full, tab.decls[id], us[id], v, v.vals[id])
  {
    var d := tab.decls[id];
    if d.auto { PromptlessInvisible(d, d.props, v); }
    if Visible(d, v) != No {
      assert Written(d, v);
      assert StringOf(v, Conf(id, d.typ)) == v.vals[id].val.text;
      assert StringDefault(d, v) == DefaultVal(d, v).text;
    }
  }

  lemma {:induction false} RestoredFullTri(tab: Table, us: seq<User>, ws: seq<User>, v: Valuation, w: Valuation,
          id: nat)
    requires PlainTable(tab) && |us| == |ws| == |tab.decls| && v.modules == w.modules == tab.modules
    requires id < |tab.decls| && IsTriType(tab.decls[id].typ) && id in v.vals && id in w.vals
    requires var d := tab.decls[id];
      && Visible(d, v) == Visible(d, w) && DirDep(d, v) == DirDep(d, w)
      && RevDep(d, v) == RevDep(d, w) && DefaultTri(d, v) == DefaultTri(d, w)
    requires v.vals[id] == Value(NewTri(id, tab.decls[id], us[id], v), Str("n"))
    requires w.vals[id] == Value(NewTri(id, tab.decls[id], ws[id], w), Str("n"))
    requires Visible(tab.decls[id], v) != No ==> ws[id].has && ws[id].tri == v.vals[id].tri
    ensures w.vals[id] == v.vals[id] <==> !Overridden(tab.decls[id], v, v.vals[id])
  {
  }

  /** A value is the same after the round trip exactly when it was not lost. */
  lemma {:induction false} RestoredOne(full: bool, tab: Table, us: seq<User>, ws: seq<User>, v: Valuation,
          w: Valuation, id: nat, r: bool)
    requires PlainTable(tab) && WellFormed(tab) && |us| == |ws| == |tab.decls|
    requires id < |tab.decls| && AgreeFor(tab, id, v, w) && v.modules == tab.modules
    requires id in v.vals && v.vals[id] == Step(tab, us, id, v)
    requires id in w.vals && w.vals[id] == Step(tab, ws, id, w)
    requires DefaultVal(tab.decls[id], v).Str? && v.vals[id].val.Str?
    requires ws[id] == if r then Recovered(tab.decls[id].typ, NO_USER, v.vals[id]) else NO_USER
    requires r ==> Saves(full, tab, v, id)
    requires Saves(full, tab, v, id) && Visible(tab.decls[id], v) != No ==> r
    ensures w.vals[id] == v.vals[id] <==> !Lost(full, tab.decls[id], us[id], v, v.vals[id])
  {
    var d := tab.decls[id];
    PiecesAgree(tab, id, v, w);
    if d.auto { PromptlessInvisible(d, d.props, v); }
    if IsText(d.typ) {
      RestoredText(full, tab, us, ws, v, w, id, r);
    } else if IsTriType(d.typ) {
      if full { RestoredFullTri(tab, us, ws, v, w, id); } else { RestoredTri(tab, us, ws, v, w, id); }
    }
  }

  /* ---- all values together ---- */

  /** The user's values of strings and numbers are text. */
  predicate TypedUsers(tab: Table, us: seq<User>) {
    |us| == |tab.decls| && forall id :: 0 <= id < |us| && IsText(tab.decls[id].typ) && us[id].has ==> us[id].val.Str?
  }

  lemma {:induction false} DefaultIsString(tab: Table, rank: seq<nat>, v: Valuation, id: nat)
    requires PlainTable(tab) && WellFormed(tab) && Acyclic(tab, rank) && id < |tab.decls|
    requires forall x: nat :: x < |rank| && rank[x] < rank[id] ==> x in v.vals && v.vals[x].val.Str?
    ensures DefaultVal(tab.decls[id], v).Str?
  {
    var d := tab.decls[id];
    assert WellFormedDecl(tab, id) && Ranked(tab, rank, id);
    var p := DefaultProp(d.props, v);
    if p.Some? {
      DefaultPropIn(d.props, v);
      if p.value.expr.Sym? {
        assert p.value.expr.s in Deps(d);
        assert Below(p.value.expr.s, rank, rank[id]);
      }
    }
  }

  lemma {:induction false} StringValues(tab: Table, us: seq<User>, rank: seq<nat>, v: Valuation, k: nat)
    requires PlainTable(tab) && WellFormed(tab) && Acyclic(tab, rank) && TypedUsers(tab, us) && Solves(tab, us, v)
    ensures forall id: nat :: id < |rank| && rank[id] < k ==> v.vals[id].val.Str?
  {
    if k > 0 {
      StringValues(tab, us, rank, v, k - 1);
      forall id: nat | id < |rank| && rank[id] < k ensures v.vals[id].val.Str? {
        DefaultIsString(tab, rank, v, id);
        assert v.vals[id] == Step(tab, us, id, v);
      }
    }
  }

  /** A table with user values, all of whose values fit into a file, and the symbols of its menu entries: everything
      visible has an entry. */
  ghost predicate Filed(tab: Table, us: seq<User>, rank: seq<nat>, order: seq<nat>) {
    && PlainTable(tab) && WellFormed(tab) && Acyclic(tab, rank) && TypedUsers(tab, us)
    && (forall i :: 0 <= i < |order| ==> order[i] < |tab.decls|)
    && var v := Denotation(tab, us, rank);
       && AllStorable(tab, v)
       && forall id: nat :: id < |tab.decls| && Visible(tab.decls[id], v) != No ==> id in order
  }

  lemma {:induction false} PicksNothing(tab: Table, us: seq<User>)
    requires PlainTable(tab) && |us| == |tab.decls|
    ensures PicksMembers(tab, us)
  {
  }

  lemma {:induction false} RestoredAt(full: bool, tab: Table, us: seq<User>, rank: seq<nat>, order: seq<nat>,
          w: Valuation, id: nat)
    requires Filed(tab, us, rank, order) && id < |tab.decls|
    requires Solves(tab, Reread(full, tab, Denotation(tab, us, rank), order), w)
    requires forall x: nat :: x < |rank| && rank[x] < rank[id] ==> w.vals[x] == Denotation(tab, us, rank).vals[x]
    ensures var v := Denotation(tab, us, rank);
            w.vals[id] == v.vals[id] <==> !Lost(full, tab.decls[id], us[id], v, v.vals[id])
  {
    var v := Denotation(tab, us, rank);
    PicksNothing(tab, us);
    DenotationSolves(tab, us, rank);
    forall x: nat | x < |tab.decls| ensures Settled(v, Conf(x, tab.decls[x].typ)) {
      DenotationSettled(tab, us, v, Conf(x, tab.decls[x].typ));
    }
    StringValues(tab, us, rank, v, Height(rank));
    DefaultIsString(tab, rank, v, id);
    LinesReadBack(full, tab, v, Reset(tab), order, {}, id);
    AgreeBelow(tab, rank, id, v, w);
    RestoredOne(full, tab, us, Reread(full, tab, v, order), v, w, id, id in order && Saves(full, tab, v, id));
  }

  /** No value is lost. */
  ghost predicate NothingLost(full: bool, tab: Table, us: seq<User>, v: Valuation)
    requires |us| == |tab.decls|
  {
    forall id: nat :: id < |tab.decls| ==> id in v.vals && !Lost(full, tab.decls[id], us[id], v, v.vals[id])
  }

  lemma {:induction false} RestoredBelow(full: bool, tab: Table, us: seq<User>, rank: seq<nat>, order: seq<nat>,
                                         w: Valuation, k: nat)
    requires Filed(tab, us, rank, order)
    requires Solves(tab, Reread(full, tab, Denotation(tab, us, rank), order), w)
    requires NothingLost(full, tab, us, Denotation(tab, us, rank))
    ensures forall id: nat :: id < |rank| && rank[id] < k ==> w.vals[id] == Denotation(tab, us, rank).vals[id]
  {
    if k > 0 {
      RestoredBelow(full, tab, us, rank, order, w, k - 1);
      forall id: nat | id < |rank| && rank[id] < k ensures w.vals[id] == Denotation(tab, us, rank).vals[id] {
        RestoredAt(full, tab, us, rank, order, w, id);
      }
    }
  }

  ghost predicate SameValues(tab: Table, v: Valuation, w: Valuation) {
    forall id: nat :: id < |tab.decls| ==> id in v.vals && id in w.vals && w.vals[id] == v.vals[id]
  }

  lemma {:induction false} Lossless(full: bool, tab: Table, us: seq<User>, rank: seq<nat>, order: seq<nat>)
    requires Filed(tab, us, rank, order)
    ensures var v := Denotation(tab, us, rank);
      SameValues(tab, v, Denotation(tab, Reread(full, tab, v, order), rank)) <==> NothingLost(full, tab, us, v)
  {
    var v := Denotation(tab, us, rank);
    var ws := Reread(full, tab, v, order);
    var w := Denotation(tab, ws, rank);
    PicksNothing(tab, ws);
    DenotationSolves(tab, ws, rank);
    if SameValues(tab, v, w) {
      forall id: nat | id < |tab.decls| ensures !Lost(full, tab.decls[id], us[id], v, v.vals[id]) {
        RestoredAt(full, tab, us, rank, order, w, id);
      }
    }
    if NothingLost(full, tab, us, v) { RestoredBelow(full, tab, us, rank, order, w, Height(rank)); }
  }

  /** Reading back the minimal configuration restores the value of every symbol if and only if no symbol
      is forgotten. */
  lemma {:induction false} MinimalConfigLossless(tab: Table, us: seq<User>, rank: seq<nat>, order: seq<nat>)
    requires Filed(tab, us, rank, order)
    ensures var v := Denotation(tab, us, rank);
      SameValues(tab, v, Denotation(tab, Reread(false, tab, v, order), rank)) <==>
      forall id: nat :: id < |tab.decls| ==> !Forgotten(tab.decls[id], us[id], v, v.vals[id])
  {
    Lossless(false, tab, us, rank, order);
  }

  /** Reading back the full configuration restores the value of every symbol if and only if no value is
      overridden. */
  lemma {:induction false} FullConfigLossless(tab: Table, us: seq<User>, rank: seq<nat>, order: seq<nat>)
    requires Filed(tab, us, rank, order)
    ensures var v := Denotation(tab, us, rank);
      SameValues(tab, v, Denotation(tab, Reread(true, tab, v, order), rank)) <==>
      forall id: nat :: id < |tab.decls| ==> !Overridden(tab.decls[id], v, v.vals[id])
  {
    Lossless(true, tab, us, rank, order);
  }

  /* ---- tables that lose a value ---- */

  /** A symbol A with a prompt if B and default y, selected by B or not; modules are enabled. */
  function LossyTable(selected: bool): Table {
    var b := Some(Sym(Conf(0, Tristate)));
    Table([Decl(Tristate, "B", [Prompt(None), Select(None)], None, None, Plain, false),
           Decl(Tristate, "A", [Prompt(b), Default(None, Sym(SYM_YES))], None, if selected then b else None, Plain,
                false),
           Decl(Boolean, "MODULES", [Prompt(None)], None, None, Plain, false)], Yes)
  }

  /** The user has B at m, and A at m if it is selected. */
  function LossyUsers(selected: bool): seq<User> {
    [User(true, Mod, Null), User(selected, Mod, Null), User(true, Yes, Null)]
  }

  lemma {:induction false} TwoProps(d: Decl, p: Prop, q: Prop, v: Valuation)
    requires d.props == [p, q] && p.Prompt? && !q.Prompt?
    ensures PromptsTri(d, d.props, v) == PromptTri(d, p, v) && PromptSyms(d.props) == OSyms(p.vis)
    ensures DefaultProp(d.props, v) == if q.Default? && OEval(q.vis, v) != No then Some(q) else None
    ensures DefaultSyms(d.props) == if q.Default? then OSyms(q.vis) + Syms(q.expr) else {}
  {
    assert d.props[1..] == [q] && d.props[1..][1..] == [];
    assert PromptsTri(d, d.props[1..], v) == No;
    assert PromptSyms(d.props[1..][1..]) == {} && DefaultSyms(d.props[1..][1..]) == {};
    assert PromptSyms(d.props[1..]) == {};
    assert DefaultSyms(d.props[1..]) == if q.Default? then OSyms(q.vis) + Syms(q.expr) else {};
    assert DefaultProp(d.props[1..][1..], v) == None;
    assert DefaultProp(d.props[1..], v) == if q.Default? && OEval(q.vis, v) != No then Some(q) else None;
  }

  lemma {:induction false} LossyWellFormed(selected: bool)
    ensures var tab := LossyTable(selected); PlainTable(tab) && WellFormed(tab) && Acyclic(tab, [0, 1, 0])
  {
    var tab := LossyTable(selected);
    forall id | 0 <= id < 3 ensures WellFormedDecl(tab, id) && Ranked(tab, [0, 1, 0], id) { LossyDecl(selected, id); }
  }

  lemma {:induction false} LossyDecl(selected: bool, id: nat)
    requires id < 3
    ensures WellFormedDecl(LossyTable(selected), id) && Ranked(LossyTable(selected), [0, 1, 0], id)
  {
    var tab, v := LossyTable(selected), Valuation(map[], Yes);
    if id == 2 {
      OnePrompt(tab.decls[id], None, v);
    } else {
      TwoProps(tab.decls[id], tab.decls[id].props[0], tab.decls[id].props[1], v);
    }
  }

  /** B is m, and so are the prompt of A and what selects it; A is y by its default, or m by the user. */
  lemma {:induction false} LossyValues(selected: bool, v: Valuation)
    requires Solves(LossyTable(selected), LossyUsers(selected), v)
    ensures v.vals[0].tri == Mod && v.vals[2].tri == Yes && v.vals[1].tri == if selected then Mod else Yes
    ensures var d := LossyTable(selected).decls[1];
      && Visible(d, v) == Mod && RevDep(d, v) == (if selected then Mod else No) && DirDep(d, v) == Yes
      && DefaultTri(d, v) == Yes
  {
    var tab, us := LossyTable(selected), LossyUsers(selected);
    TwoProps(tab.decls[0], Prompt(None), Select(None), v);
    TwoProps(tab.decls[1], tab.decls[1].props[0], tab.decls[1].props[1], v);
    OnePrompt(tab.decls[2], None, v);
    assert v.vals[0] == Step(tab, us, 0, v) && v.vals[1] == Step(tab, us, 1, v) && v.vals[2] == Step(tab, us, 2, v);
  }

  /** A table of booleans and tristates, all of which have an entry */
  lemma {:induction false} FiledTri(tab: Table, us: seq<User>, rank: seq<nat>, order: seq<nat>)
    requires PlainTable(tab) && WellFormed(tab) && Acyclic(tab, rank) && |us| == |tab.decls|
    requires forall i :: 0 <= i < |tab.decls| ==> IsTriType(tab.decls[i].typ) && i in order
    requires forall i :: 0 <= i < |order| ==> order[i] < |tab.decls|
    ensures Filed(tab, us, rank, order) && Solves(tab, us, Denotation(tab, us, rank))
  {
    PicksNothing(tab, us);
    DenotationSolves(tab, us, rank);
  }

  lemma {:induction false} LossyFiled(selected: bool) returns (v: Valuation)
    ensures v == Denotation(LossyTable(selected), LossyUsers(selected), [0, 1, 0])
    ensures Filed(LossyTable(selected), LossyUsers(selected), [0, 1, 0], [0, 1, 2])
    ensures Solves(LossyTable(selected), LossyUsers(selected), v)
  {
    var order: seq<nat> := [0, 1, 2];
    LossyWellFormed(selected);
    assert forall i: nat :: i < 3 ==> order[i] == i;
    FiledTri(LossyTable(selected), LossyUsers(selected), [0, 1, 0], order);
    v := Denotation(LossyTable(selected), LossyUsers(selected), [0, 1, 0]);
  }

  /** The minimal configuration loses a value: A is visible as m and selected as m, has default y, and the user
      has it at m. */
  lemma {:induction false} ForgottenExample() returns (v: Valuation)
    ensures var tab, us := LossyTable(true), LossyUsers(true);
      && Filed(tab, us, [0, 1, 0], [0, 1, 2]) && v == Denotation(tab, us, [0, 1, 0])
      && Forgotten(tab.decls[1], us[1], v, v.vals[1])
  {
    v := LossyFiled(true);
    LossyValues(true, v);
  }

  /** The full configuration loses a value, and the minimal one does not: A is visible as m, has default y, and the
      user has not set it. */
  lemma {:induction false} OverriddenExample() returns (v: Valuation)
    ensures var tab, us := LossyTable(false), LossyUsers(false);
      && Filed(tab, us, [0, 1, 0], [0, 1, 2]) && v == Denotation(tab, us, [0, 1, 0])
      && Overridden(tab.decls[1], v, v.vals[1]) && NothingLost(false, tab, us, v)
  {
    v := LossyFiled(false);
    LossyValues(false, v);
    NotForgotten(v);
  }

  lemma {:induction false} NotForgotten(v: Valuation)
    requires Solves(LossyTable(false), LossyUsers(false), v) && v.vals[1].tri == Yes
    ensures NothingLost(false, LossyTable(false), LossyUsers(false), v)
  {
    var tab, us := LossyTable(false), LossyUsers(false);
    TwoProps(tab.decls[0], Prompt(None), Select(None), v);
    forall id: nat | id < 3 ensures !Lost(false, tab.decls[id], us[id], v, v.vals[id]) {
      if id == 0 {} else if id == 1 {} else { assert id == 2; }
    }
  }

  /** conf_read drops the user value of what is not visible; that changes no value. */
  lemma {:induction false} InvisibleUserIrrelevant(tab: Table, us: seq<User>, ws: seq<User>, rank: seq<nat>)
    requires WellFormed(tab) && Acyclic(tab, rank) && PicksMembers(tab, us) && |ws| == |us|
    requires forall id: nat :: id < |us| ==>
               ws[id] == us[id]
               || (ws[id] == us[id].(has := false)
                   && (tab.decls[id].typ.Unknown? || tab.decls[id].typ.Other?
                       || Visible(tab.decls[id], Denotation(tab, us, rank)) == No))
    ensures PicksMembers(tab, ws)
    ensures forall id: nat :: id < |tab.decls| ==>
          Denotation(tab, ws, rank).vals[id] == Denotation(tab, us, rank).vals[id]
  {
    var v := Denotation(tab, us, rank);
    DenotationSolves(tab, us, rank);
    forall c | 0 <= c < |ws| && tab.decls[c].role.Choice? && ws[c].val.Pick?
      ensures ws[c].val.member in tab.decls[c].role.members
    {
      assert us[c].val == ws[c].val;
    }
    forall id: nat | id < |tab.decls| ensures v.vals[id] == Step(tab, ws, id, v) {
      assert v.vals[id] == Step(tab, us, id, v);
    }
    DenotationUnique(tab, ws, rank, v);
  }
}
