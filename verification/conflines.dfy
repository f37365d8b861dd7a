/** What is in a configuration file and what is not (scripts/config/confdata.c:276-410 and 671-850): each line belongs
    to one symbol, no line of the minimal configuration could be left out, and a choice gets the member set to y. */
module ConfLines {
  import opened Tristate
  import opened Exprs
  import opened Symbols
  import opened SymbolProperties
  import opened Escapes
  import opened Confdata
  import Numbers

  /* ---- one line for each symbol ---- */

  /** The line sets, or unsets, the symbol of that name. */
  predicate LineFor(line: string, name: string) {
    PREFIX + name + "=" <= line || "# " + PREFIX + name + " " <= line
  }

  lemma {:induction false} WordsApart(a: string, b: string, c: char, line: string)
    requires Word(a) && Word(b) && !WordChar(c) && a + [c] <= line && b + [c] <= line
    ensures |a| <= |b|
  {
    forall k | 0 <= k < |a| ensures line[k] != c { assert (a + [c])[k] == a[k] && a[k] in a; }
    assert line[|b|] == (b + [c])[|b|] == c;
  }

  /** A line is for one symbol. */
  lemma {:induction false} LineForOne(line: string, a: string, b: string)
    requires Word(a) && Word(b) && LineFor(line, a) && LineFor(line, b)
    ensures a == b
  {
    if line[0] == 'C' {
      SameLine(PREFIX, '=', line, a, b);
    } else {
      SameLine("# " + PREFIX, ' ', line, a, b);
    }
  }

  lemma {:induction false} SameLine(start: string, c: char, line: string, a: string, b: string)
    requires Word(a) && Word(b) && !WordChar(c) && start + a + [c] <= line && start + b + [c] <= line
    ensures a == b
  {
    var rest := line[|start|..];
    assert start + a + [c] == start + (a + [c]) && start + b + [c] == start + (b + [c]);
    assert a + [c] <= rest && b + [c] <= rest;
    WordsApart(a, b, c, rest);
    WordsApart(b, a, c, rest);
    assert a == rest[..|a|] && b == rest[..|b|];
  }

  lemma {:induction false} SymbolLineFor(tab: Table, v: Valuation, id: nat)
    requires id < |tab.decls|
    ensures LineFor(SymbolLine(tab, v, id), tab.decls[id].name)
  {
    var d := tab.decls[id];
    var s := StringOf(v, Conf(id, d.typ));
    var value := if d.typ.Text? then Quoted(s) else s;
    if IsTriType(d.typ) && value != [] && value[0] == 'n' {
      var x, y := "# " + PREFIX + d.name + " ", IS_NOT_SET + "\n";
      assert x + y == SymbolLine(tab, v, id);
    } else {
      var x, y := PREFIX + d.name + "=", value + "\n";
      assert x + y == SymbolLine(tab, v, id);
    }
  }

  /** The i-th menu entry is the first of its symbol, which is saved. */
  predicate Picked(full: bool, tab: Table, v: Valuation, order: seq<nat>, done: set<nat>, i: nat)
    requires i < |order| && order[i] < |tab.decls|
  {
    Saves(full, tab, v, order[i]) && order[i] !in done && order[i] !in order[..i]
  }

  lemma {:induction false} PickedLater(full: bool, tab: Table, v: Valuation, order: seq<nat>, done: set<nat>, i: nat)
    requires 0 < i < |order| && order[i] < |tab.decls|
    ensures Picked(full, tab, v, order, done, i) == Picked(full, tab, v, order[1..], done + {order[0]}, i - 1)
  {
    assert order[..i] == [order[0]] + order[1..][..i - 1];
  }

  function Shifted(a: seq<nat>): (b: seq<nat>)
    ensures |b| == |a| && forall k :: 0 <= k < |a| ==> b[k] == a[k] + 1
    ensures forall i: nat :: i in b <==> i > 0 && i - 1 in a
  {
    if a == [] then [] else [a[0] + 1] + Shifted(a[1..])
  }

  /** The k-th line is that of the symbol of the menu entry at[k]. */
  ghost predicate LinesAt(tab: Table, v: Valuation, order: seq<nat>, lines: seq<string>, at: seq<nat>) {
    |at| == |lines| && Rising(at) && forall k :: 0 <= k < |at| ==> LineAt(tab, v, order, lines[k], at[k])
  }

  predicate LineAt(tab: Table, v: Valuation, order: seq<nat>, line: string, i: nat) {
    i < |order| && order[i] < |tab.decls| && line == SymbolLine(tab, v, order[i])
  }

  predicate Rising(at: seq<nat>) { forall i, j :: 0 <= i < j < |at| ==> at[i] < at[j] }

  lemma {:induction false} LaterAt(tab: Table, v: Valuation, order: seq<nat>, lines: seq<string>, at: seq<nat>)
    requires order != [] && LinesAt(tab, v, order[1..], lines, at)
    ensures LinesAt(tab, v, order, lines, Shifted(at))
  {
    var b := Shifted(at);
    forall k | 0 <= k < |b| ensures LineAt(tab, v, order, lines[k], b[k]) {
      assert LineAt(tab, v, order[1..], lines[k], at[k]) && order[1..][at[k]] == order[b[k]];
    }
  }

  lemma {:induction false} FirstAt(tab: Table, v: Valuation, order: seq<nat>, lines: seq<string>, at: seq<nat>)
    requires order != [] && order[0] < |tab.decls| && LinesAt(tab, v, order, lines, at) && 0 !in at
    ensures LinesAt(tab, v, order, [SymbolLine(tab, v, order[0])] + lines, [0] + at)
  {
    var b, all := [0] + at, [SymbolLine(tab, v, order[0])] + lines;
    forall k | 0 <= k < |b| ensures LineAt(tab, v, order, all[k], b[k]) && (k > 0 ==> b[k] > 0) {
      if k > 0 { assert LineAt(tab, v, order, lines[k - 1], at[k - 1]) && at[k - 1] in at; }
    }
  }

  /** `at` are the menu entries picked. */
  ghost predicate PicksAt(full: bool, tab: Table, v: Valuation, order: seq<nat>, done: set<nat>, at: seq<nat>)
    requires forall i :: 0 <= i < |order| ==> order[i] < |tab.decls|
  {
    forall i: nat :: i in at <==> i < |order| && Picked(full, tab, v, order, done, i)
  }

  lemma {:induction false} AllPicked(full: bool, tab: Table, v: Valuation, order: seq<nat>, done: set<nat>,
          rest: seq<nat>)
    requires order != [] && forall i :: 0 <= i < |order| ==> order[i] < |tab.decls|
    requires PicksAt(full, tab, v, order[1..], done + {order[0]}, rest)
    ensures var at := Shifted(rest);
      0 !in at && PicksAt(full, tab, v, order, done, if Picked(full, tab, v, order, done, 0) then [0] + at else at)
  {
    var at := Shifted(rest);
    forall i: nat | 0 < i < |order| ensures Picked(full, tab, v, order, done, i) <==> i in at {
      PickedLater(full, tab, v, order, done, i);
      assert i - 1 in rest <==> Picked(full, tab, v, order[1..], done + {order[0]}, i - 1);
    }
    assert forall i: nat :: i in at ==> 0 < i < |order|;
  }

  /** The file has one line for each symbol saved, in the order of its first menu entry. */
  lemma {:induction false} LinesAre(full: bool, tab: Table, v: Valuation, order: seq<nat>, done: set<nat>)
      returns (at: seq<nat>)
    requires forall i :: 0 <= i < |order| ==> order[i] < |tab.decls|
    ensures LinesAt(tab, v, order, Lines(full, tab, v, order, done), at)
    ensures PicksAt(full, tab, v, order, done, at)
    decreases |order|
  {
    at := [];
    if order != [] {
      var lines := Lines(full, tab, v, order[1..], done + {order[0]});
      var rest := LinesAre(full, tab, v, order[1..], done + {order[0]});
      at := Shifted(rest);
      LaterAt(tab, v, order, lines, rest);
      AllPicked(full, tab, v, order, done, rest);
      if Picked(full, tab, v, order, done, 0) {
        FirstAt(tab, v, order, lines, at);
        at := [0] + at;
      }
    }
  }

  /** The symbol that a line is for is saved. */
  lemma {:induction false} LineSaves(full: bool, tab: Table, v: Valuation, order: seq<nat>, line: string, id: nat)
    requires PlainTable(tab) && id < |tab.decls| && forall i :: 0 <= i < |order| ==> order[i] < |tab.decls|
    requires line in Lines(full, tab, v, order, {}) && LineFor(line, tab.decls[id].name)
    ensures id in order && Saves(full, tab, v, id)
  {
    var at := LinesAre(full, tab, v, order, {});
    var k :| 0 <= k < |at| && line == Lines(full, tab, v, order, {})[k];
    assert LineAt(tab, v, order, line, at[k]);
    var x := order[at[k]];
    SymbolLineFor(tab, v, x);
    LineForOne(line, tab.decls[id].name, tab.decls[x].name);
    assert at[k] in at && x == id;
  }

  /** An assignment may end in a newline, with a carriage return before it, or with the file. */
  lemma {:induction false} LineEnds(name: string, value: string, eol: string)
    requires Word(name) && OneLine(value) && eol in ["", "\n", "\r\n"]
    ensures ParseLine(PREFIX + name + "=" + value + eol) == Assigned(name, value)
  {
    var line := PREFIX + name + "=" + value + eol;
    assert line == PREFIX + (name + ['='] + (value + eol)) && line[0] == 'C';
    AfterPrefix(PREFIX, name + ['='] + (value + eol));
    CutAt(name, '=', value + eol);
    assert StripEol(value + eol) == value by {
      if eol == "" {
        assert value + eol == value;
        NoCut(value, '\n');
      } else {
        var text := if eol == "\n" then value else value + ['\r'];
        assert value + eol == text + ['\n'] + [];
        CutAt(text, '\n', []);
      }
    }
  }

  lemma {:induction false} NoCut(s: string, c: char)
    requires c !in s
    ensures Cut(s, c).None?
  {
    if s != [] { NoCut(s[1..], c); }
  }

  /* ---- no line is superfluous ---- */

  /** Without its line the symbol would get another value, unless it is selected with its dependencies unmet. */
  lemma {:induction false} DroppedExactly(tab: Table, us: seq<User>, ws: seq<User>, v: Valuation, w: Valuation, id: nat)
    requires PlainTable(tab) && WellFormed(tab) && |us| == |ws| == |tab.decls| && v.modules == tab.modules
    requires id < |tab.decls| && AgreeFor(tab, id, v, w) && !ws[id].has && Recorded(tab, v, id)
    requires id in v.vals && v.vals[id] == Step(tab, us, id, v)
    requires id in w.vals && w.vals[id] == Step(tab, ws, id, w)
    requires DefaultVal(tab.decls[id], v).Str? && v.vals[id].val.Str?
    ensures var d := tab.decls[id];
      w.vals[id] != v.vals[id] <==> !(IsTriType(d.typ) && DirDep(d, v) == No && RevDep(d, v) != No)
  {
    var d := tab.decls[id];
    PiecesAgree(tab, id, v, w);
    if IsTriType(d.typ) { assert StringOf(v, Conf(id, d.typ)) == TriName(v.vals[id].tri); }
  }

  /** The minimal configuration is minimal: if the file has a line for a symbol, and what its value is computed from
      is restored from the file, then the file without what it says of the symbol gives it another value; but for one
      that is selected with its dependencies unmet, which has the value n in any case. */
  lemma {:induction false} MinimalConfigMinimal(tab: Table, us: seq<User>, rank: seq<nat>, order: seq<nat>,
          line: string, id: nat)
    requires Filed(tab, us, rank, order) && id < |tab.decls|
    requires line in Lines(false, tab, Denotation(tab, us, rank), order, {}) && LineFor(line, tab.decls[id].name)
    requires var v := Denotation(tab, us, rank);
      SameReads(tab, id, v, Denotation(tab, Reread(false, tab, v, order), rank))
    ensures var v := Denotation(tab, us, rank); var ws := Reread(false, tab, v, order);
      var d, w := tab.decls[id], Denotation(tab, ws[id := NO_USER], rank);
      w.vals[id] != v.vals[id] <==> !(IsTriType(d.typ) && DirDep(d, v) == No && RevDep(d, v) != No)
  {
    var v := Denotation(tab, us, rank);
    var ws := Reread(false, tab, v, order);
    var xs := ws[id := NO_USER];
    var w, x := Denotation(tab, ws, rank), Denotation(tab, xs, rank);
    LineSaves(false, tab, v, order, line, id);
    PicksNothing(tab, us);
    PicksNothing(tab, ws);
    PicksNothing(tab, xs);
    DenotationSolves(tab, us, rank);
    DenotationSolves(tab, ws, rank);
    DenotationSolves(tab, xs, rank);
    StringValues(tab, us, rank, v, Height(rank));
    DefaultIsString(tab, rank, v, id);
    SolutionsAgree(tab, ws, xs, rank, w, x, rank[id]);
    forall b | Reads(tab, id, b) ensures SameAt(v, x, b) { ReadsBelow(tab, rank, id, b); }
    ReadsAgree(tab, rank, id, v, x);
    DroppedExactly(tab, us, xs, v, x, id);
  }

  /* ---- numbers ---- */

  lemma {:induction false} DigitsSpell(t: string) returns (n: nat)
    requires t != [] && (forall c :: c in t ==> IsDigit(c)) && (t[0] == '0' ==> |t| == 1)
    ensures Numbers.Spells(t, 10, n) && (n == 0 <==> t[0] == '0')
    decreases |t|
  {
    var z, c := t[..|t| - 1], t[|t| - 1];
    assert IsDigit(c);
    var d := c as int - '0' as int;
    assert Numbers.IsDigit(c, d);
    if |t| == 1 {
      n := d;
    } else {
      assert forall x :: x in z ==> x in t;
      var m := DigitsSpell(z);
      n := 10 * m + d;
      assert n / 10 == m && n % 10 == d;
    }
  }

  lemma {:induction false} SpelledDigits(t: string, n: nat)
    requires Numbers.Spells(t, 10, n)
    ensures (forall c :: c in t ==> IsDigit(c)) && (t[0] == '0' ==> |t| == 1)
    decreases |t|
  {
    var z, c := t[..|t| - 1], t[|t| - 1];
    Numbers.SpelledHead(t, 10, n);
    assert IsDigit(c);
    if n >= 10 { SpelledDigits(z, n / 10); }
    assert t == z + [c];
  }

  /** The value of an S_INT symbol is valid if and only if it is the numeral of a number, or "-0". */
  lemma {:induction false} IntValidExactly(s: string)
    ensures IntValid(s) <==> s == "-0" || exists n: int :: Numbers.Decimal(s, n)
  {
    var t := if s != [] && s[0] == '-' then s[1..] else s;
    if IntValid(s) {
      var n := DigitsSpell(t);
      if t == s {
        assert Numbers.Decimal(s, n);
      } else if n > 0 {
        var k: int := n;
        assert Numbers.Decimal(s, -k);
      } else {
        assert s == ['-'] + t;
      }
    }
    if n: int :| Numbers.Decimal(s, n) {
      if n >= 0 {
        Numbers.SpelledHead(s, 10, n);
        SpelledDigits(s, n);
      } else {
        Numbers.SpelledHead(s[1..], 10, -n);
        SpelledDigits(s[1..], -n);
      }
    }
  }

  predicate Hexadecimal(s: string) { s != [] && forall c :: c in s ==> c in Numbers.LOWER || c in Numbers.UPPER }

  /** The value of an S_HEX symbol is valid if and only if it is hexadecimal, with or without a prefix. */
  lemma {:induction false} HexValidExactly(s: string)
    ensures HexValid(s) <==> Hexadecimal(s) || (|s| > 2 && s[..2] in ["0x", "0X"] && Hexadecimal(s[2..]))
  {
    forall c: char ensures IsXDigit(c) <==> c in Numbers.LOWER || c in Numbers.UPPER { Numbers.HexDigit(c); }
    if |s| >= 2 {
      assert s[1] in s && (s[1] == 'x' || s[1] == 'X' ==> !IsXDigit(s[1]));
      assert s[..2] == [s[0], s[1]];
    }
  }

  /* ---- choices ---- */

  /** The symbol that a line names, and the first letter of what it assigns: n for one that is not set */
  function Subject(tab: Table, line: string): Option<nat> {
    match ParseLine(line)
    case Ignored => None
    case NotSet(name) => Find(tab, name)
    case Assigned(name, _) => Find(tab, name)
  }

  predicate Says(line: string, c: char) {
    match ParseLine(line)
    case Ignored => false
    case NotSet(_) => c == 'n'
    case Assigned(_, text) => text != [] && text[0] == c
  }

  /** Of the members of c the file sets m to y and the others, as far as they occur, to n; c has no line itself. */
  predicate Chooses(tab: Table, lines: seq<string>, c: nat, m: nat) {
    forall k :: 0 <= k < |lines| ==>
      match Subject(tab, lines[k])
      case None => true
      case Some(id) =>
        && id < |tab.decls| && id != c
        && (tab.decls[id].role == Member(c) ==>
              IsTriType(tab.decls[id].typ) && Says(lines[k], if id == m then 'y' else 'n'))
  }

  /** What the line of a member makes of its choice: y chooses the member; m makes it m, or if it is y already, takes
      it as not set by the user; n leaves it alone. */
  lemma {:induction false} MemberLine(tab: Table, us: seq<User>, line: string, c: nat, m: nat)
    requires c < |tab.decls| == |us| && m < |tab.decls| && tab.decls[m].role == Member(c) && m != c
    requires Subject(tab, line) == Some(m) && IsTriType(tab.decls[m].typ)
    ensures var u, r := us[c], ReadEntry(tab, us, ParseLine(line))[c];
      && (Says(line, 'n') ==> r == u)
      && (Says(line, 'y') ==> r == User(u.has, Yes, Pick(m)))
      && (Says(line, 'm') && tab.decls[m].typ.Tristate? ==>
            r == if u.tri == Yes then User(false, Yes, u.val) else User(u.has, Mod, u.val))
  {
  }

  /** What one line of such a file makes of the choice */
  lemma {:induction false} ChoiceLine(tab: Table, us: seq<User>, line: string, c: nat, m: nat)
    requires c < |tab.decls| == |us| && m < |tab.decls| && tab.decls[m].role == Member(c) && m != c
    requires Chooses(tab, [line], c, m)
    ensures ReadEntry(tab, us, ParseLine(line))[c] ==
            if Subject(tab, line) == Some(m) then us[c].(tri := Yes, val := Pick(m)) else us[c]
  {
    assert [line][0] == line;
    var x := Subject(tab, line);
    if x.Some? && tab.decls[x.value].role == Member(c) { MemberLine(tab, us, line, c, x.value); }
  }

  /** After such a file the user's value of the choice is y, and its member the one that the file sets to y. */
  lemma {:induction false} ChosenReadBack(tab: Table, us: seq<User>, lines: seq<string>, c: nat, m: nat)
    requires c < |tab.decls| == |us| && m < |tab.decls| && tab.decls[m].role == Member(c) && m != c
    requires Chooses(tab, lines, c, m) && us[c].has
    requires us[c] == User(true, Yes, Pick(m)) || exists k :: 0 <= k < |lines| && Subject(tab, lines[k]) == Some(m)
    ensures ReadLines(tab, us, lines)[c] == User(true, Yes, Pick(m))
    decreases |lines|
  {
    if lines != [] {
      ChoiceLine(tab, us, lines[0], c, m);
      var next := ReadEntry(tab, us, ParseLine(lines[0]));
      assert forall k :: 0 <= k < |lines| - 1 ==> lines[1..][k] == lines[k + 1];
      if next[c] != User(true, Yes, Pick(m)) {
        var k :| 0 <= k < |lines| && Subject(tab, lines[k]) == Some(m);
        assert lines[1..][k - 1] == lines[k];
      }
      ChosenReadBack(tab, next, lines[1..], c, m);
    }
  }
}
