/** Quoting of string values: sym_escape_string_value (scripts/config/symbol.c:920-961) and the unquoting
    in conf_set_sym_val (scripts/config/confdata.c:161-175), both on NUL-terminated buffers. */
module Escapes {
  import opened Tristate

  const NUL := '\0'

  predicate Special(c: char) { c == '"' || c == '\\' }

  predicate CString(s: string) { NUL !in s }

  /** Every quote and backslash preceded by a backslash */
  function Escape(s: string): string {
    if s == [] then []
    else (if Special(s[0]) then ['\\', s[0]] else [s[0]]) + Escape(s[1..])
  }

  function Quoted(s: string): string { "\"" + Escape(s) + "\"" }

  function Specials(s: string): nat {
    if s == [] then 0 else (if Special(s[0]) then 1 else 0) + Specials(s[1..])
  }

  lemma {:induction false} EscapeLength(s: string)
    ensures |Escape(s)| == |s| + Specials(s)
  {
    if s != [] { EscapeLength(s[1..]); }
  }

  lemma {:induction false} EscapeSnoc(s: string, c: char)
    ensures Escape(s + [c]) == Escape(s) + Escape([c])
    ensures Specials(s + [c]) == Specials(s) + Specials([c])
  {
    if s == [] {
      assert [] + [c] == [c] && Escape([c])[|Escape([c])|..] == [];
    } else {
      assert (s + [c])[1..] == s[1..] + [c];
      EscapeSnoc(s[1..], c);
    }
  }

  function Prepend(s: string, r: Option<string>): Option<string> {
    if r.None? then None else Some(s + r.value)
  }

  lemma {:induction false} PrependAppend(s: string, c: char, r: Option<string>)
    ensures Prepend(s, Prepend([c], r)) == Prepend(s + [c], r)
  {
    if r.Some? { assert s + ([c] + r.value) == s + [c] + r.value; }
  }

  lemma {:induction false} PrependNothing(r: Option<string>)
    ensures Prepend([], r) == r
  {
    if r.Some? { assert [] + r.value == r.value; }
  }

  /** What the text after an opening quote says: None without a closing quote, or when a backslash ends it. */
  function Unescape(s: string): Option<string> {
    if s == [] then None
    else if s[0] == '"' then Some([])
    else if s[0] == '\\' then if |s| == 1 then None else Prepend([s[1]], Unescape(s[2..]))
    else Prepend([s[0]], Unescape(s[1..]))
  }

  /** Every string comes back from its quoted form, whatever follows the closing quote. */
  lemma {:induction false} EscapeRoundTrip(s: string, rest: string)
    ensures Unescape(Escape(s) + "\"" + rest) == Some(s)
  {
    var t := Escape(s) + "\"" + rest;
    if s == [] {
      assert t[0] == '"';
    } else {
      var u := Escape(s[1..]) + "\"" + rest;
      EscapeRoundTrip(s[1..], rest);
      assert s == [s[0]] + s[1..];
      if Special(s[0]) { assert t[2..] == u; } else { assert t[1..] == u; }
    }
  }

  /** Just quotes and backslashes are preceded by a backslash. */
  lemma {:induction false} EscapeExactly(s: string, c: char, t: string)
    ensures Escape(s + [c] + t) == Escape(s) + (if c == '"' || c == '\\' then ['\\', c] else [c]) + Escape(t)
  {
    if s == [] {
      assert (s + [c] + t)[1..] == t;
    } else {
      assert (s + [c] + t)[1..] == s[1..] + [c] + t;
      EscapeExactly(s[1..], c, t);
    }
  }

  /** s with a backslash before every quote and backslash, and before the characters marked as well */
  function EscapeMore(s: string, marks: seq<bool>): string
    requires |marks| == |s|
  {
    if s == [] then []
    else (if marks[0] || s[0] == '"' || s[0] == '\\' then ['\\', s[0]] else [s[0]]) + EscapeMore(s[1..], marks[1..])
  }

  /** A backslash lets any character stand for itself; and there is no string without a closing quote. */
  lemma {:induction false} UnescapeExactly(s: string, marks: seq<bool>, rest: string)
    requires |marks| == |s|
    ensures Unescape(EscapeMore(s, marks) + "\"" + rest) == Some(s)
    ensures Unescape(EscapeMore(s, marks)) == Unescape(EscapeMore(s, marks) + "\\") == None
  {
    if s != [] {
      UnescapeExactly(s[1..], marks[1..], rest);
      UnescapeHead(s, marks, "\"" + rest);
      UnescapeHead(s, marks, "");
      UnescapeHead(s, marks, "\\");
      assert EscapeMore(s, marks) + ("\"" + rest) == EscapeMore(s, marks) + "\"" + rest;
      assert EscapeMore(s[1..], marks[1..]) + ("\"" + rest) == EscapeMore(s[1..], marks[1..]) + "\"" + rest;
      assert EscapeMore(s, marks) + "" == EscapeMore(s, marks);
      assert EscapeMore(s[1..], marks[1..]) + "" == EscapeMore(s[1..], marks[1..]);
      assert [s[0]] + s[1..] == s;
    } else {
      assert [] + "\"" + rest == ['"'] + rest && [] + "\\" == "\\";
    }
  }

  lemma {:induction false} UnescapeHead(s: string, marks: seq<bool>, rest: string)
    requires |marks| == |s| && s != []
    ensures Unescape(EscapeMore(s, marks) + rest) == Prepend([s[0]], Unescape(EscapeMore(s[1..], marks[1..]) + rest))
  {
    var t, u := EscapeMore(s, marks) + rest, EscapeMore(s[1..], marks[1..]) + rest;
    if marks[0] || s[0] == '"' || s[0] == '\\' {
      assert t[0] == '\\' && t[1] == s[0] && t[2..] == u;
    } else {
      assert t[0] == s[0] && t[1..] == u;
    }
  }

  /* ---- the buffers ---- */

  /** The buffer holds the C string `s` from index i on. */
  ghost predicate HoldsAt(a: array<char>, i: nat, s: string)
    reads a
  {
    && i + |s| < a.Length && a[i + |s|] == NUL && CString(s)
    && forall k :: 0 <= k < |s| ==> s[k] == a[i + k]
  }

  lemma {:induction false} EscapeCString(s: string)
    requires CString(s)
    ensures CString(Escape(s))
  {
    if s != [] { EscapeCString(s[1..]); }
  }

  /** The counting loop: room for the quotes, the terminator, and a backslash for each special character */
  method EscapedSize(s: string) returns (reslen: nat)
    ensures reslen == |Quoted(s)| + 1 && reslen == |Escape(s)| + 3
  {
    reslen := |s| + 2 + 1;
    for i := 0 to |s|
      invariant reslen == |s| + 3 + Specials(s[..i])
    {
      assert s[..i + 1] == s[..i] + [s[i]];
      EscapeSnoc(s[..i], s[i]);
      if Special(s[i]) { reslen := reslen + 1; }
    }
    assert s[..|s|] == s;
    EscapeLength(s);
  }

  /** sym_escape_string_value: the size is counted first, and the text then fills it exactly. */
  method EscapeString(s: string) returns (res: array<char>)
    requires CString(s)
    ensures fresh(res) && HoldsAt(res, 0, Quoted(s)) && res.Length == |Quoted(s)| + 1
  {
    var reslen := EscapedSize(s);
    res := new char[reslen];
    res[0] := '"';
    var w := 1;
    assert s[0..] == s;
    for i := 0 to |s|
      invariant w == 1 + |Escape(s[..i])| && w + |Escape(s[i..])| + 2 == reslen
      invariant res[..w] == "\"" + Escape(s[..i])
    {
      assert s[..i + 1] == s[..i] + [s[i]] && s[i..][0] == s[i] && s[i..][1..] == s[i + 1..];
      EscapeSnoc(s[..i], s[i]);
      w := PutEscaped(res, w, s[i]);
    }
    assert s[|s|..] == [] && s[..|s|] == s;
    res[w] := '"';
    res[w + 1] := NUL;
    EscapeCString(s);
    assert res[..w + 1] == Quoted(s);
  }

  method PutEscaped(res: array<char>, w: nat, c: char) returns (w': nat)
    requires w + |Escape([c])| <= res.Length
    modifies res
    ensures w' == w + |Escape([c])| && res[..w'] == old(res[..w]) + Escape([c])
  {
    w' := w;
    if Special(c) {
      res[w'] := '\\';
      w' := w' + 1;
    }
    res[w'] := c;
    w' := w' + 1;
    assert res[..w'] == old(res[..w]) + Escape([c]);
  }

  /** strlen, from p on */
  method Strlen(a: array<char>, p: nat, ghost s: string) returns (n: nat)
    requires HoldsAt(a, p, s)
    ensures n == |s|
  {
    n := 0;
    while a[p + n] != NUL
      invariant n <= |s| && (n < |s| ==> a[p + n] == s[n])
      decreases |s| - n
    {
      n := n + 1;
    }
  }

  /** memmove(p, p + 1, strlen(p)): the string at p without its first character */
  method DropFirst(a: array<char>, p: nat, ghost s: string)
    requires HoldsAt(a, p, s) && s != []
    modifies a
    ensures HoldsAt(a, p, s[1..]) && a[..p] == old(a[..p])
    ensures a[p + |s|] == NUL
  {
    var n := Strlen(a, p, s);
    for i := 0 to n
      invariant forall k :: 0 <= k < p ==> a[k] == old(a[k])
      invariant forall k :: p <= k < p + i ==> a[k] == old(a[k + 1])
      invariant forall k :: p + i <= k < a.Length ==> a[k] == old(a[k])
    {
      a[p + i] := a[p + i + 1];
    }
    forall k | 0 <= k < |s[1..]| ensures s[1..][k] == a[p + k] { assert s[k + 1] == old(a[p + k + 1]); }
  }

  /** Where the loop below stands: `seen` is unquoted, `rest` is still to be looked at. */
  ghost predicate Unquoting(a: array<char>, p: nat, q: nat, s: string, seen: string, rest: string)
    reads a
  {
    && HoldsAt(a, q, rest) && CString(seen)
    && q == p + |seen| && a[p..q] == seen
    && Unescape(s) == Prepend(seen, Unescape(rest))
  }

  /** One character is moved past, after its backslash if it had one was taken out. */
  lemma {:induction false} UnquoteOne(a: array<char>, p: nat, q: nat, s: string, seen: string, rest: string,
          quoted: string)
    requires q == p + |seen| && HoldsAt(a, q, rest) && rest != [] && CString(seen) && a[p..q] == seen
    requires quoted != [] && quoted[0] != '"' && Unescape(s) == Prepend(seen, Unescape(quoted))
    requires if quoted[0] == '\\' then rest == quoted[1..] else rest == quoted
    ensures Unquoting(a, p, q + 1, s, seen + [rest[0]], rest[1..])
  {
    forall k | 0 <= k < |rest[1..]| ensures rest[1..][k] == a[q + 1 + k] { assert rest[k + 1] == a[q + (k + 1)]; }
    assert rest[0] == a[q + 0];
    assert a[p..q + 1] == a[p..q] + [a[q]];
    PrependAppend(seen, rest[0], Unescape(rest[1..]));
    if quoted[0] == '\\' { assert quoted[2..] == rest[1..]; }
  }

  /** The loop over strpbrk in conf_set_sym_val: the string at p is unquoted in place.  A backslash that is the
      last character is taken out like any other; the scan goes on at the old terminator and finds no quote. */
  method UnescapeInPlace(a: array<char>, p: nat, ghost s: string) returns (ok: bool)
    requires HoldsAt(a, p, s)
    modifies a
    ensures ok == Unescape(s).Some?
    ensures ok ==> HoldsAt(a, p, Unescape(s).value)
    ensures a[..p] == old(a[..p])
  {
    var q := p;
    ghost var seen, rest, dangling := [], s, false;
    PrependNothing(Unescape(s));
    while a[q] != NUL
      invariant p <= q < a.Length && a[..p] == old(a[..p])
      invariant if dangling then a[q] == NUL && Unescape(s) == None else Unquoting(a, p, q, s, seen, rest)
      decreases |rest|
    {
      ghost var quoted := rest;
      assert a[q + |rest|] == NUL;
      assert rest[0] == a[q + 0];
      if a[q] == '"' {
        a[q] := NUL;
        assert seen + [] == seen;
        return true;
      }
      if a[q] == '\\' {
        DropFirst(a, q, rest);
        assert a[..q][..p] == a[..p] && a[..q][p..] == a[p..q];
        rest := rest[1..];
      }
      if rest == [] {
        dangling := true;
      } else {
        UnquoteOne(a, p, q, s, seen, rest, quoted);
        seen, rest := seen + [rest[0]], rest[1..];
      }
      q := q + 1;
    }
    assert dangling || rest == [];
    ok := false;
  }

  /** What EscapeString writes, UnescapeInPlace restores: from behind the opening quote on the buffer holds the
      string again. */
  method QuoteAndUnquote(s: string) returns (a: array<char>, ok: bool)
    requires CString(s)
    ensures ok && fresh(a) && HoldsAt(a, 1, s)
  {
    a := EscapeString(s);
    ghost var t := Escape(s) + "\"";
    assert Quoted(s)[1..] == t && t + "" == t;
    forall k | 0 <= k < |t| ensures t[k] == a[1 + k] { assert t[k] == Quoted(s)[k + 1]; }
    EscapeRoundTrip(s, "");
    ok := UnescapeInPlace(a, 1, t);
  }
}
