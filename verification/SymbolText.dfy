/** Turning subscript and superscript symbols into math text (sandbox_runtime/charts.py). */
module SymbolText {
  import opened Basics

  datatype Mode = Sub | Sup

  const MINUS: char := '\U{2212}'

  // ---------- The two tables ----------

  /** Which table a character is in, and what it stands for there. */
  function Symbol(c: char): Option<(Mode, char)> {
    if '\U{2080}' <= c <= '\U{2089}' then Some((Sub, (c as int - 0x2080 + '0' as int) as char))
    else if '\U{208A}' <= c <= '\U{208E}' then Some((Sub, SIGNS[c as int - 0x208A]))
    else if c == '\U{2070}' || '\U{2074}' <= c <= '\U{2079}' then Some((Sup, (c as int - 0x2070 + '0' as int) as char))
    else if c == '\U{B9}' then Some((Sup, '1'))
    else if c == '\U{B2}' then Some((Sup, '2'))
    else if c == '\U{B3}' then Some((Sup, '3'))
    else if '\U{207A}' <= c <= '\U{207E}' then Some((Sup, SIGNS[c as int - 0x207A]))
    else None
  }

  const SIGNS: string := "+-=()"

  /** Back from the plain character to the symbol. */
  function Unmapped(m: Mode, c: char): Option<char> {
    if '0' <= c <= '9' then
      if m.Sub? then Some((c as int - '0' as int + 0x2080) as char)
      else if c == '1' then Some('\U{B9}')
      else if c == '2' then Some('\U{B2}')
      else if c == '3' then Some('\U{B3}')
      else Some((c as int - '0' as int + 0x2070) as char)
    else
      var base := if m.Sub? then 0x208A else 0x207A;
      if c == '+' then Some(base as char)
      else if c == '-' then Some((base + 1) as char)
      else if c == '=' then Some((base + 2) as char)
      else if c == '(' then Some((base + 3) as char)
      else if c == ')' then Some((base + 4) as char)
      else None
  }

  predicate Digit(c: char) {
    '0' <= c <= '9' || c == '+' || c == '-' || c == '=' || c == '(' || c == ')'
  }

  lemma SymbolRoundTrip(c: char)
    ensures Symbol(c).Some? ==> Digit(Symbol(c).value.1) && Unmapped(Symbol(c).value.0, Symbol(c).value.1) == Some(c)
    ensures Digit(c) ==> Symbol(c).None? && c != MINUS && c != '\\' && c != ' ' && c != '$' && c != '}'
  {}

  // ---------- The specification ----------

  /** The text with every minus sign turned into a hyphen. */
  function Hyphens(s: string): (r: string)
    ensures |r| == |s|
  {
    if s == "" then "" else [if s[0] == MINUS then '-' else s[0]] + Hyphens(s[1..])
  }

  predicate HasMode(c: char, m: Mode) {
    Symbol(c).Some? && Symbol(c).value.0 == m
  }

  /** How many symbols of one table the text starts with. */
  function RunLength(s: string, m: Mode): (n: nat)
    ensures n <= |s|
    ensures forall i :: 0 <= i < n ==> HasMode(s[i], m)
    ensures n < |s| ==> !HasMode(s[n], m)
  {
    if s != "" && HasMode(s[0], m) then RunLength(s[1..], m) + 1 else 0
  }

  function Plainly(c: char): char {
    if Symbol(c).Some? then Symbol(c).value.1 else c
  }

  function Mapped(s: string): (r: string)
    ensures |r| == |s|
  {
    if s == "" then "" else [Plainly(s[0])] + Mapped(s[1..])
  }

  function ReplaceOne(s: string, c: char, with: string): string {
    if s == "" then "" else (if s[0] == c then with else [s[0]]) + ReplaceOne(s[1..], c, with)
  }

  /** `_escape_mathtext`. */
  function Escape(s: string): string {
    ReplaceOne(ReplaceOne(s, '\\', "\\\\"), ' ', "\\ ")
  }

  function Wrap(m: Mode, content: string): string {
    (if m.Sub? then "$_{" else "$^{") + Escape(content) + "}$"
  }

  /** Every maximal run of symbols of one table becomes one group. */
  function Render(s: string): string
    decreases |s|
  {
    if s == "" then ""
    else if Symbol(s[0]).None? then [s[0]] + Render(s[1..])
    else
      var m := Symbol(s[0]).value.0;
      var n := RunLength(s, m);
      Wrap(m, Mapped(s[..n])) + Render(s[n..])
  }

  function Normalize(s: string): string {
    Render(Hyphens(s))
  }

  predicate NoSymbols(s: string) {
    forall i :: 0 <= i < |s| ==> Symbol(s[i]).None?
  }

  lemma {:induction false} RenderPlain(s: string)
    requires NoSymbols(s)
    ensures Render(s) == s
    decreases |s|
  {
    if s != "" {
      RenderPlain(s[1..]);
    }
  }

  // ---------- The loop ----------

  /** What is still to be printed when `buffer` holds the symbols of an open group. */
  function Rest(mode: Option<Mode>, buffer: string, s: string): string {
    match mode
    case None => Render(s)
    case Some(m) =>
      var n := RunLength(s, m);
      Wrap(m, buffer + Mapped(s[..n])) + Render(s[n..])
  }

  /** One more symbol of the open group. */
  lemma RestSymbol(m: Mode, buffer: string, s: string)
    requires s != "" && HasMode(s[0], m)
    ensures Rest(Some(m), buffer, s) == Rest(Some(m), buffer + [Symbol(s[0]).value.1], s[1..])
  {
    var n := RunLength(s, m);
    assert s[..n][1..] == s[1..][..n - 1];
    assert Mapped(s[..n]) == [Symbol(s[0]).value.1] + Mapped(s[1..][..n - 1]);
    assert buffer + Mapped(s[..n]) == buffer + [Symbol(s[0]).value.1] + Mapped(s[1..][..n - 1]);
  }

  /** The open group ends here. */
  lemma RestFlush(m: Mode, buffer: string, s: string)
    requires s == "" || !HasMode(s[0], m)
    ensures Rest(Some(m), buffer, s) == Wrap(m, buffer) + Rest(None, "", s)
  {
    assert RunLength(s, m) == 0;
    assert s[..0] == "" && buffer + "" == buffer;
  }

  /** A group starts here. */
  lemma RestOpen(m: Mode, s: string)
    requires s != "" && HasMode(s[0], m)
    ensures Rest(None, "", s) == Rest(Some(m), "", s)
  {
    var n := RunLength(s, m);
    assert "" + Mapped(s[..n]) == Mapped(s[..n]);
  }

  lemma RestPlain(s: string)
    requires s != "" && Symbol(s[0]).None?
    ensures Rest(None, "", s) == [s[0]] + Rest(None, "", s[1..])
  {}

  lemma ConcatLast(parts: seq<string>, part: string)
    ensures Concat(parts + [part]) == Concat(parts) + part
  {
    ConcatPlus(parts, [part]);
    ConcatOne(part, []);
  }

  lemma Move(a: string, b: string, c: string)
    ensures a + (b + c) == (a + b) + c
  {}

  method HasSymbol(s: string) returns (found: bool)
    ensures found <==> !NoSymbols(s)
  {
    var i := 0;
    while i < |s|
      invariant 0 <= i <= |s|
      invariant forall j :: 0 <= j < i ==> Symbol(s[j]).None?
    {
      if Symbol(s[i]).Some? {
        return true;
      }
      i := i + 1;
    }
    return false;
  }

  /** `_normalize_symbol_text`: one pass with an open group. */
  method NormalizeSymbolText(value: string) returns (r: string)
    ensures r == Normalize(value)
  {
    var normalized := Hyphens(value);
    var found := HasSymbol(normalized);
    if !found {
      RenderPlain(normalized);
      return normalized;
    }
    r := RenderLoop(normalized);
  }

  method RenderLoop(s: string) returns (r: string)
    ensures r == Render(s)
  {
    hide Render, RunLength, Wrap, Concat, Symbol;
    var parts: seq<string>, buffer, mode: Option<Mode> := [], "", None;
    var i := 0;
    Start(s);
    while i < |s|
      invariant 0 <= i <= |s|
      invariant mode.None? ==> buffer == ""
      invariant Concat(parts) + Rest(mode, buffer, s[i..]) == Render(s)
    {
      var symbol := Symbol(s[i]);
      ghost var rest := s[i..];
      assert rest[0] == s[i] && rest[1..] == s[i + 1..];
      if mode.Some? && (symbol.None? || symbol.value.0 != mode.value) {
        RestFlush(mode.value, buffer, rest);
        Move(Concat(parts), Wrap(mode.value, buffer), Rest(None, "", rest));
        ConcatLast(parts, Wrap(mode.value, buffer));
        parts := parts + [Wrap(mode.value, buffer)];
        buffer, mode := "", None;
      }
      assert Concat(parts) + Rest(mode, buffer, rest) == Render(s);
      hide Rest;
      if symbol.Some? {
        if mode.None? {
          RestOpen(symbol.value.0, rest);
          mode := Some(symbol.value.0);
        }
        RestSymbol(symbol.value.0, buffer, rest);
        buffer := buffer + [symbol.value.1];
      } else {
        RestPlain(rest);
        Move(Concat(parts), [s[i]], Rest(None, "", s[i + 1..]));
        ConcatLast(parts, [s[i]]);
        parts := parts + [[s[i]]];
      }
      i := i + 1;
    }
    assert s[i..] == "";
    Finish(mode, buffer);
    if mode.Some? {
      ConcatLast(parts, Wrap(mode.value, buffer));
      parts := parts + [Wrap(mode.value, buffer)];
    } else {
      assert Concat(parts) + "" == Concat(parts);
    }
    r := Concat(parts);
  }

  lemma Start(s: string)
    ensures Concat([]) + Rest(None, "", s[0..]) == Render(s)
  {
    assert s[0..] == s;
    assert "" + Render(s) == Render(s);
  }

  lemma Finish(mode: Option<Mode>, buffer: string)
    ensures Rest(mode, buffer, "") == if mode.Some? then Wrap(mode.value, buffer) else ""
  {
    if mode.Some? {
      RestFlush(mode.value, buffer, "");
      assert Rest(None, "", "") == "";
      assert Wrap(mode.value, buffer) + "" == Wrap(mode.value, buffer);
    }
  }

  // ---------- What comes out ----------

  predicate Clean(s: string) {
    forall i :: 0 <= i < |s| ==> Symbol(s[i]).None? && s[i] != MINUS
  }

  predicate Digits(s: string) {
    forall i :: 0 <= i < |s| ==> Digit(s[i])
  }

  lemma {:induction false} MappedDigits(s: string)
    requires forall i :: 0 <= i < |s| ==> Symbol(s[i]).Some?
    ensures Digits(Mapped(s))
  {
    if s != "" {
      SymbolRoundTrip(s[0]);
      MappedDigits(s[1..]);
    }
  }

  lemma {:induction false} ReplaceNothing(s: string, c: char, with: string)
    requires forall i :: 0 <= i < |s| ==> s[i] != c
    ensures ReplaceOne(s, c, with) == s
  {
    if s != "" {
      ReplaceNothing(s[1..], c, with);
    }
  }

  /** The content of a group never needs escaping. */
  lemma EscapeNothing(s: string)
    requires Digits(s)
    ensures Escape(s) == s
  {
    ReplaceNothing(s, '\\', "\\\\");
    ReplaceNothing(s, ' ', "\\ ");
  }

  lemma WrapDigits(m: Mode, s: string)
    requires Digits(s)
    ensures Wrap(m, s) == (if m.Sub? then "$_{" else "$^{") + s + "}$"
    ensures Clean(Wrap(m, s))
  {
    EscapeNothing(s);
    forall i | 0 <= i < |s| ensures Symbol(s[i]).None? && s[i] != MINUS {
      SymbolRoundTrip(s[i]);
    }
  }

  lemma CleanPlus(a: string, b: string)
    requires Clean(a) && Clean(b)
    ensures Clean(a + b)
  {}

  lemma {:induction false} RenderClean(s: string)
    requires forall i :: 0 <= i < |s| ==> s[i] != MINUS
    ensures Clean(Render(s))
    decreases |s|
  {
    if s != "" {
      if Symbol(s[0]).None? {
        RenderClean(s[1..]);
        CleanPlus([s[0]], Render(s[1..]));
      } else {
        var m := Symbol(s[0]).value.0;
        var n := RunLength(s, m);
        RenderClean(s[n..]);
        MappedDigits(s[..n]);
        WrapDigits(m, Mapped(s[..n]));
        CleanPlus(Wrap(m, Mapped(s[..n])), Render(s[n..]));
      }
    }
  }

  lemma {:induction false} HyphensNoMinus(s: string)
    ensures forall i :: 0 <= i < |s| ==> Hyphens(s)[i] == if s[i] == MINUS then '-' else s[i]
  {
    if s != "" {
      HyphensNoMinus(s[1..]);
    }
  }

  lemma {:induction false} HyphensNothing(s: string)
    requires forall i :: 0 <= i < |s| ==> s[i] != MINUS
    ensures Hyphens(s) == s
  {
    if s != "" {
      HyphensNothing(s[1..]);
    }
  }

  /** Nothing is left to normalise: no symbol of either table and no minus sign, so doing it
      again changes nothing. */
  lemma NormalizeIdempotent(s: string)
    ensures Clean(Normalize(s))
    ensures Normalize(Normalize(s)) == Normalize(s)
  {
    HyphensNoMinus(s);
    RenderClean(Hyphens(s));
    HyphensNothing(Normalize(s));
    RenderPlain(Normalize(s));
  }

  // ---------- Reading it back ----------

  /** Reads the inside of a group up to its closing brace: the symbols and what follows "}$". */
  function ReadGroup(s: string, m: Mode): Option<(string, string)>
    decreases |s|
  {
    if |s| >= 2 && s[0] == '}' && s[1] == '$' then Some(("", s[2..]))
    else if s == "" || Unmapped(m, s[0]).None? then None
    else
      match ReadGroup(s[1..], m)
      case None => None
      case Some((symbols, rest)) => Some(([Unmapped(m, s[0]).value] + symbols, rest))
  }

  lemma {:induction false} ReadGroupShrinks(s: string, m: Mode)
    ensures ReadGroup(s, m).Some? ==> |ReadGroup(s, m).value.1| < |s|
    decreases |s|
  {
    if s != "" {
      ReadGroupShrinks(s[1..], m);
    }
  }

  predicate Opens(s: string) {
    |s| >= 3 && s[0] == '$' && (s[1] == '_' || s[1] == '^') && s[2] == '{'
  }

  /** The text with its groups turned back into symbols. */
  function ReadBack(s: string): string
    decreases |s|
  {
    if s == "" then ""
    else if !Opens(s) then [s[0]] + ReadBack(s[1..])
    else
      var m := if s[1] == '_' then Sub else Sup;
      ReadGroupShrinks(s[3..], m);
      match ReadGroup(s[3..], m)
      case None => [s[0]] + ReadBack(s[1..])
      case Some((symbols, rest)) => symbols + ReadBack(rest)
  }

  lemma {:induction false} ReadGroupMapped(s: string, m: Mode, rest: string)
    requires forall i :: 0 <= i < |s| ==> HasMode(s[i], m)
    ensures ReadGroup(Mapped(s) + "}$" + rest, m) == Some((s, rest))
    decreases |s|
  {
    var t := Mapped(s) + "}$" + rest;
    if s == "" {
      assert t[2..] == rest;
    } else {
      SymbolRoundTrip(s[0]);
      ReadGroupMapped(s[1..], m, rest);
      assert t[1..] == Mapped(s[1..]) + "}$" + rest;
      assert [s[0]] + s[1..] == s;
    }
  }

  lemma ReadBackGroup(s: string, m: Mode, rest: string)
    requires forall i :: 0 <= i < |s| ==> HasMode(s[i], m)
    ensures ReadBack(Wrap(m, Mapped(s)) + rest) == s + ReadBack(rest)
  {
    hide Symbol, Mapped, Wrap, ReadBack, ReadGroup;
    MappedDigits(s);
    WrapDigits(m, Mapped(s));
    ReadGroupMapped(s, m, rest);
    var t := Wrap(m, Mapped(s)) + rest;
    OpenedText(if m.Sub? then "$_{" else "$^{", Mapped(s), rest);
    ReadBackOpened(t);
  }

  lemma OpenedText(open: string, digits: string, rest: string)
    requires |open| == 3
    ensures var t := open + digits + "}$" + rest;
            t[0] == open[0] && t[1] == open[1] && t[2] == open[2] && t[3..] == digits + "}$" + rest
  {}

  lemma ReadBackPlain(s: string)
    requires s != "" && (!Opens(s) || ReadGroup(s[3..], ModeOf(s)).None?)
    ensures ReadBack(s) == [s[0]] + ReadBack(s[1..])
  {}

  /** The kind of group an opening announces. */
  function ModeOf(s: string): Mode
    requires Opens(s)
  {
    if s[1] == '_' then Sub else Sup
  }

  lemma ReadBackOpened(s: string)
    requires Opens(s) && ReadGroup(s[3..], ModeOf(s)).Some?
    ensures var (symbols, rest) := ReadGroup(s[3..], ModeOf(s)).value; ReadBack(s) == symbols + ReadBack(rest)
  {
    ReadGroupShrinks(s[3..], ModeOf(s));
  }

  lemma RenderGroup(s: string)
    requires s != "" && Symbol(s[0]).Some?
    ensures var m := Symbol(s[0]).value.0;
            var n := RunLength(s, m);
            n > 0 && Render(s) == Wrap(m, Mapped(s[..n])) + Render(s[n..])
  {}

  lemma RenderHead(s: string)
    ensures Render(s) == "" <==> s == ""
    ensures s != "" ==> Render(s)[0] == if Symbol(s[0]).Some? then '$' else s[0]
    ensures s != "" && Symbol(s[0]).None? ==> Render(s)[1..] == Render(s[1..])
  {
    if s != "" && Symbol(s[0]).Some? {
      RenderGroup(s);
    }
  }

  // ---------- When it reads back ----------

  /** What could close a group follows: digits and signs, a brace, and a dollar sign or a symbol,
      which is going to be printed as one. */
  predicate Closes(s: string) {
    || (|s| >= 2 && s[0] == '}' && (s[1] == '$' || Symbol(s[1]).Some?))
    || (s != "" && Digit(s[0]) && Closes(s[1..]))
  }

  /** Somewhere the text itself looks like a group. */
  predicate HasGroup(s: string) {
    s != "" && ((Opens(s) && Closes(s[3..])) || HasGroup(s[1..]))
  }

  lemma UnmappedExactly(m: Mode, c: char)
    ensures Unmapped(m, c).Some? <==> Digit(c)
    ensures Unmapped(m, c).Some? ==> Symbol(Unmapped(m, c).value) == Some((m, c))
  {}

  /** Rendering closes a group where the text does, and nowhere else; what is read is one symbol
      for each digit. */
  lemma {:induction false} ReadGroupRendered(s: string, m: Mode)
    ensures ReadGroup(Render(s), m).Some? <==> Closes(s)
    decreases |s|
  {
    hide Symbol, Unmapped, Digit, Wrap;
    if s != "" {
      RenderHead(s);
      SymbolRoundTrip(s[0]);
      PlainMarks();
      UnmappedExactly(m, Render(s)[0]);
      if Symbol(s[0]).None? {
        RenderHead(s[1..]);
        ReadGroupRendered(s[1..], m);
      }
    }
  }

  lemma PlainMarks()
    ensures !Digit('$') && !Digit('}') && Symbol('$').None? && Symbol('}').None? && Symbol('_').None? && Symbol('^').None? && Symbol('{').None?
  {}

  /** A plain dollar sign opens a group in the rendering exactly when it does in the text. */
  lemma OpensRendered(s: string)
    requires s != "" && Symbol(s[0]).None?
    ensures Opens(Render(s)) <==> Opens(s)
    ensures Opens(s) ==> Render(s)[3..] == Render(s[3..]) && ModeOf(Render(s)) == ModeOf(s)
  {
    hide Render, Symbol;
    PlainMarks();
    var t := Render(s);
    RenderHead(s);
    RenderHead(s[1..]);
    if |s| > 1 {
      assert t[1] == t[1..][0] && s[1] == s[1..][0];
      if Symbol(s[1]).None? {
        Tails(s, 1);
        Tails(t, 1);
        RenderHead(s[2..]);
        if |s| > 2 {
          assert t[2] == t[2..][0] && s[2] == s[2..][0];
          if Symbol(s[2]).None? {
            Tails(s, 2);
            Tails(t, 2);
          }
        }
      }
    }
  }

  lemma Tails(s: string, n: nat)
    requires n < |s|
    ensures s[n..][1..] == s[n + 1..]
  {}

  lemma RenderPlainHead(s: string)
    requires s != "" && Symbol(s[0]).None?
    ensures Render(s) == [s[0]] + Render(s[1..])
  {}

  /** Without such a place the rendering reads back. */
  lemma {:induction false} ReadBackRender(s: string)
    requires !HasGroup(s)
    ensures ReadBack(Render(s)) == s
    decreases |s|
  {
    hide Symbol, Wrap, ReadBack, Mapped, Render, RunLength, Opens, ReadGroup, Closes;
    if s == "" {
      RenderHead(s);
      ReadBackEmpty();
    } else if Symbol(s[0]).None? {
      ReadBackRender(s[1..]);
      RenderHead(s);
      OpensRendered(s);
      if Opens(s) {
        OpensLength(s);
        ReadGroupRendered(s[3..], ModeOf(s));
      }
      ReadBackPlain(Render(s));
      assert [s[0]] + s[1..] == s;
    } else {
      RenderGroup(s);
      var m := Symbol(s[0]).value.0;
      var n := RunLength(s, m);
      RunIsMode(s, m);
      HasGroupLater(s, n);
      ReadBackRender(s[n..]);
      ReadBackGroup(s[..n], m, Render(s[n..]));
      assert s[..n] + s[n..] == s;
    }
  }

  lemma OpensLength(s: string)
    requires Opens(s)
    ensures |s| >= 3 && s[0] == '$'
  {}

  lemma RunIsMode(s: string, m: Mode)
    ensures var n := RunLength(s, m); n <= |s| && (forall i :: 0 <= i < n ==> HasMode(s[i], m))
  {}

  lemma {:induction false} HasGroupLater(s: string, n: nat)
    requires n <= |s|
    ensures HasGroup(s[n..]) ==> HasGroup(s)
  {
    if n > 0 {
      assert s[1..][n - 1..] == s[n..];
      HasGroupLater(s[1..], n - 1);
    } else {
      assert s[0..] == s;
    }
  }

  lemma ReadBackEmpty()
    ensures ReadBack("") == ""
  {}

  // ---------- When it does not ----------

  /** What follows the closing brace. */
  function AfterBrace(s: string): (r: string)
    requires Closes(s)
    ensures |r| < |s| && r != "" && (r[0] == '$' || Symbol(r[0]).Some?)
  {
    if s[0] == '}' then s[1..] else AfterBrace(s[1..])
  }

  lemma {:induction false} GroupRead(s: string, m: Mode)
    requires Closes(s) && ReadGroup(Render(s), m).Some?
    ensures var (symbols, rest) := ReadGroup(Render(s), m).value;
            && Render(AfterBrace(s)) != "" && rest == Render(AfterBrace(s))[1..]
            && |symbols| + 1 + |AfterBrace(s)| == |s|
            && (symbols != "" ==> Symbol(symbols[0]).Some?)
    decreases |s|
  {
    hide Symbol, Unmapped, Digit, Wrap;
    PlainMarks();
    SymbolRoundTrip(s[0]);
    RenderHead(s);
    RenderHead(s[1..]);
    if s[0] == '}' {
      assert Render(s)[2..] == Render(s[1..])[1..];
    } else {
      UnmappedExactly(m, s[0]);
      ReadGroupRendered(s[1..], m);
      GroupRead(s[1..], m);
    }
  }

  predicate NoDollar(s: string) {
    forall i :: 0 <= i < |s| ==> s[i] != '$'
  }

  lemma {:induction false} ReadBackPrefix(s: string, t: string)
    requires NoDollar(s)
    ensures ReadBack(s + t) == s + ReadBack(t)
  {
    if s == "" {
      assert s + t == t;
    } else {
      assert (s + t)[1..] == s[1..] + t;
      ReadBackPrefix(s[1..], t);
    }
  }

  /** A group of which the opening dollar sign has been taken away, followed by the rest: the
      group's own closing sign may now open one. */
  lemma LostOpening(s: string)
    requires s != "" && Symbol(s[0]).Some?
    ensures var m := Symbol(s[0]).value.0;
            var n := RunLength(s, m);
            var head := Wrap(m, Mapped(s[..n]));
            && n > 0 && |head| == n + 5
            && NoDollar(head[1..n + 4]) && head[1] != '$'
            && Render(s)[1..] == head[1..n + 4] + Render("$" + s[n..])
  {
    hide Symbol, Render, RunLength, Mapped, Wrap;
    var m := Symbol(s[0]).value.0;
    var n := RunLength(s, m);
    RenderGroup(s);
    RunIsMode(s, m);
    GroupParts(s[..n], m);
    PlainMarks();
    RenderPlainHead("$" + s[n..]);
    assert ("$" + s[n..])[1..] == s[n..];
    Regroup(Wrap(m, Mapped(s[..n])), n, Render(s[n..]));
  }

  lemma GroupParts(s: string, m: Mode)
    requires forall i :: 0 <= i < |s| ==> HasMode(s[i], m)
    ensures var head := Wrap(m, Mapped(s));
            |head| == |s| + 5 && NoDollar(head[1..|s| + 4]) && head[1] != '$' && head[|s| + 4] == '$'
  {
    MappedDigits(s);
    WrapDigits(m, Mapped(s));
    hide Symbol, Mapped, Wrap;
    DigitsNoDollar(Mapped(s));
    hide Digits;
    MiddleOf(if m.Sub? then "$_{" else "$^{", Mapped(s));
  }

  lemma MiddleOf(open: string, digits: string)
    requires |open| == 3 && open[1] != '$' && open[2] != '$' && NoDollar(digits)
    ensures var t := open + digits + "}$";
            |t| == |digits| + 5 && NoDollar(t[1..|digits| + 4]) && t[1] != '$' && t[|digits| + 4] == '$'
  {
    var t := open + digits + "}$";
    forall i | 1 <= i < |digits| + 4 ensures t[i] != '$' {
      assert i >= 3 && i < |digits| + 3 ==> t[i] == digits[i - 3];
    }
  }

  lemma Regroup(head: string, n: nat, rest: string)
    requires |head| == n + 5 && head[n + 4] == '$'
    ensures (head + rest)[1..] == head[1..n + 4] + ("$" + rest)
  {}

  lemma DigitsNoDollar(s: string)
    requires Digits(s)
    ensures NoDollar(s)
  {}

  /** Reading back never gives more than was rendered. */
  lemma {:induction false} NeverLonger(s: string)
    ensures |ReadBack(Render(s))| <= |s|
    decreases |s|, 0
  {
    hide Symbol, Wrap, ReadBack, Mapped, Render, RunLength, Opens, ReadGroup, Closes, AfterBrace;
    if s == "" {
      RenderHead(s);
      ReadBackEmpty();
    } else if Symbol(s[0]).Some? {
      RenderGroup(s);
      var m := Symbol(s[0]).value.0;
      var n := RunLength(s, m);
      RunIsMode(s, m);
      NeverLonger(s[n..]);
      ReadBackGroup(s[..n], m, Render(s[n..]));
    } else if OpensAndCloses(s) {
      OpensLength(s);
      OpensRendered(s);
      var u, m := s[3..], ModeOf(s);
      ReadGroupRendered(u, m);
      GroupRead(u, m);
      ReadBackOpened(Render(s));
      var (symbols, rest) := ReadGroup(Render(u), m).value;
      AfterGroupNotLonger(AfterBrace(u));
    } else {
      NeverLonger(s[1..]);
      HeadReadsBack(s);
    }
  }

  predicate OpensAndCloses(s: string) {
    Opens(s) && Closes(s[3..])
  }

  lemma AfterGroupNotLonger(v: string)
    requires v != "" && (v[0] == '$' || Symbol(v[0]).Some?)
    ensures Render(v) != "" && |ReadBack(Render(v)[1..])| <= |v| + 4
    decreases |v|, 1
  {
    hide Symbol, Wrap, ReadBack, Mapped, Render, RunLength;
    RenderHead(v);
    if Symbol(v[0]).Some? {
      LostOpening(v);
      var m := Symbol(v[0]).value.0;
      var n := RunLength(v, m);
      RunIsMode(v, m);
      var part := Wrap(m, Mapped(v[..n]))[1..n + 4];
      ReadBackPrefix(part, Render("$" + v[n..]));
      NeverLonger("$" + v[n..]);
    } else {
      NeverLonger(v[1..]);
    }
  }

  /** A plain character that opens no group is read as itself. */
  lemma HeadReadsBack(s: string)
    requires s != "" && Symbol(s[0]).None? && !OpensAndCloses(s)
    ensures ReadBack(Render(s)) == [s[0]] + ReadBack(Render(s[1..]))
  {
    hide Symbol, ReadBack, Render, Opens, ReadGroup, Closes;
    RenderHead(s);
    OpensRendered(s);
    if Opens(s) {
      OpensLength(s);
      ReadGroupRendered(s[3..], ModeOf(s));
    }
    ReadBackPlain(Render(s));
  }

  /** A text that looks like a group itself is read as something else. */
  lemma GroupIsMisread(s: string)
    requires OpensAndCloses(s)
    ensures ReadBack(Render(s)) != s
  {
    hide Symbol, Wrap, ReadBack, Mapped, Render, RunLength, ReadGroup, Closes, AfterBrace;
    PlainMarks();
    OpensLength(s);
    OpensRendered(s);
    var u, m := s[3..], ModeOf(s);
    ReadGroupRendered(u, m);
    GroupRead(u, m);
    ReadBackOpened(Render(s));
    var (symbols, rest) := ReadGroup(Render(u), m).value;
    if symbols != "" {
      assert ReadBack(Render(s))[0] == symbols[0];
    } else {
      var v := AfterBrace(u);
      assert symbols + ReadBack(rest) == ReadBack(rest);
      if Symbol(v[0]).Some? {
        LostOpening(v);
        var n := RunLength(v, Symbol(v[0]).value.0);
        var part := Wrap(Symbol(v[0]).value.0, Mapped(v[..n]))[1..n + 4];
        ReadBackPrefix(part, Render("$" + v[n..]));
        assert ReadBack(Render(s))[0] == part[0] != '$';
      } else {
        RenderHead(v);
        NeverLonger(v[1..]);
      }
    }
  }

  lemma {:induction false} HasGroupBehind(s: string, n: nat)
    requires n <= |s| && HasGroup(s) && forall i :: 0 <= i < n ==> Symbol(s[i]).Some?
    ensures HasGroup(s[n..])
  {
    PlainMarks();
    hide Symbol, Closes;
    if n > 0 {
      assert s[1..][n - 1..] == s[n..];
      assert forall i :: 0 <= i < n - 1 ==> s[1..][i] == s[i + 1];
      HasGroupBehind(s[1..], n - 1);
    } else {
      assert s[0..] == s;
    }
  }

  lemma {:induction false} GroupSomewhereIsMisread(s: string)
    requires HasGroup(s)
    ensures ReadBack(Render(s)) != s
    decreases |s|
  {
    hide Symbol, Wrap, ReadBack, Mapped, Render, RunLength, ReadGroup, Closes, AfterBrace;
    if OpensAndCloses(s) {
      GroupIsMisread(s);
    } else if Symbol(s[0]).None? {
      GroupSomewhereIsMisread(s[1..]);
      HeadReadsBack(s);
    } else {
      RenderGroup(s);
      var m := Symbol(s[0]).value.0;
      var n := RunLength(s, m);
      RunIsMode(s, m);
      HasGroupBehind(s, n);
      hide HasGroup, Opens;
      GroupSomewhereIsMisread(s[n..]);
      ReadBackGroup(s[..n], m, Render(s[n..]));
      assert s == s[..n] + s[n..];
    }
  }

  /** Reading the groups back gives the text with its minus signs as hyphens, if and only if the
      text does not itself contain something that looks like a group. */
  lemma ReadsBackExactly(s: string)
    ensures ReadBack(Normalize(s)) == Hyphens(s) <==> !HasGroup(Hyphens(s))
  {
    hide ReadBack, Render, Hyphens, HasGroup;
    if HasGroup(Hyphens(s)) {
      GroupSomewhereIsMisread(Hyphens(s));
    } else {
      ReadBackRender(Hyphens(s));
    }
  }

  /** In particular it does for a text without dollar signs. */
  lemma NormalizeReadsBack(s: string)
    requires '$' !in s
    ensures ReadBack(Normalize(s)) == Hyphens(s)
  {
    HyphensNoMinus(s);
    assert NoDollar(Hyphens(s));
    NoDollarNoGroup(Hyphens(s));
    ReadsBackExactly(s);
  }

  lemma {:induction false} NoDollarNoGroup(s: string)
    requires NoDollar(s)
    ensures !HasGroup(s)
  {
    if s != "" {
      NoDollarNoGroup(s[1..]);
    }
  }

  lemma RenderOne()
    ensures Render("\U{2081}") == "$_{1}$"
  {
    var b := "\U{2081}";
    assert Symbol(b[0]) == Some((Sub, '1'));
    RenderGroup(b);
    assert RunLength(b, Sub) == 1 && b[..1] == b && b[1..] == "";
    assert Mapped(b) == "1" by { assert b[1..] == "" && Mapped("") == ""; }
    WrapDigits(Sub, "1");
    assert Wrap(Sub, "1") + "" == "$_{1}$";
  }

  /** Two different texts may come out the same; one of them then looks like a group and is
      misread as the other. */
  lemma DollarsAreAmbiguous()
    ensures Normalize("$_{1}$") == Normalize("\U{2081}") && Hyphens("$_{1}$") != Hyphens("\U{2081}")
    ensures HasGroup("$_{1}$") && ReadBack(Normalize("$_{1}$")) != Hyphens("$_{1}$")
  {
    HyphensNothing("$_{1}$");
    HyphensNothing("\U{2081}");
    RenderPlain("$_{1}$");
    RenderOne();
    LooksLikeGroup();
    ReadsBackExactly("$_{1}$");
  }

  lemma LooksLikeGroup()
    ensures HasGroup("$_{1}$")
  {
    var s := "$_{1}$";
    assert s[3..] == "1}$" && s[3..][1..] == "}$";
    assert Closes("}$");
  }
}
