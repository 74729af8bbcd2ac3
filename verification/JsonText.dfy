/** JSON strings and objects of strings as `json.dumps(…, ensure_ascii=False)` writes them
    (sections 4 and 7 of RFC 8259): why one event fits on one line. The decoder here reads exactly
    what is written; it need not accept other spellings. */
module JsonText {
  import opened Basics

  const HEX: string := "0123456789abcdef"

  function HexDigit(n: nat): (c: char)
    requires n < 16
  {
    HEX[n]
  }

  function HexValue(c: char): Option<nat> {
    if '0' <= c <= '9' then Some(c as int - '0' as int)
    else if 'a' <= c <= 'f' then Some(c as int - 'a' as int + 10)
    else if 'A' <= c <= 'F' then Some(c as int - 'A' as int + 10)
    else None
  }

  lemma HexRoundTrip(n: nat)
    requires n < 16
    ensures HexValue(HexDigit(n)) == Some(n)
  {
    assert n == 0 || n == 1 || n == 2 || n == 3 || n == 4 || n == 5 || n == 6 || n == 7
        || n == 8 || n == 9 || n == 10 || n == 11 || n == 12 || n == 13 || n == 14 || n == 15;
  }

  function Escape(c: char): (r: string)
    ensures r != "" && '\n' !in r
  {
    if c == '"' then "\\\""
    else if c == '\\' then "\\\\"
    else if c == '\n' then "\\n"
    else if c == '\r' then "\\r"
    else if c == '\t' then "\\t"
    else if c == '\U{0C}' then "\\f"
    else if c == '\U{08}' then "\\b"
    else if c < ' ' then "\\u00" + [HexDigit(c as int / 16), HexDigit(c as int % 16)]
    else [c]
  }

  function EscapeAll(s: string): (r: string)
    ensures '\n' !in r
  {
    if s == "" then "" else Escape(s[0]) + EscapeAll(s[1..])
  }

  /** The text between the quotes and around it. */
  function Quote(s: string): (r: string)
    ensures '\n' !in r
  {
    "\"" + EscapeAll(s) + "\""
  }

  /** One character off the front of the inside of a string, and how much of it that took. */
  function ReadChar(s: string): (r: Option<(char, nat)>)
    ensures r.Some? ==> 0 < r.value.1 <= |s|
  {
    if s == "" || s[0] == '"' || s[0] < ' ' then None
    else if s[0] != '\\' then Some((s[0], 1))
    else if |s| < 2 then None
    else if s[1] == 'u' then ReadHex(s)
    else
      match Short(s[1])
      case Some(c) => Some((c, 2))
      case None => None
  }

  function Short(c: char): Option<char> {
    if c == '"' || c == '\\' || c == '/' then Some(c)
    else if c == 'n' then Some('\n')
    else if c == 'r' then Some('\r')
    else if c == 't' then Some('\t')
    else if c == 'f' then Some('\U{0C}')
    else if c == 'b' then Some('\U{08}')
    else None
  }

  /** A \u escape for one of the first 256 characters, the only ones that are written so. */
  function ReadHex(s: string): (r: Option<(char, nat)>)
    requires |s| >= 2
    ensures r.Some? ==> r.value.1 == 6 <= |s|
  {
    if |s| < 6 || s[2] != '0' || s[3] != '0' || HexValue(s[4]).None? || HexValue(s[5]).None? then None
    else Some(((HexValue(s[4]).value * 16 + HexValue(s[5]).value) as char, 6))
  }

  /** The characters up to the closing quote, and what follows it. */
  function ReadInside(s: string): (r: Option<(string, string)>)
    ensures r.Some? ==> |r.value.1| < |s|
    decreases |s|
  {
    if s != "" && s[0] == '"' then Some(("", s[1..]))
    else
      match ReadChar(s)
      case None => None
      case Some((c, n)) =>
        (match ReadInside(s[n..])
         case None => None
         case Some((text, rest)) => Some(([c] + text, rest)))
  }

  /** A string off the front. */
  function ReadString(s: string): (r: Option<(string, string)>)
    ensures r.Some? ==> |r.value.1| < |s|
  {
    if s == "" || s[0] != '"' then None else ReadInside(s[1..])
  }

  lemma ReadEscaped(c: char, rest: string)
    ensures ReadChar(Escape(c) + rest) == Some((c, |Escape(c)|))
  {
    var s := Escape(c) + rest;
    if c < ' ' {
      if c != '\n' && c != '\r' && c != '\t' && c != '\U{0C}' && c != '\U{08}' {
        HexRoundTrip(c as int / 16);
        HexRoundTrip(c as int % 16);
        assert s[4] == HexDigit(c as int / 16) && s[5] == HexDigit(c as int % 16);
        assert (c as int / 16 * 16 + c as int % 16) as char == c;
      }
    }
  }

  lemma {:induction false} ReadEscapedAll(s: string, rest: string)
    ensures ReadInside(EscapeAll(s) + "\"" + rest) == Some((s, rest))
  {
    hide ReadChar, Escape;
    var tail := EscapeAll(s) + "\"" + rest;
    if s == "" {
      assert tail == "\"" + rest;
      assert tail[1..] == rest;
    } else {
      var more := EscapeAll(s[1..]) + "\"" + rest;
      assert tail == Escape(s[0]) + more;
      ReadEscaped(s[0], more);
      ReadEscapedAll(s[1..], rest);
      assert tail[|Escape(s[0])|..] == more;
      assert s == [s[0]] + s[1..];
      NotAQuote(s[0], more);
    }
  }

  lemma NotAQuote(c: char, rest: string)
    ensures (Escape(c) + rest)[0] != '"'
  {}

  /** Whatever the string holds, its JSON form is one line and reads back exactly, whatever
      follows. */
  lemma QuoteRoundTrip(s: string, rest: string)
    ensures '\n' !in Quote(s)
    ensures ReadString(Quote(s) + rest) == Some((s, rest))
  {
    ReadEscapedAll(s, rest);
    assert (Quote(s) + rest)[1..] == EscapeAll(s) + "\"" + rest;
  }

  // ---------- Objects ----------

  datatype Member = Member(key: string, value: string)

  function EncodeMember(m: Member): string {
    Quote(m.key) + ": " + Quote(m.value)
  }

  /** The members after the first, each behind its comma, and the closing brace. */
  function EncodeRest(ms: seq<Member>): string {
    if ms == [] then "}" else ", " + EncodeMember(ms[0]) + EncodeRest(ms[1..])
  }

  function EncodeObject(ms: seq<Member>): string {
    if ms == [] then "{}" else "{" + EncodeMember(ms[0]) + EncodeRest(ms[1..])
  }

  function ReadMember(s: string): (r: Option<(Member, string)>)
    ensures r.Some? ==> |r.value.1| < |s|
  {
    match ReadString(s)
    case None => None
    case Some((key, after)) =>
      if |after| < 2 || after[0] != ':' || after[1] != ' ' then None
      else
        match ReadString(after[2..])
        case None => None
        case Some((value, rest)) => Some((Member(key, value), rest))
  }

  function ReadRest(s: string): Option<seq<Member>>
    decreases |s|
  {
    if s == "}" then Some([])
    else if |s| < 2 || s[0] != ',' || s[1] != ' ' then None
    else
      match ReadMember(s[2..])
      case None => None
      case Some((m, rest)) =>
        (match ReadRest(rest)
         case None => None
         case Some(ms) => Some([m] + ms))
  }

  function DecodeObject(s: string): Option<seq<Member>> {
    if s == "{}" then Some([])
    else if s == "" || s[0] != '{' then None
    else
      match ReadMember(s[1..])
      case None => None
      case Some((m, rest)) =>
        (match ReadRest(rest)
         case None => None
         case Some(ms) => Some([m] + ms))
  }

  lemma MemberRoundTrip(m: Member, rest: string)
    ensures '\n' !in EncodeMember(m)
    ensures ReadMember(EncodeMember(m) + rest) == Some((m, rest))
  {
    hide Quote, ReadString;
    var after := ": " + Quote(m.value) + rest;
    QuoteRoundTrip(m.key, after);
    QuoteRoundTrip(m.value, rest);
    assert EncodeMember(m) + rest == Quote(m.key) + after;
    assert after[2..] == Quote(m.value) + rest;
  }

  lemma {:induction false} RestRoundTrip(ms: seq<Member>)
    ensures '\n' !in EncodeRest(ms)
    ensures ReadRest(EncodeRest(ms)) == Some(ms)
  {
    hide EncodeMember, ReadMember;
    if ms != [] {
      var s, tail := EncodeRest(ms), EncodeRest(ms[1..]);
      MemberRoundTrip(ms[0], tail);
      RestRoundTrip(ms[1..]);
      assert s == ", " + (EncodeMember(ms[0]) + tail);
      assert s[2..] == EncodeMember(ms[0]) + tail;
      assert s[0] == ',' && "}"[0] == '}';
      assert ms == [ms[0]] + ms[1..];
    }
  }

  /** The JSON form of an object of strings is one line and reads back exactly. */
  lemma ObjectRoundTrip(ms: seq<Member>)
    ensures '\n' !in EncodeObject(ms)
    ensures DecodeObject(EncodeObject(ms)) == Some(ms)
  {
    hide EncodeMember, ReadMember, ReadRest, EncodeRest;
    if ms != [] {
      var s, tail := EncodeObject(ms), EncodeRest(ms[1..]);
      MemberRoundTrip(ms[0], tail);
      RestRoundTrip(ms[1..]);
      assert s == "{" + (EncodeMember(ms[0]) + tail);
      assert s[1..] == EncodeMember(ms[0]) + tail;
      MemberStarts(ms[0], tail);
      assert s[1] == '"' && "{}"[1] == '}';
      assert ms == [ms[0]] + ms[1..];
    }
  }

  lemma MemberStarts(m: Member, rest: string)
    ensures (EncodeMember(m) + rest)[0] == '"'
  {}
}
