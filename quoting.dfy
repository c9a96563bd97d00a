/** Go's `%q` (strconv.Quote) and strconv.Unquote for double-quoted strings, over the
    escapes the core can produce: `\"`, `\\` and the seven single-letter control escapes. */
module Quoting {
  import opened Errors

  /** The letter of a single-letter escape for a control character, if it has one. */
  function ControlLetter(c: char): (r: Option<char>)
  {
    if c == 7 as char then Some('a')
    else if c == 8 as char then Some('b')
    else if c == 12 as char then Some('f')
    else if c == '\n' then Some('n')
    else if c == '\r' then Some('r')
    else if c == '\t' then Some('t')
    else if c == 11 as char then Some('v')
    else None
  }

  /** The character a single-character escape `\x` stands for inside double quotes. */
  function EscapedChar(x: char): (r: Option<char>)
    ensures r.Some? ==> r.value == '"' || r.value == '\\' || ControlLetter(r.value) == Some(x)
  {
    if x == '"' then Some('"')
    else if x == '\\' then Some('\\')
    else if x == 'a' then Some(7 as char)
    else if x == 'b' then Some(8 as char)
    else if x == 'f' then Some(12 as char)
    else if x == 'n' then Some('\n')
    else if x == 'r' then Some('\r')
    else if x == 't' then Some('\t')
    else if x == 'v' then Some(11 as char)
    else None
  }

  /** How one character is written between the quotes. */
  function EscapeChar(c: char): (r: string)
    ensures 1 <= |r| <= 2
    ensures |r| == 2 ==> r[0] == '\\' && EscapedChar(r[1]) == Some(c)
    ensures |r| == 1 ==> r == [c] && c != '"' && c != '\\' && c != '\n'
  {
    if c == '"' || c == '\\' then ['\\', c]
    else match ControlLetter(c)
      case Some(x) => ['\\', x]
      case None => [c]
  }

  function Escape(s: string): (r: string)
    ensures |r| >= |s|
  {
    if s == [] then [] else EscapeChar(s[0]) + Escape(s[1..])
  }

  /** strconv.Quote: the escaped text between double quotes. */
  function Quote(s: string): (r: string)
    ensures |r| >= 2 && r[0] == '"' && r[|r| - 1] == '"'
    ensures r[1..|r| - 1] == Escape(s)
  {
    ['"'] + Escape(s) + ['"']
  }

  /** Decodes the text between the quotes; a bare `"` or an unknown escape is a syntax error. */
  function Unescape(w: string): (r: Option<string>)
  {
    if w == [] then Some([])
    else if w[0] == '"' then None
    else if w[0] != '\\' then
      match Unescape(w[1..])
      case Some(rest) => Some([w[0]] + rest)
      case None => None
    else if |w| < 2 then None
    else match (EscapedChar(w[1]), Unescape(w[2..]))
      case (Some(c), Some(rest)) => Some([c] + rest)
      case _ => None
  }

  /** strconv.Unquote on a double-quoted literal: needs both quotes and no raw newline. */
  function Unquote(s: string): (r: Option<string>)
    ensures r.Some? ==> |s| >= 2 && s[0] == '"' && s[|s| - 1] == '"' && '\n' !in s[1..|s| - 1]
  {
    if |s| < 2 || s[0] != '"' || s[|s| - 1] != '"' || '\n' in s[1..|s| - 1] then None
    else Unescape(s[1..|s| - 1])
  }

  /** `v, _ := strconv.Unquote(p)`: a failed unquote quietly gives the empty string. */
  function UnquoteOrEmpty(s: string): (r: string)
    ensures Unquote(s).Some? ==> r == Unquote(s).value
    ensures Unquote(s).None? ==> r == ""
  {
    match Unquote(s)
    case Some(v) => v
    case None => ""
  }

  lemma {:induction false} EscapeAppend(a: string, b: string)
    ensures Escape(a + b) == Escape(a) + Escape(b)
  {
    if a == [] {
      assert a + b == b;
    } else {
      assert (a + b)[1..] == a[1..] + b;
      EscapeAppend(a[1..], b);
    }
  }

  /** Escaped text never holds a raw newline. */
  lemma {:induction false} EscapeHasNoNewline(s: string)
    ensures '\n' !in Escape(s)
  {
    if s != [] {
      EscapeHasNoNewline(s[1..]);
    }
  }

  /** A quoted string is always a single line. */
  lemma QuoteHasNoNewline(s: string)
    ensures '\n' !in Quote(s)
  {
    EscapeHasNoNewline(s);
    var q := Quote(s);
    forall i | 0 <= i < |q| ensures q[i] != '\n' {
      if 0 < i < |q| - 1 {
        assert q[i] == Escape(s)[i - 1];
      }
    }
  }

  lemma {:induction false} UnescapeEscape(s: string)
    ensures Unescape(Escape(s)) == Some(s)
  {
    if s != [] {
      var e := EscapeChar(s[0]);
      var w := Escape(s);
      assert w == e + Escape(s[1..]);
      UnescapeEscape(s[1..]);
      if |e| == 2 {
        assert w[2..] == Escape(s[1..]);
      } else {
        assert w[1..] == Escape(s[1..]);
      }
      assert [s[0]] + s[1..] == s;
    }
  }

  /** Unquote inverts Quote for every string. */
  lemma UnquoteQuote(s: string)
    ensures Unquote(Quote(s)) == Some(s)
  {
    EscapeHasNoNewline(s);
    UnescapeEscape(s);
  }

  /** Text that Quote copies unchanged: no quote, no backslash, no control character
      with a letter escape. */
  predicate Verbatim(s: string) {
    forall j :: 0 <= j < |s| ==> s[j] != '"' && s[j] != '\\' && ControlLetter(s[j]).None?
  }

  lemma {:induction false} EscapeVerbatim(s: string)
    requires Verbatim(s)
    ensures Escape(s) == s
    ensures Quote(s) == ['"'] + s + ['"']
    decreases s
  {
    if s != [] {
      assert Verbatim(s[1..]);
      EscapeVerbatim(s[1..]);
      assert EscapeChar(s[0]) == [s[0]];
    }
  }
}
