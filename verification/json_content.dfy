/** The one JSON shape the chat stream carries, `{"content": <string>}`: an encoder that writes
    it the way Python's `json.dumps` does (backend/app.py) and a recogniser that reads it the way
    JavaScript's `JSON.parse` followed by `.content` does (frontend/src/ChatComponent.tsx). */
module JsonContent {
  import opened Wrappers

  /** The four characters JSON allows between tokens. */
  predicate IsJsonSpace(c: char)
  {
    c == ' ' || c == '\t' || c == '\n' || c == '\r'
  }

  /** Drops the JSON whitespace at the front of `s`; what is left does not start with
      whitespace. */
  function SkipSpace(s: string): (r: string)
    ensures |r| == 0 || !IsJsonSpace(r[0])
  {
    if |s| > 0 && IsJsonSpace(s[0]) then SkipSpace(s[1..]) else s
  }

  /** Lower-case hexadecimal digit for a value below 16, as `json.dumps` writes in `\uXXXX`. */
  function HexDigit(n: nat): (d: char)
    requires n < 16
    ensures '0' <= d <= '9' || 'a' <= d <= 'f'
  {
    if n < 10 then ('0' as int + n) as char else ('a' as int + n - 10) as char
  }

  /** A hexadecimal digit reads back as the value it was written for. */
  lemma HexDigitRoundTrip(n: nat)
    requires n < 16
    ensures HexValue(HexDigit(n)) == Some(n)
  {
  }

  /** The value of a hexadecimal digit of either case, as JSON.parse reads `\uXXXX`. */
  function HexValue(c: char): (r: Option<nat>)
    ensures r.Some? ==> r.value < 16
  {
    if '0' <= c <= '9' then Some(c as int - '0' as int)
    else if 'a' <= c <= 'f' then Some(c as int - 'a' as int + 10)
    else if 'A' <= c <= 'F' then Some(c as int - 'A' as int + 10)
    else None
  }

  /** The four lower-case hexadecimal digits of a 16-bit code unit, most significant first. */
  function Hex4(n: nat): (r: string)
    requires n < 0x10000
    ensures |r| == 4
    ensures forall i | 0 <= i < 4 :: '0' <= r[i] <= 'f'
  {
    [HexDigit(n / 0x1000), HexDigit(n / 0x100 % 16), HexDigit(n / 16 % 16), HexDigit(n % 16)]
  }

  /** Four hexadecimal digits read back as the code unit they were written for. */
  lemma Hex4RoundTrip(n: nat)
    requires n < 0x10000
    ensures Hex4Value(Hex4(n)) == Some(n)
  {
    var q3 := n / 16;
    var q2 := q3 / 16;
    var q1 := q2 / 16;
    assert n / 0x100 == q2 && n / 0x1000 == q1;
    HexDigitRoundTrip(q1);
    HexDigitRoundTrip(q2 % 16);
    HexDigitRoundTrip(q3 % 16);
    HexDigitRoundTrip(n % 16);
    assert ((q1 * 16 + q2 % 16) * 16 + q3 % 16) * 16 + n % 16 == n;
  }

  /** The 16-bit code unit four hexadecimal digits spell, if they all are digits. */
  function Hex4Value(s: string): (r: Option<nat>)
    requires |s| == 4
    ensures r.Some? ==> r.value < 0x10000
  {
    match (HexValue(s[0]), HexValue(s[1]), HexValue(s[2]), HexValue(s[3]))
    case (Some(d1), Some(d2), Some(d3), Some(d4)) => Some(((d1 * 16 + d2) * 16 + d3) * 16 + d4)
    case _ => None
  }

  /** How `json.dumps`, with its default `ensure_ascii`, writes one character inside a string
      literal: the quote and the backslash escaped, five control characters by their short
      escape, the rest of printable ASCII as itself, any other character of the Basic
      Multilingual Plane as `\uXXXX`, and a character beyond it as the `\uXXXX\uXXXX` of its
      UTF-16 surrogate pair. The result is printable ASCII throughout. */
  function EscapeChar(c: char): (r: string)
    ensures |r| >= 1
    ensures forall i | 0 <= i < |r| :: ' ' <= r[i] <= '~'
    ensures r[0] != '"'
    ensures r == [c] <==> ' ' <= c <= '~' && c != '"' && c != '\\'
  {
    if c == '"' then "\\\""
    else if c == '\\' then "\\\\"
    else if c == '\n' then "\\n"
    else if c == '\r' then "\\r"
    else if c == '\t' then "\\t"
    else if c == '\U{0008}' then "\\b"
    else if c == '\U{000C}' then "\\f"
    else if ' ' <= c <= '~' then [c]
    else if c as int < 0x10000 then "\\u" + Hex4(c as int)
    else
      var v := c as int - 0x10000;
      "\\u" + Hex4(0xD800 + v / 0x400) + "\\u" + Hex4(0xDC00 + v % 0x400)
  }

  /** The body of a JSON string literal for `s`; it is printable ASCII throughout, so in
      particular holds no line break. */
  function EscapeString(s: string): (r: string)
    ensures |r| >= |s|
    ensures forall i | 0 <= i < |r| :: ' ' <= r[i] <= '~'
  {
    if |s| == 0 then "" else EscapeChar(s[0]) + EscapeString(s[1..])
  }

  /** `json.dumps({'content': c})`: one object with one member, `": "` after the key. */
  function EncodeContent(c: string): (r: string)
    ensures |r| > 0 && r[0] == '{'
    ensures forall i | 0 <= i < |r| :: ' ' <= r[i] <= '~'
  {
    "{\"content\": \"" + EscapeString(c) + "\"}"
  }

  /** Reads one escape sequence; `t` is what follows the backslash. Gives the character meant
      and the number of characters of `t` the escape used. A `\uXXXX` naming a high
      surrogate must be followed by a `\uXXXX` naming a low one, and the pair stands for one
      character beyond the Basic Multilingual Plane; a surrogate on its own is refused. */
  function Unescape(t: string): (r: Option<(char, nat)>)
    ensures r.Some? ==> 1 <= r.value.1 <= |t|
  {
    if |t| == 0 then None
    else if t[0] == '"' then Some(('"', 1))
    else if t[0] == '\\' then Some(('\\', 1))
    else if t[0] == '/' then Some(('/', 1))
    else if t[0] == 'b' then Some(('\U{0008}', 1))
    else if t[0] == 'f' then Some(('\U{000C}', 1))
    else if t[0] == 'n' then Some(('\n', 1))
    else if t[0] == 'r' then Some(('\r', 1))
    else if t[0] == 't' then Some(('\t', 1))
    else if t[0] == 'u' && |t| >= 5 then
      match Hex4Value(t[1..5])
      case None => None
      case Some(n) =>
        if n < 0xD800 || 0xE000 <= n then Some((n as char, 5))
        else if 0xDC00 <= n || |t| < 11 || t[5] != '\\' || t[6] != 'u' then None
        else
          match Hex4Value(t[7..11])
          case None => None
          case Some(m) =>
            if m < 0xDC00 || 0xE000 <= m then None
            else Some(((0x10000 + (n - 0xD800) * 0x400 + (m - 0xDC00)) as char, 11))
    else None
  }

  /** Reads the rest of a string literal whose opening quote is already consumed: the decoded
      text and what follows the closing quote, or None when the literal is malformed (an
      unknown escape, a raw control character, no closing quote). */
  function ParseString(s: string): (r: Option<(string, string)>)
    ensures r.Some? ==> |r.value.1| < |s| && r.value.1 == s[|s| - |r.value.1|..]
    decreases |s|
  {
    if |s| == 0 then None
    else if s[0] == '"' then Some(([], s[1..]))
    else if s[0] == '\\' then ParseEscape(s[1..])
    else if s[0] < ' ' then None
    else
      match ParseString(s[1..])
      case None => None
      case Some((v, rest)) => Some(([s[0]] + v, rest))
  }

  /** The rest of a string literal right after a backslash: the escape, then the rest of the
      literal. */
  function ParseEscape(t: string): (r: Option<(string, string)>)
    ensures r.Some? ==> |r.value.1| < |t| && r.value.1 == t[|t| - |r.value.1|..]
    decreases |t|
  {
    match Unescape(t)
    case None => None
    case Some((c, k)) =>
      match ParseString(t[k..])
      case None => None
      case Some((v, rest)) => Some(([c] + v, rest))
  }

  /** `JSON.parse(p).content` for the `{"content": <string>}` shape: whitespace is allowed
      around every token; anything else is a parse failure. */
  function ParseContent(p: string): Option<string>
  {
    var s := SkipSpace(p);
    if |s| == 0 || s[0] != '{' then None else ParseMember(SkipSpace(s[1..]))
  }

  /** Like `JSON.parse`, the reading ignores JSON white space in front of the payload. */
  lemma ParseContentSkipsSpace(ws: string, p: string)
    requires forall i | 0 <= i < |ws| :: IsJsonSpace(ws[i])
    ensures ParseContent(ws + p) == ParseContent(p)
  {
    SkipLeadingSpace(ws, p);
  }

  /** The single member of the object, from its key on. */
  function ParseMember(s: string): Option<string>
  {
    if !("\"content\"" <= s) then None else
    var s := SkipSpace(s[9..]);
    if |s| == 0 || s[0] != ':' then None else ParseValue(SkipSpace(s[1..]))
  }

  /** The member's string value and the end of the object. */
  function ParseValue(s: string): Option<string>
  {
    if |s| == 0 || s[0] != '"' then None else
    match ParseString(s[1..])
    case None => None
    case Some((v, rest)) =>
      var s := SkipSpace(rest);
      if |s| == 0 || s[0] != '}' || SkipSpace(s[1..]) != [] then None else Some(v)
  }

  /** Reading back one escaped character peels exactly that character off the front. */
  lemma ParseEscapedChar(c: char, t: string)
    ensures ParseString(EscapeChar(c) + t) ==
      match ParseString(t)
      case None => None
      case Some((v, rest)) => Some(([c] + v, rest))
  {
    if ' ' <= c <= '~' && c != '"' && c != '\\' {
      assert EscapeChar(c) == [c];
      assert (EscapeChar(c) + t)[1..] == t;
    } else if c == '"' || c == '\\' || c == '\n' || c == '\r' || c == '\t' || c == '\U{0008}' || c == '\U{000C}' {
      var e := EscapeChar(c);
      assert |e| == 2 && e[0] == '\\';
      ParseShortEscape(e[1], c, t);
      assert e == ['\\', e[1]];
    } else if c as int < 0x10000 {
      ParseUnitEscape(c, t);
    } else {
      ParsePairEscape(c, t);
    }
  }

  /** A two-character escape reads back as the character it stands for. */
  lemma ParseShortEscape(e: char, c: char, t: string)
    requires Unescape([e] + t) == Some((c, 1))
    ensures ParseString(['\\', e] + t) ==
      match ParseString(t)
      case None => None
      case Some((v, rest)) => Some(([c] + v, rest))
  {
    var s := ['\\', e] + t;
    assert s[1..] == [e] + t;
    assert s[2..] == t;
  }

  /** A `\uXXXX` escape of a character of the Basic Multilingual Plane reads back as that
      character. */
  lemma ParseUnitEscape(c: char, t: string)
    requires c as int < 0x10000
    ensures ParseString("\\u" + Hex4(c as int) + t) ==
      match ParseString(t)
      case None => None
      case Some((v, rest)) => Some(([c] + v, rest))
  {
    var h := Hex4(c as int);
    Hex4RoundTrip(c as int);
    var s := "\\u" + h + t;
    assert s[1..][1..5] == h;
    assert Unescape(s[1..]) == Some((c, 5));
    assert s[6..] == t;
  }

  /** The surrogate-pair escape of a character beyond the Basic Multilingual Plane reads back
      as that one character. */
  lemma ParsePairEscape(c: char, t: string)
    requires 0x10000 <= c as int
    ensures var v := c as int - 0x10000;
      ParseString("\\u" + Hex4(0xD800 + v / 0x400) + "\\u" + Hex4(0xDC00 + v % 0x400) + t) ==
      match ParseString(t)
      case None => None
      case Some((w, rest)) => Some(([c] + w, rest))
  {
    var v := c as int - 0x10000;
    var hi, lo := 0xD800 + v / 0x400, 0xDC00 + v % 0x400;
    var s := "\\u" + Hex4(hi) + "\\u" + Hex4(lo) + t;
    var u := s[1..];
    Hex4RoundTrip(hi);
    Hex4RoundTrip(lo);
    assert u[1..5] == Hex4(hi) && u[5] == '\\' && u[6] == 'u' && u[7..11] == Hex4(lo);
    assert 0x10000 + (hi - 0xD800) * 0x400 + (lo - 0xDC00) == c as int;
    assert Unescape(u) == Some((c, 11));
    assert s[12..] == t;
  }

  /** Round trip of a string literal: the escaped body, the closing quote and any suffix read
      back as the original text and that suffix. */
  lemma {:induction false} ParseEscapedString(s: string, rest: string)
    ensures ParseString(EscapeString(s) + "\"" + rest) == Some((s, rest))
    decreases |s|
  {
    if |s| == 0 {
      assert EscapeString(s) + "\"" + rest == "\"" + rest;
    } else {
      var t := EscapeString(s[1..]) + "\"" + rest;
      assert ParseString(t) == Some((s[1..], rest)) by {
        ParseEscapedString(s[1..], rest);
      }
      assert EscapeString(s) + "\"" + rest == EscapeChar(s[0]) + t by {
        assert EscapeString(s) == EscapeChar(s[0]) + EscapeString(s[1..]);
      }
      assert ParseString(EscapeChar(s[0]) + t) == Some(([s[0]] + s[1..], rest)) by {
        ParseEscapedChar(s[0], t);
      }
      assert [s[0]] + s[1..] == s;
    }
  }

  /** Whitespace in front of a text is skipped whatever it is. */
  lemma {:induction false} SkipLeadingSpace(ws: string, s: string)
    requires forall i | 0 <= i < |ws| :: IsJsonSpace(ws[i])
    ensures SkipSpace(ws + s) == SkipSpace(s)
    decreases |ws|
  {
    if |ws| > 0 {
      assert (ws + s)[1..] == ws[1..] + s;
      SkipLeadingSpace(ws[1..], s);
    } else {
      assert ws + s == s;
    }
  }

  /** What the encoder writes, behind any JSON whitespace, parses back to the content it
      encoded. */
  lemma ParseEncodedContent(ws: string, c: string)
    requires forall i | 0 <= i < |ws| :: IsJsonSpace(ws[i])
    ensures ParseContent(ws + EncodeContent(c)) == Some(c)
  {
    var value := "\"" + EscapeString(c) + "\"" + "}";
    var member := "\"content\"" + ": " + value;
    assert ws + EncodeContent(c) == ws + "{" + member;
    ObjectOpened(ws, member);
    assert SkipSpace(member) == member;
    ParseEncodedMember(value);
    ParseEncodedValue(c);
  }

  /** Behind any whitespace, an opening brace hands what follows it to the member reader. */
  lemma ObjectOpened(ws: string, body: string)
    requires forall i | 0 <= i < |ws| :: IsJsonSpace(ws[i])
    ensures ParseContent(ws + "{" + body) == ParseMember(SkipSpace(body))
  {
    SkipLeadingSpace(ws, "{" + body);
    assert ws + "{" + body == ws + ("{" + body);
    assert ("{" + body)[1..] == body;
  }

  lemma ParseEncodedMember(value: string)
    requires |value| > 0 && value[0] == '"'
    ensures ParseMember("\"content\"" + ": " + value) == ParseValue(value)
  {
    var s := "\"content\"" + ": " + value;
    assert SkipSpace(s) == s;
    assert s[9..] == ": " + value;
    assert (": " + value)[1..] == " " + value;
    SkipLeadingSpace(" ", value);
  }

  lemma ParseEncodedValue(c: string)
    ensures ParseValue("\"" + EscapeString(c) + "\"" + "}") == Some(c)
  {
    var s := "\"" + EscapeString(c) + "\"" + "}";
    assert ParseString(s[1..]) == Some((c, "}")) by {
      assert s[1..] == EscapeString(c) + "\"" + "}";
      ParseEscapedString(c, "}");
    }
    ClosedValue(s, c);
  }

  /** A string value followed directly by the closing brace is the member's value. */
  lemma ClosedValue(s: string, v: string)
    requires |s| > 0 && s[0] == '"' && ParseString(s[1..]) == Some((v, "}"))
    ensures ParseValue(s) == Some(v)
  {
    assert SkipSpace("}") == "}";
    assert "}"[1..] == [];
  }

  /** The end-of-stream sentinel, as the client sees it behind the space the server writes,
      is not JSON of this shape. */
  lemma SpacedSentinelIsNotContent()
    ensures ParseContent(" [DONE]") == None
  {
    SkipLeadingSpace(" ", "[DONE]");
    assert SkipSpace("[DONE]") == "[DONE]";
  }
}
