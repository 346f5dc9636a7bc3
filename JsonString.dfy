/** JSON string literals as the middleware writes exception messages: the escaping
    of Newtonsoft.Json's `JsonConvert.ToString(string)` with its default settings
    (Newtonsoft.Json is not part of this model; its escaping rules are written out
    here), and, as its partner, the decoding of a string body defined by section 7
    of RFC 8259. */
module JsonString {
  import opened Text

  /** Lower-case hexadecimal digit, as the escaper writes `\u` escapes. */
  function HexDigit(d: nat): (c: char)
    requires d < 16
  {
    if d < 10 then ('0' as int + d) as char else ('a' as int + d - 10) as char
  }

  /** Value of a hexadecimal digit of either case. */
  function HexDigitValue(c: char): (r: Option<nat>)
    ensures r.Some? ==> r.value < 16
  {
    if '0' <= c <= '9' then Some(c as int - '0' as int)
    else if 'a' <= c <= 'f' then Some(c as int - 'a' as int + 10)
    else if 'A' <= c <= 'F' then Some(c as int - 'A' as int + 10)
    else None
  }

  lemma HexDigitRoundTrip(d: nat)
    requires d < 16
    ensures HexDigitValue(HexDigit(d)) == Some(d)
  {
  }

  /** Four hexadecimal digits of a code unit, most significant first. */
  function Hex4(n: nat): (r: string)
    requires n < 0x1_0000
    ensures |r| == 4
  {
    [HexDigit(n / 0x1000), HexDigit(n / 0x100 % 16), HexDigit(n / 16 % 16), HexDigit(n % 16)]
  }

  /** The value of four hexadecimal digits. */
  function HexQuad(s: string): (r: Option<nat>)
    requires |s| == 4
    ensures r.Some? ==> r.value < 0x1_0000
  {
    var a, b, c, d := HexDigitValue(s[0]), HexDigitValue(s[1]), HexDigitValue(s[2]), HexDigitValue(s[3]);
    if a.None? || b.None? || c.None? || d.None? then None
    else Some(0x1000 * a.value + 0x100 * b.value + 16 * c.value + d.value)
  }

  lemma Hex4RoundTrip(n: nat)
    requires n < 0x1_0000
    ensures HexQuad(Hex4(n)) == Some(n)
  {
    HexDigitRoundTrip(n / 0x1000);
    HexDigitRoundTrip(n / 0x100 % 16);
    HexDigitRoundTrip(n / 16 % 16);
    HexDigitRoundTrip(n % 16);
    Hex4Digits(n);
  }

  /** The four digits, weighted by position, add up to the number. */
  lemma Hex4Digits(n: nat)
    requires n < 0x1_0000
    ensures n == 0x1000 * (n / 0x1000) + 0x100 * (n / 0x100 % 16) + 16 * (n / 16 % 16) + n % 16
  {
    var q1 := n / 16;
    var q2 := q1 / 16;
    var q3 := q2 / 16;
    assert n == 16 * q1 + n % 16;
    assert q1 == 16 * q2 + q1 % 16;
    assert q2 == 16 * q3 + q2 % 16;
    assert q2 == n / 0x100;
    assert q3 == n / 0x1000;
  }

  /** Characters written as `\u` and four digits: control characters without a
      short escape, NEXT LINE, LINE SEPARATOR and PARAGRAPH SEPARATOR. */
  predicate NeedsUnicodeEscape(c: char) {
    (c < ' ' && c != '\U{8}' && c != '\t' && c != '\n' && c != '\U{c}' && c != '\r') ||
    c == '\U{85}' || c == '\U{2028}' || c == '\U{2029}'
  }

  /** The escape of one character. */
  function EscapeChar(c: char): (r: string)
    ensures r != [] && r[0] != '"'
    ensures r[|r| - 1] == '"' <==> c == '"'
  {
    match c
    case '"' => ['\\', '"']
    case '\\' => ['\\', '\\']
    case '\n' => ['\\', 'n']
    case '\r' => ['\\', 'r']
    case '\t' => ['\\', 't']
    case '\U{8}' => ['\\', 'b']
    case '\U{c}' => ['\\', 'f']
    case _ => if NeedsUnicodeEscape(c) then ['\\', 'u'] + Hex4(c as int) else [c]
  }

  lemma EscapeCharPrintable(c: char)
    ensures forall k :: 0 <= k < |EscapeChar(c)| ==> EscapeChar(c)[k] >= ' '
  {
    if NeedsUnicodeEscape(c) && c != '\U{8}' && c != '\t' && c != '\n' && c != '\U{c}' && c != '\r' {
      var n := c as int;
      assert EscapeChar(c) == ['\\', 'u', HexDigit(n / 0x1000), HexDigit(n / 0x100 % 16), HexDigit(n / 16 % 16), HexDigit(n % 16)];
    }
  }

  /** The text between the delimiters of `JsonConvert.ToString(s)`. */
  function Escape(s: string): (r: string)
    ensures |r| >= |s|
    ensures r != [] ==> r[0] != '"'
  {
    if s == [] then [] else EscapeChar(s[0]) + Escape(s[1..])
  }

  /** The escaped text holds no control character, so it fits on one line. */
  lemma {:induction false} EscapePrintable(s: string)
    ensures forall k :: 0 <= k < |Escape(s)| ==> Escape(s)[k] >= ' '
    decreases |s|
  {
    if s != [] {
      EscapePrintable(s[1..]);
      var e, c := Escape(s[1..]), EscapeChar(s[0]);
      assert Escape(s) == c + e;
      EscapeCharPrintable(s[0]);
      forall k | 0 <= k < |c + e|
        ensures (c + e)[k] >= ' '
      {
        if k >= |c| {
          assert (c + e)[k] == e[k - |c|];
        }
      }
    }
  }

  /** `JsonConvert.ToString(s)`: the escaped text between double quotes. */
  function Quote(s: string): (r: string) {
    ['"'] + Escape(s) + ['"']
  }

  lemma {:induction false} EscapeAppend(s: string, c: char)
    ensures Escape(s + [c]) == Escape(s) + EscapeChar(c)
    decreases |s|
  {
    if s != [] {
      assert (s + [c])[1..] == s[1..] + [c];
      EscapeAppend(s[1..], c);
    }
  }

  /** Escaping works character by character. */
  lemma {:induction false} EscapeConcat(a: string, b: string)
    ensures Escape(a + b) == Escape(a) + Escape(b)
    decreases |a|
  {
    if a != [] {
      assert Escape(a + b) == EscapeChar(a[0]) + Escape(a[1..] + b) by {
        assert (a + b)[1..] == a[1..] + b;
      }
      EscapeConcat(a[1..], b);
      assert EscapeChar(a[0]) + (Escape(a[1..]) + Escape(b)) == (EscapeChar(a[0]) + Escape(a[1..])) + Escape(b);
    } else {
      assert a + b == b;
    }
  }

  /** A character the escaper writes as it is. */
  predicate Plain(c: char) {
    c >= ' ' && c != '"' && c != '\\' && !NeedsUnicodeEscape(c)
  }

  lemma {:induction false} EscapePlain(s: string)
    requires forall k :: 0 <= k < |s| ==> Plain(s[k])
    ensures Escape(s) == s
    decreases |s|
  {
    if s != [] {
      EscapePlain(s[1..]);
      assert s == [s[0]] + s[1..];
    }
  }

  /** The escaped text ends with a quote exactly when the message does; it is then
      the escaped quote, a backslash and a quote. */
  lemma EscapeEnd(s: string)
    ensures var e := Escape(s);
      (e != [] && e[|e| - 1] == '"') <==> (s != [] && s[|s| - 1] == '"')
    ensures var e := Escape(s);
      s != [] && s[|s| - 1] == '"' ==> |e| >= 2 && e[|e| - 2] == '\\'
  {
    if s != [] {
      var front, last := s[..|s| - 1], s[|s| - 1];
      assert s == front + [last];
      EscapeAppend(front, last);
    }
  }

  /** A decoded character in front of a decoded rest. */
  function Prepend(c: char, rest: Option<string>): (r: Option<string>)
    ensures r.Some? <==> rest.Some?
  {
    if rest.None? then None else Some([c] + rest.value)
  }

  /** The character a two-character escape stands for. */
  function ShortEscape(c: char): Option<char> {
    match c
    case '"' => Some('"')
    case '\\' => Some('\\')
    case '/' => Some('/')
    case 'b' => Some('\U{8}')
    case 'f' => Some('\U{c}')
    case 'n' => Some('\n')
    case 'r' => Some('\r')
    case 't' => Some('\t')
    case _ => None
  }

  /** Decodes the text between the delimiters of a JSON string; `None` when it is
      not well formed (an unescaped quote or control character, an unknown or
      unfinished escape, or an escaped surrogate, whose pairing this decoder does
      not handle). */
  function Unescape(t: string): (r: Option<string>)
    decreases |t|
  {
    if t == [] then Some([])
    else if t[0] == '"' || t[0] < ' ' then None
    else if t[0] != '\\' then Prepend(t[0], Unescape(t[1..]))
    else if |t| < 2 then None
    else if t[1] == 'u' then
      if |t| < 6 then None
      else
        var v := HexQuad(t[2..6]);
        if v.None? || 0xD800 <= v.value <= 0xDFFF then None
        else Prepend(v.value as char, Unescape(t[6..]))
    else
      var c := ShortEscape(t[1]);
      if c.None? then None else Prepend(c.value, Unescape(t[2..]))
  }

  lemma UnescapeEscapeChar(c: char, tail: string)
    ensures Unescape(EscapeChar(c) + tail) == Prepend(c, Unescape(tail))
  {
    var t := EscapeChar(c) + tail;
    if NeedsUnicodeEscape(c) && c != '\U{8}' && c != '\t' && c != '\n' && c != '\U{c}' && c != '\r' {
      assert t[2..6] == Hex4(c as int);
      assert t[6..] == tail;
      Hex4RoundTrip(c as int);
    } else if c == '"' || c == '\\' || c == '\n' || c == '\r' || c == '\t' || c == '\U{8}' || c == '\U{c}' {
      assert t[2..] == tail;
    } else {
      assert t[1..] == tail;
    }
  }

  /** Decoding undoes escaping, whatever follows the escaped text. */
  lemma {:induction false} UnescapeEscapeAppend(s: string, rest: string)
    ensures Unescape(Escape(s) + rest) == if Unescape(rest).None? then None else Some(s + Unescape(rest).value)
    decreases |s|
  {
    if s == [] {
      assert Escape(s) + rest == rest;
      if Unescape(rest).Some? {
        assert s + Unescape(rest).value == Unescape(rest).value;
      }
    } else {
      var head, tail := s[0], s[1..];
      var t := Escape(tail) + rest;
      assert Unescape(Escape(s) + rest) == Prepend(head, Unescape(t)) by {
        assert Escape(s) + rest == EscapeChar(head) + t;
        UnescapeEscapeChar(head, t);
      }
      UnescapeEscapeAppend(tail, rest);
      PrependRest(s, Unescape(rest));
    }
  }

  lemma PrependRest(s: string, r: Option<string>)
    requires s != []
    ensures Prepend(s[0], if r.None? then None else Some(s[1..] + r.value)) ==
      if r.None? then None else Some(s + r.value)
  {
    if r.Some? {
      assert [s[0]] + (s[1..] + r.value) == s + r.value;
    }
  }

  lemma EscapeRoundTrip(s: string)
    ensures Unescape(Escape(s)) == Some(s)
  {
    assert Escape(s) + [] == Escape(s);
    UnescapeEscapeAppend(s, []);
    assert s + [] == s;
  }

  /** The lines an exception message must not break: carriage return, line feed
      and tab come out as their two-character escapes. */
  lemma EscapeLineBreaks()
    ensures Escape("a\r\nb\t") == ['a', '\\', 'r', '\\', 'n', 'b', '\\', 't']
  {
    assert Escape("\t") == ['\\', 't'];
    assert Escape("b\t") == ['b', '\\', 't'];
    assert Escape("\nb\t") == ['\\', 'n', 'b', '\\', 't'];
    assert Escape("\r\nb\t") == ['\\', 'r', '\\', 'n', 'b', '\\', 't'];
  }
}
