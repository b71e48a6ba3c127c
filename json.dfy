/**
 * `json.dumps` on a `str` with the default `ensure_ascii=True`, as `write_locations`
 * (scripts/make_amsterdam_locations.py) uses it, and a JSON string reader that undoes it.
 */
module Json {
  import opened Wrappers
  import opened Text

  const Backspace: char := '\U{0008}'
  const FormFeed: char := '\U{000C}'

  /** A lower-case hexadecimal digit, as `format(_, "x")` writes it. */
  function HexDigit(d: int): char
    requires 0 <= d < 16
  {
    if d < 10 then ('0' as int + d) as char else ('a' as int + d - 10) as char
  }

  /** `"{0:04x}".format(n)`. */
  function Hex4(n: int): (r: string)
    requires 0 <= n < 0x10000
    ensures |r| == 4
  {
    var q1 := n / 16;
    var q2 := q1 / 16;
    var q3 := q2 / 16;
    [HexDigit(q3), HexDigit(q2 % 16), HexDigit(q1 % 16), HexDigit(n % 16)]
  }

  /** The value of a hexadecimal digit of either case. */
  function HexValue(c: char): Option<int> {
    if '0' <= c <= '9' then Some(c as int - '0' as int)
    else if 'a' <= c <= 'f' then Some(c as int - 'a' as int + 10)
    else if 'A' <= c <= 'F' then Some(c as int - 'A' as int + 10)
    else None
  }

  function ParseHex4(s: string): (r: Option<int>)
    requires |s| == 4
    ensures r.Some? ==> 0 <= r.value < 0x10000
  {
    match (HexValue(s[0]), HexValue(s[1]), HexValue(s[2]), HexValue(s[3]))
    case (Some(a), Some(b), Some(c), Some(d)) =>
      assert 0 <= a < 16 && 0 <= b < 16 && 0 <= c < 16 && 0 <= d < 16;
      Some(((a * 16 + b) * 16 + c) * 16 + d)
    case _ => None
  }

  lemma HexDigitValue(d: int)
    requires 0 <= d < 16
    ensures HexValue(HexDigit(d)) == Some(d)
  {
  }

  /** Four hex digits read back as the number they were written from. */
  lemma Hex4Parses(n: int)
    requires 0 <= n < 0x10000
    ensures ParseHex4(Hex4(n)) == Some(n)
  {
    var q1 := n / 16;
    var q2 := q1 / 16;
    var q3 := q2 / 16;
    var h := Hex4(n);
    HexDigitValue(q3);
    HexDigitValue(q2 % 16);
    HexDigitValue(q1 % 16);
    HexDigitValue(n % 16);
    assert h[0] == HexDigit(q3) && h[1] == HexDigit(q2 % 16) && h[2] == HexDigit(q1 % 16) && h[3] == HexDigit(n % 16);
    assert ParseHex4(h) == Some(((q3 * 16 + q2 % 16) * 16 + q1 % 16) * 16 + n % 16);
    assert q3 * 16 + q2 % 16 == q2;
    assert q2 * 16 + q1 % 16 == q1;
    assert q1 * 16 + n % 16 == n;
  }

  predicate Printable(c: char) {
    ' ' <= c <= '~'
  }

  /**
   * The escape of one character: two-character escapes for `"`, `\` and the five named
   * control characters, the character itself if it is printable ASCII, `\u` and four
   * lower-case hex digits below U+10000, and a UTF-16 surrogate pair of such escapes above.
   */
  function EscapeChar(c: char): string {
    if c == '"' then "\\\""
    else if c == '\\' then "\\\\"
    else if c == '\n' then "\\n"
    else if c == '\r' then "\\r"
    else if c == '\t' then "\\t"
    else if c == Backspace then "\\b"
    else if c == FormFeed then "\\f"
    else if Printable(c) then [c]
    else if c as int < 0x10000 then UnicodeEscape(c as int)
    else UnicodeEscape(HighSurrogate(c)) + UnicodeEscape(LowSurrogate(c))
  }

  /** `\\u` and four hex digits. */
  function UnicodeEscape(n: int): (r: string)
    requires 0 <= n < 0x10000
    ensures |r| == 6
  {
    "\\u" + Hex4(n)
  }

  /** The first UTF-16 code unit of a character outside the Basic Multilingual Plane. */
  function HighSurrogate(c: char): (r: int)
    requires c as int >= 0x10000
    ensures 0xD800 <= r < 0xDC00
  {
    0xD800 + (c as int - 0x10000) / 0x400
  }

  /** The second UTF-16 code unit of a character outside the Basic Multilingual Plane. */
  function LowSurrogate(c: char): (r: int)
    requires c as int >= 0x10000
    ensures 0xDC00 <= r < 0xE000
  {
    0xDC00 + (c as int - 0x10000) % 0x400
  }

  /** The two code units combine back into the character. */
  lemma SurrogatesJoin(c: char)
    requires c as int >= 0x10000
    ensures 0x10000 + (HighSurrogate(c) - 0xD800) * 0x400 + (LowSurrogate(c) - 0xDC00) == c as int
  {
    var n := c as int - 0x10000;
    assert (n / 0x400) * 0x400 + n % 0x400 == n;
  }

  function EscapeChars(s: string): string
    decreases |s|
  {
    if s == [] then [] else EscapeChar(s[0]) + EscapeChars(s[1..])
  }

  /** `json.dumps(s)` for a string `s`. */
  function JsonQuote(s: string): string {
    "\"" + EscapeChars(s) + "\""
  }

  /** The character a two-character escape `\e` stands for. */
  function SimpleEscape(e: char): Option<char> {
    if e == '"' then Some('"')
    else if e == '\\' then Some('\\')
    else if e == '/' then Some('/')
    else if e == 'b' then Some(Backspace)
    else if e == 'f' then Some(FormFeed)
    else if e == 'n' then Some('\n')
    else if e == 'r' then Some('\r')
    else if e == 't' then Some('\t')
    else None
  }

  function Prepend(c: char, o: Option<(string, string)>): (r: Option<(string, string)>)
    ensures r.Some? <==> o.Some?
    ensures r.Some? ==> r.value.1 == o.value.1
  {
    match o
    case Some((s, rest)) => Some(([c] + s, rest))
    case None => None
  }

  /**
   * Reads the body of a JSON string up to its closing quote: the decoded text and the
   * input after the quote, or `None` if the body is malformed (a raw control character,
   * an unknown escape, a bad or unpaired surrogate escape, or no closing quote).
   */
  function ScanBody(t: string): (r: Option<(string, string)>)
    ensures r.Some? ==> |r.value.1| < |t|
    decreases |t|
  {
    if t == [] then None
    else if t[0] == '"' then Some(([], t[1..]))
    else if t[0] == '\\' then
      if |t| < 2 then None
      else if t[1] != 'u' then
        match SimpleEscape(t[1])
        case Some(c) => Prepend(c, ScanBody(t[2..]))
        case None => None
      else if |t| < 6 then None
      else
        match ParseHex4(t[2..6])
        case None => None
        case Some(hi) =>
          if 0xDC00 <= hi < 0xE000 then None
          else if hi < 0xD800 || 0xE000 <= hi then Prepend(hi as char, ScanBody(t[6..]))
          else if |t| < 12 || t[6] != '\\' || t[7] != 'u' then None
          else
            match ParseHex4(t[8..12])
            case None => None
            case Some(lo) =>
              if 0xDC00 <= lo < 0xE000 then
                var code := 0x10000 + (hi - 0xD800) * 0x400 + (lo - 0xDC00);
                assert code < 0x110000 by {
                  assert (hi - 0xD800) * 0x400 <= 0x3FF * 0x400;
                }
                Prepend(code as char, ScanBody(t[12..]))
              else None
    else if t[0] as int < 0x20 then None
    else Prepend(t[0], ScanBody(t[1..]))
  }

  /**
   * Reads back one JSON string literal: the inverse of `JsonQuote` on its image. It is
   * stricter than `json.loads` in two ways: it accepts no whitespace around the literal, and
   * it rejects a `\u` escape of a lone surrogate, which a `char` cannot hold.
   */
  function DecodeJsonString(q: string): Option<string> {
    if q == [] || q[0] != '"' then None
    else
      match ScanBody(q[1..])
      case Some((s, rest)) => if rest == [] then Some(s) else None
      case None => None
  }

  /** A `\\u` escape of a code point outside the surrogate range reads back as that character. */
  lemma ScanUnicodeEscape(c: char, x: string)
    requires c as int < 0x10000
    ensures ScanBody(UnicodeEscape(c as int) + x) == Prepend(c, ScanBody(x))
  {
    var t := UnicodeEscape(c as int) + x;
    assert t[0] == '\\' && t[1] == 'u' && t[2..6] == Hex4(c as int) && t[6..] == x;
    Hex4Parses(c as int);
  }

  /** The reader's step over a well-formed surrogate pair. */
  lemma ScanPairAt(t: string, hi: int, lo: int, c: char)
    requires |t| >= 12 && t[0] == '\\' && t[1] == 'u' && t[6] == '\\' && t[7] == 'u'
    requires ParseHex4(t[2..6]) == Some(hi) && 0xD800 <= hi < 0xDC00
    requires ParseHex4(t[8..12]) == Some(lo) && 0xDC00 <= lo < 0xE000
    requires c as int == 0x10000 + (hi - 0xD800) * 0x400 + (lo - 0xDC00)
    ensures ScanBody(t) == Prepend(c, ScanBody(t[12..]))
  {
  }

  /** A surrogate pair of escapes reads back as the character it encodes. */
  lemma ScanSurrogates(c: char, x: string)
    requires c as int >= 0x10000
    ensures ScanBody(UnicodeEscape(HighSurrogate(c)) + UnicodeEscape(LowSurrogate(c)) + x) == Prepend(c, ScanBody(x))
  {
    var hi := HighSurrogate(c);
    var lo := LowSurrogate(c);
    var t := UnicodeEscape(hi) + UnicodeEscape(lo) + x;
    assert t[0] == '\\' && t[1] == 'u' && t[6] == '\\' && t[7] == 'u';
    assert t[2..6] == Hex4(hi) && t[8..12] == Hex4(lo) && t[12..] == x;
    Hex4Parses(hi);
    Hex4Parses(lo);
    SurrogatesJoin(c);
    ScanPairAt(t, hi, lo, c);
  }

  /** A two-character escape reads back as the character it names. */
  lemma ScanNamedEscape(c: char, x: string)
    requires c == '"' || c == '\\' || c == '\n' || c == '\r' || c == '\t' || c == Backspace || c == FormFeed
    ensures ScanBody(EscapeChar(c) + x) == Prepend(c, ScanBody(x))
  {
    var t := EscapeChar(c) + x;
    assert |EscapeChar(c)| == 2 && t[0] == '\\' && t[1] != 'u' && t[2..] == x;
    assert SimpleEscape(t[1]) == Some(c);
  }

  /** The escape of a character reads back as that character, whatever follows it. */
  lemma ScanChar(c: char, x: string)
    ensures ScanBody(EscapeChar(c) + x) == Prepend(c, ScanBody(x))
  {
    if c == '"' || c == '\\' || c == '\n' || c == '\r' || c == '\t' || c == Backspace || c == FormFeed {
      ScanNamedEscape(c, x);
    } else if Printable(c) {
      var t := EscapeChar(c) + x;
      assert t[0] == c && t[1..] == x;
    } else if c as int < 0x10000 {
      ScanUnicodeEscape(c, x);
    } else {
      ScanSurrogates(c, x);
    }
  }

  lemma {:induction false} ScanEscaped(s: string, rest: string)
    ensures ScanBody(EscapeChars(s) + "\"" + rest) == Some((s, rest))
    decreases |s|
  {
    if s == [] {
      assert EscapeChars(s) + "\"" + rest == "\"" + rest;
    } else {
      var x := EscapeChars(s[1..]) + "\"" + rest;
      assert EscapeChars(s) + "\"" + rest == EscapeChar(s[0]) + x;
      ScanChar(s[0], x);
      ScanEscaped(s[1..], rest);
      assert [s[0]] + s[1..] == s;
    }
  }

  /** Reading the JSON text back gives the original string. */
  lemma JsonRoundTrip(s: string)
    ensures DecodeJsonString(JsonQuote(s)) == Some(s)
  {
    ScanEscaped(s, []);
    assert JsonQuote(s)[1..] == EscapeChars(s) + "\"" + [];
  }

  /** A printable ASCII character that needs no escape. */
  predicate PlainChar(c: char) {
    Printable(c) && c != '"' && c != '\\'
  }

  /** Text of printable ASCII without quotes or backslashes is written as it is. */
  lemma {:induction false} EscapePlain(s: string)
    requires All(s, PlainChar)
    ensures EscapeChars(s) == s
    decreases |s|
  {
    if s != [] {
      EscapePlain(s[1..]);
      assert s == [s[0]] + s[1..];
    }
  }

  lemma HexDigitPrintable(d: int)
    requires 0 <= d < 16
    ensures Printable(HexDigit(d)) && HexDigit(d) != '"' && HexDigit(d) != '\\'
  {
  }

  lemma Hex4Printable(n: int)
    requires 0 <= n < 0x10000
    ensures All(Hex4(n), Printable)
  {
    var q1 := n / 16;
    var q2 := q1 / 16;
    HexDigitPrintable(q2 / 16);
    HexDigitPrintable(q2 % 16);
    HexDigitPrintable(q1 % 16);
    HexDigitPrintable(n % 16);
  }

  lemma AllAppend(a: string, b: string, q: char -> bool)
    requires All(a, q) && All(b, q)
    ensures All(a + b, q)
  {
    forall i | 0 <= i < |a + b|
      ensures q((a + b)[i])
    {
      if i >= |a| {
        assert (a + b)[i] == b[i - |a|];
      }
    }
  }

  lemma UnicodeEscapePrintable(n: int)
    requires 0 <= n < 0x10000
    ensures All(UnicodeEscape(n), Printable)
  {
    Hex4Printable(n);
    AllAppend("\\u", Hex4(n), Printable);
  }

  lemma EscapeCharPrintable(c: char)
    ensures All(EscapeChar(c), Printable)
  {
    var e := EscapeChar(c);
    if c == '"' || c == '\\' || c == '\n' || c == '\r' || c == '\t' || c == Backspace || c == FormFeed {
      assert |e| == 2 && e[0] == '\\' && Printable(e[1]);
    } else if Printable(c) {
      assert e == [c];
    } else if c as int < 0x10000 {
      UnicodeEscapePrintable(c as int);
    } else {
      UnicodeEscapePrintable(HighSurrogate(c));
      UnicodeEscapePrintable(LowSurrogate(c));
      AllAppend(UnicodeEscape(HighSurrogate(c)), UnicodeEscape(LowSurrogate(c)), Printable);
    }
  }

  lemma {:induction false} EscapeCharsPrintable(s: string)
    ensures All(EscapeChars(s), Printable)
    decreases |s|
  {
    if s != [] {
      EscapeCharPrintable(s[0]);
      EscapeCharsPrintable(s[1..]);
      AllAppend(EscapeChar(s[0]), EscapeChars(s[1..]), Printable);
    }
  }

  /** The JSON text is printable ASCII, whatever the string holds. */
  lemma JsonQuotePrintable(s: string)
    ensures All(JsonQuote(s), Printable)
  {
    EscapeCharsPrintable(s);
    AllAppend("\"", EscapeChars(s), Printable);
    AllAppend("\"" + EscapeChars(s), "\"", Printable);
  }
}
