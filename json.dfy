/**
 * `json_encode` of a string with PHP's default flags, the way the namespace
 * cache writes each namespace key: a double-quoted JSON string (section 7 of
 * RFC 8259) in which `"`, `\` and `/` are escaped, control characters use the
 * short escapes or `\u00XX`, and every non-ASCII character is written as
 * `\uXXXX` with lower-case hex digits (a surrogate pair above U+FFFF).
 * A decoder for the same grammar is the partner the encoding is proved against.
 */
module Json {
  import opened Wrappers

  /** Lower-case hex digit, as PHP's encoder writes it. */
  function HexDigit(d: nat): char
    requires d < 16
  {
    if d < 10 then ('0' as int + d) as char else ('a' as int + d - 10) as char
  }

  /** Four hex digits, most significant first. */
  function Hex4(n: nat): (r: string)
    requires n < 0x10000
    ensures |r| == 4
  {
    [HexDigit(n / 0x1000), HexDigit(n % 0x1000 / 0x100), HexDigit(n % 0x100 / 16), HexDigit(n % 16)]
  }

  /** The escape PHP's `json_encode` writes for one character. */
  function EscapeChar(c: char): string
  {
    var n := c as int;
    if c == '"' then "\\\""
    else if c == '\\' then "\\\\"
    else if c == '/' then "\\/"
    else if n == 0x08 then "\\b"
    else if n == 0x0C then "\\f"
    else if c == '\n' then "\\n"
    else if c == '\r' then "\\r"
    else if c == '\t' then "\\t"
    else if n < 0x20 then "\\u" + Hex4(n)
    else if n < 0x80 then [c]
    else if n < 0x10000 then "\\u" + Hex4(n)
    else "\\u" + Hex4(HighSurrogate(n)) + "\\u" + Hex4(LowSurrogate(n))
  }

  /** The UTF-16 surrogates of a code point above U+FFFF. */
  function HighSurrogate(n: int): (r: nat)
    requires 0x10000 <= n < 0x110000
    ensures 0xD800 <= r < 0xDC00
  {
    0xD800 + (n - 0x10000) / 0x400
  }

  function LowSurrogate(n: int): (r: nat)
    requires 0x10000 <= n < 0x110000
    ensures 0xDC00 <= r < 0xE000
  {
    0xDC00 + (n - 0x10000) % 0x400
  }

  function Escape(s: string): string
  {
    if s == [] then "" else EscapeChar(s[0]) + Escape(s[1..])
  }

  /**
   * `json_encode($namespace)` for a string value: a JSON string token, between
   * double quotes, whose value decodes back to the string.
   */
  function EncodeString(s: string): (r: string)
    ensures |r| >= 2 && r[0] == '"' && r[|r| - 1] == '"'
    ensures DecodeString(r) == Some(s)
  {
    var q := "\"" + Escape(s) + "\"";
    assert q[1..|q| - 1] == Escape(s);
    EscapeRoundTrip(s);
    q
  }

  // ---- decoding (RFC 8259, section 7) ----

  function HexValue(c: char): Option<nat>
  {
    if '0' <= c <= '9' then Some(c as int - '0' as int)
    else if 'a' <= c <= 'f' then Some(c as int - 'a' as int + 10)
    else if 'A' <= c <= 'F' then Some(c as int - 'A' as int + 10)
    else None
  }

  /** The value of four hex digits at the front of `s`. */
  function ParseHex4(s: string): (r: Option<nat>)
    ensures r.Some? ==> r.value < 0x10000
  {
    if |s| < 4 then None
    else
      match (HexValue(s[0]), HexValue(s[1]), HexValue(s[2]), HexValue(s[3]))
      case (Some(a), Some(b), Some(c), Some(d)) =>
        if a < 16 && b < 16 && c < 16 && d < 16 then Some(a * 0x1000 + b * 0x100 + c * 16 + d) else None
      case _ => None
  }

  /** The character a `\uXXXX` escape (or a surrogate pair of them) stands for, and how many characters it takes. */
  function UnicodeEscape(s: string): (r: Option<(char, nat)>)
    requires |s| >= 2 && s[..2] == "\\u"
    ensures r.Some? ==> 6 <= r.value.1 <= |s|
  {
    match ParseHex4(s[2..])
    case None => None
    case Some(v) =>
      if v < 0xD800 || 0xE000 <= v then Some((v as char, 6))
      else if 0xDC00 <= v then None
      else if |s| >= 8 && s[6..8] == "\\u" then
        match ParseHex4(s[8..])
        case Some(w) =>
          if 0xDC00 <= w < 0xE000 then Some(((0x10000 + (v - 0xD800) * 0x400 + (w - 0xDC00)) as char, 12))
          else None
        case None => None
      else None
  }

  /** The character an escape sequence at the front of `s` stands for, and its length. */
  function EscapeAt(s: string): (r: Option<(char, nat)>)
    requires |s| >= 1 && s[0] == '\\'
    ensures r.Some? ==> 2 <= r.value.1 <= |s|
  {
    if |s| < 2 then None
    else if s[1] == '"' then Some(('"', 2))
    else if s[1] == '\\' then Some(('\\', 2))
    else if s[1] == '/' then Some(('/', 2))
    else if s[1] == 'b' then Some((8 as char, 2))
    else if s[1] == 'f' then Some((0x0C as char, 2))
    else if s[1] == 'n' then Some(('\n', 2))
    else if s[1] == 'r' then Some(('\r', 2))
    else if s[1] == 't' then Some(('\t', 2))
    else if s[1] == 'u' then UnicodeEscape(s)
    else None
  }

  /** The characters of a JSON string body (what stands between the quotes). */
  function Unescape(s: string): Option<string>
    decreases |s|
  {
    if s == [] then Some([])
    else if s[0] == '\\' then
      match EscapeAt(s)
      case None => None
      case Some((c, k)) =>
        match Unescape(s[k..])
        case None => None
        case Some(rest) => Some([c] + rest)
    else if s[0] == '"' || (s[0] as int) < 0x20 then None
    else
      match Unescape(s[1..])
      case None => None
      case Some(rest) => Some([s[0]] + rest)
  }

  /** The value of a JSON string token. */
  function DecodeString(q: string): Option<string>
  {
    if |q| >= 2 && q[0] == '"' && q[|q| - 1] == '"' then Unescape(q[1..|q| - 1]) else None
  }

  // ---- the encoding is decodable ----

  lemma HexDigitValue(d: nat)
    requires d < 16
    ensures HexValue(HexDigit(d)) == Some(d)
  {
  }

  lemma {:induction false} Hex4RoundTrip(n: nat, rest: string)
    requires n < 0x10000
    ensures ParseHex4(Hex4(n) + rest) == Some(n)
  {
    var s := Hex4(n) + rest;
    var d0, d1, d2, d3 := n / 0x1000, n % 0x1000 / 0x100, n % 0x100 / 16, n % 16;
    HexDigitValue(d0);
    HexDigitValue(d1);
    HexDigitValue(d2);
    HexDigitValue(d3);
    assert s[..4] == [HexDigit(d0), HexDigit(d1), HexDigit(d2), HexDigit(d3)];
    assert n % 0x1000 == d1 * 0x100 + n % 0x100;
    assert n % 0x100 == d2 * 16 + d3;
  }

  /** Each escape decodes to the character it was written for, and consumes exactly its own characters. */
  lemma {:induction false} EscapeCharRoundTrip(c: char, rest: string)
    ensures EscapeChar(c) != [] && EscapeChar(c)[0] == '\\' ==>
              EscapeAt(EscapeChar(c) + rest) == Some((c, |EscapeChar(c)|))
    ensures Unescape(EscapeChar(c) + rest) == (match Unescape(rest) case None => None case Some(r) => Some([c] + r))
  {
    var n := c as int;
    var e := EscapeChar(c);
    var s := e + rest;
    if n < 0x20 && c != '\n' && c != '\r' && c != '\t' && n != 0x08 && n != 0x0C {
      ShortUnicodeRoundTrip(c, rest);
    } else if 0x80 <= n < 0x10000 {
      ShortUnicodeRoundTrip(c, rest);
    } else if 0x10000 <= n {
      SurrogatePairRoundTrip(c, rest);
    } else if n < 0x80 && c != '"' && c != '\\' && c != '/' && n >= 0x20 {
      assert e == [c];
      assert s[1..] == rest;
    } else {
      assert e[0] == '\\' && |e| == 2;
      assert s[..2] == e;
      assert s[2..] == rest;
    }
    assert s[|e|..] == rest;
  }

  lemma {:induction false} ShortUnicodeRoundTrip(c: char, rest: string)
    requires c as int < 0x10000
    requires EscapeChar(c) == "\\u" + Hex4(c as int)
    ensures EscapeAt(EscapeChar(c) + rest) == Some((c, 6))
  {
    var s := EscapeChar(c) + rest;
    Hex4RoundTrip(c as int, rest);
    assert s[2..] == Hex4(c as int) + rest;
  }

  lemma {:induction false} SurrogatePairRoundTrip(c: char, rest: string)
    requires 0x10000 <= c as int
    ensures EscapeAt(EscapeChar(c) + rest) == Some((c, 12))
    ensures |EscapeChar(c)| == 12
  {
    var n := c as int;
    var hi, lo := HighSurrogate(n), LowSurrogate(n);
    var e := SupplementaryEscape(c);
    var tail := "\\u" + (Hex4(lo) + rest);
    var s := "\\u" + (Hex4(hi) + tail);
    assert e + rest == s;
    Hex4RoundTrip(hi, tail);
    Hex4RoundTrip(lo, rest);
    assert s[2..] == Hex4(hi) + tail;
    assert s[6..] == tail;
    assert tail[2..] == Hex4(lo) + rest;
    SurrogateJoin(n);
    PairDecodes(s, hi, lo, c);
  }

  lemma SupplementaryEscape(c: char) returns (e: string)
    requires 0x10000 <= c as int
    ensures e == EscapeChar(c) == "\\u" + Hex4(HighSurrogate(c as int)) + "\\u" + Hex4(LowSurrogate(c as int))
  {
    e := EscapeChar(c);
  }

  /** The two surrogates of a supplementary code point join back to it. */
  lemma SurrogateJoin(n: int)
    requires 0x10000 <= n < 0x110000
    ensures 0x10000 + (HighSurrogate(n) - 0xD800) * 0x400 + (LowSurrogate(n) - 0xDC00) == n
  {
  }

  lemma PairDecodes(s: string, hi: nat, lo: nat, c: char)
    requires |s| >= 12 && s[..2] == "\\u" && s[6..8] == "\\u"
    requires ParseHex4(s[2..]) == Some(hi) && ParseHex4(s[6..][2..]) == Some(lo)
    requires 0xD800 <= hi < 0xDC00 && 0xDC00 <= lo < 0xE000
    requires 0x10000 + (hi - 0xD800) * 0x400 + (lo - 0xDC00) == c as int
    ensures EscapeAt(s) == Some((c, 12))
  {
    assert s[1] == 'u';
    assert s[6..][2..] == s[8..];
  }

  lemma {:induction false} EscapeRoundTrip(s: string)
    ensures Unescape(Escape(s)) == Some(s)
  {
    if s != [] {
      EscapeRoundTrip(s[1..]);
      EscapeCharRoundTrip(s[0], Escape(s[1..]));
      assert [s[0]] + s[1..] == s;
    }
  }
}
