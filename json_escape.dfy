/** JSON string escaping as Python's `json.dumps` performs it with its default
    `ensure_ascii=True` (the escaper behind `sanitize_json_string`), together
    with a strict decoder of JSON string contents, which serves as the
    escaper's inverse: it reads the escapes of section 7 of RFC 8259 and also
    rejects unpaired surrogate escapes, which that grammar admits. */
module JsonEscape {
  import opened Wrappers
  import Seqs

  /** Printable ASCII: the only code points `ensure_ascii` output may contain. */
  predicate IsPrintableAscii(c: char) {
    ' ' <= c <= '~'
  }

  predicate AllPrintableAscii(s: string) {
    forall k | 0 <= k < |s| :: IsPrintableAscii(s[k])
  }

  /** The code points the escaper leaves alone: printable ASCII except `"` and `\`. */
  predicate IsPlainChar(c: char) {
    IsPrintableAscii(c) && c != '"' && c != '\\'
  }

  predicate AllPlain(s: string) {
    forall k | 0 <= k < |s| :: IsPlainChar(s[k])
  }

  // ---------------------------------------------------------------- hex digits

  function HexDigit(d: int): (c: char)
    requires 0 <= d < 16
    ensures IsPlainChar(c) && IsHexDigit(c) && HexDigitValue(c) == d
    ensures c != 'u'
  {
    if d < 10 then ('0' as int + d) as char else ('a' as int + d - 10) as char
  }

  /** A hexadecimal digit in either case, as RFC 8259 allows in `\uXXXX`. */
  predicate IsHexDigit(c: char) {
    '0' <= c <= '9' || 'a' <= c <= 'f' || 'A' <= c <= 'F'
  }

  function HexDigitValue(c: char): (d: nat)
    requires IsHexDigit(c)
    ensures d < 16
  {
    if '0' <= c <= '9' then c as int - '0' as int
    else if 'a' <= c <= 'f' then c as int - 'a' as int + 10
    else c as int - 'A' as int + 10
  }

  /** Four lower-case hex digits, as Python's `'{0:04x}'` formats a code unit. */
  function Hex4(n: int): (h: string)
    requires 0 <= n < 0x1_0000
    ensures |h| == 4 && AllPlain(h)
    ensures forall k | 0 <= k < 4 :: IsHexDigit(h[k]) && h[k] != 'u'
  {
    var q1 := n / 0x10;
    var q2 := q1 / 0x10;
    [HexDigit(q2 / 0x10), HexDigit(q2 % 0x10), HexDigit(q1 % 0x10), HexDigit(n % 0x10)]
  }

  predicate AllHex4(h: string) {
    |h| == 4 && IsHexDigit(h[0]) && IsHexDigit(h[1]) && IsHexDigit(h[2]) && IsHexDigit(h[3])
  }

  function HexValue(h: string): (n: nat)
    requires AllHex4(h)
    ensures n < 0x1_0000
  {
    ((HexDigitValue(h[0]) * 0x10 + HexDigitValue(h[1])) * 0x10 + HexDigitValue(h[2])) * 0x10 + HexDigitValue(h[3])
  }

  /** Reading back the four digits written for a code unit gives that code unit. */
  lemma HexValueOfHex4(n: int)
    requires 0 <= n < 0x1_0000
    ensures AllHex4(Hex4(n)) && HexValue(Hex4(n)) == n
  {
    var q1 := n / 0x10;
    var q2 := q1 / 0x10;
    assert n == q1 * 0x10 + n % 0x10;
    assert q1 == q2 * 0x10 + q1 % 0x10;
    assert q2 == (q2 / 0x10) * 0x10 + q2 % 0x10;
  }

  // ------------------------------------------------------------------- escaper

  /** `\u` followed by the four digits of one UTF-16 code unit. */
  function UnicodeEscape(n: int): (r: string)
    requires 0 <= n < 0x1_0000
    ensures |r| == 6 && r[0] == '\\' && r[1] == 'u' && r[2..] == Hex4(n)
    ensures AllPrintableAscii(r)
  {
    "\\u" + Hex4(n)
  }

  /** The high and low surrogate Python writes for a code point above the
      Basic Multilingual Plane (`0xd800 | ((n >> 10) & 0x3ff)` and
      `0xdc00 | (n & 0x3ff)` with `n` the offset from 0x10000; for an offset
      below 0x100000 the `|` and `&` are the `+` and `%` used here). */
  function HighSurrogate(c: char): (u: int)
    requires c as int >= 0x1_0000
    ensures 0xD800 <= u < 0xDC00
  {
    0xD800 + (c as int - 0x1_0000) / 0x400
  }

  function LowSurrogate(c: char): (u: int)
    requires c as int >= 0x1_0000
    ensures 0xDC00 <= u < 0xE000
  {
    0xDC00 + (c as int - 0x1_0000) % 0x400
  }

  /** The escape Python's `ensure_ascii` encoder substitutes for one code point:
      `\\` and `\"`, the five short forms, the code point itself when it is
      printable ASCII, and `\uXXXX` (a surrogate pair above U+FFFF) otherwise. */
  function EscapeChar(c: char): (r: string)
    ensures AllPrintableAscii(r)
    ensures 1 <= |r| <= 12
    ensures !IsPlainChar(c) ==> |r| >= 2
    ensures IsPlainChar(c) <==> r == [c]
    ensures !IsPlainChar(c) ==> r[0] == '\\'
  {
    if c == '\\' then "\\\\"
    else if c == '"' then "\\\""
    else if c == '\U{0008}' then "\\b"
    else if c == '\U{000C}' then "\\f"
    else if c == '\n' then "\\n"
    else if c == '\r' then "\\r"
    else if c == '\t' then "\\t"
    else if IsPrintableAscii(c) then [c]
    else if c as int < 0x1_0000 then UnicodeEscape(c as int)
    else UnicodeEscape(HighSurrogate(c)) + UnicodeEscape(LowSurrogate(c))
  }

  /** The escaped body of a JSON string: each code point replaced by its escape.
      The result is printable ASCII throughout, so no raw control character
      survives. */
  function Escape(s: string): (r: string)
    ensures AllPrintableAscii(r)
    ensures |r| >= |s|
    decreases |s|
  {
    if s == [] then [] else EscapeChar(s[0]) + Escape(s[1..])
  }

  /** `json.dumps(s)` on a `str`: the escaped body between double quotes. */
  function Dumps(s: string): (r: string)
    ensures |r| >= 2 && r[0] == '"' && r[|r| - 1] == '"'
  {
    "\"" + Escape(s) + "\""
  }

  /** `sanitize_json_string`: `json.dumps(s)[1:-1]`, i.e. the dumped text
      without its surrounding quotes. */
  function SanitizeJsonString(s: string): (r: string)
    ensures r == Escape(s)
  {
    var d := Dumps(s);
    d[1..|d| - 1]
  }

  /** Escaping distributes over concatenation. */
  lemma {:induction false} EscapeAppend(s: string, t: string)
    ensures Escape(s + t) == Escape(s) + Escape(t)
    decreases |s|
  {
    if s == [] {
      assert s + t == t;
    } else {
      assert (s + t)[0] == s[0] && (s + t)[1..] == s[1..] + t;
      EscapeAppend(s[1..], t);
      Seqs.Assoc(EscapeChar(s[0]), Escape(s[1..]), Escape(t));
    }
  }

  /** Text made only of plain characters is left exactly as it is. */
  lemma {:induction false} EscapePlainIsIdentity(s: string)
    requires AllPlain(s)
    ensures Escape(s) == s
    decreases |s|
  {
    if s != [] {
      assert AllPlain(s[1..]) by {
        forall k | 0 <= k < |s[1..]| ensures IsPlainChar(s[1..][k]) {
          assert s[1..][k] == s[k + 1];
        }
      }
      EscapePlainIsIdentity(s[1..]);
      assert [s[0]] + s[1..] == s;
    }
  }

  /** Escaping changes nothing exactly when every character is plain. */
  lemma {:induction false} EscapeIdentityIff(s: string)
    ensures Escape(s) == s <==> AllPlain(s)
    decreases |s|
  {
    if AllPlain(s) {
      EscapePlainIsIdentity(s);
    } else if s != [] {
      var k :| 0 <= k < |s| && !IsPlainChar(s[k]);
      EscapeLengthGrows(s, k);
    }
  }

  /** One character that needs escaping makes the body strictly longer. */
  lemma {:induction false} EscapeLengthGrows(s: string, k: nat)
    requires k < |s| && !IsPlainChar(s[k])
    ensures |Escape(s)| > |s|
    decreases |s|
  {
    if k > 0 {
      assert s[1..][k - 1] == s[k];
      EscapeLengthGrows(s[1..], k - 1);
    }
  }

  /** A character that needs escaping leaves a backslash in the output. */
  lemma {:induction false} EscapeKeepsBackslash(s: string, k: nat)
    requires k < |s| && !IsPlainChar(s[k])
    ensures !AllPlain(Escape(s))
    decreases k
  {
    var ec, er := EscapeChar(s[0]), Escape(s[1..]);
    assert Escape(s) == ec + er;
    if k == 0 {
      assert (ec + er)[0] == ec[0];
    } else {
      EscapeKeepsBackslash(s[1..], k - 1);
      NotPlainSuffix(ec, er);
    }
  }

  /** Text with a non-plain character stays so behind anything. */
  lemma NotPlainSuffix(a: string, b: string)
    requires !AllPlain(b)
    ensures !AllPlain(a + b)
  {
    var k :| 0 <= k < |b| && !IsPlainChar(b[k]);
    assert (a + b)[|a| + k] == b[k];
  }

  /** Escaping an escaped body again changes it, unless nothing needed escaping
      in the first place: already-escaped sequences are escaped a second time. */
  lemma EscapeIdempotentIff(s: string)
    ensures Escape(Escape(s)) == Escape(s) <==> AllPlain(s)
  {
    EscapeIdentityIff(Escape(s));
    if AllPlain(s) {
      EscapePlainIsIdentity(s);
    } else {
      var k :| 0 <= k < |s| && !IsPlainChar(s[k]);
      EscapeKeepsBackslash(s, k);
    }
  }

  /** Content that already holds an escaped quote is escaped once more: the
      two characters `\"` become the four characters `\\\"`. */
  lemma EscapePreEscapedQuote(rest: string)
    ensures Escape(['\\', '"'] + rest) == ['\\', '\\', '\\', '"'] + Escape(rest)
  {
    EscapeAppend(['\\'], ['"'] + rest);
    EscapeAppend(['"'], rest);
    assert Escape(['\\']) == EscapeChar('\\') + Escape([]);
    assert Escape(['"']) == EscapeChar('"') + Escape([]);
  }

  // ------------------------------------------------------------------- decoder

  /** The character a two-character escape `\x` stands for, per section 7 of
      RFC 8259 (`\uXXXX` is handled apart). */
  function ShortEscape(x: char): Option<char> {
    match x
    case '"' => Some('"')
    case '\\' => Some('\\')
    case '/' => Some('/')
    case 'b' => Some('\U{0008}')
    case 'f' => Some('\U{000C}')
    case 'n' => Some('\n')
    case 'r' => Some('\r')
    case 't' => Some('\t')
    case _ => None
  }

  function Prepend(c: char, r: Option<string>): Option<string> {
    match r
    case Some(t) => Some([c] + t)
    case None => None
  }

  /** The code point a surrogate pair stands for. */
  function Combine(hi: int, lo: int): (c: char)
    requires 0xD800 <= hi < 0xDC00 && 0xDC00 <= lo < 0xE000
    ensures c as int >= 0x1_0000
  {
    (0x1_0000 + (hi - 0xD800) * 0x400 + (lo - 0xDC00)) as char
  }

  /** Decodes the body of a JSON string (the text between its quotes) under
      the grammar of section 7 of RFC 8259, made stricter: unescaped
      characters other than `"`, `\` and the controls below U+0020 stand for
      themselves; escapes are the eight short forms and `\uXXXX`, where a high
      surrogate must be followed by an escaped low surrogate and a lone low
      surrogate is refused (the grammar admits both; a Dafny `char` cannot
      hold a lone surrogate). `None` means the body is not one this decoder
      accepts. */
  function Unescape(s: string): Option<string>
    decreases |s|
  {
    if s == [] then Some([])
    else if s[0] == '\\' then
      if |s| < 2 then None
      else if s[1] == 'u' then
        if |s| < 6 || !AllHex4(s[2..6]) then None
        else
          var hi := HexValue(s[2..6]);
          if 0xD800 <= hi < 0xDC00 then
            if |s| < 12 || s[6] != '\\' || s[7] != 'u' || !AllHex4(s[8..12]) then None
            else
              var lo := HexValue(s[8..12]);
              if 0xDC00 <= lo < 0xE000 then Prepend(Combine(hi, lo), Unescape(s[12..]))
              else None
          else if 0xDC00 <= hi < 0xE000 then None
          else Prepend(hi as char, Unescape(s[6..]))
      else
        match ShortEscape(s[1])
        case Some(c) => Prepend(c, Unescape(s[2..]))
        case None => None
    else if s[0] == '"' || (s[0] as int) < 0x20 then None
    else Prepend(s[0], Unescape(s[1..]))
  }

  /** Decoding one escaped character followed by anything decodes that
      character and then the rest. */
  lemma UnescapeEscapeChar(c: char, rest: string)
    ensures Unescape(EscapeChar(c) + rest) == Prepend(c, Unescape(rest))
  {
    var e := EscapeChar(c);
    if IsPlainChar(c) {
      assert e == [c];
      assert (e + rest)[0] == c && (e + rest)[1..] == rest;
    } else if c == '\\' || c == '"' || c == '\U{0008}' || c == '\U{000C}' || c == '\n' || c == '\r' || c == '\t' {
      assert |e| == 2 && e == ['\\', e[1]];
      assert ShortEscape(e[1]) == Some(c);
      UnescapeShort(e[1], c, rest);
    } else if c as int < 0x1_0000 {
      assert e == UnicodeEscape(c as int);
      UnescapeBmp(c, rest);
    } else {
      assert e == UnicodeEscape(HighSurrogate(c)) + UnicodeEscape(LowSurrogate(c));
      UnescapeSurrogatePair(c, rest);
    }
  }

  /** A two-character escape decodes to the character it stands for. */
  lemma UnescapeShort(x: char, c: char, rest: string)
    requires ShortEscape(x) == Some(c)
    ensures Unescape(['\\', x] + rest) == Prepend(c, Unescape(rest))
  {
    var s := ['\\', x] + rest;
    assert s[0] == '\\' && s[1] == x && s[2..] == rest;
    assert x != 'u';
  }

  /** A `\uXXXX` escape of a code point in the Basic Multilingual Plane decodes
      to that code point. */
  lemma UnescapeBmp(c: char, rest: string)
    requires c as int < 0x1_0000
    ensures Unescape(UnicodeEscape(c as int) + rest) == Prepend(c, Unescape(rest))
  {
    var s := UnicodeEscape(c as int) + rest;
    HexValueOfHex4(c as int);
    assert s[0] == '\\' && s[1] == 'u';
    assert s[2..6] == Hex4(c as int) && s[6..] == rest;
  }

  /** The surrogate-pair escape of a code point above the Basic Multilingual
      Plane decodes to that code point. */
  lemma UnescapeSurrogatePair(c: char, rest: string)
    requires c as int >= 0x1_0000
    ensures Unescape(UnicodeEscape(HighSurrogate(c)) + UnicodeEscape(LowSurrogate(c)) + rest)
         == Prepend(c, Unescape(rest))
  {
    var hi, lo := HighSurrogate(c), LowSurrogate(c);
    HexValueOfHex4(hi);
    HexValueOfHex4(lo);
    SurrogateLayout(hi, lo, rest);
    CombineSurrogates(c);
  }

  /** Where the two code units of a surrogate pair sit in its escape. */
  lemma SurrogateLayout(hi: int, lo: int, rest: string)
    requires 0 <= hi < 0x1_0000 && 0 <= lo < 0x1_0000
    ensures var s := UnicodeEscape(hi) + UnicodeEscape(lo) + rest;
      |s| >= 12 && s[0] == '\\' && s[1] == 'u' && s[2..6] == Hex4(hi) && s[6] == '\\' && s[7] == 'u'
      && s[8..12] == Hex4(lo) && s[12..] == rest
  {
    var uh, ul := UnicodeEscape(hi), UnicodeEscape(lo);
    var s := uh + ul + rest;
    assert s[2..6] == uh[2..];
    assert s[8..12] == ul[2..];
  }

  /** The surrogates of a code point combine back to it. */
  lemma CombineSurrogates(c: char)
    requires c as int >= 0x1_0000
    ensures Combine(HighSurrogate(c), LowSurrogate(c)) == c
  {
    var n := c as int - 0x1_0000;
    assert n == (n / 0x400) * 0x400 + n % 0x400;
  }

  /** Round trip: decoding an escaped body gives back the original text, so
      the re-encoded string means exactly what its raw content was. */
  lemma {:induction false} UnescapeEscape(s: string)
    ensures Unescape(Escape(s)) == Some(s)
    decreases |s|
  {
    if s != [] {
      UnescapeEscape(s[1..]);
      UnescapeEscapeChar(s[0], Escape(s[1..]));
      assert [s[0]] + s[1..] == s;
    }
  }
}
