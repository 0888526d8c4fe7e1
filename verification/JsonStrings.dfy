/**
 JSON strings as the proxy writes and reads them (jsonEncodeString in internal/jsonwalk/walk.go;
 section 7 of RFC 8259). The encoder copies plain ASCII and leaves everything else to Go's
 encoding/json.
 */
module JsonStrings {
  import opened Bytes
  import opened Scanning
  import opened Utf8

  // ------------------------------------------------------------------ encoding

  /** What json.Marshal copies: printable ASCII without quote, backslash and the HTML characters. */
  predicate HtmlSafe(c: byte) {
    ' ' <= c && c as int < 0x80 && c != '"' && c != '\\' && c != '<' && c != '>' && c != '&'
  }

  function EscapeAscii(c: byte): bytes
    requires c as int < 0x80
  {
    if HtmlSafe(c) then [c]
    else if c == '"' || c == '\\' then ['\\', c]
    else if c as int == 8 then "\\b"
    else if c as int == 12 then "\\f"
    else if c == '\n' then "\\n"
    else if c == '\r' then "\\r"
    else if c == '\t' then "\\t"
    else ['\\', 'u', '0', '0', HexDigit(c as int / 16), HexDigit(c as int % 16)]
  }

  /** The line separators U+2028 and U+2029. */
  predicate IsLineSeparator(u: bytes) {
    |u| == 3 && u[0] as int == 0xE2 && u[1] as int == 0x80 && (u[2] as int == 0xA8 || u[2] as int == 0xA9)
  }

  /** What json.Marshal writes for the first character of s. */
  function Escape(s: bytes): bytes
    requires s != []
  {
    if s[0] as int < 0x80 then EscapeAscii(s[0])
    else if RuneLen(s) == 0 then "\\ufffd"
    else if IsLineSeparator(Unit(s)) then ['\\', 'u', '2', '0', '2', if s[2] as int == 0xA8 then '8' else '9']
    else Unit(s)
  }

  function Marshal(s: bytes): bytes
    decreases |s|
  {
    if s == [] then [] else Escape(s) + Marshal(Rest(s))
  }

  predicate IsPlain(s: bytes) {
    forall i | 0 <= i < |s| :: ' ' <= s[i] && s[i] as int <= 0x7F && s[i] != '"' && s[i] != '\\'
  }

  /** jsonEncodeString. */
  function Encoded(s: bytes): bytes {
    ['"'] + (if IsPlain(s) then s else Marshal(s)) + ['"']
  }

  method JsonEncodeString(s: bytes) returns (r: bytes)
    ensures r == Encoded(s)
  {
    for i := 0 to |s|
      invariant IsPlain(s[..i])
    {
      if s[i] < ' ' || s[i] as int > 0x7F || s[i] == '"' || s[i] == '\\' {
        return ['"'] + Marshal(s) + ['"'];
      }
    }
    assert s[..|s|] == s;
    return ['"'] + s + ['"'];
  }

  /** No control character and none of the characters that mean something in HTML is written. */
  predicate Harmless(c: byte) { ' ' <= c && c != '<' && c != '>' && c != '&' }

  lemma {:induction false} EscapeIsHarmless(s: bytes)
    requires s != []
    ensures forall i | 0 <= i < |Escape(s)| :: Harmless(Escape(s)[i])
  {
    hide RuneLen, Unit;
    if s[0] as int >= 0x80 && RuneLen(s) != 0 && !IsLineSeparator(Unit(s)) {
      UnitIsWide(s);
    }
  }

  lemma UnitIsWide(s: bytes)
    requires s != [] && s[0] as int >= 0x80
    ensures forall i | 0 <= i < |Unit(s)| :: Unit(s)[i] as int >= 0x80
  {
    assert forall i | 0 <= i < |Unit(s)| :: Unit(s)[i] == s[i];
  }

  lemma {:induction false} MarshalIsHarmless(s: bytes)
    ensures forall i | 0 <= i < |Marshal(s)| :: Harmless(Marshal(s)[i])
    decreases |s|
  {
    hide Escape, Harmless;
    if s != [] {
      EscapeIsHarmless(s);
      MarshalIsHarmless(Rest(s));
    }
  }

  // ------------------------------------------------------------------ decoding

  function HexValue(c: byte): (n: int)
    ensures -1 <= n < 16
  {
    if IsDigit(c) then c as int - '0' as int
    else if 'a' <= c <= 'f' then c as int - 'a' as int + 10
    else if 'A' <= c <= 'F' then c as int - 'A' as int + 10
    else -1
  }

  /** The four digits of a \u escape that s begins with; -1 if it begins with something else. */
  function UnicodeEscape(s: bytes): (n: int)
    ensures -1 <= n < 0x10000
  {
    if |s| < 6 || s[0] != '\\' || s[1] != 'u' then -1
    else
      var a, b, c, d := HexValue(s[2]), HexValue(s[3]), HexValue(s[4]), HexValue(s[5]);
      if a < 0 || b < 0 || c < 0 || d < 0 then -1 else ((a * 16 + b) * 16 + c) * 16 + d
  }

  predicate IsSurrogate(r: int) { 0xD800 <= r <= 0xDFFF }

  /** utf16.DecodeRune. */
  function DecodePair(r: nat, r2: nat): nat {
    if 0xD800 <= r <= 0xDBFF && 0xDC00 <= r2 <= 0xDFFF then (r - 0xD800) * 0x400 + (r2 - 0xDC00) + 0x10000 else 0xFFFD
  }

  /** utf8.EncodeRune: a surrogate becomes U+FFFD. */
  function EncodeRune(r: nat): bytes
    requires r < 0x110000
  {
    if r < 0x80 then [r as char]
    else if r < 0x800 then [(0xC0 + r / 0x40) as char, (0x80 + r % 0x40) as char]
    else if IsSurrogate(r) then REPLACEMENT
    else if r < 0x10000 then [(0xE0 + r / 0x1000) as char, (0x80 + r / 0x40 % 0x40) as char, (0x80 + r % 0x40) as char]
    else [(0xF0 + r / 0x40000) as char, (0x80 + r / 0x1000 % 0x40) as char, (0x80 + r / 0x40 % 0x40) as char, (0x80 + r % 0x40) as char]
  }

  /** U+FFFD. */
  const REPLACEMENT: bytes := [0xEF as char, 0xBF as char, 0xBD as char]

  function SimpleEscape(c: byte): bytes {
    if c == '"' || c == '\\' || c == '/' then [c]
    else if c == 'b' then [8 as char]
    else if c == 'f' then [12 as char]
    else if c == 'n' then "\n"
    else if c == 'r' then "\r"
    else if c == 't' then "\t"
    else []
  }

  function Prepend(a: bytes, b: Option<bytes>): Option<bytes> {
    if b.None? then None else Some(a + b.value)
  }

  /** What has a short escape is written with it, except the slash, which needs none. */
  lemma ShortEscapesAreUsed(x: byte, s: bytes)
    requires s != [] && SimpleEscape(x) == [s[0]] && x != '/'
    ensures Escape(s) == ['\\', x]
  {}

  /** The text between the quotes, read as the parser reads it: None if it is not well formed. A
      surrogate takes a following \u escape with it. */
  function Decode(body: bytes): Option<bytes>
    decreases |body|
  {
    if body == [] then Some([])
    else if body[0] == '"' || body[0] < ' ' then None
    else if body[0] != '\\' then Prepend([body[0]], Decode(body[1..]))
    else if |body| < 2 then None
    else if body[1] != 'u' then (if SimpleEscape(body[1]) == [] then None else Prepend(SimpleEscape(body[1]), Decode(body[2..])))
    else
      var r := UnicodeEscape(body);
      if r < 0 then None
      else
        var r2 := UnicodeEscape(body[6..]);
        if IsSurrogate(r) && r2 >= 0 then Prepend(EncodeRune(DecodePair(r, r2)), Decode(body[12..]))
        else Prepend(EncodeRune(r), Decode(body[6..]))
  }

  /** Go's reading of s: every invalid byte is U+FFFD. */
  function Sanitize(s: bytes): bytes
    decreases |s|
  {
    if s == [] then [] else (if RuneLen(s) == 0 then REPLACEMENT else Unit(s)) + Sanitize(Rest(s))
  }

  lemma {:induction false} SanitizeLength(s: bytes)
    ensures |Sanitize(s)| >= |s| && (|Sanitize(s)| == |s| <==> WellFormed(s))
    decreases |s|
  {
    if s != [] {
      SanitizeLength(Rest(s));
    }
  }

  lemma {:induction false} SanitizeKeeps(s: bytes)
    requires WellFormed(s)
    ensures Sanitize(s) == s
    decreases |s|
  {
    if s != [] {
      SanitizeKeeps(Rest(s));
      assert s == Unit(s) + Rest(s);
    }
  }

  predicate Ordinary(u: bytes) {
    forall i | 0 <= i < |u| :: u[i] >= ' ' && u[i] != '"' && u[i] != '\\'
  }

  lemma {:induction false} OrdinaryIsCopied(u: bytes, t: bytes)
    requires Ordinary(u)
    ensures Decode(u + t) == Prepend(u, Decode(t))
  {
    if u == [] {
      ConcatNil(t);
      if Decode(t).Some? {
        ConcatNil(Decode(t).value);
      }
    } else {
      ConsConcat(u, t);
      OrdinaryIsCopied(u[1..], t);
      if Decode(t).Some? {
        ConcatAssoc([u[0]], u[1..], Decode(t).value);
        assert u == [u[0]] + u[1..];
      }
    }
  }

  /** One escaped character is decoded to itself, or to U+FFFD if it was invalid. */
  lemma {:induction false} EscapeIsDecoded(s: bytes, t: bytes)
    requires s != []
    ensures Decode(Escape(s) + t) == Prepend(if RuneLen(s) == 0 then REPLACEMENT else Unit(s), Decode(t))
  {
    var e := Escape(s);
    if s[0] as int < 0x80 {
      AsciiIsDecoded(s[0], t);
      assert Unit(s) == [s[0]];
    } else if RuneLen(s) == 0 || IsLineSeparator(Unit(s)) {
      WideIsDecoded(s, t);
    } else {
      assert forall i | 0 <= i < |Unit(s)| :: Unit(s)[i] == s[i] && s[i] as int >= 0x80;
      OrdinaryIsCopied(Unit(s), t);
    }
  }

  lemma {:induction false} WideIsDecoded(s: bytes, t: bytes)
    requires s != [] && s[0] as int >= 0x80 && (RuneLen(s) == 0 || IsLineSeparator(Unit(s)))
    ensures Decode(Escape(s) + t) == Prepend(if RuneLen(s) == 0 then REPLACEMENT else Unit(s), Decode(t))
  {
    var e := Escape(s);
    var body := e + t;
    assert |e| == 6 && forall i | 0 <= i < 6 :: body[i] == e[i];
    assert body[6..] == t;
    if RuneLen(s) == 0 {
      assert UnicodeEscape(body) == 0xFFFD;
      assert EncodeRune(0xFFFD) == REPLACEMENT;
    } else {
      assert UnicodeEscape(body) == if s[2] as int == 0xA8 then 0x2028 else 0x2029;
      assert EncodeRune(UnicodeEscape(body)) == Unit(s);
    }
  }

  lemma {:induction false} AsciiIsDecoded(c: byte, t: bytes)
    requires c as int < 0x80
    ensures Decode(EscapeAscii(c) + t) == Prepend([c], Decode(t))
  {
    var e := EscapeAscii(c);
    var body := e + t;
    assert forall i | 0 <= i < |e| :: body[i] == e[i];
    if HtmlSafe(c) {
      OrdinaryIsCopied(e, t);
    } else if |e| == 2 {
      assert body[2..] == t;
      assert SimpleEscape(e[1]) == [c];
    } else {
      assert body[6..] == t;
      assert UnicodeEscape(body) == c as int;
    }
  }

  lemma {:induction false} MarshalIsDecoded(s: bytes)
    ensures Decode(Marshal(s)) == Some(Sanitize(s))
    decreases |s|
  {
    if s != [] {
      EscapeIsDecoded(s, Marshal(Rest(s)));
      MarshalIsDecoded(Rest(s));
    }
  }

  /** The text between the quotes. */
  function Inner(raw: bytes): bytes
    requires |raw| >= 2
  {
    raw[1..|raw| - 1]
  }

  /** Decoding what was encoded gives the same string exactly if it is well-formed UTF-8; otherwise
      its invalid bytes come back as U+FFFD. */
  lemma {:induction false} DecodesToItselfIff(s: bytes)
    ensures Decode(Inner(Encoded(s))) == Some(Sanitize(s))
    ensures Decode(Inner(Encoded(s))) == Some(s) <==> WellFormed(s)
  {
    SanitizeLength(s);
    if WellFormed(s) {
      SanitizeKeeps(s);
    }
    if IsPlain(s) {
      PlainIsWellFormed(s);
      SanitizeKeeps(s);
      assert Inner(Encoded(s)) == s;
      OrdinaryIsCopied(s, []);
      ConcatNil(s);
    } else {
      assert Inner(Encoded(s)) == Marshal(s);
      MarshalIsDecoded(s);
    }
  }

  lemma {:induction false} PlainIsWellFormed(s: bytes)
    requires IsPlain(s)
    ensures WellFormed(s)
    decreases |s|
  {
    if s != [] {
      PlainIsWellFormed(s[1..]);
    }
  }

  // ------------------------------------------------------------------ what the characters are

  predicate IsScalar(r: int) { 0 <= r < 0x110000 && !IsSurrogate(r) }

  /** The encoding of every scalar value is taken as one character. */
  lemma ScalarIsRune(s: bytes, r: int)
    requires IsScalar(r) && HasPrefix(s, EncodeRune(r))
    ensures RuneLen(s) == |EncodeRune(r)|
  {
    var e := EncodeRune(r);
    assert forall i | 0 <= i < |e| :: s[i] == e[i];
  }

  /** And nothing else is: no surrogate, nothing above U+10FFFF, nothing longer than it needs to be. */
  lemma RuneIsScalar(s: bytes) returns (r: int)
    requires RuneLen(s) > 0
    ensures IsScalar(r) && s[..RuneLen(s)] == EncodeRune(r)
  {
    var n := RuneLen(s);
    var a := s[0] as int;
    if n == 1 {
      r := a;
    } else {
      var b := s[1] as int - 0x80;
      if n == 2 {
        r := (a - 0xC0) * 0x40 + b;
      } else {
        var c := s[2] as int - 0x80;
        if n == 3 {
          r := ThreeBytes(a - 0xE0, b, c);
        } else {
          r := FourBytes(a - 0xF0, b, c, s[3] as int - 0x80);
        }
      }
    }
  }

  lemma ThreeBytes(a: int, b: int, c: int) returns (r: int)
    requires 0 <= a < 16 && 0 <= b < 0x40 && 0 <= c < 0x40 && (a == 0 ==> b >= 0x20) && (a == 0xD ==> b < 0x20)
    ensures IsScalar(r) && EncodeRune(r) == [(0xE0 + a) as char, (0x80 + b) as char, (0x80 + c) as char]
  {
    r := a * 0x1000 + b * 0x40 + c;
    Digits64(a, b, c);
  }

  lemma FourBytes(a: int, b: int, c: int, d: int) returns (r: int)
    requires 0 <= a < 5 && 0 <= b < 0x40 && 0 <= c < 0x40 && 0 <= d < 0x40 && (a == 0 ==> b >= 0x10) && (a == 4 ==> b < 0x10)
    ensures IsScalar(r) && EncodeRune(r) == [(0xF0 + a) as char, (0x80 + b) as char, (0x80 + c) as char, (0x80 + d) as char]
  {
    r := a * 0x40000 + b * 0x1000 + c * 0x40 + d;
    Digits64(a * 0x40 + b, c, d);
    Digits64(a, b, 0);
    assert r / 0x40000 == r / 0x1000 / 0x40;
  }

  /** Three digits to the base 64, the first of any size. */
  lemma Digits64(high: int, middle: int, low: int)
    requires 0 <= high && 0 <= middle < 0x40 && 0 <= low < 0x40
    ensures var r := high * 0x1000 + middle * 0x40 + low;
            r / 0x1000 == high && r / 0x40 % 0x40 == middle && r % 0x40 == low && r / 0x40 == high * 0x40 + middle
  {}

  /** A pair of surrogates is read as the character that it stands for in UTF-16. */
  lemma PairIsRead(r: int)
    requires 0x10000 <= r < 0x110000
    ensures DecodePair(0xD800 + (r - 0x10000) / 0x400, 0xDC00 + (r - 0x10000) % 0x400) == r
  {}
}
