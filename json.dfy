/** The body of a JSON string (section 7 of RFC 8259), decoded the way
    serde_json's `from_slice::<String>` decodes it: raw control characters
    are errors, the eight short escapes and `\uXXXX` are understood, a
    surrogate pair must be complete, and the raw bytes must be UTF-8.
    `Escape` is the matching encoder. */
module Json {
  import opened Base
  import opened Utf8

  predicate IsHexDigit(b: byte) {
    48 <= b <= 57 || 65 <= b <= 70 || 97 <= b <= 102
  }

  function HexValue(b: byte): (v: nat)
    requires IsHexDigit(b)
    ensures v < 16
  {
    if b <= 57 then b as int - 48 else if b <= 70 then b as int - 55 else b as int - 87
  }

  /** The upper-case hex digit for `d`. */
  function HexDigit(d: nat): (b: byte)
    requires d < 16
    ensures IsHexDigit(b) && HexValue(b) == d
  {
    if d < 10 then (48 + d) as byte else (55 + d) as byte
  }

  /** The value of the four hex digits that start `b`: they must all be
      there and all be hex digits, in either case. */
  function Hex4(b: Bytes): (r: Option<nat>)
    ensures r.Some? <==> |b| >= 4 && forall k | 0 <= k < 4 :: IsHexDigit(b[k])
    ensures r.Some? ==> r.value < 0x1_0000
    ensures r.Some? ==>
      r.value == HexValue(b[0]) * 0x1000 + HexValue(b[1]) * 0x100 + HexValue(b[2]) * 0x10 + HexValue(b[3])
  {
    if |b| < 4 || !(IsHexDigit(b[0]) && IsHexDigit(b[1]) && IsHexDigit(b[2]) && IsHexDigit(b[3])) then None
    else Some(((HexValue(b[0]) * 16 + HexValue(b[1])) * 16 + HexValue(b[2])) * 16 + HexValue(b[3]))
  }

  /** The four upper-case hex digits of a 16-bit unit, the last one first
      taken off. */
  function Hex4Bytes(n: nat): (b: Bytes)
    requires n < 0x1_0000
    ensures |b| == 4
  {
    var n1 := n / 16;
    var n2 := n1 / 16;
    [HexDigit(n2 / 16), HexDigit(n2 % 16), HexDigit(n1 % 16), HexDigit(n % 16)]
  }

  lemma HexPlaces(n: nat)
    requires n < 0x1_0000
    ensures var n1 := n / 16; var n2 := n1 / 16;
      n == ((n2 / 16 * 16 + n2 % 16) * 16 + n1 % 16) * 16 + n % 16
  {
    var n1 := n / 16;
    var n2 := n1 / 16;
    assert n2 == n2 / 16 * 16 + n2 % 16;
    assert n1 == n2 * 16 + n1 % 16;
    assert n == n1 * 16 + n % 16;
  }

  /** Four hex digits written for a unit are read back as that unit. */
  lemma Hex4RoundTrip(n: nat, rest: Bytes)
    requires n < 0x1_0000
    ensures Hex4(Hex4Bytes(n) + rest) == Some(n)
  {
    var n1 := n / 16;
    var n2 := n1 / 16;
    var b := Hex4Bytes(n) + rest;
    assert b[0] == HexDigit(n2 / 16) && b[1] == HexDigit(n2 % 16);
    assert b[2] == HexDigit(n1 % 16) && b[3] == HexDigit(n % 16);
    HexPlaces(n);
  }


  /** The character an escape sequence stands for, given the bytes after its
      backslash, with the number of those bytes it takes. */
  function Unescape(b: Bytes): (r: Option<(char, nat)>)
    ensures r.Some? ==> 1 <= r.value.1 <= |b|
  {
    if |b| == 0 then None
    else if b[0] == QUOTE then Some(('"', 1))
    else if b[0] == BACKSLASH then Some(('\\', 1))
    else if b[0] == SLASH then Some(('/', 1))
    else if b[0] == 98 then Some(('\U{8}', 1))
    else if b[0] == 102 then Some(('\U{C}', 1))
    else if b[0] == 110 then Some(('\n', 1))
    else if b[0] == 114 then Some(('\r', 1))
    else if b[0] == 116 then Some(('\t', 1))
    else if b[0] == 117 then
      match Hex4(b[1..])
      case None => None
      case Some(n) =>
        if 0xDC00 <= n <= 0xDFFF then None
        else if 0xD800 <= n <= 0xDBFF then
          if |b| >= 7 && b[5] == BACKSLASH && b[6] == 117 then
            match Hex4(b[7..])
            case Some(m) =>
              if 0xDC00 <= m <= 0xDFFF then
                Some((((n - 0xD800) * 0x400 + (m - 0xDC00) + 0x1_0000) as char, 11))
              else None
            case None => None
          else None
        else Some((n as char, 5))
    else None
  }

  /** The first character of a string body, with the number of bytes it
      takes; `None` for a raw quote (the JSON string would end there, before
      the end of the body), a raw control character, a bad escape or
      malformed UTF-8. */
  function Token(b: Bytes): (r: Option<(char, nat)>)
    ensures r.Some? ==> 1 <= r.value.1 <= |b|
  {
    if |b| == 0 || b[0] == QUOTE || b[0] < 0x20 then None
    else if b[0] == BACKSLASH then
      match Unescape(b[1..])
      case None => None
      case Some((c, n)) => Some((c, n + 1))
    else DecodeChar(b)
  }

  /** The string a whole body denotes, or `None` if it is not a valid body.
      Every character takes at least one byte. */
  function DecodeBody(b: Bytes): (r: Option<string>)
    decreases |b|
  {
    if b == [] then Some([])
    else
      match Token(b)
      case None => None
      case Some((c, n)) =>
        match DecodeBody(b[n..])
        case None => None
        case Some(s) => Some([c] + s)
  }

  /** A decoded body has at most one character per byte, and is empty
      exactly when the body is. */
  lemma {:induction false} DecodeBodyLength(b: Bytes)
    requires DecodeBody(b).Some?
    ensures |DecodeBody(b).value| <= |b|
    ensures DecodeBody(b).value == [] <==> b == []
    decreases |b|
  {
    if b != [] {
      var (c, n) := Token(b).value;
      DecodeBodyLength(b[n..]);
    }
  }

  const LOWER_HEX := "0123456789abcdef"

  /** The JSON escape of one character: a short escape where JSON has one,
      `\u00XX` for the other control characters, UTF-8 otherwise. */
  function EscapeChar(c: char): (r: Bytes)
    ensures 1 <= |r| <= 6
  {
    if c == '"' then [BACKSLASH, QUOTE]
    else if c == '\\' then [BACKSLASH, BACKSLASH]
    else if c == '\U{8}' then [BACKSLASH, 98]
    else if c == '\U{C}' then [BACKSLASH, 102]
    else if c == '\n' then [BACKSLASH, 110]
    else if c == '\r' then [BACKSLASH, 114]
    else if c == '\t' then [BACKSLASH, 116]
    else if c as int < 0x20 then
      [BACKSLASH, 117, 48, 48, LOWER_HEX[c as int / 16] as int as byte, LOWER_HEX[c as int % 16] as int as byte]
    else EncodeChar(c)
  }

  /** The JSON string body of `s`. */
  function Escape(s: string): (r: Bytes)
    ensures s == [] <==> r == []
  {
    if s == [] then [] else EscapeChar(s[0]) + Escape(s[1..])
  }

  lemma TokenEscapeChar(c: char, rest: Bytes)
    ensures Token(EscapeChar(c) + rest) == Some((c, |EscapeChar(c)|))
  {
    var e := EscapeChar(c);
    var b := e + rest;
    if c as int < 0x20 && !(c in {'\U{8}', '\U{C}', '\n', '\r', '\t'}) {
      var h := b[2..6];
      assert b[1..][1..][..4] == h;
      assert Hex4(b[1..][1..]) == Some(c as int);
    } else if c as int >= 0x20 && c != '"' && c != '\\' {
      DecodeEncodeChar(c, rest);
    }
  }

  /** One step of decoding: the escape of `c` is read as `c`, then the rest
      of the body is decoded as it would be alone. */
  lemma DecodeEscapeCharStep(c: char, tail: Bytes)
    ensures DecodeBody(tail).Some? ==> DecodeBody(EscapeChar(c) + tail) == Some([c] + DecodeBody(tail).value)
    ensures DecodeBody(tail).None? ==> DecodeBody(EscapeChar(c) + tail).None?
  {
    var e := EscapeChar(c);
    TokenEscapeChar(c, tail);
    assert (e + tail)[|e|..] == tail;
  }

  /** One step of `Escape`. */
  lemma EscapeUnfold(s: string)
    requires s != []
    ensures Escape(s) == EscapeChar(s[0]) + Escape(s[1..])
  {
  }

  lemma EscapeCons(s: string, rest: Bytes)
    requires s != []
    ensures Escape(s) + rest == EscapeChar(s[0]) + (Escape(s[1..]) + rest)
  {
    EscapeUnfold(s);
    hide *;
    Assoc(EscapeChar(s[0]), Escape(s[1..]), rest);
  }

  lemma Assoc(a: Bytes, b: Bytes, c: Bytes)
    ensures (a + b) + c == a + (b + c)
  {
  }

  /** A quote byte in the escape of a character is the second byte of `\"`,
      and only a backslash has an escape ending in a backslash. */
  lemma EscapeCharBytes(c: char)
    ensures forall i | 0 <= i < |EscapeChar(c)| && EscapeChar(c)[i] == QUOTE :: i == 1 && EscapeChar(c)[0] == BACKSLASH
    ensures c != '\\' ==> EscapeChar(c)[|EscapeChar(c)| - 1] != BACKSLASH
    ensures var e := EscapeChar(c);
      || (|e| == 2 && e[0] == BACKSLASH)
      || (|e| == 6 && e[0] == BACKSLASH && forall k | 2 <= k < 6 :: e[k] != QUOTE && e[k] != BACKSLASH)
      || (forall k | 0 <= k < |e| :: e[k] != QUOTE && e[k] != BACKSLASH)
  {
    var e := EscapeChar(c);
    if c as int < 0x20 && !(c in {'\U{8}', '\U{C}', '\n', '\r', '\t'}) {
      assert forall k | 0 <= k < 16 :: LOWER_HEX[k] as int as byte != QUOTE && LOWER_HEX[k] as int as byte != BACKSLASH;
    } else if c as int >= 0x20 && c != '"' && c != '\\' {
      if |e| == 1 {
        assert e[0] as int == c as int;
      }
    }
  }

  lemma ConsAppend<T>(s: seq<T>, v: seq<T>)
    requires s != []
    ensures [s[0]] + (s[1..] + v) == s + v
  {
    assert s == [s[0]] + s[1..];
  }

  /** Decoding the escape of a string gives the string back, and leaves
      the decoding of what follows as it was. */
  lemma {:induction false} DecodeEscape(s: string, rest: Bytes)
    ensures DecodeBody(rest).Some? ==> DecodeBody(Escape(s) + rest) == Some(s + DecodeBody(rest).value)
    ensures DecodeBody(rest).None? ==> DecodeBody(Escape(s) + rest).None?
    decreases |s|
  {
    if s == [] {
      assert Escape(s) + rest == rest;
      if DecodeBody(rest).Some? {
        assert s + DecodeBody(rest).value == DecodeBody(rest).value;
      }
    } else {
      var tail := Escape(s[1..]) + rest;
      EscapeCons(s, rest);
      DecodeEscapeCharStep(s[0], tail);
      DecodeEscape(s[1..], rest);
      if DecodeBody(rest).Some? {
        ConsAppend(s, DecodeBody(rest).value);
      }
    }
  }

  /** The round trip: a body made by `Escape` decodes to what was escaped. */
  lemma DecodeEscapeRoundTrip(s: string)
    ensures DecodeBody(Escape(s)) == Some(s)
  {
    DecodeEscape(s, []);
    assert Escape(s) + [] == Escape(s);
    assert s + [] == s;
  }

  /** The other escapes a JSON writer may use for `c`: `\/` for a slash,
      `\uXXXX` in upper-case hex for any other character of the Basic
      Multilingual Plane, and a surrogate pair of two such escapes above
      it. */
  function EscapeUnicodeChar(c: char): (r: Bytes)
    ensures |r| == 2 || |r| == 6 || |r| == 12
  {
    if c == '/' then [BACKSLASH, SLASH]
    else if c as int < 0x1_0000 then [BACKSLASH, 117] + Hex4Bytes(c as int)
    else
      var m := c as int - 0x1_0000;
      [BACKSLASH, 117] + Hex4Bytes(0xD800 + m / 0x400) + [BACKSLASH, 117] + Hex4Bytes(0xDC00 + m % 0x400)
  }

  /** A body written with those escapes only. */
  function EscapeUnicode(s: string): (r: Bytes)
    ensures |r| >= 2 * |s|
  {
    if s == [] then [] else EscapeUnicodeChar(s[0]) + EscapeUnicode(s[1..])
  }

  lemma UnescapeSlash(rest: Bytes)
    ensures Unescape([SLASH] + rest) == Some(('/', 1))
  {
  }

  /** `\uXXXX` outside the surrogate range stands for that code point. */
  lemma UnescapeUnit(n: nat, rest: Bytes)
    requires n < 0x1_0000 && !(0xD800 <= n <= 0xDFFF)
    ensures Unescape([117] + Hex4Bytes(n) + rest) == Some((n as char, 5))
  {
    var u := [117] + Hex4Bytes(n) + rest;
    assert u[1..] == Hex4Bytes(n) + rest;
    Hex4RoundTrip(n, rest);
  }

  /** A high and a low surrogate escape stand together for one code point
      above the Basic Multilingual Plane. */
  lemma UnescapePair(hi: nat, lo: nat, rest: Bytes)
    requires 0xD800 <= hi <= 0xDBFF && 0xDC00 <= lo <= 0xDFFF
    ensures var u := [117] + Hex4Bytes(hi) + [BACKSLASH, 117] + Hex4Bytes(lo) + rest;
      Unescape(u) == Some((((hi - 0xD800) * 0x400 + (lo - 0xDC00) + 0x1_0000) as char, 11))
  {
    var tail := [BACKSLASH, 117] + Hex4Bytes(lo) + rest;
    var u := [117] + Hex4Bytes(hi) + [BACKSLASH, 117] + Hex4Bytes(lo) + rest;
    assert u[1..] == Hex4Bytes(hi) + tail;
    Hex4RoundTrip(hi, tail);
    assert u[7..] == Hex4Bytes(lo) + rest;
    Hex4RoundTrip(lo, rest);
    assert u[5] == BACKSLASH && u[6] == 117;
  }

  /** The decoder reads `\/`, `\uXXXX` and a surrogate pair back as the
      character they were written for. */
  lemma TokenEscapeUnicodeChar(c: char, rest: Bytes)
    ensures Token(EscapeUnicodeChar(c) + rest) == Some((c, |EscapeUnicodeChar(c)|))
  {
    var e := EscapeUnicodeChar(c);
    var b := e + rest;
    assert b[0] == BACKSLASH;
    hide Unescape;
    if c == '/' {
      assert b[1..] == [SLASH] + rest;
      UnescapeSlash(rest);
    } else if c as int < 0x1_0000 {
      assert b[1..] == [117] + Hex4Bytes(c as int) + rest;
      UnescapeUnit(c as int, rest);
    } else {
      TokenEscapePair(c, rest);
    }
  }

  lemma TokenEscapePair(c: char, rest: Bytes)
    requires c as int >= 0x1_0000
    ensures Token(EscapeUnicodeChar(c) + rest) == Some((c, 12))
  {
    var m := c as int - 0x1_0000;
    var hi := 0xD800 + m / 0x400;
    var lo := 0xDC00 + m % 0x400;
    assert (hi - 0xD800) * 0x400 + (lo - 0xDC00) + 0x1_0000 == c as int;
    assert ((hi - 0xD800) * 0x400 + (lo - 0xDC00) + 0x1_0000) as char == c;
    var h := Hex4Bytes(hi);
    var l := Hex4Bytes(lo);
    assert EscapeUnicodeChar(c) == [BACKSLASH, 117] + h + [BACKSLASH, 117] + l;
    hide Unescape, Hex4Bytes, EscapeUnicodeChar, DecodeChar;
    var b := EscapeUnicodeChar(c) + rest;
    assert b[0] == BACKSLASH;
    assert b[1..] == [117] + h + [BACKSLASH, 117] + l + rest;
    UnescapePair(hi, lo, rest);
  }

  lemma DecodeEscapeUnicodeStep(c: char, tail: Bytes)
    ensures DecodeBody(tail).Some? ==> DecodeBody(EscapeUnicodeChar(c) + tail) == Some([c] + DecodeBody(tail).value)
    ensures DecodeBody(tail).None? ==> DecodeBody(EscapeUnicodeChar(c) + tail).None?
  {
    var e := EscapeUnicodeChar(c);
    TokenEscapeUnicodeChar(c, tail);
    assert (e + tail)[|e|..] == tail;
  }

  /** Decoding a body written with `EscapeUnicode` gives the string back,
      and leaves the decoding of what follows as it was. */
  lemma {:induction false} DecodeEscapeUnicode(s: string, rest: Bytes)
    ensures DecodeBody(rest).Some? ==> DecodeBody(EscapeUnicode(s) + rest) == Some(s + DecodeBody(rest).value)
    ensures DecodeBody(rest).None? ==> DecodeBody(EscapeUnicode(s) + rest).None?
    decreases |s|
  {
    if s == [] {
      assert EscapeUnicode(s) + rest == rest;
      if DecodeBody(rest).Some? {
        assert s + DecodeBody(rest).value == DecodeBody(rest).value;
      }
    } else {
      var tail := EscapeUnicode(s[1..]) + rest;
      assert EscapeUnicode(s) + rest == EscapeUnicodeChar(s[0]) + tail;
      hide EscapeUnicode, EscapeUnicodeChar, DecodeBody;
      DecodeEscapeUnicodeStep(s[0], tail);
      DecodeEscapeUnicode(s[1..], rest);
      if DecodeBody(rest).Some? {
        ConsAppend(s, DecodeBody(rest).value);
      }
    }
  }

  /** The round trip for the second encoder: the decoder understands every
      escape `EscapeUnicode` writes. */
  lemma DecodeEscapeUnicodeRoundTrip(s: string)
    ensures DecodeBody(EscapeUnicode(s)) == Some(s)
  {
    DecodeEscapeUnicode(s, []);
    assert EscapeUnicode(s) + [] == EscapeUnicode(s);
    assert s + [] == s;
  }

  /** A raw quote after an escaped string makes the body invalid. */
  lemma DecodeEscapeThenQuote(s: string, tail: Bytes)
    ensures DecodeBody(Escape(s) + [QUOTE] + tail) == None
  {
    assert Token([QUOTE] + tail) == None;
    assert DecodeBody([QUOTE] + tail) == None;
    hide DecodeBody, Escape, Token;
    DecodeEscape(s, [QUOTE] + tail);
    Assoc(Escape(s), [QUOTE], tail);
  }

  /** In an escaped body every quote byte is the second byte of `\"`. */
  lemma {:induction false} EscapeQuotesAreEscaped(s: string)
    ensures forall j | 0 <= j < |Escape(s)| && Escape(s)[j] == QUOTE :: j > 0 && Escape(s)[j - 1] == BACKSLASH
  {
    hide EscapeChar;
    if s != [] {
      var e := EscapeChar(s[0]);
      var t := Escape(s[1..]);
      EscapeUnfold(s);
      EscapeCharBytes(s[0]);
      EscapeQuotesAreEscaped(s[1..]);
      forall j | 0 <= j < |e + t| && (e + t)[j] == QUOTE
        ensures j > 0 && (e + t)[j - 1] == BACKSLASH
      {
        if j < |e| {
          assert e[j] == QUOTE;
        } else {
          assert t[j - |e|] == QUOTE;
        }
      }
    }
  }

  /** An escaped body ends with a backslash only when the string ends with
      one. */
  lemma {:induction false} EscapeLastByte(s: string)
    requires s != [] && s[|s| - 1] != '\\'
    ensures Escape(s)[|Escape(s)| - 1] != BACKSLASH
  {
    hide EscapeChar;
    EscapeUnfold(s);
    if |s| == 1 {
      assert Escape(s[1..]) == [];
      assert Escape(s) == EscapeChar(s[0]);
      EscapeCharBytes(s[0]);
    } else {
      EscapeLastByte(s[1..]);
      assert s[1..][|s| - 2] == s[|s| - 1];
    }
  }

  /** With a backslash at the end of the string, the escaped body ends in
      `\\`. */
  lemma EscapeTrailingBackslash(s: string)
    requires s != [] && s[|s| - 1] == '\\'
    ensures |Escape(s)| >= 2
    ensures Escape(s)[|Escape(s)| - 2..] == [BACKSLASH, BACKSLASH]
  {
    if |s| == 1 {
    } else {
      EscapeTrailingBackslash(s[1..]);
      assert s[1..][|s| - 2] == s[|s| - 1];
    }
  }
}
