/** UTF-8 (RFC 3629) for one Unicode scalar value: the encoding Rust uses for
    `String`, and the validation `str::from_utf8` performs (no overlong
    forms, no surrogates, nothing above U+10FFFF). */
module Utf8 {
  import opened Base

  predicate IsContinuation(b: byte) {
    0x80 <= b <= 0xBF
  }

  /** The UTF-8 bytes of one character. */
  function EncodeChar(c: char): (r: Bytes)
    ensures 1 <= |r| <= 4
    ensures |r| == 1 <==> c as int < 0x80
    ensures |r| == 1 ==> r[0] as int == c as int
    ensures |r| > 1 ==> r[0] >= 0xC2 && forall i | 1 <= i < |r| :: IsContinuation(r[i])
  {
    var n := c as int;
    if n < 0x80 then [n as byte]
    else if n < 0x800 then
      [(0xC0 + n / 0x40) as byte, (0x80 + n % 0x40) as byte]
    else if n < 0x1_0000 then
      [(0xE0 + n / 0x1000) as byte, (0x80 + n / 0x40 % 0x40) as byte, (0x80 + n % 0x40) as byte]
    else
      [(0xF0 + n / 0x4_0000) as byte, (0x80 + n / 0x1000 % 0x40) as byte,
       (0x80 + n / 0x40 % 0x40) as byte, (0x80 + n % 0x40) as byte]
  }

  /** The character whose UTF-8 encoding starts `b`, with the number of bytes
      it takes; `None` when `b` does not start with a well-formed sequence. */
  function DecodeChar(b: Bytes): (r: Option<(char, nat)>)
    ensures r.Some? ==> 1 <= r.value.1 <= 4 && r.value.1 <= |b|
    ensures r.Some? && r.value.1 == 1 ==> b[0] < 0x80
  {
    if |b| == 0 then None
    else
      var b0 := b[0] as int;
      if b0 < 0x80 then Some((b0 as char, 1))
      else if 0xC2 <= b0 <= 0xDF then
        if |b| >= 2 && IsContinuation(b[1]) then
          Some((((b0 - 0xC0) * 0x40 + (b[1] as int - 0x80)) as char, 2))
        else None
      else if 0xE0 <= b0 <= 0xEF then
        var lo := if b0 == 0xE0 then 0xA0 else 0x80;
        var hi := if b0 == 0xED then 0x9F else 0xBF;
        if |b| >= 3 && lo <= b[1] as int <= hi && IsContinuation(b[2]) then
          Some((((b0 - 0xE0) * 0x1000 + (b[1] as int - 0x80) * 0x40 + (b[2] as int - 0x80)) as char, 3))
        else None
      else if 0xF0 <= b0 <= 0xF4 then
        var lo := if b0 == 0xF0 then 0x90 else 0x80;
        var hi := if b0 == 0xF4 then 0x8F else 0xBF;
        if |b| >= 4 && lo <= b[1] as int <= hi && IsContinuation(b[2]) && IsContinuation(b[3]) then
          Some((((b0 - 0xF0) * 0x4_0000 + (b[1] as int - 0x80) * 0x1000
                 + (b[2] as int - 0x80) * 0x40 + (b[3] as int - 0x80)) as char, 4))
        else None
      else None
  }

  /** Decoding reads back exactly the character that was encoded, whatever
      follows it. */
  lemma DecodeEncodeChar(c: char, rest: Bytes)
    ensures DecodeChar(EncodeChar(c) + rest) == Some((c, |EncodeChar(c)|))
  {
    var n := c as int;
    var e := EncodeChar(c);
    var b := e + rest;
    assert b[..|e|] == e;
    if n < 0x80 {
    } else if n < 0x800 {
      Decode2(b, n);
    } else if n < 0x1_0000 {
      Decode3(b, n);
    } else {
      Decode4(b, n);
    }
  }

  lemma Decode2(b: Bytes, n: int)
    requires 0x80 <= n < 0x800 && |b| >= 2
    requires b[0] as int == 0xC0 + n / 0x40 && b[1] as int == 0x80 + n % 0x40
    ensures DecodeChar(b).Some? && DecodeChar(b).value.0 as int == n && DecodeChar(b).value.1 == 2
  {
  }

  lemma Decode3(b: Bytes, n: int)
    requires 0x800 <= n < 0x1_0000 && !(0xD800 <= n < 0xE000) && |b| >= 3
    requires b[0] as int == 0xE0 + n / 0x1000
    requires b[1] as int == 0x80 + n / 0x40 % 0x40 && b[2] as int == 0x80 + n % 0x40
    ensures DecodeChar(b).Some? && DecodeChar(b).value.0 as int == n && DecodeChar(b).value.1 == 3
  {
    Recompose3(n);
    assert b[0] == 0xE0 ==> b[1] >= 0xA0;
    assert b[0] == 0xED ==> b[1] <= 0x9F;
  }

  lemma Recompose3(n: int)
    requires 0x800 <= n < 0x1_0000 && !(0xD800 <= n < 0xE000)
    ensures n == (n / 0x1000) * 0x1000 + (n / 0x40 % 0x40) * 0x40 + n % 0x40
    ensures n / 0x1000 < 0x10
    ensures n / 0x1000 == 0 ==> n / 0x40 % 0x40 >= 0x20
    ensures n / 0x1000 == 0xD ==> n / 0x40 % 0x40 < 0x20
  {
    var q := n / 0x40;
    assert n == q * 0x40 + n % 0x40;
    assert q == (q / 0x40) * 0x40 + q % 0x40;
    assert q / 0x40 == n / 0x1000;
  }

  lemma Decode4(b: Bytes, n: int)
    requires 0x1_0000 <= n < 0x11_0000 && |b| >= 4
    requires b[0] as int == 0xF0 + n / 0x4_0000
    requires b[1] as int == 0x80 + n / 0x1000 % 0x40
    requires b[2] as int == 0x80 + n / 0x40 % 0x40 && b[3] as int == 0x80 + n % 0x40
    ensures DecodeChar(b).Some? && DecodeChar(b).value.0 as int == n && DecodeChar(b).value.1 == 4
  {
    Recompose4(n);
    assert b[0] == 0xF0 ==> b[1] >= 0x90;
    assert b[0] == 0xF4 ==> b[1] <= 0x8F;
  }

  lemma Recompose4(n: int)
    requires 0x1_0000 <= n < 0x11_0000
    ensures n == (n / 0x4_0000) * 0x4_0000 + (n / 0x1000 % 0x40) * 0x1000 + (n / 0x40 % 0x40) * 0x40 + n % 0x40
    ensures n / 0x4_0000 <= 4 && (n / 0x4_0000 == 0 ==> n / 0x1000 % 0x40 >= 0x10)
    ensures n / 0x4_0000 == 4 ==> n / 0x1000 % 0x40 < 0x10
  {
    var q := n / 0x40;
    assert n == q * 0x40 + n % 0x40;
    var r := q / 0x40;
    assert q == r * 0x40 + q % 0x40;
    assert r == n / 0x1000;
    assert r == (r / 0x40) * 0x40 + r % 0x40;
    assert r / 0x40 == n / 0x4_0000;
  }

  /** Conversely, the bytes a successful decode consumed are the encoding of
      the character it produced: no character has two encodings. */
  lemma EncodeDecodeChar(b: Bytes)
    requires DecodeChar(b).Some?
    ensures b[..DecodeChar(b).value.1] == EncodeChar(DecodeChar(b).value.0)
  {
    var (c, k) := DecodeChar(b).value;
    var n := c as int;
    if k == 2 {
      Digits2(n, b[0] as int - 0xC0, b[1] as int - 0x80);
    } else if k == 3 {
      Digits3(n, b[0] as int - 0xE0, b[1] as int - 0x80, b[2] as int - 0x80);
    } else if k == 4 {
      Digits4(n, b[0] as int - 0xF0, b[1] as int - 0x80, b[2] as int - 0x80, b[3] as int - 0x80);
    }
  }

  lemma Digits2(n: int, x: int, y: int)
    requires n == x * 0x40 + y && 0 <= y < 0x40 && 0 <= x
    ensures n / 0x40 == x && n % 0x40 == y
  {
  }

  lemma Digits3(n: int, x: int, y: int, z: int)
    requires n == x * 0x1000 + y * 0x40 + z && 0 <= y < 0x40 && 0 <= z < 0x40 && 0 <= x
    ensures n / 0x1000 == x && n / 0x40 % 0x40 == y && n % 0x40 == z
  {
    Digits2(n, x * 0x40 + y, z);
    Digits2(x * 0x40 + y, x, y);
  }

  lemma Digits4(n: int, w: int, x: int, y: int, z: int)
    requires n == w * 0x4_0000 + x * 0x1000 + y * 0x40 + z
    requires 0 <= x < 0x40 && 0 <= y < 0x40 && 0 <= z < 0x40 && 0 <= w
    ensures n / 0x4_0000 == w && n / 0x1000 % 0x40 == x && n / 0x40 % 0x40 == y && n % 0x40 == z
  {
    Digits3(n, w * 0x40 + x, y, z);
    Digits2(w * 0x40 + x, w, x);
  }
}
