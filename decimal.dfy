/** Decimal integers as Rust renders them (`Display` for integers) and reads
    them (`str::parse::<i64>`), on unbounded integers with the 64-bit range
    written out. */
module Decimal {
  import opened Base

  const I64_MIN: int := -0x8000_0000_0000_0000
  const I64_MAX: int := 0x7FFF_FFFF_FFFF_FFFF

  predicate InI64(n: int) {
    I64_MIN <= n <= I64_MAX
  }

  predicate IsDigit(c: char) {
    '0' <= c <= '9'
  }

  predicate AllDigits(s: string) {
    forall i | 0 <= i < |s| :: IsDigit(s[i])
  }

  function DigitChar(d: nat): (c: char)
    requires d < 10
    ensures IsDigit(c)
  {
    ('0' as int + d) as char
  }

  /** The number a run of decimal digits denotes, most significant first;
      leading zeros are allowed, as Rust allows them. */
  function DigitsValue(s: string): nat
    requires AllDigits(s)
  {
    if s == [] then 0
    else DigitsValue(s[..|s| - 1]) * 10 + (s[|s| - 1] as int - '0' as int)
  }

  /** The shortest decimal rendering of `n`. */
  function NatToString(n: nat): (r: string)
    ensures |r| > 0 && AllDigits(r)
    ensures DigitsValue(r) == n
    ensures |r| > 1 ==> r[0] != '0'
  {
    if n < 10 then [DigitChar(n)]
    else
      var r := NatToString(n / 10) + [DigitChar(n % 10)];
      assert r[..|r| - 1] == NatToString(n / 10);
      r
  }

  /** One step of `Display`: the last digit follows the others. */
  lemma NatToStringStep(n: nat, q: nat, d: nat, c: char)
    requires q > 0 && n == q * 10 + d && d < 10 && c == DigitChar(d)
    ensures NatToString(n) == NatToString(q) + [c]
  {
    assert n / 10 == q && n % 10 == d;
  }

  /** Rust's `Display` for a signed integer: a minus sign, then the digits. */
  function IntToString(n: int): (r: string)
    ensures |r| > 0
    ensures n >= 0 ==> AllDigits(r) && r == NatToString(n)
    ensures n < 0 ==> r[0] == '-' && r[1..] == NatToString(-n)
  {
    if n < 0 then "-" + NatToString(-n) else NatToString(n)
  }

  /** Rust's `str::parse::<i64>`: an optional `+` or `-`, then at least one
      ASCII digit and nothing else; a value outside the 64-bit range is an
      error. */
  function ParseI64(s: string): (r: Option<int>)
    ensures r.Some? ==> InI64(r.value)
  {
    var negative := |s| > 0 && s[0] == '-';
    var digits := if |s| > 0 && (s[0] == '-' || s[0] == '+') then s[1..] else s;
    if digits == [] || !AllDigits(digits) then None
    else
      var v: int := if negative then 0 - DigitsValue(digits) as int else DigitsValue(digits);
      if InI64(v) then Some(v) else None
  }

  /** Reading back what `IntToString` rendered gives the number again,
      provided it fits in i64. */
  lemma ParseIntToString(n: int)
    ensures ParseI64(IntToString(n)) == if InI64(n) then Some(n) else None
  {
    var s := IntToString(n);
    if n < 0 {
      assert s[0] == '-' && s[1..] == NatToString(-n);
    } else {
      assert s[0] != '-' && s[0] != '+';
    }
  }

  /** A string of digits only parses exactly when its value fits in i64,
      and then to that value. */
  lemma ParseDigits(s: string)
    requires s != [] && AllDigits(s)
    ensures ParseI64(s) == if DigitsValue(s) <= I64_MAX then Some(DigitsValue(s)) else None
  {
    assert s[0] != '-' && s[0] != '+';
  }

  /** Whatever `ParseI64` accepts is an optional sign and digits, and its
      value is the digits' value, negated exactly after a `-`. */
  lemma ParseI64Sound(s: string)
    requires ParseI64(s).Some?
    ensures var v := ParseI64(s).value;
      var digits := if s[0] == '-' || s[0] == '+' then s[1..] else s;
      && digits != [] && AllDigits(digits)
      && (v < 0 ==> s[0] == '-')
      && v == if s[0] == '-' then 0 - DigitsValue(digits) else DigitsValue(digits)
  {
  }

  /** A leading zero does not change the value of a run of digits. */
  lemma {:induction false} DigitsValueLeadingZero(s: string)
    requires AllDigits(s)
    ensures AllDigits("0" + s) && DigitsValue("0" + s) == DigitsValue(s)
    decreases |s|
  {
    var z := "0" + s;
    if s == [] {
      assert z[..0] == [];
    } else {
      assert z[..|z| - 1] == "0" + s[..|s| - 1];
      DigitsValueLeadingZero(s[..|s| - 1]);
    }
  }

  /** `str::parse` reads digits with a leading zero as it reads them
      without it. */
  lemma ParseLeadingZero(s: string)
    requires s != [] && AllDigits(s)
    ensures ParseI64("0" + s) == ParseI64(s)
  {
    DigitsValueLeadingZero(s);
    ParseDigits(s);
    ParseDigits("0" + s);
  }
}
