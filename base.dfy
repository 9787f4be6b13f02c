/** Shared vocabulary: optional values, bytes, and the ASCII bytes the
    journal grammar and the configuration scan look for. */
module Base {

  datatype Option<+T> = None | Some(value: T)

  /** An eight-bit byte, as the journal file and the command output are read. */
  newtype byte = b: int | 0 <= b < 256

  type Bytes = seq<byte>

  const TAB: byte := 9
  const NEWLINE: byte := 10
  const SPACE: byte := 32
  const QUOTE: byte := 34
  const DASH: byte := 45
  const SLASH: byte := 47
  const COLON: byte := 58
  const EQUALS: byte := 61
  const LBRACKET: byte := 91
  const BACKSLASH: byte := 92
  const RBRACKET: byte := 93
  const UNDERSCORE: byte := 95
  const TILDE: byte := 126

  predicate IsAscii(s: string) {
    forall i | 0 <= i < |s| :: s[i] as int < 128
  }

  /** The bytes of an ASCII text (used for the literal tags of the grammar). */
  function Ascii(s: string): (b: Bytes)
    requires IsAscii(s)
    ensures |b| == |s|
    ensures forall i | 0 <= i < |s| :: b[i] as int == s[i] as int
  {
    seq(|s|, i requires 0 <= i < |s| => s[i] as int as byte)
  }

  /** The text of a run of ASCII bytes. */
  function AsciiText(b: Bytes): (s: string)
    requires forall i | 0 <= i < |b| :: b[i] < 128
    ensures |s| == |b|
    ensures forall i | 0 <= i < |b| :: s[i] as int == b[i] as int
  {
    seq(|b|, i requires 0 <= i < |b| => b[i] as int as char)
  }

  /** The value stored under `k`, as Rust's `HashMap::get` gives it. */
  function Get<K, V>(m: map<K, V>, k: K): (r: Option<V>)
    ensures r.Some? <==> k in m
    ensures r.Some? ==> r.value == m[k]
  {
    if k in m then Some(m[k]) else None
  }
}
