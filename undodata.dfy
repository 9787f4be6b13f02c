/** The parser of Taskwarrior's `undo.data` journal (src/taskdb/undodata.rs).

    Each combinator of the original becomes a function from the remaining
    input to `Option<(value, remaining input)>`; `None` is a recoverable
    parse error, the only kind this grammar produces, so every alternative
    and repetition backtracks to where it started. The two places where the
    original loops over a mutable value (the attribute map and the change
    record) are methods proved equal to the functions the grammar uses. */
module UndoData {
  import opened Base
  import opened Decimal
  import opened Json

  type AttrMap = map<string, string>

  /** One journal entry: when it happened, the task before (absent for a
      creation) and the task after. */
  datatype Change = Change(time: int, oldAttrs: Option<AttrMap>, newAttrs: AttrMap)

  /** `Change::default()`: time 0, no old map, an empty new map. */
  const DEFAULT_CHANGE := Change(0, None, map[])

  datatype Fragment = Time(t: int) | Old(attrs: AttrMap) | New(attrs: AttrMap)

  const TIME_TAG: Bytes := [116, 105, 109, 101]  // "time"
  const OLD_TAG: Bytes := [111, 108, 100]        // "old"
  const NEW_TAG: Bytes := [110, 101, 119]        // "new"

  predicate IsBlank(b: byte) { b == SPACE || b == TAB }
  predicate IsSpaceByte(b: byte) { b == SPACE }
  predicate IsDigitByte(b: byte) { 48 <= b <= 57 }
  predicate IsDashByte(b: byte) { b == DASH }

  /** `is_ascii_alphanumeric() || == b'_'` */
  predicate IsIdentByte(b: byte) {
    48 <= b <= 57 || 65 <= b <= 90 || 97 <= b <= 122 || b == UNDERSCORE
  }

  predicate IsKeyChar(c: char) {
    '0' <= c <= '9' || 'A' <= c <= 'Z' || 'a' <= c <= 'z' || c == '_'
  }

  /** A key as the grammar accepts it: a non-empty run of ASCII letters,
      digits and underscores. */
  predicate IsKey(k: string) {
    |k| > 0 && forall i | 0 <= i < |k| :: IsKeyChar(k[i])
  }

  /** The byte classes the grammar's `take_while` runs are made of. */
  datatype ByteClass = Blanks | Digits | IdentBytes | Spaces | Dashes

  predicate InClass(b: byte, c: ByteClass) {
    match c
    case Blanks => IsBlank(b)
    case Digits => IsDigitByte(b)
    case IdentBytes => IsIdentByte(b)
    case Spaces => IsSpaceByte(b)
    case Dashes => IsDashByte(b)
  }

  /** nom's `take_while`: the length of the longest prefix of `i` whose
      bytes are all in class `c`. */
  function Span(i: Bytes, c: ByteClass): (n: nat)
    ensures n <= |i|
    ensures forall k | 0 <= k < n :: InClass(i[k], c)
    ensures n == |i| || !InClass(i[n], c)
  {
    if |i| > 0 && InClass(i[0], c) then
      var n := 1 + Span(i[1..], c);
      assert forall k | 1 <= k < n :: i[k] == i[1..][k - 1];
      n
    else 0
  }

  /** `space`: skip spaces and tabs. */
  function Space(i: Bytes): (r: Bytes)
    ensures |r| <= |i|
    ensures r == [] || !IsBlank(r[0])
  {
    i[Span(i, Blanks)..]
  }

  /** `tag(t)` */
  function Tag(i: Bytes, t: Bytes): (r: Option<Bytes>)
    ensures r.Some? ==> |r.value| == |i| - |t|
  {
    if |t| <= |i| && i[..|t|] == t then Some(i[|t|..]) else None
  }

  /** `integer`: optional blanks, then `digit1` read as an i64; the read
      fails when the value overflows, and there is no sign to read. */
  function Integer(i: Bytes): (r: Option<(int, Bytes)>)
    ensures r.Some? ==> 0 <= r.value.0 <= I64_MAX && |r.value.1| < |i|
  {
    var j := Space(i);
    var n := Span(j, Digits);
    if n == 0 then None
    else
      var digits := AsciiText(j[..n]);
      ParseDigits(digits);
      match ParseI64(digits)
      case None => None
      case Some(v) => Some((v, j[n..]))
  }

  /** What `integer` reads: the value of the digit run after the blanks,
      exactly when it fits in i64. A run that overflows fails. */
  lemma IntegerValue(i: Bytes)
    ensures var j := Space(i);
      var n := Span(j, Digits);
      && (n > 0 ==> AllDigits(AsciiText(j[..n])))
      && Integer(i) == if n > 0 && DigitsValue(AsciiText(j[..n])) <= I64_MAX
         then Some((DigitsValue(AsciiText(j[..n])), j[n..])) else None
  {
    var j := Space(i);
    var n := Span(j, Digits);
    if n > 0 {
      ParseDigits(AsciiText(j[..n]));
    }
  }

  /** The scanner's stopping rule as written: a quote not directly
      preceded by a backslash. Only the previous byte is looked at, so the
      second backslash of an escaped backslash `\\` also hides the quote
      after it. */
  predicate ClosesAt(q: Bytes, k: nat)
    requires k < |q|
  {
    q[k] == QUOTE && (k == 0 || q[k - 1] != BACKSLASH)
  }

  /** Where the scanner of `quoted_string`, as written, stops in `q` (the
      bytes after the opening quote): the first position that `ClosesAt`. */
  function FrameEndAsWritten(q: Bytes): (r: Option<nat>)
    ensures r.Some? ==> r.value < |q| && ClosesAt(q, r.value)
    ensures r.Some? ==> forall j | 0 <= j < r.value :: !ClosesAt(q, j)
    ensures r.None? ==> forall j | 0 <= j < |q| :: !ClosesAt(q, j)
  {
    FrameEndAsWrittenFrom(q, 0)
  }

  function FrameEndAsWrittenFrom(q: Bytes, k: nat): (r: Option<nat>)
    requires k <= |q|
    ensures r.Some? ==> k <= r.value < |q| && ClosesAt(q, r.value)
    ensures r.Some? ==> forall j | k <= j < r.value :: !ClosesAt(q, j)
    ensures r.None? ==> forall j | k <= j < |q| :: !ClosesAt(q, j)
    decreases |q| - k
  {
    if k == |q| then None
    else if ClosesAt(q, k) then Some(k)
    else FrameEndAsWrittenFrom(q, k + 1)
  }

  /** The byte-by-byte scan of `quoted_string` as written, with its
      `escaped` cell: each byte records whether it is a backslash, and a
      quote ends the value unless the byte before it was one. */
  method ScanQuoted(q: Bytes) returns (end: Option<nat>)
    ensures end == FrameEndAsWritten(q)
  {
    var escaped := false;
    var i := 0;
    while i < |q|
      invariant 0 <= i <= |q|
      invariant escaped == (i > 0 && q[i - 1] == BACKSLASH)
      invariant forall j | 0 <= j < i :: !ClosesAt(q, j)
    {
      var wasEscaped := escaped;
      escaped := q[i] == BACKSLASH;
      if !(q[i] != QUOTE || wasEscaped) {
        assert ClosesAt(q, i);
        FrameEndAsWrittenUnique(q, i);
        return Some(i);
      }
      i := i + 1;
    }
    return None;
  }

  /** The first closing position is the only one the scanner can report. */
  lemma FrameEndAsWrittenUnique(q: Bytes, k: nat)
    requires k < |q| && ClosesAt(q, k)
    requires forall j | 0 <= j < k :: !ClosesAt(q, j)
    ensures FrameEndAsWritten(q) == Some(k)
  {
  }

  function Offset(n: nat, r: Option<nat>): Option<nat> {
    match r
    case None => None
    case Some(k) => Some(k + n)
  }

  /** One step of `FrameEnd`. */
  lemma FrameEndUnfold(q: Bytes)
    ensures q == [] ==> FrameEnd(q) == None
    ensures q != [] && q[0] == QUOTE ==> FrameEnd(q) == Some(0)
    ensures q != [] && q[0] == BACKSLASH ==>
      FrameEnd(q) == if |q| < 2 then None else Offset(2, FrameEnd(q[2..]))
    ensures q != [] && q[0] != QUOTE && q[0] != BACKSLASH ==> FrameEnd(q) == Offset(1, FrameEnd(q[1..]))
  {
  }

  /** The number of backslashes directly before position `j`. */
  function BackslashesBefore(q: Bytes, j: nat): nat
    requires j <= |q|
  {
    if j == 0 || q[j - 1] != BACKSLASH then 0 else 1 + BackslashesBefore(q, j - 1)
  }

  /** The intended stopping rule: a quote after an even run of backslashes,
      which is therefore not escaped. */
  predicate Unescaped(q: Bytes, j: nat)
    requires j < |q|
  {
    q[j] == QUOTE && BackslashesBefore(q, j) % 2 == 0
  }

  /** Dropping a first byte that is not a backslash leaves every run as it
      was. */
  lemma {:induction false} BackslashesDrop1(q: Bytes, j: nat)
    requires |q| > 0 && q[0] != BACKSLASH && 1 <= j <= |q|
    ensures BackslashesBefore(q, j) == BackslashesBefore(q[1..], j - 1)
  {
    if j > 1 {
      assert q[j - 1] == q[1..][j - 2];
      if q[j - 1] == BACKSLASH {
        BackslashesDrop1(q, j - 1);
      }
    }
  }

  /** Dropping an escape pair `\x` keeps the parity of every later run. */
  lemma {:induction false} BackslashesDrop2(q: Bytes, j: nat)
    requires |q| >= 2 && q[0] == BACKSLASH && 2 <= j <= |q|
    ensures BackslashesBefore(q, j) % 2 == BackslashesBefore(q[2..], j - 2) % 2
  {
    if j == 2 {
      assert BackslashesBefore(q, 1) == 1;
    } else {
      assert q[j - 1] == q[2..][j - 3];
      if q[j - 1] == BACKSLASH {
        BackslashesDrop2(q, j - 1);
      }
    }
  }

  lemma UnescapedDrop1(q: Bytes)
    requires |q| > 0 && q[0] != BACKSLASH
    ensures forall j | 1 <= j < |q| :: Unescaped(q, j) == Unescaped(q[1..], j - 1)
  {
    forall j | 1 <= j < |q| ensures Unescaped(q, j) == Unescaped(q[1..], j - 1) {
      BackslashesDrop1(q, j);
    }
  }

  lemma UnescapedDrop2(q: Bytes)
    requires |q| >= 2 && q[0] == BACKSLASH
    ensures !Unescaped(q, 0) && !Unescaped(q, 1)
    ensures forall j | 2 <= j < |q| :: Unescaped(q, j) == Unescaped(q[2..], j - 2)
  {
    assert BackslashesBefore(q, 1) == 1;
    forall j | 2 <= j < |q| ensures Unescaped(q, j) == Unescaped(q[2..], j - 2) {
      BackslashesDrop2(q, j);
    }
  }

  /** Where the scanner stops once it tracks escapes properly: a backslash
      escapes the byte after it, whatever that byte is, so the value closes
      at the first quote after an even run of backslashes, and is not
      closed when there is none. */
  function FrameEnd(q: Bytes): (r: Option<nat>)
    ensures r.Some? ==> r.value < |q| && Unescaped(q, r.value)
    ensures r.Some? ==> forall j | 0 <= j < r.value :: !Unescaped(q, j)
    ensures r.None? ==> forall j | 0 <= j < |q| :: !Unescaped(q, j)
    decreases |q|
  {
    if q == [] then None
    else if q[0] == QUOTE then Some(0)
    else if q[0] == BACKSLASH then
      if |q| < 2 then None
      else
        UnescapedDrop2(q);
        Offset(2, FrameEnd(q[2..]))
    else
      UnescapedDrop1(q);
      Offset(1, FrameEnd(q[1..]))
  }

  /** The same scan with the `escaped` cell updated as intended: a byte is
      escaped when it follows a backslash that was not itself escaped. */
  method ScanQuotedCorrected(q: Bytes) returns (end: Option<nat>)
    ensures end == FrameEnd(q)
  {
    hide FrameEnd;
    var escaped := false;
    var i := 0;
    while i < |q|
      invariant 0 <= i <= |q|
      invariant !escaped ==> FrameEnd(q) == Offset(i, FrameEnd(q[i..]))
      invariant escaped ==> 0 < i && q[i - 1] == BACKSLASH && FrameEnd(q) == Offset(i - 1, FrameEnd(q[i - 1..]))
    {
      var wasEscaped := escaped;
      escaped := !wasEscaped && q[i] == BACKSLASH;
      if q[i] == QUOTE && !wasEscaped {
        FrameEndUnfold(q[i..]);
        return Some(i);
      }
      if wasEscaped {
        FrameEndUnfold(q[i - 1..]);
        assert q[i - 1..][2..] == q[i + 1..];
      } else {
        FrameEndUnfold(q[i..]);
        assert q[i..][1..] == q[i + 1..];
      }
      i := i + 1;
    }
    if escaped {
      assert q[i - 1..] == [BACKSLASH];
      FrameEndUnfold(q[i - 1..]);
    } else {
      FrameEndUnfold(q[i..]);
    }
    return None;
  }

  /** The bytes between the opening quote of `i` and the closing quote at
      `1 + end`, decoded as a JSON string body. */
  function Unquote(i: Bytes, end: Option<nat>): (r: Option<(string, Bytes)>)
    requires |i| > 0
    requires end.Some? ==> end.value < |i| - 1
    ensures r.Some? <==> end.Some? && DecodeBody(i[1..end.value + 1]).Some?
    ensures r.Some? ==> DecodeBody(i[1..end.value + 1]) == Some(r.value.0) && r.value.1 == i[end.value + 2..]
    ensures r.Some? ==> |r.value.1| < |i|
  {
    match end
    case None => None
    case Some(k) =>
      match DecodeBody(i[1..k + 1])
      case None => None
      case Some(s) => Some((s, i[k + 2..]))
  }

  /** The scanner that frames a value: the one of `quoted_string` as
      written, or the corrected one. The grammar below takes it as a
      parameter, so each property of the journal states which one it is
      about. */
  datatype Scanner = AsWritten | Corrected

  /** Where the chosen scanner closes the value in `q`. */
  function ValueEnd(sc: Scanner, q: Bytes): (r: Option<nat>)
    ensures r.Some? ==> r.value < |q| && q[r.value] == QUOTE
  {
    match sc
    case AsWritten => FrameEndAsWritten(q)
    case Corrected => FrameEnd(q)
  }

  /** `quoted_string`: an opening quote, the scanned bytes, the closing
      quote; the scanned bytes must then decode as a JSON string body. */
  function QuotedString(sc: Scanner, i: Bytes): (r: Option<(string, Bytes)>)
    ensures r.Some? ==> |r.value.1| < |i|
  {
    if |i| == 0 || i[0] != QUOTE then None
    else Unquote(i, ValueEnd(sc, i[1..]))
  }

  /** An escaped newline inside a value is decoded, by either scanner. */
  lemma QuotedStringNewline(sc: Scanner)
    ensures QuotedString(sc, [QUOTE, 97, BACKSLASH, 110, 98, QUOTE]) == Some(("a\nb", []))
  {
    var i: Bytes := [QUOTE, 97, BACKSLASH, 110, 98, QUOTE];
    var q := i[1..];
    FrameEndUnfold(q);
    FrameEndUnfold(q[1..]);
    FrameEndUnfold(q[3..]);
    FrameEndUnfold(q[4..]);
    assert FrameEnd(q) == Some(4);
    assert forall j | 0 <= j < 4 :: q[j] != QUOTE;
    FrameEndAsWrittenUnique(q, 4);
    assert ValueEnd(sc, q) == Some(4);
    var body: Bytes := [97, BACKSLASH, 110, 98];
    assert i[1..5] == body;
    assert body[3..] == [98] && [98][1..] == [];
    assert Token([98]) == Some(('b', 1));
    assert DecodeBody([]) == Some([]);
    assert ['b'] + [] == "b";
    assert DecodeBody([98]) == Some("b");
    assert body[1..] == [BACKSLASH, 110, 98] && [BACKSLASH, 110, 98][1..] == [110, 98];
    assert Unescape([110, 98]) == Some(('\n', 1));
    assert Token([BACKSLASH, 110, 98]) == Some(('\n', 2));
    assert [BACKSLASH, 110, 98][2..] == [98];
    assert ['\n'] + "b" == "\nb";
    assert DecodeBody([BACKSLASH, 110, 98]) == Some("\nb");
    assert Token(body) == Some(('a', 1));
    assert ['a'] + "\nb" == "a\nb";
    assert DecodeBody(body) == Some("a\nb");
    assert i[6..] == [];
  }

  /** `identifier` */
  function Identifier(i: Bytes): (r: Option<(string, Bytes)>)
    ensures r.Some? ==> IsKey(r.value.0) && |r.value.1| < |i|
    ensures r.Some? ==> r.value.1 == [] || !IsIdentByte(r.value.1[0])
  {
    var n := Span(i, IdentBytes);
    if n == 0 then None
    else Some((AsciiText(i[..n]), i[n..]))
  }

  /** One `key: "value"` item of an attribute list: blanks, the key, a
      colon, blanks, the quoted value. */
  function Pair(sc: Scanner, i: Bytes): (r: Option<((string, string), Bytes)>)
    ensures r.Some? ==> IsKey(r.value.0.0) && |r.value.1| < |i|
  {
    match Identifier(Space(i))
    case None => None
    case Some((key, r1)) =>
      if |r1| == 0 || r1[0] != COLON then None
      else
        match QuotedString(sc, Space(r1[1..]))
        case None => None
        case Some((value, r2)) => Some(((key, value), r2))
  }

  /** `separated_list0(many1(char(' ')), pair)`: items separated by one or
      more spaces. A separator not followed by an item is given back. */
  function PairList(sc: Scanner, i: Bytes): (r: (seq<(string, string)>, Bytes))
    ensures |r.1| <= |i|
    ensures r.0 == [] <==> r.1 == i
  {
    match Pair(sc, i)
    case None => ([], i)
    case Some((p, r1)) =>
      var (ps, r2) := MorePairs(sc, r1);
      ([p] + ps, r2)
  }

  function MorePairs(sc: Scanner, i: Bytes): (r: (seq<(string, string)>, Bytes))
    ensures |r.1| <= |i|
    ensures r.0 == [] <==> r.1 == i
    decreases |i|
  {
    var n := Span(i, Spaces);
    if n == 0 then ([], i)
    else
      match Pair(sc, i[n..])
      case None => ([], i)
      case Some((p, r1)) =>
        var (ps, r2) := MorePairs(sc, r1);
        ([p] + ps, r2)
  }

  /** The map the closure of `attributes` builds: the items inserted in
      order, so a later item overwrites an earlier one with the same key. */
  function ToMap(items: seq<(string, string)>): AttrMap
  {
    if items == [] then map[]
    else ToMap(items[..|items| - 1])[items[|items| - 1].0 := items[|items| - 1].1]
  }

  /** The insertion loop of that closure. */
  method CollectAttributes(items: seq<(string, string)>) returns (m: AttrMap)
    ensures m == ToMap(items)
  {
    m := map[];
    for i := 0 to |items|
      invariant m == ToMap(items[..i])
    {
      assert items[..i + 1][..i] == items[..i];
      m := m[items[i].0 := items[i].1];
    }
    assert items[..|items|] == items;
  }

  /** A key is in the map exactly when some item has it, and it holds the
      value of the last such item. */
  lemma {:induction false} ToMapLastWins(items: seq<(string, string)>, k: string)
    ensures k in ToMap(items) <==> exists i :: 0 <= i < |items| && items[i].0 == k
    ensures forall i | 0 <= i < |items| && items[i].0 == k && (forall j | i < j < |items| :: items[j].0 != k)
      :: k in ToMap(items) && ToMap(items)[k] == items[i].1
  {
    if items != [] {
      var init := items[..|items| - 1];
      ToMapLastWins(init, k);
      forall i | 0 <= i < |init| ensures init[i] == items[i] { }
    }
  }

  /** `attributes`: blanks, `[`, the item list, `]`. */
  function Attributes(sc: Scanner, i: Bytes): (r: Option<(AttrMap, Bytes)>)
    ensures r.Some? ==> |r.value.1| < |i|
  {
    var j := Space(i);
    if |j| == 0 || j[0] != LBRACKET then None
    else
      var (items, r) := PairList(sc, j[1..]);
      if |r| == 0 || r[0] != RBRACKET then None
      else Some((ToMap(items), r[1..]))
  }

  /** `preceded(space, newline)` */
  function EndOfLine(i: Bytes): (r: Option<Bytes>)
    ensures r.Some? ==> |r.value| < |i|
  {
    var j := Space(i);
    if |j| > 0 && j[0] == NEWLINE then Some(j[1..]) else None
  }

  /** Times are read without a sign, so a parsed time is in [0, i64::MAX]. */
  predicate TimeInRange(f: Fragment) {
    f.Time? ==> 0 <= f.t <= I64_MAX
  }

  /** `fragment_time`: `time`, the integer, blanks, a newline. */
  function FragmentTime(i: Bytes): (r: Option<(Fragment, Bytes)>)
    ensures r.Some? ==> r.value.0.Time? && TimeInRange(r.value.0) && |r.value.1| < |i|
  {
    match Tag(i, TIME_TAG)
    case None => None
    case Some(r0) =>
      match Integer(r0)
      case None => None
      case Some((t, r1)) =>
        match EndOfLine(r1)
        case None => None
        case Some(r2) => Some((Time(t), r2))
  }

  /** `fragment_old`: `old`, the attribute list, blanks, a newline. */
  function FragmentOld(sc: Scanner, i: Bytes): (r: Option<(Fragment, Bytes)>)
    ensures r.Some? ==> r.value.0.Old? && |r.value.1| < |i|
  {
    match Tag(i, OLD_TAG)
    case None => None
    case Some(r0) =>
      match Attributes(sc, r0)
      case None => None
      case Some((m, r1)) =>
        match EndOfLine(r1)
        case None => None
        case Some(r2) => Some((Old(m), r2))
  }

  /** `fragment_new`: `new`, the attribute list, blanks, a newline. */
  function FragmentNew(sc: Scanner, i: Bytes): (r: Option<(Fragment, Bytes)>)
    ensures r.Some? ==> r.value.0.New? && |r.value.1| < |i|
  {
    match Tag(i, NEW_TAG)
    case None => None
    case Some(r0) =>
      match Attributes(sc, r0)
      case None => None
      case Some((m, r1)) =>
        match EndOfLine(r1)
        case None => None
        case Some(r2) => Some((New(m), r2))
  }

  /** `alt((fragment_time, fragment_old, fragment_new))` */
  function AnyFragment(sc: Scanner, i: Bytes): (r: Option<(Fragment, Bytes)>)
    ensures r.Some? ==> TimeInRange(r.value.0) && |r.value.1| < |i|
  {
    match FragmentTime(i)
    case Some(x) => Some(x)
    case None =>
      match FragmentOld(sc, i)
      case Some(x) => Some(x)
      case None => FragmentNew(sc, i)
  }

  /** The fragments after the first one of `many1`: as many as parse. */
  function MoreFragments(sc: Scanner, i: Bytes): (r: (seq<Fragment>, Bytes))
    ensures |r.1| <= |i|
    ensures forall k | 0 <= k < |r.0| :: TimeInRange(r.0[k])
    decreases |i|
  {
    match AnyFragment(sc, i)
    case None => ([], i)
    case Some((f, r1)) =>
      var (fs, r2) := MoreFragments(sc, r1);
      ([f] + fs, r2)
  }

  /** Applying one fragment to the record being built. */
  function Apply(c: Change, f: Fragment): Change {
    match f
    case Time(t) => c.(time := t)
    case Old(m) => c.(oldAttrs := Some(m))
    case New(m) => c.(newAttrs := m)
  }

  /** `combine_fragments`: the fragments applied in order to the default
      record. */
  function Combine(fragments: seq<Fragment>): Change
  {
    if fragments == [] then DEFAULT_CHANGE
    else Apply(Combine(fragments[..|fragments| - 1]), fragments[|fragments| - 1])
  }

  /** The loop of `combine_fragments`, updating one record in place. */
  method CombineFragments(fragments: seq<Fragment>) returns (change: Change)
    ensures change == Combine(fragments)
  {
    change := DEFAULT_CHANGE;
    for i := 0 to |fragments|
      invariant change == Combine(fragments[..i])
    {
      assert fragments[..i + 1][..i] == fragments[..i];
      match fragments[i]
      case Time(t) => change := change.(time := t);
      case Old(m) => change := change.(oldAttrs := Some(m));
      case New(m) => change := change.(newAttrs := m);
    }
    assert fragments[..|fragments|] == fragments;
  }

  /** The time of the combined record is that of the last `time` fragment,
      or 0 when there is none. */
  lemma {:induction false} CombineTime(fs: seq<Fragment>)
    ensures (forall i | 0 <= i < |fs| :: !fs[i].Time?) ==> Combine(fs).time == 0
    ensures forall i | 0 <= i < |fs| && fs[i].Time? && (forall j | i < j < |fs| :: !fs[j].Time?)
      :: Combine(fs).time == fs[i].t
  {
    if fs != [] {
      var init := fs[..|fs| - 1];
      var last := fs[|fs| - 1];
      CombineTime(init);
      assert Combine(fs) == Apply(Combine(init), last);
      forall i | 0 <= i < |fs| && fs[i].Time? && (forall j | i < j < |fs| :: !fs[j].Time?)
        ensures Combine(fs).time == fs[i].t
      {
        if i < |init| {
          assert init[i] == fs[i];
          assert forall j | i < j < |init| :: !init[j].Time?;
        }
      }
    }
  }

  /** One step of `Combine`. */
  lemma CombineUnfold(fs: seq<Fragment>)
    ensures fs == [] ==> Combine(fs) == DEFAULT_CHANGE
    ensures fs != [] ==> Combine(fs) == Apply(Combine(fs[..|fs| - 1]), fs[|fs| - 1])
  {
  }

  /** Without an `old` fragment the combined record has no old map. */
  lemma {:induction false} CombineNoOld(fs: seq<Fragment>)
    requires forall i | 0 <= i < |fs| :: !fs[i].Old?
    ensures Combine(fs).oldAttrs == None
  {
    hide Combine;
    CombineUnfold(fs);
    if fs != [] {
      var init := fs[..|fs| - 1];
      assert forall i | 0 <= i < |init| :: init[i] == fs[i];
      CombineNoOld(init);
    }
  }

  /** The old map of the combined record is that of the last `old`
      fragment. */
  lemma {:induction false} CombineOld(fs: seq<Fragment>)
    ensures forall i | 0 <= i < |fs| && fs[i].Old? && (forall j | i < j < |fs| :: !fs[j].Old?)
      :: Combine(fs).oldAttrs == Some(fs[i].attrs)
  {
    hide Combine;
    CombineUnfold(fs);
    if fs != [] {
      var init := fs[..|fs| - 1];
      CombineOld(init);
      forall i | 0 <= i < |fs| && fs[i].Old? && (forall j | i < j < |fs| :: !fs[j].Old?)
        ensures Combine(fs).oldAttrs == Some(fs[i].attrs)
      {
        if i < |init| {
          assert init[i] == fs[i];
          assert forall j | i < j < |init| :: !init[j].Old?;
        }
      }
    }
  }

  /** The new map of the combined record is that of the last `new`
      fragment, or empty when there is none. */
  lemma {:induction false} CombineNew(fs: seq<Fragment>)
    ensures (forall i | 0 <= i < |fs| :: !fs[i].New?) ==> Combine(fs).newAttrs == map[]
    ensures forall i | 0 <= i < |fs| && fs[i].New? && (forall j | i < j < |fs| :: !fs[j].New?)
      :: Combine(fs).newAttrs == fs[i].attrs
  {
    hide Combine;
    CombineUnfold(fs);
    if fs != [] {
      var init := fs[..|fs| - 1];
      var last := fs[|fs| - 1];
      CombineNew(init);
      if forall i | 0 <= i < |fs| :: !fs[i].New? {
        assert forall i | 0 <= i < |init| :: init[i] == fs[i];
        assert !last.New?;
      }
      forall i | 0 <= i < |fs| && fs[i].New? && (forall j | i < j < |fs| :: !fs[j].New?)
        ensures Combine(fs).newAttrs == fs[i].attrs
      {
        if i < |init| {
          assert init[i] == fs[i];
          assert forall j | i < j < |init| :: !init[j].New?;
        }
      }
    }
  }

  /** Fragments whose times are in range combine into a record whose time is. */
  lemma {:induction false} CombineTimeInRange(fs: seq<Fragment>)
    requires forall k | 0 <= k < |fs| :: TimeInRange(fs[k])
    ensures 0 <= Combine(fs).time <= I64_MAX
  {
    if fs != [] {
      var init := fs[..|fs| - 1];
      assert forall k | 0 <= k < |init| :: init[k] == fs[k];
      CombineTimeInRange(init);
      assert TimeInRange(fs[|fs| - 1]);
    }
  }

  lemma CombineConsTimeInRange(f: Fragment, fs: seq<Fragment>)
    requires TimeInRange(f)
    requires forall k | 0 <= k < |fs| :: TimeInRange(fs[k])
    ensures 0 <= Combine([f] + fs).time <= I64_MAX
  {
    var all := [f] + fs;
    assert forall k | 1 <= k < |all| :: all[k] == fs[k - 1];
    CombineTimeInRange(all);
  }

  /** `change_item`: blanks, one or more fragments, one or more dashes, a
      newline. */
  function ChangeItem(sc: Scanner, i: Bytes): (r: Option<(Change, Bytes)>)
    ensures r.Some? ==> |r.value.1| < |i|
    ensures r.Some? ==> 0 <= r.value.0.time <= I64_MAX
  {
    var j := Space(i);
    match AnyFragment(sc, j)
    case None => None
    case Some((f, r1)) =>
      var (fs, r2) := MoreFragments(sc, r1);
      var n := Span(r2, Dashes);
      if n == 0 || n == |r2| || r2[n] != NEWLINE then None
      else
        CombineConsTimeInRange(f, fs);
        Some((Combine([f] + fs), r2[n + 1..]))
  }

  /** `many0(change_item)` */
  function ChangeItems(sc: Scanner, i: Bytes): (r: (seq<Change>, Bytes))
    ensures |r.1| <= |i|
    ensures r.0 == [] <==> r.1 == i
    decreases |i|
  {
    match ChangeItem(sc, i)
    case None => ([], i)
    case Some((c, r1)) =>
      var (cs, r2) := ChangeItems(sc, r1);
      ([c] + cs, r2)
  }

  /** Every record read has a time in the range of `i64`. */
  lemma {:induction false} ChangeItemsTimes(sc: Scanner, i: Bytes)
    ensures forall k | 0 <= k < |ChangeItems(sc, i).0| :: 0 <= ChangeItems(sc, i).0[k].time <= I64_MAX
    decreases |i|
  {
    hide ChangeItem;
    match ChangeItem(sc, i)
    case None =>
    case Some((c, r1)) =>
      ChangeItemsTimes(sc, r1);
      var cs := ChangeItems(sc, r1).0;
      assert ChangeItems(sc, i).0 == [c] + cs;
      assert forall k | 1 <= k < |cs| + 1 :: ([c] + cs)[k] == cs[k - 1];
  }

  /** `changes_list`: `all_consuming(many0(change_item))`. */
  function ChangesList(sc: Scanner, i: Bytes): (r: Option<seq<Change>>)
    ensures r.Some? <==> ChangeItems(sc, i).1 == []
  {
    var (cs, rest) := ChangeItems(sc, i);
    if rest == [] then Some(cs) else None
  }

  /** The decision in `parse`: the changes when the whole journal was
      consumed, otherwise none at all. */
  function Parse(sc: Scanner, contents: Bytes): (r: seq<Change>)
    ensures ChangeItems(sc, contents).1 == [] ==> r == ChangeItems(sc, contents).0
    ensures ChangeItems(sc, contents).1 != [] ==> r == []
    ensures forall k | 0 <= k < |r| :: 0 <= r[k].time <= I64_MAX
  {
    ChangeItemsTimes(sc, contents);
    match ChangesList(sc, contents)
    case Some(cs) => cs
    case None => []
  }
}
