/** A writer of the journal format that the parser of
    src/taskdb/undodata.rs reads, with values escaped by `Json.Escape`, and
    the proof that the parser reads its output back: each
    record comes back as it was written, whatever follows it, and a journal
    with anything unreadable in it yields no changes at all. */
module Journal {
  import opened Base
  import opened Decimal
  import opened Json
  import opened Order
  import opened UndoData

  predicate KeysAreKeys(m: AttrMap) {
    forall k | k in m :: IsKey(k)
  }

  /** A change the journal format can express: a time the parser can read
      back and keys the grammar accepts. */
  predicate Writable(c: Change) {
    && 0 <= c.time <= I64_MAX
    && KeysAreKeys(c.newAttrs)
    && (c.oldAttrs.Some? ==> KeysAreKeys(c.oldAttrs.value))
  }

  /** A value the chosen scanner frames correctly: any value for the
      corrected scanner, and for the one as written a value that does not
      end with a backslash. */
  predicate Framed(sc: Scanner, v: string) {
    sc == Corrected || v == [] || v[|v| - 1] != '\\'
  }

  predicate AllFramed(sc: Scanner, m: AttrMap) {
    forall k | k in m :: Framed(sc, m[k])
  }

  /** A writable change whose every value the chosen scanner frames. */
  predicate Readable(sc: Scanner, c: Change) {
    && Writable(c)
    && AllFramed(sc, c.newAttrs)
    && (c.oldAttrs.Some? ==> AllFramed(sc, c.oldAttrs.value))
  }

  lemma KeyIsAscii(k: string)
    requires IsKey(k)
    ensures IsAscii(k)
  {
    assert forall i | 0 <= i < |k| :: IsKeyChar(k[i]);
  }

  /** `"value"`, the value JSON-escaped. */
  function PrintValue(v: string): (b: Bytes)
    ensures |b| == |Escape(v)| + 2 && b[0] == QUOTE && b[|b| - 1] == QUOTE
  {
    [QUOTE] + Escape(v) + [QUOTE]
  }

  /** `key:"value"` */
  function PrintPair(p: (string, string)): (b: Bytes)
    requires IsKey(p.0)
    ensures |b| > 0 && IsIdentByte(b[0])
  {
    KeyIsAscii(p.0);
    var b := Ascii(p.0) + [COLON] + PrintValue(p.1);
    assert b[0] as int == p.0[0] as int;
    b
  }

  predicate AllKeys(ps: seq<(string, string)>) {
    forall i | 0 <= i < |ps| :: IsKey(ps[i].0)
  }

  /** The items after the first one, each after one space. */
  function PrintMorePairs(ps: seq<(string, string)>): Bytes
    requires AllKeys(ps)
  {
    if ps == [] then [] else [SPACE] + PrintPair(ps[0]) + PrintMorePairs(ps[1..])
  }

  function PrintPairs(ps: seq<(string, string)>): Bytes
    requires AllKeys(ps)
  {
    if ps == [] then [] else PrintPair(ps[0]) + PrintMorePairs(ps[1..])
  }

  /** The entries of a map, keys ascending. */
  ghost function Entries(m: AttrMap): (ps: seq<(string, string)>)
    ensures |ps| == |m|
    ensures forall i | 0 <= i < |ps| :: ps[i].0 in m && ps[i].1 == m[ps[i].0]
    ensures forall k | k in m :: exists i :: 0 <= i < |ps| && ps[i].0 == k
    ensures forall i, j | 0 <= i < j < |ps| :: Less(ps[i].0, ps[j].0)
  {
    var keys := SortedKeys(m.Keys);
    var ps := seq(|keys|, i requires 0 <= i < |keys| => (keys[i], m[keys[i]]));
    EntriesOfKeys(m, keys, ps);
    ps
  }

  /** The pairs of a map taken in the order of an ascending listing of its
      keys. */
  lemma EntriesOfKeys(m: AttrMap, keys: seq<string>, ps: seq<(string, string)>)
    requires |keys| == |m| && Ascending(keys) && forall k :: k in keys <==> k in m
    requires |ps| == |keys| && forall i | 0 <= i < |ps| :: ps[i] == (keys[i], m[keys[i]])
    ensures forall i | 0 <= i < |ps| :: ps[i].0 in m && ps[i].1 == m[ps[i].0]
    ensures forall k | k in m :: exists i :: 0 <= i < |ps| && ps[i].0 == k
    ensures forall i, j | 0 <= i < j < |ps| :: Less(ps[i].0, ps[j].0)
  {
    hide Less;
    forall k | k in m ensures exists i :: 0 <= i < |ps| && ps[i].0 == k {
      var i :| 0 <= i < |keys| && keys[i] == k;
      assert ps[i].0 == k;
    }
    forall i, j | 0 <= i < j < |ps| ensures Less(ps[i].0, ps[j].0) {
      assert ps[i].0 == keys[i] && ps[j].0 == keys[j];
    }
  }

  ghost function PrintAttributes(m: AttrMap): Bytes
    requires KeysAreKeys(m)
  {
    [LBRACKET] + PrintPairs(Entries(m)) + [RBRACKET]
  }

  /** `time N` */
  function TimeLine(t: nat): Bytes {
    TIME_TAG + [SPACE] + Ascii(NatToString(t)) + [NEWLINE]
  }

  /** `old [...]` or `new [...]` */
  ghost function AttrLine(tag: Bytes, m: AttrMap): Bytes
    requires KeysAreKeys(m)
  {
    tag + [SPACE] + PrintAttributes(m) + [NEWLINE]
  }

  const END_LINE: Bytes := [DASH, DASH, DASH, NEWLINE]

  ghost function OldLine(before: Option<AttrMap>): Bytes
    requires before.Some? ==> KeysAreKeys(before.value)
  {
    match before
    case None => []
    case Some(m) => AttrLine(OLD_TAG, m)
  }

  /** One journal record: its time, its old task if any, its new task, and
      the separator line. */
  ghost function PrintChange(c: Change): Bytes
    requires Writable(c)
  {
    TimeLine(c.time) + OldLine(c.oldAttrs) + AttrLine(NEW_TAG, c.newAttrs) + END_LINE
  }

  ghost function Print(cs: seq<Change>): Bytes
    requires forall i | 0 <= i < |cs| :: Writable(cs[i])
  {
    if cs == [] then [] else PrintChange(cs[0]) + Print(cs[1..])
  }

  lemma Assoc3<T>(a: seq<T>, b: seq<T>, c: seq<T>, d: seq<T>)
    ensures a + b + c + d == a + (b + (c + d))
  {
  }

  // ---- scanning runs ----------------------------------------------------

  /** A run of bytes satisfying `p` followed by one that does not is
      scanned exactly. */
  lemma {:induction false} SpanRun(a: Bytes, b: Bytes, c: ByteClass)
    requires forall k | 0 <= k < |a| :: InClass(a[k], c)
    requires b == [] || !InClass(b[0], c)
    ensures Span(a + b, c) == |a|
  {
    if a != [] {
      assert (a + b)[1..] == a[1..] + b;
      SpanRun(a[1..], b, c);
    }
  }

  lemma SpaceNothing(i: Bytes)
    requires i == [] || !IsBlank(i[0])
    ensures Space(i) == i
  {
  }

  lemma SpaceOne(i: Bytes)
    requires i == [] || !IsBlank(i[0])
    ensures Space([SPACE] + i) == i
  {
    SpanRun([SPACE], i, Blanks);
  }

  lemma TagPrefix(t: Bytes, rest: Bytes)
    ensures Tag(t + rest, t) == Some(rest)
  {
    assert (t + rest)[..|t|] == t;
  }

  lemma EndOfLineNewline(rest: Bytes)
    ensures EndOfLine([NEWLINE] + rest) == Some(rest)
  {
    SpaceNothing([NEWLINE] + rest);
  }

  // ---- values, keys, items ------------------------------------------------

  /** A printed time is read back, and reading stops at the byte after it. */
  lemma IntegerPrint(t: nat, rest: Bytes)
    requires t <= I64_MAX
    requires rest == [] || !IsDigitByte(rest[0])
    ensures Integer([SPACE] + Ascii(NatToString(t)) + rest) == Some((t, rest))
  {
    var s := NatToString(t);
    var d := Ascii(s);
    assert d[0] as int == s[0] as int;
    assert [SPACE] + d + rest == [SPACE] + (d + rest);
    SpaceOne(d + rest);
    SpanRun(d, rest, Digits);
    assert (d + rest)[..|d|] == d;
    assert AsciiText(d) == s;
    ParseDigits(s);
    assert (d + rest)[|d|..] == rest;
  }

  /** The escaped body contains no closing quote before its end, and does
      not hide the quote that follows it. */
  lemma {:induction false} FrameEndEscape(v: string, rest: Bytes)
    ensures FrameEnd(Escape(v) + [QUOTE] + rest) == Some(|Escape(v)|)
    decreases |v|
  {
    hide Escape, EscapeChar, FrameEnd;
    if v == [] {
      assert Escape(v) + [QUOTE] + rest == [QUOTE] + rest;
      FrameEndUnfold([QUOTE] + rest);
    } else {
      var e := EscapeChar(v[0]);
      var t := Escape(v[1..]);
      EscapeUnfold(v);
      FrameEndEscape(v[1..], rest);
      Assoc(e, t, [QUOTE]);
      Assoc(e, t + [QUOTE], rest);
      FrameEndEscapeChar(v[0], t + [QUOTE] + rest);
    }
  }

  /** The scan passes over the escape of one character as a whole. */
  lemma FrameEndEscapeChar(c: char, tail: Bytes)
    ensures FrameEnd(EscapeChar(c) + tail) == Offset(|EscapeChar(c)|, FrameEnd(tail))
  {
    hide EscapeChar;
    var e := EscapeChar(c);
    var q := e + tail;
    EscapeCharBytes(c);
    if e[0] == BACKSLASH && |e| == 2 {
      assert q[2..] == tail;
    } else if e[0] == BACKSLASH {
      assert q[2..] == e[2..] + tail;
      PassPlain(e[2..], tail);
    } else {
      PassPlain(e, tail);
    }
  }

  /** Bytes that are neither quotes nor backslashes are passed one by one. */
  lemma {:induction false} PassPlain(a: Bytes, tail: Bytes)
    requires forall k | 0 <= k < |a| :: a[k] != QUOTE && a[k] != BACKSLASH
    ensures FrameEnd(a + tail) == Offset(|a|, FrameEnd(tail))
  {
    if a != [] {
      var q := a + tail;
      assert q[0] == a[0] && q[1..] == a[1..] + tail;
      PassPlain(a[1..], tail);
      assert FrameEnd(q) == Offset(1, FrameEnd(q[1..]));
      match FrameEnd(tail)
      case None =>
      case Some(k) =>
    } else {
      assert a + tail == tail;
      match FrameEnd(tail)
      case None =>
      case Some(k) =>
    }
  }

  /** The round trip of one value: a quoted, escaped value is read back,
      and what follows the closing quote is left. */
  lemma QuotedPrint(v: string, rest: Bytes)
    ensures QuotedString(Corrected, PrintValue(v) + rest) == Some((v, rest))
  {
    FrameEndEscape(v, rest);
    QuotedFrame(Corrected, v, rest);
  }

  /** Once the scanner closes a written value at the quote written after
      it, the value is read back and what follows is left. */
  lemma QuotedFrame(sc: Scanner, v: string, rest: Bytes)
    requires ValueEnd(sc, Escape(v) + [QUOTE] + rest) == Some(|Escape(v)|)
    ensures QuotedString(sc, PrintValue(v) + rest) == Some((v, rest))
  {
    hide *;
    var e := Escape(v);
    var i := PrintValue(v) + rest;
    PrintValueParts(v, rest);
    DecodeEscapeRoundTrip(v);
    UnquoteFrame(e, v, rest);
    QuotedStringAt(sc, i, |e|);
  }

  lemma PrintValueParts(v: string, rest: Bytes)
    ensures PrintValue(v) + rest == [QUOTE] + (Escape(v) + [QUOTE] + rest)
  {
    hide Escape;
  }

  lemma QuotedStringAt(sc: Scanner, i: Bytes, k: nat)
    requires |i| > 0 && i[0] == QUOTE && ValueEnd(sc, i[1..]) == Some(k)
    ensures QuotedString(sc, i) == Unquote(i, Some(k))
  {
  }

  /** The bytes between two quotes are decoded and what follows is left. */
  lemma UnquoteFrame(e: Bytes, v: string, rest: Bytes)
    requires DecodeBody(e) == Some(v)
    ensures var i := [QUOTE] + (e + [QUOTE] + rest);
      i[1..] == e + [QUOTE] + rest && Unquote(i, Some(|e|)) == Some((v, rest))
  {
    hide *;
    QuotedSlices(e, rest);
    UnquoteAt([QUOTE] + (e + [QUOTE] + rest), e, v, rest);
  }

  lemma QuotedSlices(e: Bytes, rest: Bytes)
    ensures var i := [QUOTE] + (e + [QUOTE] + rest);
      |i| == |e| + 2 + |rest| && i[1..] == e + [QUOTE] + rest &&
      i[1..|e| + 1] == e && i[|e| + 2..] == rest
  {
    var i := [QUOTE] + (e + [QUOTE] + rest);
    assert i[1..|e| + 1] == e;
    assert i[|e| + 2..] == rest;
  }

  lemma UnquoteAt(i: Bytes, e: Bytes, v: string, rest: Bytes)
    requires |i| == |e| + 2 + |rest| && i[1..|e| + 1] == e && i[|e| + 2..] == rest
    requires DecodeBody(e) == Some(v)
    ensures Unquote(i, Some(|e|)) == Some((v, rest))
  {
  }

  lemma IdentifierPrint(k: string, rest: Bytes)
    requires IsKey(k)
    requires rest == [] || !IsIdentByte(rest[0])
    ensures IsAscii(k) && Identifier(Ascii(k) + rest) == Some((k, rest))
  {
    KeyIsAscii(k);
    var a := Ascii(k);
    assert forall j | 0 <= j < |a| :: a[j] as int == k[j] as int && IsKeyChar(k[j]);
    SpanRun(a, rest, IdentBytes);
    assert (a + rest)[..|a|] == a;
    assert AsciiText(a) == k;
    assert (a + rest)[|a|..] == rest;
  }

  /** Each scanner reads back the values it frames. */
  lemma ValuePrint(sc: Scanner, v: string, rest: Bytes)
    requires Framed(sc, v)
    ensures QuotedString(sc, PrintValue(v) + rest) == Some((v, rest))
  {
    if sc == Corrected {
      QuotedPrint(v, rest);
    } else {
      AsWrittenAgrees(v, rest);
    }
  }

  /** A printed item is read as its key and whatever its quoted value is
      read as. */
  lemma PairParts(sc: Scanner, p: (string, string), rest: Bytes)
    requires IsKey(p.0)
    ensures Pair(sc, PrintPair(p) + rest) ==
      match QuotedString(sc, PrintValue(p.1) + rest)
      case None => None
      case Some((v, r)) => Some(((p.0, v), r))
  {
    hide Space, Identifier, QuotedString, PrintValue, Ascii;
    KeyIsAscii(p.0);
    var a := Ascii(p.0);
    var v := PrintValue(p.1) + rest;
    var r1 := [COLON] + v;
    var i := PrintPair(p) + rest;
    Assoc3(a, [COLON], PrintValue(p.1), rest);
    SpaceNothing(i);
    IdentifierPrint(p.0, r1);
    assert Identifier(Space(i)) == Some((p.0, r1));
    assert r1[1..] == v;
    SpaceNothing(v);
  }

  lemma PairPrint(sc: Scanner, p: (string, string), rest: Bytes)
    requires IsKey(p.0) && Framed(sc, p.1)
    ensures Pair(sc, PrintPair(p) + rest) == Some((p, rest))
  {
    PairParts(sc, p, rest);
    ValuePrint(sc, p.1, rest);
  }

  /** As written, an item whose value ends with a backslash is not read. */
  lemma PairLoses(p: (string, string), rest: Bytes)
    requires IsKey(p.0) && !Framed(AsWritten, p.1)
    ensures Pair(AsWritten, PrintPair(p) + rest) == None
  {
    PairParts(AsWritten, p, rest);
    AsWrittenLosesTrailingBackslash(p.1, rest);
  }

  predicate PairsFramed(sc: Scanner, ps: seq<(string, string)>) {
    forall i | 0 <= i < |ps| :: Framed(sc, ps[i].1)
  }

  lemma {:induction false} MorePairsPrint(sc: Scanner, ps: seq<(string, string)>, rest: Bytes)
    requires AllKeys(ps) && PairsFramed(sc, ps)
    requires |rest| > 0 && rest[0] == RBRACKET
    ensures MorePairs(sc, PrintMorePairs(ps) + rest) == (ps, rest)
  {
    hide Pair, Span, PrintPair;
    if ps == [] {
      assert PrintMorePairs(ps) + rest == rest;
    } else {
      var pp := PrintPair(ps[0]);
      var tail := PrintMorePairs(ps[1..]) + rest;
      var i := PrintMorePairs(ps) + rest;
      assert i == [SPACE] + (pp + tail);
      SpanRun([SPACE], pp + tail, Spaces);
      PairPrint(sc, ps[0], tail);
      MorePairsPrint(sc, ps[1..], rest);
      assert [ps[0]] + ps[1..] == ps;
    }
  }

  /** Items may be separated by any positive number of spaces
      (`many1(char(' '))`). */
  lemma MorePairsSpaces(sc: Scanner, k: nat, p: (string, string), rest: Bytes)
    requires k > 0 && IsKey(p.0) && Framed(sc, p.1)
    requires |rest| > 0 && rest[0] == RBRACKET
    ensures MorePairs(sc, seq(k, _ => SPACE) + PrintPair(p) + rest) == ([p], rest)
  {
    hide Pair, PrintPair;
    var spaces := seq(k, _ => SPACE);
    var i := spaces + PrintPair(p) + rest;
    assert i == spaces + (PrintPair(p) + rest);
    SpanRun(spaces, PrintPair(p) + rest, Spaces);
    assert i[k..] == PrintPair(p) + rest;
    PairPrint(sc, p, rest);
    assert Span(rest, Spaces) == 0;
    assert [p] + [] == [p];
  }

  /** As written, the items after the first stop at the space before the
      first value that ends with a backslash. */
  lemma {:induction false} MorePairsLoses(ps: seq<(string, string)>, rest: Bytes)
    requires AllKeys(ps) && !PairsFramed(AsWritten, ps)
    ensures var r := MorePairs(AsWritten, PrintMorePairs(ps) + rest).1; |r| > 0 && r[0] == SPACE
  {
    hide Pair, Span, PrintPair;
    var pp := PrintPair(ps[0]);
    var tail := PrintMorePairs(ps[1..]) + rest;
    var i := PrintMorePairs(ps) + rest;
    assert i == [SPACE] + (pp + tail);
    SpanRun([SPACE], pp + tail, Spaces);
    assert i[1..] == pp + tail;
    if !Framed(AsWritten, ps[0].1) {
      PairLoses(ps[0], tail);
    } else {
      PairPrint(AsWritten, ps[0], tail);
      var k :| 0 <= k < |ps| && !Framed(AsWritten, ps[k].1);
      assert ps[1..][k - 1] == ps[k];
      MorePairsLoses(ps[1..], rest);
    }
  }

  /** An attribute list ends at `]`: no item starts there. */
  lemma PairAtBracket(sc: Scanner, rest: Bytes)
    requires |rest| > 0 && rest[0] == RBRACKET
    ensures Pair(sc, rest) == None
  {
    hide QuotedString;
    SpaceNothing(rest);
    assert Span(rest, IdentBytes) == 0;
  }

  lemma PairListPrint(sc: Scanner, ps: seq<(string, string)>, rest: Bytes)
    requires AllKeys(ps) && PairsFramed(sc, ps)
    requires |rest| > 0 && rest[0] == RBRACKET
    ensures PairList(sc, PrintPairs(ps) + rest) == (ps, rest)
  {
    hide Pair, PrintPair, MorePairs, PrintMorePairs;
    if ps == [] {
      assert PrintPairs(ps) + rest == rest;
      PairAtBracket(sc, rest);
    } else {
      var tail := PrintMorePairs(ps[1..]) + rest;
      assert PrintPairs(ps) + rest == PrintPair(ps[0]) + tail;
      PairPrint(sc, ps[0], tail);
      MorePairsPrint(sc, ps[1..], rest);
      assert [ps[0]] + ps[1..] == ps;
    }
  }

  /** As written, an item list with a value that ends with a backslash
      stops before it, where no `]` follows. */
  lemma PairListLoses(ps: seq<(string, string)>, rest: Bytes)
    requires AllKeys(ps) && !PairsFramed(AsWritten, ps)
    ensures var r := PairList(AsWritten, PrintPairs(ps) + rest).1; |r| > 0 && r[0] != RBRACKET
  {
    hide Pair, PrintPair, MorePairs, PrintMorePairs;
    var tail := PrintMorePairs(ps[1..]) + rest;
    assert PrintPairs(ps) + rest == PrintPair(ps[0]) + tail;
    if !Framed(AsWritten, ps[0].1) {
      PairLoses(ps[0], tail);
    } else {
      PairPrint(AsWritten, ps[0], tail);
      var k :| 0 <= k < |ps| && !Framed(AsWritten, ps[k].1);
      assert ps[1..][k - 1] == ps[k];
      MorePairsLoses(ps[1..], rest);
    }
  }

  /** Inserting the entries of a map, keys in any order without repeats,
      rebuilds the map. */
  lemma ToMapEntries(m: AttrMap)
    ensures ToMap(Entries(m)) == m
  {
    hide ToMap, Entries, Less;
    var ps := Entries(m);
    forall k ensures k in ToMap(ps) <==> k in m {
      ToMapLastWins(ps, k);
    }
    forall k | k in m ensures ToMap(ps)[k] == m[k] {
      ToMapLastWins(ps, k);
      var i :| 0 <= i < |ps| && ps[i].0 == k;
      LessIrreflexive(k);
      assert forall j | i < j < |ps| :: ps[j].0 != k;
    }
    assert ToMap(ps).Keys == m.Keys;
  }

  /** The entries carry the map's values, so they are framed exactly when
      the map's values are. */
  lemma EntriesFramed(sc: Scanner, m: AttrMap)
    ensures PairsFramed(sc, Entries(m)) <==> AllFramed(sc, m)
  {
    var ps := Entries(m);
    if !AllFramed(sc, m) {
      var k :| k in m && !Framed(sc, m[k]);
      var i :| 0 <= i < |ps| && ps[i].0 == k;
    }
  }

  lemma AttributesPrint(sc: Scanner, m: AttrMap, rest: Bytes)
    requires KeysAreKeys(m) && AllFramed(sc, m)
    ensures Attributes(sc, [SPACE] + PrintAttributes(m) + rest) == Some((m, rest))
  {
    hide PairList, Space, ToMap, PrintPairs, Entries;
    var ps := Entries(m);
    EntriesFramed(sc, m);
    var j := PrintAttributes(m) + rest;
    assert [SPACE] + PrintAttributes(m) + rest == [SPACE] + j;
    SpaceOne(j);
    assert j[1..] == PrintPairs(ps) + ([RBRACKET] + rest);
    PairListPrint(sc, ps, [RBRACKET] + rest);
    ToMapEntries(m);
    assert ([RBRACKET] + rest)[1..] == rest;
  }

  /** As written, an attribute list with a value that ends with a
      backslash is not read. */
  lemma AttributesLoses(m: AttrMap, rest: Bytes)
    requires KeysAreKeys(m) && !AllFramed(AsWritten, m)
    ensures Attributes(AsWritten, [SPACE] + PrintAttributes(m) + rest) == None
  {
    hide PairList, Space, ToMap, PrintPairs, Entries;
    var ps := Entries(m);
    EntriesFramed(AsWritten, m);
    var j := PrintAttributes(m) + rest;
    assert [SPACE] + PrintAttributes(m) + rest == [SPACE] + j;
    SpaceOne(j);
    assert j[1..] == PrintPairs(ps) + ([RBRACKET] + rest);
    PairListLoses(ps, [RBRACKET] + rest);
  }

  // ---- lines and records --------------------------------------------------

  lemma TimeLinePrint(sc: Scanner, t: nat, rest: Bytes)
    requires t <= I64_MAX
    ensures AnyFragment(sc, TimeLine(t) + rest) == Some((Time(t), rest))
  {
    hide Tag, Integer, EndOfLine;
    var d := Ascii(NatToString(t));
    assert TimeLine(t) + rest == TIME_TAG + ([SPACE] + d + ([NEWLINE] + rest));
    TagPrefix(TIME_TAG, [SPACE] + d + ([NEWLINE] + rest));
    IntegerPrint(t, [NEWLINE] + rest);
    EndOfLineNewline(rest);
  }

  /** The tag of an attribute line is followed by its list. */
  lemma AttrLineTag(tag: Bytes, m: AttrMap, rest: Bytes)
    requires KeysAreKeys(m)
    ensures Tag(AttrLine(tag, m) + rest, tag) == Some([SPACE] + PrintAttributes(m) + ([NEWLINE] + rest))
  {
    hide Tag, PrintAttributes;
    assert AttrLine(tag, m) + rest == tag + ([SPACE] + PrintAttributes(m) + ([NEWLINE] + rest));
    TagPrefix(tag, [SPACE] + PrintAttributes(m) + ([NEWLINE] + rest));
  }

  lemma AttrLineParts(sc: Scanner, tag: Bytes, m: AttrMap, rest: Bytes)
    requires KeysAreKeys(m) && AllFramed(sc, m)
    ensures Tag(AttrLine(tag, m) + rest, tag) == Some([SPACE] + PrintAttributes(m) + ([NEWLINE] + rest))
    ensures Attributes(sc, [SPACE] + PrintAttributes(m) + ([NEWLINE] + rest)) == Some((m, [NEWLINE] + rest))
  {
    hide Tag, Attributes, PrintAttributes, EndOfLine, Space;
    AttrLineTag(tag, m, rest);
    AttributesPrint(sc, m, [NEWLINE] + rest);
  }

  lemma OldLinePrint(sc: Scanner, m: AttrMap, rest: Bytes)
    requires KeysAreKeys(m) && AllFramed(sc, m)
    ensures AnyFragment(sc, AttrLine(OLD_TAG, m) + rest) == Some((Old(m), rest))
  {
    hide Attributes, EndOfLine, Integer, PrintAttributes;
    AttrLineParts(sc, OLD_TAG, m, rest);
    EndOfLineNewline(rest);
    assert (AttrLine(OLD_TAG, m) + rest)[0] == OLD_TAG[0];
    assert Tag(AttrLine(OLD_TAG, m) + rest, TIME_TAG) == None;
  }

  lemma NewLinePrint(sc: Scanner, m: AttrMap, rest: Bytes)
    requires KeysAreKeys(m) && AllFramed(sc, m)
    ensures AnyFragment(sc, AttrLine(NEW_TAG, m) + rest) == Some((New(m), rest))
  {
    hide Attributes, EndOfLine, Integer, PrintAttributes;
    AttrLineParts(sc, NEW_TAG, m, rest);
    EndOfLineNewline(rest);
    assert (AttrLine(NEW_TAG, m) + rest)[0] == NEW_TAG[0];
    assert Tag(AttrLine(NEW_TAG, m) + rest, TIME_TAG) == None;
    assert Tag(AttrLine(NEW_TAG, m) + rest, OLD_TAG) == None;
  }

  /** As written, an `old` line with a value that ends with a backslash is
      no fragment at all. */
  lemma OldLineLoses(m: AttrMap, rest: Bytes)
    requires KeysAreKeys(m) && !AllFramed(AsWritten, m)
    ensures AnyFragment(AsWritten, AttrLine(OLD_TAG, m) + rest) == None
  {
    hide Attributes, EndOfLine, Integer, PrintAttributes;
    AttrLineTag(OLD_TAG, m, rest);
    AttributesLoses(m, [NEWLINE] + rest);
    assert (AttrLine(OLD_TAG, m) + rest)[0] == OLD_TAG[0];
    assert Tag(AttrLine(OLD_TAG, m) + rest, TIME_TAG) == None;
    assert Tag(AttrLine(OLD_TAG, m) + rest, NEW_TAG) == None;
  }

  /** As written, so is a `new` line with such a value. */
  lemma NewLineLoses(m: AttrMap, rest: Bytes)
    requires KeysAreKeys(m) && !AllFramed(AsWritten, m)
    ensures AnyFragment(AsWritten, AttrLine(NEW_TAG, m) + rest) == None
  {
    hide Attributes, EndOfLine, Integer, PrintAttributes;
    AttrLineTag(NEW_TAG, m, rest);
    AttributesLoses(m, [NEWLINE] + rest);
    assert (AttrLine(NEW_TAG, m) + rest)[0] == NEW_TAG[0];
    assert Tag(AttrLine(NEW_TAG, m) + rest, TIME_TAG) == None;
    assert Tag(AttrLine(NEW_TAG, m) + rest, OLD_TAG) == None;
  }

  lemma NoFragmentAtEnd(sc: Scanner, rest: Bytes)
    ensures AnyFragment(sc, END_LINE + rest) == None
  {
    NoFragmentAt(sc, END_LINE + rest);
  }

  /** A tag does not match input that starts with another byte. */
  lemma TagMismatch(i: Bytes, t: Bytes)
    requires |i| > 0 && |t| > 0 && i[0] != t[0]
    ensures Tag(i, t) == None
  {
    if |t| <= |i| {
      assert i[..|t|][0] == i[0];
    }
  }

  /** No fragment starts at the end of the input, at a dash or at a blank
      line. */
  lemma NoFragmentAt(sc: Scanner, i: Bytes)
    requires i == [] || i[0] == DASH || i[0] == NEWLINE
    ensures AnyFragment(sc, i) == None
  {
    hide Attributes, Integer, EndOfLine;
    if i != [] {
      TagMismatch(i, TIME_TAG);
      TagMismatch(i, OLD_TAG);
      TagMismatch(i, NEW_TAG);
    }
  }

  /** The fragments a record is printed with. */
  function Fragments(c: Change): seq<Fragment> {
    match c.oldAttrs
    case None => [Time(c.time), New(c.newAttrs)]
    case Some(m) => [Time(c.time), Old(m), New(c.newAttrs)]
  }

  lemma CombineFragmentsOf(c: Change)
    ensures Combine(Fragments(c)) == c
  {
    var t := Time(c.time);
    var n := New(c.newAttrs);
    assert Combine([t]) == DEFAULT_CHANGE.(time := c.time) by {
      assert [t][..0] == [];
    }
    if c.oldAttrs.Some? {
      var o := Old(c.oldAttrs.value);
      assert [t, o][..1] == [t];
      assert Combine([t, o]) == Apply(Combine([t]), o);
      assert [t, o, n][..2] == [t, o];
      assert Combine([t, o, n]) == Apply(Combine([t, o]), n);
    } else {
      assert [t, n][..1] == [t];
      assert Combine([t, n]) == Apply(Combine([t]), n);
    }
  }

  lemma MoreFragmentsPrint(sc: Scanner, c: Change, rest: Bytes)
    requires Readable(sc, c)
    ensures MoreFragments(sc, OldLine(c.oldAttrs) + AttrLine(NEW_TAG, c.newAttrs) + (END_LINE + rest))
      == (Fragments(c)[1..], END_LINE + rest)
  {
    hide AnyFragment, AttrLine;
    var tail := END_LINE + rest;
    var newLine := AttrLine(NEW_TAG, c.newAttrs);
    NoFragmentAtEnd(sc, rest);
    assert MoreFragments(sc, tail) == ([], tail);
    NewLinePrint(sc, c.newAttrs, tail);
    assert [New(c.newAttrs)] + [] == [New(c.newAttrs)];
    assert MoreFragments(sc, newLine + tail) == ([New(c.newAttrs)], tail);
    if c.oldAttrs.Some? {
      var m := c.oldAttrs.value;
      var afterOld := newLine + tail;
      assert OldLine(c.oldAttrs) + newLine + tail == AttrLine(OLD_TAG, m) + afterOld;
      OldLinePrint(sc, m, afterOld);
      assert [Old(m)] + [New(c.newAttrs)] == [Old(m), New(c.newAttrs)];
      assert MoreFragments(sc, AttrLine(OLD_TAG, m) + afterOld) == ([Old(m), New(c.newAttrs)], tail);
      assert Fragments(c)[1..] == [Old(m), New(c.newAttrs)];
    } else {
      assert OldLine(c.oldAttrs) + newLine + tail == newLine + tail;
      assert Fragments(c)[1..] == [New(c.newAttrs)];
    }
  }

  /** A line starts with its tag, whatever follows it. */
  lemma AttrLineStart(tag: Bytes, m: AttrMap, rest: Bytes)
    requires KeysAreKeys(m) && |tag| > 0
    ensures |AttrLine(tag, m) + rest| > 0 && (AttrLine(tag, m) + rest)[0] == tag[0]
  {
    hide PrintAttributes;
  }

  /** One step of `MoreFragments`. */
  lemma MoreFragmentsStep(sc: Scanner, i: Bytes)
    ensures AnyFragment(sc, i).None? ==> MoreFragments(sc, i) == ([], i)
    ensures AnyFragment(sc, i).Some? ==>
      var (f, r1) := AnyFragment(sc, i).value;
      MoreFragments(sc, i) == ([f] + MoreFragments(sc, r1).0, MoreFragments(sc, r1).1)
  {
  }

  /** As written, the fragments of a record with a value that ends with a
      backslash stop at the line that holds it, which is no dash line. */
  lemma MoreFragmentsLoses(c: Change, rest: Bytes)
    requires Writable(c) && !Readable(AsWritten, c)
    ensures var r := MoreFragments(AsWritten, OldLine(c.oldAttrs) + AttrLine(NEW_TAG, c.newAttrs) + (END_LINE + rest)).1;
      |r| > 0 && r[0] != DASH
  {
    var tail := END_LINE + rest;
    var newLine := AttrLine(NEW_TAG, c.newAttrs);
    var afterOld := newLine + tail;
    AttrLineStart(NEW_TAG, c.newAttrs, tail);
    assert c.oldAttrs.None? ==> OldLine(c.oldAttrs) == [];
    assert c.oldAttrs.Some? ==> OldLine(c.oldAttrs) == AttrLine(OLD_TAG, c.oldAttrs.value);
    Assoc(OldLine(c.oldAttrs), newLine, tail);
    hide AnyFragment, MoreFragments, AttrLine, PrintAttributes, OldLine;
    if c.oldAttrs.Some? {
      var m := c.oldAttrs.value;
      var i := AttrLine(OLD_TAG, m) + afterOld;
      if !AllFramed(AsWritten, m) {
        AttrLineStart(OLD_TAG, m, afterOld);
        OldLineLoses(m, afterOld);
        MoreFragmentsStep(AsWritten, i);
      } else {
        NewLineLoses(c.newAttrs, tail);
        MoreFragmentsStep(AsWritten, afterOld);
        OldLinePrint(AsWritten, m, afterOld);
        MoreFragmentsStep(AsWritten, i);
      }
    } else {
      assert [] + afterOld == afterOld;
      NewLineLoses(c.newAttrs, tail);
      MoreFragmentsStep(AsWritten, afterOld);
    }
  }

  /** A printed record is read back as it was, whatever follows it. */
  lemma ChangeItemPrint(sc: Scanner, c: Change, rest: Bytes)
    requires Readable(sc, c)
    ensures ChangeItem(sc, PrintChange(c) + rest) == Some((c, rest))
  {
    hide AnyFragment, MoreFragments, Span, Combine, Space, AttrLine;
    var body := OldLine(c.oldAttrs) + AttrLine(NEW_TAG, c.newAttrs) + (END_LINE + rest);
    var i := PrintChange(c) + rest;
    assert i == TimeLine(c.time) + body;
    assert i[0] == TIME_TAG[0];
    SpaceNothing(i);
    TimeLinePrint(sc, c.time, body);
    MoreFragmentsPrint(sc, c, rest);
    SpanRun([DASH, DASH, DASH], [NEWLINE] + rest, Dashes);
    assert END_LINE + rest == [DASH, DASH, DASH] + ([NEWLINE] + rest);
    assert [Time(c.time)] + Fragments(c)[1..] == Fragments(c);
    CombineFragmentsOf(c);
    assert (END_LINE + rest)[4..] == rest;
  }

  /** As written, a record with a value that ends with a backslash is not
      read: its fragments end before any dash line. */
  lemma ChangeItemLoses(c: Change, rest: Bytes)
    requires Writable(c) && !Readable(AsWritten, c)
    ensures ChangeItem(AsWritten, PrintChange(c) + rest) == None
  {
    hide AnyFragment, MoreFragments, Span, Combine, Space, AttrLine;
    var body := OldLine(c.oldAttrs) + AttrLine(NEW_TAG, c.newAttrs) + (END_LINE + rest);
    var i := PrintChange(c) + rest;
    assert i == TimeLine(c.time) + body;
    assert i[0] == TIME_TAG[0];
    SpaceNothing(i);
    TimeLinePrint(AsWritten, c.time, body);
    MoreFragmentsLoses(c, rest);
  }

  /** `many1` needs a fragment: a dash line alone is no record. */
  lemma ChangeItemWithoutFragment(sc: Scanner, rest: Bytes)
    ensures ChangeItem(sc, END_LINE + rest) == None
  {
    SpaceNothing(END_LINE + rest);
    NoFragmentAtEnd(sc, rest);
  }

  /** One dash is enough to end a record, and a `time` line alone is a
      record with default attributes. */
  lemma ChangeItemOneDash(sc: Scanner, t: nat, rest: Bytes)
    requires t <= I64_MAX
    ensures ChangeItem(sc, TimeLine(t) + ([DASH, NEWLINE] + rest)) == Some((DEFAULT_CHANGE.(time := t), rest))
  {
    var tail := [DASH, NEWLINE] + rest;
    var i := TimeLine(t) + tail;
    assert i[0] == TIME_TAG[0];
    hide *;
    SpaceNothing(i);
    TimeLinePrint(sc, t, tail);
    NoFragmentAt(sc, tail);
    MoreFragmentsStep(sc, tail);
    DashNewline(rest);
    ChangeItemOf(sc, i, Time(t), tail, [], tail, 1);
    CombineOneTime(t);
  }

  /** A separator line of one dash: a run of one dash, then the newline. */
  lemma DashNewline(rest: Bytes)
    ensures var tail := [DASH, NEWLINE] + rest;
      Span(tail, Dashes) == 1 && tail[1] == NEWLINE && tail[2..] == rest
  {
    SpanRun([DASH], [NEWLINE] + rest, Dashes);
    assert [DASH, NEWLINE] + rest == [DASH] + ([NEWLINE] + rest);
  }

  /** One step of `change_item`, spelt out. */
  lemma ChangeItemOf(sc: Scanner, i: Bytes, f: Fragment, r1: Bytes, fs: seq<Fragment>, r2: Bytes, n: nat)
    requires AnyFragment(sc, Space(i)) == Some((f, r1)) && MoreFragments(sc, r1) == (fs, r2)
    requires 0 < n < |r2| && Span(r2, Dashes) == n && r2[n] == NEWLINE
    ensures ChangeItem(sc, i) == Some((Combine([f] + fs), r2[n + 1..]))
  {
    hide AnyFragment, MoreFragments, Span, Combine, Space;
  }

  lemma CombineOneTime(t: int)
    ensures Combine([Time(t)] + []) == DEFAULT_CHANGE.(time := t)
  {
    assert [Time(t)] + [] == [Time(t)];
    assert [Time(t)][..0] == [];
  }

  /** A record whose fragments are not followed by a dash line is not
      read: here, a `time` line at the end of the input or before a blank
      line. */
  lemma ChangeItemUnterminated(sc: Scanner, t: nat, rest: Bytes)
    requires t <= I64_MAX
    requires rest == [] || rest[0] == NEWLINE
    ensures ChangeItem(sc, TimeLine(t) + rest) == None
  {
    hide AnyFragment, MoreFragments, Combine, Space;
    var i := TimeLine(t) + rest;
    assert i[0] == TIME_TAG[0];
    SpaceNothing(i);
    TimeLinePrint(sc, t, rest);
    NoFragmentAt(sc, rest);
    MoreFragmentsStep(sc, rest);
  }

  predicate AllReadable(sc: Scanner, cs: seq<Change>) {
    forall i | 0 <= i < |cs| :: Readable(sc, cs[i])
  }

  /** Reading a printed journal followed by more text yields the printed
      records followed by what the rest yields. */
  lemma {:induction false} ChangeItemsPrint(sc: Scanner, cs: seq<Change>, rest: Bytes)
    requires AllReadable(sc, cs)
    ensures ChangeItems(sc, Print(cs) + rest) == (cs + ChangeItems(sc, rest).0, ChangeItems(sc, rest).1)
  {
    hide ChangeItem, PrintChange;
    if cs == [] {
      assert Print(cs) + rest == rest;
      assert cs + ChangeItems(sc, rest).0 == ChangeItems(sc, rest).0;
    } else {
      assert Print(cs) + rest == PrintChange(cs[0]) + (Print(cs[1..]) + rest);
      ChangeItemPrint(sc, cs[0], Print(cs[1..]) + rest);
      ChangeItemsPrint(sc, cs[1..], rest);
      assert [cs[0]] + (cs[1..] + ChangeItems(sc, rest).0) == cs + ChangeItems(sc, rest).0;
    }
  }

  /** As written, reading a printed journal stops before the first record
      with a value that ends with a backslash, so some text is left over. */
  lemma {:induction false} ChangeItemsLoses(cs: seq<Change>, rest: Bytes)
    requires forall i | 0 <= i < |cs| :: Writable(cs[i])
    requires !AllReadable(AsWritten, cs)
    ensures ChangeItems(AsWritten, Print(cs) + rest).1 != []
  {
    hide ChangeItem, ChangeItems, PrintChange, Print, Readable;
    var tail := Print(cs[1..]) + rest;
    PrintStep(cs, rest);
    ChangeItemsStep(AsWritten, Print(cs) + rest);
    if !Readable(AsWritten, cs[0]) {
      ChangeItemLoses(cs[0], tail);
    } else {
      ChangeItemPrint(AsWritten, cs[0], tail);
      var k :| 0 <= k < |cs| && !Readable(AsWritten, cs[k]);
      assert cs[1..][k - 1] == cs[k];
      ChangeItemsLoses(cs[1..], rest);
    }
  }

  /** A nonempty journal prints as its first record, which is never empty,
      followed by the others. */
  lemma PrintStep(cs: seq<Change>, rest: Bytes)
    requires forall i | 0 <= i < |cs| :: Writable(cs[i])
    requires cs != []
    ensures Print(cs) + rest == PrintChange(cs[0]) + (Print(cs[1..]) + rest)
    ensures |PrintChange(cs[0])| > 0
  {
    assert (TimeLine(cs[0].time) + [])[0] == TIME_TAG[0];
    assert |PrintChange(cs[0])| > 0;
    hide PrintChange;
  }

  /** One step of reading records: no record leaves the text as it is,
      a record leaves what reading after it leaves. */
  lemma ChangeItemsStep(sc: Scanner, i: Bytes)
    ensures ChangeItem(sc, i).None? ==> ChangeItems(sc, i).1 == i
    ensures ChangeItem(sc, i).Some? ==> ChangeItems(sc, i).1 == ChangeItems(sc, ChangeItem(sc, i).value.1).1
  {
    hide ChangeItem;
  }

  /** The round trip: a journal of changes the scanner frames is read back
      exactly; with the corrected scanner that is every writable change. */
  lemma ParsePrint(sc: Scanner, cs: seq<Change>)
    requires AllReadable(sc, cs)
    ensures Parse(sc, Print(cs)) == cs
  {
    hide ChangeItem, Print;
    assert ChangeItem(sc, []) == None;
    assert ChangeItems(sc, []) == ([], []);
    ChangeItemsPrint(sc, cs, []);
    assert Print(cs) + [] == Print(cs);
    assert cs + [] == cs;
  }

  /** As written, a journal in which any value ends with a backslash yields
      no changes at all. */
  lemma ParseLoses(cs: seq<Change>)
    requires forall i | 0 <= i < |cs| :: Writable(cs[i])
    requires !AllReadable(AsWritten, cs)
    ensures Parse(AsWritten, Print(cs)) == []
  {
    hide ChangeItems, Print;
    ChangeItemsLoses(cs, []);
    assert Print(cs) + [] == Print(cs);
  }

  /** As written, a journal of writable changes is read back exactly when
      no value in it ends with a backslash. */
  lemma ParseAsWritten(cs: seq<Change>)
    requires forall i | 0 <= i < |cs| :: Writable(cs[i])
    ensures Parse(AsWritten, Print(cs)) == cs <==> AllReadable(AsWritten, cs)
  {
    if AllReadable(AsWritten, cs) {
      ParsePrint(AsWritten, cs);
    } else {
      ParseLoses(cs);
    }
  }

  /** All or nothing: after readable records, the journal is read on only
      if the rest is readable too; otherwise nothing is returned. */
  lemma ParseAppend(sc: Scanner, cs: seq<Change>, rest: Bytes)
    requires AllReadable(sc, cs)
    ensures ChangesList(sc, rest).Some? ==> Parse(sc, Print(cs) + rest) == cs + Parse(sc, rest)
    ensures ChangesList(sc, rest).None? ==> Parse(sc, Print(cs) + rest) == []
  {
    ChangeItemsPrint(sc, cs, rest);
  }

  // ---- the scanner as written ---------------------------------------------

  /** Inside an escaped body, the as-written scanner never stops: every
      quote there follows a backslash. */
  lemma AsWrittenPassesBody(v: string, rest: Bytes)
    ensures forall j | 0 <= j < |Escape(v)| :: !ClosesAt(Escape(v) + [QUOTE] + rest, j)
  {
    var e := Escape(v);
    var q := e + [QUOTE] + rest;
    EscapeQuotesAreEscaped(v);
    forall j | 0 <= j < |e| ensures !ClosesAt(q, j) {
      assert q[j] == e[j];
      if j > 0 {
        assert q[j - 1] == e[j - 1];
      }
    }
  }

  /** As written, a value that does not end with a backslash is framed and
      read exactly as with the corrected scanner. */
  lemma AsWrittenAgrees(v: string, rest: Bytes)
    requires v == [] || v[|v| - 1] != '\\'
    ensures QuotedString(AsWritten, PrintValue(v) + rest) == Some((v, rest))
  {
    var e := Escape(v);
    var q := e + [QUOTE] + rest;
    AsWrittenPassesBody(v, rest);
    if v != [] {
      EscapeLastByte(v);
      assert q[|e| - 1] == e[|e| - 1];
    }
    assert ClosesAt(q, |e|);
    FrameEndAsWrittenUnique(q, |e|);
    QuotedFrame(AsWritten, v, rest);
  }

  /** As written, a value that ends with a backslash is never read back:
      the scanner takes the closing quote for an escaped one, and either
      runs off the end of the input or stops at a later quote, and then the
      quote it ran over makes the body invalid JSON. */
  lemma AsWrittenLosesTrailingBackslash(v: string, rest: Bytes)
    requires v != [] && v[|v| - 1] == '\\'
    ensures QuotedString(AsWritten, PrintValue(v) + rest) == None
  {
    hide Escape, EscapeChar, DecodeBody, FrameEndAsWrittenFrom;
    var e := Escape(v);
    var i := PrintValue(v) + rest;
    var q := e + [QUOTE] + rest;
    assert i[1..] == q;
    AsWrittenPassesBody(v, rest);
    EscapeTrailingBackslash(v);
    assert q[|e| - 1] == e[|e| - 1] == BACKSLASH;
    assert !ClosesAt(q, |e|);
    match FrameEndAsWritten(q)
    case None =>
    case Some(k) =>
      assert k > |e|;
      var mid := q[|e| + 1..k];
      assert i[1..k + 1] == q[..k] == e + [QUOTE] + mid;
      DecodeEscapeThenQuote(v, mid);
  }

  /** The smallest journal value that shows it: `C:\`, written in the
      journal as `"C:\\"` (its backslash escaped as two) and followed by
      the `]` that closes its list. */
  lemma TrailingBackslashExample()
    ensures QuotedString(AsWritten, PrintValue("C:\\") + [RBRACKET]) == None
    ensures QuotedString(Corrected, PrintValue("C:\\") + [RBRACKET]) == Some(("C:\\", [RBRACKET]))
  {
    AsWrittenLosesTrailingBackslash("C:\\", [RBRACKET]);
    QuotedPrint("C:\\", [RBRACKET]);
  }
}
