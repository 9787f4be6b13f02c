/** How a change is printed (src/changes.rs): a header line naming the time
    and the task, then either every field of a newly created task or the
    fields that differ between the two states, each value shown as a time
    when it reads as one. Colours are not modelled; the clock and the local
    time zone are parameters. */
module Changes {
  import opened Base
  import opened Decimal
  import opened Order
  import opened UndoData
  import opened Database

  datatype Format = Short | Long

  const MINUTE: int := 60
  const HOUR: int := 3600
  const DAY: int := 86400
  /** 365 days. */
  const YEAR: int := 31536000

  /** The renderings of a Unix time in the local time zone: `%F %X` and
      `%F %X %Z`. */
  datatype Local = Local(dateTime: int -> string, zoned: int -> string)

  /** The stream a change is written to. */
  class Output {
    var text: string

    method Write(s: string)
      modifies this
      ensures text == old(text) + s
    {
      text := text + s;
    }
  }

  function Abs(x: int): nat {
    if x < 0 then -x else x
  }

  predicate NoNewline(s: string) {
    '\n' !in s
  }

  /** `{value} {unit} {suffix}`: the past is "ago", the present and the
      future "from now". */
  function Phrase(value: nat, unit: string, delta: int): (r: string)
    ensures NoNewline(unit) ==> NoNewline(r)
  {
    var digits := NatToString(value);
    DigitsNoNewline(digits);
    digits + " " + unit + if delta > 0 then " ago" else " from now"
  }

  /** Only a time in the past is said to be "ago". */
  lemma PhraseAgo(value: nat, unit: string, delta: int)
    ensures var r := Phrase(value, unit, delta);
      |r| >= 4 && (delta > 0 <==> r[|r| - 4..] == " ago")
  {
    var head := NatToString(value) + " " + unit;
    var suffix := if delta > 0 then " ago" else " from now";
    EndsWith(head, suffix);
    if delta <= 0 {
      assert (head + suffix)[|head + suffix| - 4..] == suffix[5..];
      assert suffix[5..][1] != " ago"[1];
    }
  }

  lemma DigitsNoNewline(digits: string)
    requires AllDigits(digits)
    ensures NoNewline(digits)
  {
  }

  lemma EndsWith(head: string, tail: string)
    ensures (head + tail)[|head + tail| - |tail|..] == tail
  {
  }

  /** `delta_time`: how far a time lies from now (`delta` is now minus the
      time), in whole days, hours, minutes or seconds; nothing beyond 90
      days. */
  function DeltaTime(delta: int): (r: Option<string>)
    ensures r.None? <==> Abs(delta) > 90 * DAY
    ensures r.Some? ==> NoNewline(r.value)
  {
    var deltaAbs := Abs(delta);
    if deltaAbs > 90 * DAY then None
    else
      var (value, unit) := Count(deltaAbs);
      Some(Phrase(value, unit, delta))
  }

  /** The number of units and the unit `delta_time` shows a distance in. */
  function Count(deltaAbs: nat): (r: (nat, string))
    ensures NoNewline(r.1)
  {
    if deltaAbs > 3 * DAY then (deltaAbs / DAY, "days")
    else if deltaAbs > 2 * HOUR then (deltaAbs / HOUR, "hours")
    else if deltaAbs > 2 * MINUTE then (deltaAbs / MINUTE, "minutes")
    else (deltaAbs, "seconds")
  }

  /** The unit is the largest one the distance holds more than two (for days,
      three) of, and the count is the number of whole units, rounded down. */
  lemma DeltaTimeUnits(delta: int)
    requires Abs(delta) <= 90 * DAY
    ensures var a := Abs(delta);
      && (3 * DAY < a ==> exists n: nat | 3 <= n <= 90 && n * DAY <= a < (n + 1) * DAY
            :: DeltaTime(delta) == Some(Phrase(n, "days", delta)))
      && (2 * HOUR < a <= 3 * DAY ==> exists n: nat | 2 <= n <= 72 && n * HOUR <= a < (n + 1) * HOUR
            :: DeltaTime(delta) == Some(Phrase(n, "hours", delta)))
      && (2 * MINUTE < a <= 2 * HOUR ==> exists n: nat | 2 <= n <= 120 && n * MINUTE <= a < (n + 1) * MINUTE
            :: DeltaTime(delta) == Some(Phrase(n, "minutes", delta)))
      && (a <= 2 * MINUTE ==> DeltaTime(delta) == Some(Phrase(a, "seconds", delta)))
  {
    var a := Abs(delta);
    if 3 * DAY < a {
      var n := a / DAY;
      assert n * DAY <= a < (n + 1) * DAY;
      assert DeltaTime(delta) == Some(Phrase(n, "days", delta));
    } else if 2 * HOUR < a {
      var n := a / HOUR;
      assert n * HOUR <= a < (n + 1) * HOUR;
      assert DeltaTime(delta) == Some(Phrase(n, "hours", delta));
    } else if 2 * MINUTE < a {
      var n := a / MINUTE;
      assert n * MINUTE <= a < (n + 1) * MINUTE;
      assert DeltaTime(delta) == Some(Phrase(n, "minutes", delta));
    }
  }

  /** Three days exactly is still counted in hours; a second more, in days. */
  lemma DeltaTimeDayBoundary()
    ensures DeltaTime(259200) == Some("72 hours ago")
    ensures DeltaTime(259201) == Some("3 days ago")
  {
    assert Count(259200) == (72, "hours");
    assert NatToString(72) == "72";
    assert Phrase(72, "hours", 259200) == "72 hours ago";
    assert Count(259201) == (3, "days");
    assert Phrase(3, "days", 259201) == "3 days ago";
  }

  /** A time 121 seconds ahead is past the two-minute threshold. */
  lemma DeltaTimeNearNow()
    ensures DeltaTime(-121) == Some("2 minutes from now")
  {
    assert Count(121) == (2, "minutes");
    assert NatToString(2) == "2";
    assert Phrase(2, "minutes", -121) == "2 minutes from now";
  }

  /** Now itself counts as the future. */
  lemma DeltaTimeNow()
    ensures DeltaTime(0) == Some("0 seconds from now")
  {
    assert Count(0) == (0, "seconds");
    assert NatToString(0) == "0";
    assert Phrase(0, "seconds", 0) == "0 seconds from now";
  }

  lemma DeltaTimeMinutes()
    ensures DeltaTime(3482) == Some("58 minutes ago")
  {
    assert Count(3482) == (58, "minutes");
    assert NatToString(58) == "58";
    assert Phrase(58, "minutes", 3482) == "58 minutes ago";
  }

  /** Ninety days is the last distance shown. */
  lemma DeltaTimeLimit()
    ensures DeltaTime(7776000) == Some("90 days ago")
    ensures DeltaTime(-7776001) == None
  {
    assert Count(7776000) == (90, "days");
    assert NatToString(90) == "90";
    assert Phrase(90, "days", 7776000) == "90 days ago";
  }

  /** The clock is read once; a year either side of it must be an i64. */
  predicate NowInRange(now: int) {
    InI64(now - YEAR) && InI64(now + YEAR)
  }

  /** `format_value`: a value that reads as an i64 within a year of now is
      shown as a time, relative when it is within 90 days; any other value
      is shown as it is. */
  function FormatValue(format: Format, value: string, now: int, local: Local): (r: string)
    requires NowInRange(now)
    ensures r != value ==> ParseI64(value).Some? && Abs(ParseI64(value).value - now) <= YEAR
  {
    var parsed := ParseI64(value);
    if parsed.Some? && now - YEAR <= parsed.value <= now + YEAR then
      var ts := parsed.value;
      match DeltaTime(now - ts)
      case Some(delta) =>
        if format == Long then local.zoned(ts) + " (" + delta + ")" else delta
      case None => local.zoned(ts)
    else value
  }

  /** What a value that reads as an i64 within a year of now becomes in
      each format, however it is written (a sign, leading zeros). */
  lemma FormatValueParsed(format: Format, value: string, ts: int, now: int, local: Local)
    requires NowInRange(now) && ParseI64(value) == Some(ts) && Abs(now - ts) <= YEAR
    ensures var r := FormatValue(format, value, now, local);
      && (Abs(now - ts) <= 90 * DAY && format == Short ==> r == DeltaTime(now - ts).value)
      && (Abs(now - ts) <= 90 * DAY && format == Long ==>
            r == local.zoned(ts) + " (" + DeltaTime(now - ts).value + ")")
      && (Abs(now - ts) > 90 * DAY ==> r == local.zoned(ts))
  {
    hide ParseI64, IntToString, DeltaTime;
  }

  /** Any other value is shown as it is: one that does not read as an i64,
      or reads as one more than a year away from now. */
  lemma FormatValueVerbatim(format: Format, value: string, now: int, local: Local)
    requires NowInRange(now)
    requires ParseI64(value).None? || Abs(ParseI64(value).value - now) > YEAR
    ensures FormatValue(format, value, now, local) == value
  {
    hide ParseI64, DeltaTime;
  }

  /** What a time within a year of now, written as `Display` writes it,
      becomes in each format. */
  lemma FormatValueTimes(format: Format, ts: int, now: int, local: Local)
    requires NowInRange(now) && Abs(now - ts) <= YEAR
    ensures var r := FormatValue(format, IntToString(ts), now, local);
      && (Abs(now - ts) <= 90 * DAY && format == Short ==> r == DeltaTime(now - ts).value)
      && (Abs(now - ts) <= 90 * DAY && format == Long ==>
            r == local.zoned(ts) + " (" + DeltaTime(now - ts).value + ")")
      && (Abs(now - ts) > 90 * DAY ==> r == local.zoned(ts))
  {
    hide ParseI64, IntToString, DeltaTime, FormatValue;
    ParseIntToString(ts);
    FormatValueParsed(format, IntToString(ts), ts, now, local);
  }

  /** Leading zeros do not stop a number from being shown as a time:
      `str::parse` reads past them. A number that is not a time stays as
      written, zero included. */
  lemma FormatValueLeadingZero(format: Format, digits: string, now: int, local: Local)
    requires NowInRange(now) && digits != [] && AllDigits(digits)
    ensures var parsed := ParseI64(digits);
      if parsed.Some? && Abs(parsed.value - now) <= YEAR
      then FormatValue(format, "0" + digits, now, local) == FormatValue(format, digits, now, local)
      else FormatValue(format, "0" + digits, now, local) == "0" + digits
  {
    ParseLeadingZero(digits);
    var parsed := ParseI64(digits);
    hide *;
    if parsed.Some? && Abs(parsed.value - now) <= YEAR {
      FormatValueParsed(format, "0" + digits, parsed.value, now, local);
      FormatValueParsed(format, digits, parsed.value, now, local);
    } else {
      FormatValueVerbatim(format, "0" + digits, now, local);
      FormatValueVerbatim(format, digits, now, local);
    }
  }

  /** The journal value `01616626518` is the time 1616626518 and is shown
      as one. */
  lemma FormatValueLeadingZeroExample(format: Format, now: int, local: Local)
    requires NowInRange(now) && Abs(now - 1616626518) <= YEAR
    ensures FormatValue(format, "01616626518", now, local) == FormatValue(format, IntToString(1616626518), now, local)
  {
    hide NatToString, IntToString, ParseI64, FormatValue, DeltaTime;
    var digits := IntToString(1616626518);
    WrittenTime();
    ParseIntToString(1616626518);
    FormatValueLeadingZero(format, digits, now, local);
  }

  /** `Display` writes 1616626518 as these ten digits. */
  lemma WrittenTime()
    ensures "0" + NatToString(1616626518) == "01616626518"
  {
    assert NatToString(1) == "1";
    hide NatToString;
    NatToStringStep(1616626518, 161662651, 8, '8');
    NatToStringStep(161662651, 16166265, 1, '1');
    NatToStringStep(16166265, 1616626, 5, '5');
    NatToStringStep(1616626, 161662, 6, '6');
    NatToStringStep(161662, 16166, 2, '2');
    NatToStringStep(16166, 1616, 6, '6');
    NatToStringStep(1616, 161, 6, '6');
    NatToStringStep(161, 16, 1, '1');
    NatToStringStep(16, 1, 6, '6');
  }


  /** A value without a newline, in a time zone whose names have none, is
      shown without one. */
  lemma FormatValueNoNewline(format: Format, value: string, now: int, local: Local)
    requires NowInRange(now) && NoNewline(value)
    requires forall t :: NoNewline(local.zoned(t))
    ensures NoNewline(FormatValue(format, value, now, local))
  {
  }

  /** A time 58 minutes before now, whatever now is, in Short. */
  lemma FormatValueRecent(now: int, local: Local)
    requires NowInRange(now)
    ensures FormatValue(Short, IntToString(now - 3482), now, local) == "58 minutes ago"
  {
    var ts := now - 3482;
    assert Abs(now - ts) == 3482;
    hide DeltaTime, IntToString, FormatValue;
    DeltaTimeMinutes();
    FormatValueTimes(Short, ts, now, local);
  }

  /** Within 90 days, Long is the zoned time followed by the Short phrase in
      parentheses. */
  lemma FormatValueLongShort(ts: int, now: int, local: Local)
    requires NowInRange(now) && Abs(now - ts) <= 90 * DAY
    ensures FormatValue(Long, IntToString(ts), now, local)
      == local.zoned(ts) + " (" + FormatValue(Short, IntToString(ts), now, local) + ")"
  {
    hide DeltaTime, IntToString, FormatValue;
    FormatValueTimes(Short, ts, now, local);
    FormatValueTimes(Long, ts, now, local);
  }

  /** The window is a year either side of now, both ends included. */
  lemma FormatValueWindow(format: Format, now: int, local: Local)
    requires NowInRange(now)
    ensures FormatValue(format, IntToString(now - YEAR), now, local) == local.zoned(now - YEAR)
    ensures FormatValue(format, IntToString(now + YEAR), now, local) == local.zoned(now + YEAR)
    ensures FormatValue(format, IntToString(now - YEAR - 1), now, local) == IntToString(now - YEAR - 1)
    ensures FormatValue(format, IntToString(now + YEAR + 1), now, local) == IntToString(now + YEAR + 1)
  {
    hide FormatValue, IntToString, NatToString, DeltaTime, ParseI64;
    FormatValueTimes(format, now - YEAR, now, local);
    FormatValueTimes(format, now + YEAR, now, local);
    FormatValueOutside(format, now - YEAR - 1, now, local);
    FormatValueOutside(format, now + YEAR + 1, now, local);
  }

  /** A time more than a year away from now is printed as the number it is. */
  lemma FormatValueOutside(format: Format, ts: int, now: int, local: Local)
    requires NowInRange(now) && Abs(now - ts) > YEAR
    ensures FormatValue(format, IntToString(ts), now, local) == IntToString(ts)
  {
    hide IntToString, DeltaTime, ParseI64;
    ParseIntToString(ts);
  }

  /** A leading `+` is accepted, as `str::parse` accepts it. */
  lemma FormatValuePlusSign(format: Format, ts: nat, now: int, local: Local)
    requires NowInRange(now)
    ensures Abs(now - ts) <= YEAR ==>
      FormatValue(format, "+" + NatToString(ts), now, local) == FormatValue(format, NatToString(ts), now, local)
  {
    var digits := NatToString(ts);
    assert ("+" + digits)[1..] == digits;
    ParseDigits(digits);
    hide DeltaTime, NatToString;
  }

  /** A word is never a time. */
  lemma FormatValueWord(format: Format, now: int, local: Local)
    requires NowInRange(now)
    ensures FormatValue(format, "pending", now, local) == "pending"
  {
    assert !IsDigit('p');
  }

  /** A small number far from `now` is not a timestamp and stays as written. */
  lemma FormatValueSmallNumber(format: Format, now: int, local: Local)
    requires NowInRange(now) && now > YEAR + 2
    ensures FormatValue(format, "2", now, local) == "2"
  {
    assert IntToString(2) == "2";
    FormatValueOutside(format, 2, now, local);
  }

  /** A field `diff` reports: it differs between the two states, and in the
      short format it is not `modified`. */
  predicate Reported(format: Format, field: string, newAttrs: AttrMap, oldAttrs: AttrMap) {
    !(format == Short && field == "modified") && Get(oldAttrs, field) != Get(newAttrs, field)
  }

  /** What `diff` writes for one reported field: its name first, then the
      old value and the new value when present; in the long format a
      line of its own for each. */
  function FieldText(format: Format, field: string, newAttrs: AttrMap, oldAttrs: AttrMap, now: int, local: Local): (r: string)
    requires NowInRange(now)
    ensures format == Short ==> |r| >= |field| + 3 && r[..|field| + 3] == " | " + field
    ensures format == Long ==> |r| >= |field| + 4 && r[..|field| + 4] == "  " + field + ":\n" && r[|r| - 1] == '\n'
  {
    var oldValue := Get(oldAttrs, field);
    var newValue := Get(newAttrs, field);
    match format
    case Short =>
      " | " + field
      + (if oldValue.Some? then " from " + FormatValue(format, oldValue.value, now, local) else "")
      + (if newValue.Some? then " to " + FormatValue(format, newValue.value, now, local) else "")
    case Long =>
      "  " + field + ":\n"
      + (if oldValue.Some? then "    - " + FormatValue(format, oldValue.value, now, local) + "\n" else "")
      + (if newValue.Some? then "    + " + FormatValue(format, newValue.value, now, local) + "\n" else "")
  }

  /** The reported fields among `fields`, in their order. */
  function ReportedAmong(format: Format, fields: seq<string>, newAttrs: AttrMap, oldAttrs: AttrMap): (r: seq<string>)
    ensures forall f :: f in r <==> f in fields && Reported(format, f, newAttrs, oldAttrs)
    ensures newAttrs == oldAttrs ==> r == []
  {
    if fields == [] then []
    else
      var last := fields[|fields| - 1];
      ReportedAmong(format, fields[..|fields| - 1], newAttrs, oldAttrs)
      + if Reported(format, last, newAttrs, oldAttrs) then [last] else []
  }

  /** Keeping some of an ascending sequence keeps it ascending. */
  lemma {:induction false} ReportedAmongAscending(format: Format, fields: seq<string>, newAttrs: AttrMap, oldAttrs: AttrMap)
    requires Ascending(fields)
    ensures Ascending(ReportedAmong(format, fields, newAttrs, oldAttrs))
  {
    if fields != [] {
      var init := fields[..|fields| - 1];
      var last := fields[|fields| - 1];
      ReportedAmongAscending(format, init, newAttrs, oldAttrs);
      var s := ReportedAmong(format, init, newAttrs, oldAttrs);
      var r := ReportedAmong(format, fields, newAttrs, oldAttrs);
      forall i, j | 0 <= i < j < |r| ensures Less(r[i], r[j]) {
        if j >= |s| {
          assert r[i] == s[i] && s[i] in init;
          var k :| 0 <= k < |init| && init[k] == s[i];
          assert fields[k] == r[i];
        } else {
          assert r[i] == s[i] && r[j] == s[j];
        }
      }
    }
  }

  /** The fields a `diff` reports, in the order it reports them: ascending,
      each once. */
  ghost function ReportedFields(format: Format, newAttrs: AttrMap, oldAttrs: AttrMap): (r: seq<string>)
    ensures Ascending(r)
    ensures forall f :: f in r <==> (f in oldAttrs || f in newAttrs) && Reported(format, f, newAttrs, oldAttrs)
    ensures newAttrs == oldAttrs ==> r == []
  {
    var fields := SortedKeys(oldAttrs.Keys + newAttrs.Keys);
    ReportedAmongAscending(format, fields, newAttrs, oldAttrs);
    ReportedAmong(format, fields, newAttrs, oldAttrs)
  }

  /** The texts of `fields`, one after the other. */
  function FieldsText(format: Format, fields: seq<string>, newAttrs: AttrMap, oldAttrs: AttrMap, now: int, local: Local): string
    requires NowInRange(now)
  {
    if fields == [] then ""
    else
      FieldsText(format, fields[..|fields| - 1], newAttrs, oldAttrs, now, local)
      + FieldText(format, fields[|fields| - 1], newAttrs, oldAttrs, now, local)
  }

  /** All `diff` writes: the reported fields, and in the short format a
      newline ending the line. */
  ghost function DiffText(format: Format, newAttrs: AttrMap, oldAttrs: AttrMap, now: int, local: Local): string
    requires NowInRange(now)
  {
    FieldsText(format, ReportedFields(format, newAttrs, oldAttrs), newAttrs, oldAttrs, now, local)
    + if format == Short then "\n" else ""
  }

  /** `diff`: the union of the keys of both states, sorted, each field that
      differs written in turn. */
  method Diff(format: Format, out: Output, newAttrs: AttrMap, oldAttrs: AttrMap, now: int, local: Local)
    requires NowInRange(now)
    modifies out
    ensures out.text == old(out.text) + DiffText(format, newAttrs, oldAttrs, now, local)
  {
    hide FormatValue, SortedKeys, DiffText, ReportedFields, Ascending, FieldsText, ReportedAmong, FieldText, Get;
    var fields := SortedFields(oldAttrs.Keys, newAttrs.Keys);
    DiffStart(format, fields, newAttrs, oldAttrs, now, local);
    for i := 0 to |fields|
      invariant out.text == old(out.text)
        + FieldsText(format, ReportedAmong(format, fields[..i], newAttrs, oldAttrs), newAttrs, oldAttrs, now, local)
    {
      var field := fields[i];
      ghost var before := ReportedAmong(format, fields[..i], newAttrs, oldAttrs);
      ghost var text := out.text;
      ReportedAmongStep(format, fields, i, newAttrs, oldAttrs);
      if format == Short && field == "modified" {
        assert before + [] == before;
        continue;
      }
      var oldValue := Get(oldAttrs, field);
      var newValue := Get(newAttrs, field);
      if oldValue == newValue {
        assert before + [] == before;
        continue;
      }
      WriteField(format, out, field, newAttrs, oldAttrs, now, local);
      FieldsTextAppend(format, before, field, newAttrs, oldAttrs, now, local);
      Concat2(old(out.text), FieldsText(format, before, newAttrs, oldAttrs, now, local),
        FieldText(format, field, newAttrs, oldAttrs, now, local));
      assert Reported(format, field, newAttrs, oldAttrs);
      assert ReportedAmong(format, fields[..i + 1], newAttrs, oldAttrs) == before + [field];
      assert out.text == old(out.text) + FieldsText(format, before + [field], newAttrs, oldAttrs, now, local);
    }
    assert fields[..|fields|] == fields;
    ghost var written := FieldsText(format, ReportedAmong(format, fields, newAttrs, oldAttrs), newAttrs, oldAttrs, now, local);
    assert out.text == old(out.text) + written;
    DiffTextOf(format, newAttrs, oldAttrs, now, local);
    if format == Short {
      out.Write("\n");
      assert out.text == old(out.text) + (written + "\n");
    } else {
      assert written + "" == written;
    }
  }

  /** What `diff` writes for one field that differs. */
  method WriteField(format: Format, out: Output, field: string, newAttrs: AttrMap, oldAttrs: AttrMap, now: int, local: Local)
    requires NowInRange(now)
    modifies out
    ensures out.text == old(out.text) + FieldText(format, field, newAttrs, oldAttrs, now, local)
  {
    hide FormatValue, FieldText;
    var oldValue := Get(oldAttrs, field);
    var newValue := Get(newAttrs, field);
    ghost var text := out.text;
    ghost var head, fromPart, toPart := FieldParts(format, field, newAttrs, oldAttrs, now, local);
    match format {
      case Short =>
        out.Write(" | " + field);
        if oldValue.Some? {
          out.Write(" from " + FormatValue(format, oldValue.value, now, local));
        } else {
          assert out.text + fromPart == out.text;
        }
        assert out.text == text + head + fromPart;
        if newValue.Some? {
          out.Write(" to " + FormatValue(format, newValue.value, now, local));
        } else {
          assert out.text + toPart == out.text;
        }
      case Long =>
        out.Write("  " + field + ":\n");
        if oldValue.Some? {
          out.Write("    - " + FormatValue(format, oldValue.value, now, local) + "\n");
        } else {
          assert out.text + fromPart == out.text;
        }
        assert out.text == text + head + fromPart;
        if newValue.Some? {
          out.Write("    + " + FormatValue(format, newValue.value, now, local) + "\n");
        } else {
          assert out.text + toPart == out.text;
        }
    }
    Concat3(text, head, fromPart, toPart);
  }

  /** The three pieces `diff` writes for a field: its name, the old value
      and the new value. */
  lemma FieldParts(format: Format, field: string, newAttrs: AttrMap, oldAttrs: AttrMap, now: int, local: Local)
    returns (head: string, fromPart: string, toPart: string)
    requires NowInRange(now)
    ensures head == if format == Short then " | " + field else "  " + field + ":\n"
    ensures fromPart == match Get(oldAttrs, field)
      case None => ""
      case Some(v) => if format == Short then " from " + FormatValue(format, v, now, local)
        else "    - " + FormatValue(format, v, now, local) + "\n"
    ensures toPart == match Get(newAttrs, field)
      case None => ""
      case Some(v) => if format == Short then " to " + FormatValue(format, v, now, local)
        else "    + " + FormatValue(format, v, now, local) + "\n"
    ensures FieldText(format, field, newAttrs, oldAttrs, now, local) == head + fromPart + toPart
  {
    var oldValue := Get(oldAttrs, field);
    var newValue := Get(newAttrs, field);
    head := if format == Short then " | " + field else "  " + field + ":\n";
    fromPart := match oldValue
      case None => ""
      case Some(v) => if format == Short then " from " + FormatValue(format, v, now, local)
        else "    - " + FormatValue(format, v, now, local) + "\n";
    toPart := match newValue
      case None => ""
      case Some(v) => if format == Short then " to " + FormatValue(format, v, now, local)
        else "    + " + FormatValue(format, v, now, local) + "\n";
  }

  lemma Concat2(text: string, a: string, b: string)
    ensures text + a + b == text + (a + b)
  {
  }

  lemma Concat3(text: string, a: string, b: string, c: string)
    ensures text + a + b + c == text + (a + b + c)
  {
  }

  lemma DiffStart(format: Format, fields: seq<string>, newAttrs: AttrMap, oldAttrs: AttrMap, now: int, local: Local)
    requires NowInRange(now)
    ensures FieldsText(format, ReportedAmong(format, fields[..0], newAttrs, oldAttrs), newAttrs, oldAttrs, now, local) == ""
  {
    assert fields[..0] == [];
  }

  lemma DiffTextOf(format: Format, newAttrs: AttrMap, oldAttrs: AttrMap, now: int, local: Local)
    requires NowInRange(now)
    ensures DiffText(format, newAttrs, oldAttrs, now, local) ==
      FieldsText(format, ReportedAmong(format, SortedKeys(oldAttrs.Keys + newAttrs.Keys), newAttrs, oldAttrs), newAttrs, oldAttrs, now, local)
      + if format == Short then "\n" else ""
  {
  }

  lemma ReportedAmongStep(format: Format, fields: seq<string>, i: nat, newAttrs: AttrMap, oldAttrs: AttrMap)
    requires i < |fields|
    ensures ReportedAmong(format, fields[..i + 1], newAttrs, oldAttrs)
      == ReportedAmong(format, fields[..i], newAttrs, oldAttrs)
         + if Reported(format, fields[i], newAttrs, oldAttrs) then [fields[i]] else []
  {
    assert fields[..i + 1][..i] == fields[..i];
  }

  lemma FieldsTextAppend(format: Format, fields: seq<string>, field: string, newAttrs: AttrMap, oldAttrs: AttrMap, now: int, local: Local)
    requires NowInRange(now)
    ensures FieldsText(format, fields + [field], newAttrs, oldAttrs, now, local)
      == FieldsText(format, fields, newAttrs, oldAttrs, now, local) + FieldText(format, field, newAttrs, oldAttrs, now, local)
  {
    assert (fields + [field])[..|fields|] == fields;
  }

  predicate NewlineFreeMap(m: AttrMap) {
    forall k | k in m :: NoNewline(k) && NoNewline(m[k])
  }

  lemma {:induction false} FieldsTextShortNoNewline(fields: seq<string>, newAttrs: AttrMap, oldAttrs: AttrMap, now: int, local: Local)
    requires NowInRange(now) && NewlineFreeMap(newAttrs) && NewlineFreeMap(oldAttrs)
    requires forall t :: NoNewline(local.zoned(t))
    requires forall f | f in fields :: NoNewline(f)
    ensures NoNewline(FieldsText(Short, fields, newAttrs, oldAttrs, now, local))
  {
    hide FormatValue, DeltaTime, ParseI64;
    if fields != [] {
      var init := fields[..|fields| - 1];
      var field := fields[|fields| - 1];
      assert field in fields;
      FieldsTextShortNoNewline(init, newAttrs, oldAttrs, now, local);
      if field in oldAttrs {
        FormatValueNoNewline(Short, oldAttrs[field], now, local);
      }
      if field in newAttrs {
        FormatValueNoNewline(Short, newAttrs[field], now, local);
      }
    }
  }

  /** In the short format a change is one line: with keys, values and zone
      names free of newlines, the only newline is the last character. */
  lemma DiffShortIsOneLine(newAttrs: AttrMap, oldAttrs: AttrMap, now: int, local: Local)
    requires NowInRange(now) && NewlineFreeMap(newAttrs) && NewlineFreeMap(oldAttrs)
    requires forall t :: NoNewline(local.zoned(t))
    ensures var r := DiffText(Short, newAttrs, oldAttrs, now, local);
      |r| > 0 && r[|r| - 1] == '\n' && NoNewline(r[..|r| - 1])
  {
    var fields := ReportedFields(Short, newAttrs, oldAttrs);
    FieldsTextShortNoNewline(fields, newAttrs, oldAttrs, now, local);
    var r := DiffText(Short, newAttrs, oldAttrs, now, local);
    assert r[..|r| - 1] == FieldsText(Short, fields, newAttrs, oldAttrs, now, local);
  }

  /** The first part of a uuid: the text before its first `-`. */
  function UuidPrefix(uuid: string): (r: string)
    ensures |r| <= |uuid| && r == uuid[..|r|]
    ensures '-' !in r
    ensures |r| < |uuid| ==> uuid[|r|] == '-'
  {
    if uuid == [] || uuid[0] == '-' then ""
    else [uuid[0]] + UuidPrefix(uuid[1..])
  }

  /** The task part of the header: ` [id]` (the uuid's first part when the
      task has no id, or id 0), then ` description`; nothing when the change
      has no uuid or the uuid names no known task. */
  function TaskTag(newAttrs: AttrMap, tasks: map<string, Task>): (r: string)
    ensures r == "" <==> "uuid" !in newAttrs || newAttrs["uuid"] !in tasks
  {
    if "uuid" in newAttrs && newAttrs["uuid"] in tasks then
      var uuid := newAttrs["uuid"];
      var task := tasks[uuid];
      var name := if task.id.Some? && task.id.value != 0 then IntToString(task.id.value) else UuidPrefix(uuid);
      " [" + name + "]" + if task.description.Some? then " " + task.description.value else ""
    else ""
  }

  /** The first part of a uuid is the text before its first `-`. */
  lemma UuidPrefixOf(head: string, rest: string)
    requires '-' !in head
    ensures UuidPrefix(head + "-" + rest) == head
  {
    var uuid := head + "-" + rest;
    assert uuid[..|head|] == head && uuid[|head|] == '-';
  }

  /** An id of 0 is shown as no id is: by the uuid's first part. */
  lemma TaskTagZeroId(newAttrs: AttrMap, tasks: map<string, Task>, task: Task)
    requires "uuid" in newAttrs
    ensures var uuid := newAttrs["uuid"];
      TaskTag(newAttrs, tasks[uuid := task.(id := Some(0))]) == TaskTag(newAttrs, tasks[uuid := task.(id := None)])
  {
  }

  lemma TaskTagExamples(head: string, rest: string, description: string)
    requires '-' !in head
    ensures var uuid := head + "-" + rest;
      var change := map["uuid" := uuid];
      && TaskTag(change, map[uuid := Task(Some(12), Some(uuid), Some(description), None, None)]) == " [12] " + description
      && TaskTag(change, map[uuid := Task(Some(-3), Some(uuid), None, None, None)]) == " [-3]"
      && TaskTag(change, map[uuid := Task(None, Some(uuid), None, None, None)]) == " [" + head + "]"
  {
    UuidPrefixOf(head, rest);
    assert IntToString(12) == "12";
    assert IntToString(-3) == "-3";
  }

  /** The header line: the local time of the change, then the task; the
      time alone when the change names no known task. */
  function Header(db: TaskDb, change: Change, local: Local): (r: string)
    ensures |r| > |local.dateTime(change.time)| && r[|r| - 1] == '\n'
    ensures r[..|local.dateTime(change.time)|] == local.dateTime(change.time)
    ensures "uuid" !in change.newAttrs || change.newAttrs["uuid"] !in db.tasks ==>
      r == local.dateTime(change.time) + "\n"
  {
    local.dateTime(change.time) + TaskTag(change.newAttrs, db.tasks) + "\n"
  }

  /** One line of `new_fields`. */
  function FieldLine(format: Format, key: string, value: string, now: int, local: Local): string
    requires NowInRange(now)
  {
    "  " + key + ": " + FormatValue(format, value, now, local) + "\n"
  }

  /** The lines of `new_fields` for the keys in `keys`, in that order. */
  function FieldLines(format: Format, keys: seq<string>, fields: AttrMap, now: int, local: Local): string
    requires NowInRange(now)
    requires forall k | k in keys :: k in fields
  {
    if keys == [] then ""
    else
      var key := keys[|keys| - 1];
      FieldLines(format, keys[..|keys| - 1], fields, now, local) + FieldLine(format, key, fields[key], now, local)
  }

  /** `keys` lists every key of the set once. */
  ghost predicate Listing(keys: seq<string>, keySet: set<string>) {
    && (forall k :: k in keys <==> k in keySet)
    && (forall i, j | 0 <= i < j < |keys| :: keys[i] != keys[j])
  }

  /** `new_fields`: every field of a created task on its own line, in the
      hash map's iteration order, which nothing fixes: `order` is the order
      taken. */
  method NewFields(format: Format, out: Output, fields: AttrMap, now: int, local: Local) returns (ghost order: seq<string>)
    requires NowInRange(now)
    modifies out
    ensures Listing(order, fields.Keys)
    ensures out.text == old(out.text) + FieldLines(format, order, fields, now, local)
  {
    order := [];
    assert FieldLines(format, order, fields, now, local) == "";
    hide FormatValue, FieldLine, FieldLines;
    var pending := fields.Keys;
    while pending != {}
      invariant pending <= fields.Keys
      invariant forall k :: k in order <==> k in fields && k !in pending
      invariant forall i, j | 0 <= i < j < |order| :: order[i] != order[j]
      invariant out.text == old(out.text) + FieldLines(format, order, fields, now, local)
      decreases |pending|
    {
      var key :| key in pending;
      out.Write(FieldLine(format, key, fields[key], now, local));
      FieldLinesAppend(format, order, key, fields, now, local);
      Concat2(old(out.text), FieldLines(format, order, fields, now, local), FieldLine(format, key, fields[key], now, local));
      order := order + [key];
      pending := pending - {key};
    }
  }

  lemma FieldLinesAppend(format: Format, keys: seq<string>, key: string, fields: AttrMap, now: int, local: Local)
    requires NowInRange(now)
    requires forall k | k in keys :: k in fields
    requires key in fields
    ensures FieldLines(format, keys + [key], fields, now, local)
      == FieldLines(format, keys, fields, now, local) + FieldLine(format, key, fields[key], now, local)
  {
    assert (keys + [key])[..|keys|] == keys;
  }

  /** `show`: the header line, then the fields of a created task or the
      difference between the two states, then an empty line. */
  method Show(format: Format, db: TaskDb, change: Change, out: Output, now: int, local: Local) returns (ghost order: seq<string>)
    requires NowInRange(now)
    modifies out
    ensures change.oldAttrs.None? ==>
      && Listing(order, change.newAttrs.Keys)
      && out.text == old(out.text) + Header(db, change, local)
           + FieldLines(format, order, change.newAttrs, now, local) + "\n"
    ensures change.oldAttrs.Some? ==>
      out.text == old(out.text) + Header(db, change, local)
        + DiffText(format, change.newAttrs, change.oldAttrs.value, now, local) + "\n"
  {
    ghost var header := Header(db, change, local);
    assert header == local.dateTime(change.time) + TaskTag(change.newAttrs, db.tasks) + "\n";
    hide FieldLines, DiffText, FormatValue, IntToString, UuidPrefix, Header;
    out.Write(local.dateTime(change.time));
    ghost var text := out.text;
    ghost var tag := TaskTag(change.newAttrs, db.tasks);
    if "uuid" in change.newAttrs && change.newAttrs["uuid"] in db.tasks {
      var uuid := change.newAttrs["uuid"];
      var task := db.tasks[uuid];
      ghost var name := if task.id.Some? && task.id.value != 0 then IntToString(task.id.value) else UuidPrefix(uuid);
      ghost var description := if task.description.Some? then " " + task.description.value else "";
      assert tag == " [" + name + "]" + description;
      if task.id.Some? && task.id.value != 0 {
        out.Write(" [" + IntToString(task.id.value) + "]");
      } else {
        out.Write(" [" + UuidPrefix(uuid) + "]");
      }
      if task.description.Some? {
        out.Write(" " + task.description.value);
      } else {
        assert out.text + description == out.text;
      }
      Concat2(text, " [" + name + "]", description);
    } else {
      assert text + tag == text;
    }
    assert out.text == text + tag;
    out.Write("\n");
    Concat3(old(out.text), local.dateTime(change.time), tag, "\n");
    assert out.text == old(out.text) + header;
    match change.oldAttrs {
      case None =>
        order := NewFields(format, out, change.newAttrs, now, local);
      case Some(oldAttrs) =>
        Diff(format, out, change.newAttrs, oldAttrs, now, local);
        order := [];
    }
    out.Write("\n");
  }
}
