# task-changes, modelled in Dafny

task-changes prints the history of a Taskwarrior database. It asks the
`task` command for its configuration (`task _show`) to find
`data.location`. It reads the tasks (`task export`) and parses the
`undo.data` journal in that directory. Then it prints every change: a
header line with the time and the task, followed by the fields the change
created or modified. This project models that core and proves its
properties:

- `undodata.dfy` (module `UndoData`) is the journal grammar, written as
  parser functions over bytes:
  - `time`, `old` and `new` lines, each a *fragment*;
  - `[key:"value" ...]` attribute lists;
  - a `---` line that ends each change.

  The two loops of the source are methods proved against those functions:
  the attribute-map insertion and `combine_fragments`. So is the
  quote-scanning closure of `quoted_string`. The grammar takes that
  scanner as a parameter (`Scanner`): `AsWritten` is the closure as the
  source has it, `Corrected` is the one that tracks the parity of a run of
  backslashes (see Findings).
- `consumed.dfy` (module `Consumed`) proves that every parser of the
  grammar leaves a suffix of its input, and from that the shape of what
  one change item consumes: it ends with a dash and a newline.
- `json.dfy`, `utf8.dfy` and `decimal.dfy` model the parts of the library
  calls that the grammar and the formatter depend on:
  - `Json` decodes a JSON string body (escapes, `\uXXXX`, surrogate pairs).
    It is paired with two encoders: the escaping one the journal writer
    uses, and one that writes `\/` and `\uXXXX` escapes with upper-case
    hex and surrogate pairs.
  - `Utf8` encodes and decodes one UTF-8 scalar.
  - `Decimal` covers `str::parse::<i64>` and decimal rendering.
- `journal.dfy` (module `Journal`) is the writer side of the format: how a
  change is laid out in `undo.data`. It holds the round-trip proofs. With
  the corrected scanner, the parser reads back exactly what the writer
  wrote, change after change. With the scanner as written, it does so
  exactly when no value ends in a backslash, and otherwise the whole
  journal parses to no change.
- `order.dfy` is the byte-wise string order that `Vec::sort` uses on field
  names, and the sorted list of a set of names.
- `changes.dfy` (module `Changes`) holds `show`, `new_fields` and `diff`
  as methods that write to an `Output` object. Beside them are
  `format_value` and `delta_time` as functions, with the specification of
  the whole text a diff writes.
- `taskdb.dfy` (module `Database`) holds:
  - the scan of the `_show` output for `data.location`, with `~/`
    expansion;
  - the uuid-keyed task map;
  - `TaskDb::new` with each of its error paths.

Outside inputs are parameters:
- the current time `now`;
- the two local-time renderings of chrono, `%F %X` and `%F %X %Z` (the
  `Local` record of functions);
- the standard output of `task _show`, and the result of `task export`,
  already decoded into `Task` records;
- the value of `HOME`;
- the file read of `undo.data`, as a function from path to result.

`new_fields` iterates a `HashMap`, whose order nothing fixes.
`Changes.NewFields` and `Changes.Show` return the order taken as a ghost
result, and promise that it lists every field exactly once.

## Model

| member | source | states |
|---|---|---|
| Base.Get | src/changes.rs:95-96 | `HashMap::get`: a value exactly when the key is present, and that key's value |
| Decimal.NatToString | src/changes.rs:194 | decimal rendering: digits only, no leading zero, and the digits denote the number |
| Decimal.IntToString | src/changes.rs:32 | signed rendering: a `-` followed by the rendering of the magnitude for negatives |
| Decimal.ParseI64 | src/changes.rs:148 | `str::parse::<i64>` yields only values inside the i64 range |
| Decimal.ParseIntToString | src/changes.rs:148 | parsing the rendering of any integer gives it back exactly when it fits in i64, and fails otherwise |
| Decimal.ParseDigits | src/taskdb/undodata.rs:60-64 | a non-empty digit run parses to its value exactly when that value is at most `i64::MAX` |
| Decimal.ParseI64Sound | src/changes.rs:148 | whatever parses is an optional sign followed by digits; its value is the digits' value, negated exactly when the sign is `-`, so only a `-` input gives a negative value |
| Decimal.DigitsValueLeadingZero | src/changes.rs:148 | a leading `0` does not change the value of a digit run |
| Decimal.ParseLeadingZero | src/changes.rs:148 | `str::parse::<i64>` reads digits with a leading `0` exactly as it reads them without it |
| Utf8.EncodeChar | src/taskdb/undodata.rs:78 | a scalar takes 1 to 4 bytes, one byte exactly for ASCII, and the lead and continuation bytes have the right shape |
| Utf8.DecodeChar | src/taskdb/undodata.rs:78 | decoding consumes 1 to 4 available bytes, and a one-byte result is ASCII |
| Utf8.DecodeEncodeChar | src/taskdb/undodata.rs:78 | decoding the encoding of any scalar, whatever follows it, gives that scalar and its length |
| Utf8.EncodeDecodeChar | src/taskdb/undodata.rs:78 | every byte run that decodes is the encoding of what it decodes to, so no overlong or surrogate form is accepted |
| Utf8.Decode2 | src/taskdb/undodata.rs:78 | two-byte sequences decode to the code point they denote |
| Utf8.Decode3 | src/taskdb/undodata.rs:78 | three-byte sequences outside the surrogate range decode to the code point they denote |
| Utf8.Decode4 | src/taskdb/undodata.rs:78 | four-byte sequences decode to the code point they denote |
| Json.Hex4 | src/taskdb/undodata.rs:78 | a value exactly when four hex digits are present, and then the 16-bit number they denote, most significant digit first |
| Json.HexDigit | src/taskdb/undodata.rs:78 | a digit below 16 is written as a hex digit whose value it is |
| Json.Hex4RoundTrip | src/taskdb/undodata.rs:78 | the four hex digits written for any 16-bit number read back as that number, whatever follows |
| Json.Unescape | src/taskdb/undodata.rs:78 | an escape sequence consumes at least one available byte |
| Json.UnescapeSlash | src/taskdb/undodata.rs:78 | `\/` decodes to `/` and consumes one byte after the backslash |
| Json.UnescapeUnit | src/taskdb/undodata.rs:78 | `\u` with the hex digits of any non-surrogate 16-bit unit decodes to that character in five bytes |
| Json.UnescapePair | src/taskdb/undodata.rs:78 | a high surrogate escape followed by a low one decodes to the supplementary character they combine to, in eleven bytes |
| Json.Token | src/taskdb/undodata.rs:78 | one character of a JSON string body consumes at least one available byte |
| Json.DecodeBodyLength | src/taskdb/undodata.rs:78 | a decoded body has at most one character per byte, and is empty exactly when the body is |
| Json.Escape | src/taskdb/undodata.rs:78 | the escaped form is empty exactly when the string is |
| Json.TokenEscapeChar | src/taskdb/undodata.rs:78 | the decoder reads each escaped character back as that character with its full length |
| Json.DecodeEscape | src/taskdb/undodata.rs:78 | decoding an escaped string followed by any body gives the string followed by that body's decoding, and fails exactly when the body's decoding fails |
| Json.DecodeEscapeRoundTrip | src/taskdb/undodata.rs:78 | `serde_json` string decoding inverts escaping for every string |
| Json.DecodeEscapeThenQuote | src/taskdb/undodata.rs:78 | an unescaped quote inside a body makes decoding fail |
| Json.TokenEscapeUnicodeChar | src/taskdb/undodata.rs:78 | the decoder reads the `\u`-style escape of each character (`\/`, one unit, or a surrogate pair) back as that character with its full length |
| Json.TokenEscapePair | src/taskdb/undodata.rs:78 | a supplementary character written as a surrogate pair reads back as that character in twelve bytes |
| Json.DecodeEscapeUnicode | src/taskdb/undodata.rs:78 | decoding the `\u`-style escape of a string followed by any body gives the string followed by that body's decoding, and fails exactly when the body's decoding fails |
| Json.DecodeEscapeUnicodeRoundTrip | src/taskdb/undodata.rs:78 | string decoding inverts the `\u`-style encoder for every string |
| Json.EscapeQuotesAreEscaped | src/taskdb/undodata.rs:66-76 | every quote byte in an escaped string is preceded by a backslash |
| Json.EscapeLastByte | src/taskdb/undodata.rs:66-76 | an escaped string ends in a backslash only when the string does |
| Json.EscapeTrailingBackslash | src/taskdb/undodata.rs:66-76 | a string ending in `\` escapes to bytes ending in two backslashes |
| Order.LessIrreflexive | src/changes.rs:85 | no name sorts before itself |
| Order.LessTransitive | src/changes.rs:85 | the field-name order is transitive |
| Order.LessTotal | src/changes.rs:85 | any two distinct names are ordered one way and not both |
| Order.Minimum | src/changes.rs:84-85 | a non-empty set has a member smaller than all the others |
| Order.SortedKeys | src/changes.rs:76-87 | the sorted list of a set has the set's size and members, in strictly ascending order |
| Order.AscendingUnique | src/changes.rs:84-86 | two ascending lists with the same members are equal, so the sorted field list is unique |
| Order.Insert | src/changes.rs:80 | insertion into an ascending list keeps it ascending and adds exactly the new name |
| Order.SortedFields | src/changes.rs:76-87 | the field list is the sorted union of the old and new key sets |
| UndoData.Span | src/taskdb/undodata.rs:50 | `take_while`: the longest prefix of the byte class |
| UndoData.Space | src/taskdb/undodata.rs:49-51 | `space` skips blanks and stops at the first non-blank |
| UndoData.Tag | src/taskdb/undodata.rs:119 | `tag` consumes exactly the tag |
| UndoData.Integer | src/taskdb/undodata.rs:60-64 | `integer` reads a non-negative value no larger than `i64::MAX` and consumes input (its value: UndoData.IntegerValue) |
| UndoData.IntegerValue | src/taskdb/undodata.rs:60-64 | after the blanks, `integer` reads the value of the digit run, leading zeros included, exactly when it is at most `i64::MAX`; an empty or overflowing run fails |
| UndoData.FrameEndAsWritten | src/taskdb/undodata.rs:67-76 | the closing quote found by the closure as written: the first byte where the closure stops |
| UndoData.FrameEndAsWrittenFrom | src/taskdb/undodata.rs:67-76 | the same search from a given position: the first stopping byte after it, or none |
| UndoData.ScanQuoted | src/taskdb/undodata.rs:67-76 | the stateful closure, run byte by byte with its `escaped` cell, stops where `FrameEndAsWritten` says |
| UndoData.FrameEndAsWrittenUnique | src/taskdb/undodata.rs:67-76 | a stopping byte with none before it is the closing quote the scanner reports |
| UndoData.FrameEnd | src/taskdb/undodata.rs:66-76 | the intended frame: the first quote preceded by an even run of backslashes, or none when no quote is |
| UndoData.ScanQuotedCorrected | src/taskdb/undodata.rs:67-76 | a byte loop that tracks backslash parity finds exactly `FrameEnd` |
| UndoData.ValueEnd | src/taskdb/undodata.rs:74-77 | whichever scanner is chosen, it closes a value only at a quote |
| UndoData.Unquote | src/taskdb/undodata.rs:73-79 | `map_res` over the recognized frame: a result exactly when the bytes between the quotes decode, and then their decoding, with the input after the closing quote left |
| UndoData.QuotedString | src/taskdb/undodata.rs:66-80 | `quoted_string`, with either scanner, consumes input when it succeeds |
| UndoData.QuotedStringNewline | src/taskdb/mod.rs:119 | with either scanner, the journal value `"a\nb"` reads as a, newline, b |
| UndoData.Identifier | src/taskdb/undodata.rs:82-87 | `identifier` reads a non-empty run of alphanumerics and `_` and stops at the first byte outside it |
| UndoData.Pair | src/taskdb/undodata.rs:97-101 | `key:"value"` gives a key that is a valid identifier and consumes input |
| UndoData.PairList | src/taskdb/undodata.rs:95-102 | `separated_list0` never grows its input, and reads no pair exactly when it consumes nothing |
| UndoData.MorePairs | src/taskdb/undodata.rs:95-96 | the pairs after a `many1(char(' '))` separator: none read exactly when nothing is consumed, and the input never grows |
| UndoData.CollectAttributes | src/taskdb/undodata.rs:106-113 | the insertion loop builds the same map as the specification `ToMap` |
| UndoData.ToMapLastWins | src/taskdb/undodata.rs:106-113 | a key is in the map exactly when some pair has it, and its value comes from the last such pair |
| UndoData.Attributes | src/taskdb/undodata.rs:89-115 | a bracketed attribute list consumes input |
| UndoData.EndOfLine | src/taskdb/undodata.rs:119 | `preceded(space, newline)` consumes at least the newline |
| UndoData.FragmentTime | src/taskdb/undodata.rs:117-122 | a `time` line gives a time fragment within the i64 range |
| UndoData.FragmentOld | src/taskdb/undodata.rs:124-129 | an `old` line gives an old-attributes fragment |
| UndoData.FragmentNew | src/taskdb/undodata.rs:131-136 | a `new` line gives a new-attributes fragment |
| UndoData.AnyFragment | src/taskdb/undodata.rs:155 | the `alt` of the three fragment parsers |
| UndoData.MoreFragments | src/taskdb/undodata.rs:155 | `many1` over fragments keeps every time in range |
| UndoData.CombineFragments | src/taskdb/undodata.rs:138-149 | the loop over fragments computes `Combine` |
| UndoData.CombineTime | src/taskdb/undodata.rs:142 | the change's time is the last time fragment's, or 0 when there is none |
| UndoData.CombineNoOld | src/taskdb/undodata.rs:139-143 | without an old fragment, the change has no old attributes |
| UndoData.CombineOld | src/taskdb/undodata.rs:143 | the old attributes are those of the last old fragment |
| UndoData.CombineNew | src/taskdb/undodata.rs:144 | the new attributes are those of the last new fragment, or empty when there is none |
| UndoData.CombineTimeInRange | src/taskdb/undodata.rs:138-149 | combining in-range fragments gives an in-range time |
| UndoData.ChangeItem | src/taskdb/undodata.rs:151-160 | a change item consumes input and has a non-negative i64 time (what it consumes: Consumed.ChangeItemEnds) |
| UndoData.ChangeItems | src/taskdb/undodata.rs:163 | `many0` never grows its input, and reads no change exactly when it consumes nothing |
| UndoData.ChangeItemsTimes | src/taskdb/undodata.rs:163 | every parsed change has an in-range time |
| Consumed.ChangeItemEnds | src/taskdb/undodata.rs:151-160 | a change item is read only when a fragment starts it after blanks (`many1`), and what it consumes ends with a `-` directly followed by the newline (`terminated(many1(char('-')), newline)`), leaving the rest of the input untouched |
| UndoData.ChangesList | src/taskdb/undodata.rs:162-164 | `all_consuming` succeeds exactly when `many0` leaves nothing |
| UndoData.Parse | src/taskdb/undodata.rs:34-40 | all or nothing: the parsed changes when the whole file parses, otherwise no change at all |
| Journal.PrintValue | src/taskdb/undodata.rs:66-80 | a value is written as its JSON escape between two quotes |
| Journal.Entries | src/taskdb/undodata.rs:106-113 | a map is written as its entries in ascending key order, one per key |
| Journal.QuotedPrint | src/taskdb/undodata.rs:66-80 | with the corrected scanner, `quoted_string` reads back every written value, whatever follows |
| Journal.ValuePrint | src/taskdb/undodata.rs:66-80 | a written value the chosen scanner frames (any value when corrected, one not ending in `\` as written) reads back, whatever follows |
| Journal.IdentifierPrint | src/taskdb/undodata.rs:82-87 | `identifier` reads back every valid key |
| Journal.PairPrint | src/taskdb/undodata.rs:97-101 | `key:"value"` reads back as that pair when the scanner frames the value |
| Journal.PairLoses | src/taskdb/undodata.rs:97-101 | as written, a pair whose value ends in `\` is not read at all |
| Journal.MorePairsPrint | src/taskdb/undodata.rs:95-102 | the space-separated tail of a list whose values the scanner frames reads back up to the `]` |
| Journal.MorePairsLoses | src/taskdb/undodata.rs:95-102 | as written, reading the tail stops at a separator before a value ending in `\` |
| Journal.MorePairsSpaces | src/taskdb/undodata.rs:95-96 | any positive number of spaces separates two pairs (`many1(char(' '))`) |
| Journal.PairListPrint | src/taskdb/undodata.rs:95-102 | `separated_list0` reads back every written list of pairs whose values the scanner frames |
| Journal.PairListLoses | src/taskdb/undodata.rs:95-102 | as written, a list with a value ending in `\` stops before a byte that is not `]` |
| Journal.ToMapEntries | src/taskdb/undodata.rs:106-113 | inserting a map's entries rebuilds the map |
| Journal.AttributesPrint | src/taskdb/undodata.rs:89-115 | `attributes` reads back every written map whose values the scanner frames |
| Journal.EntriesFramed | src/taskdb/undodata.rs:106-113 | a map's written entries are all framed exactly when its values are |
| Journal.AttributesLoses | src/taskdb/undodata.rs:89-115 | as written, a map with a value ending in `\` fails to parse |
| Journal.TimeLinePrint | src/taskdb/undodata.rs:117-122 | a written `time` line reads back as that time |
| Journal.OldLinePrint | src/taskdb/undodata.rs:124-129 | a written `old` line reads back as those attributes when the scanner frames them |
| Journal.NewLinePrint | src/taskdb/undodata.rs:131-136 | a written `new` line reads back as those attributes when the scanner frames them |
| Journal.OldLineLoses | src/taskdb/undodata.rs:124-129 | as written, an `old` line with a value ending in `\` is not a fragment |
| Journal.NewLineLoses | src/taskdb/undodata.rs:131-136 | as written, a `new` line with a value ending in `\` is not a fragment |
| Journal.NoFragmentAtEnd | src/taskdb/undodata.rs:155-156 | the `---` line is not a fragment, so `many1` stops there |
| Journal.MoreFragmentsPrint | src/taskdb/undodata.rs:155 | `many1` reads back the `old` and `new` lines of a change the scanner frames and stops at `---` |
| Journal.MoreFragmentsLoses | src/taskdb/undodata.rs:155-156 | as written, `many1` over a change with a value ending in `\` stops before a byte that is not the `-` of the end line |
| Journal.CombineFragmentsOf | src/taskdb/undodata.rs:138-149 | combining a change's written fragments gives the change back |
| Journal.ChangeItemPrint | src/taskdb/undodata.rs:151-160 | a written change reads back as that change when the scanner frames its values |
| Journal.ChangeItemLoses | src/taskdb/undodata.rs:151-160 | as written, a change with a value ending in `\` is not read |
| Journal.ChangeItemsPrint | src/taskdb/undodata.rs:163 | written changes the scanner frames read back in order, followed by whatever the rest parses to |
| Journal.ChangeItemsLoses | src/taskdb/undodata.rs:163 | as written, `many0` over a journal with a value ending in `\` leaves some text |
| Journal.NoFragmentAt | src/taskdb/undodata.rs:155 | no fragment starts at the end of the input, at a `-` or at a newline |
| Journal.ChangeItemWithoutFragment | src/taskdb/undodata.rs:153-157 | a separator line with no fragment before it is not a change item: `many1` needs a fragment |
| Journal.ChangeItemOneDash | src/taskdb/undodata.rs:153-159 | a `time` line followed by a separator of a single `-` is a change with that time and default attributes, and consumes exactly those two lines |
| Journal.ChangeItemUnterminated | src/taskdb/undodata.rs:153-158 | a `time` line followed by the end of the input or by a newline, with no dash, is not a change item |
| Journal.ParsePrint | src/taskdb/undodata.rs:27-43 | parsing a written journal gives back exactly the changes written, for every journal with the corrected scanner and for one without a value ending in `\` as written |
| Journal.ParseLoses | src/taskdb/undodata.rs:27-43 | as written, a journal with a value ending in `\` parses to no change at all |
| Journal.ParseAsWritten | src/taskdb/undodata.rs:27-43 | as written, a journal reads back exactly when none of its values ends in `\` |
| Journal.ParseAppend | src/taskdb/undodata.rs:34-40 | with a scanner that frames the prefix, a written prefix followed by a good tail parses to both, and a bad tail loses the whole journal |
| Journal.AsWrittenPassesBody | src/taskdb/undodata.rs:67-71 | the scanner as written never stops inside an escaped body |
| Journal.AsWrittenAgrees | src/taskdb/undodata.rs:66-80 | as written, values not ending in `\` read back correctly |
| Journal.AsWrittenLosesTrailingBackslash | src/taskdb/undodata.rs:66-80 | as written, no value ending in `\` is read back |
| Journal.TrailingBackslashExample | src/taskdb/undodata.rs:66-80 | `C:\` is lost as written and read back by the corrected scanner |
| Database.IndexOf | src/taskdb/mod.rs:51 | `memchr`: the first position of the byte, or none when it is absent |
| Database.FirstPart | src/taskdb/mod.rs:52-53 | the first `=`-separated part: the prefix before the first `=` |
| Database.SecondPart | src/taskdb/mod.rs:54 | the second part: present exactly when there is an `=`, running to the next `=` or the end |
| Database.JoinPath | src/taskdb/mod.rs:34 | `Path::join`: an absolute path replaces the base, otherwise base, separator, path |
| Database.ExpandTilde | src/taskdb/mod.rs:54-57 | `~/` is replaced by `HOME`, with no location when `HOME` is unset, and other values are kept |
| Database.LocationOf | src/taskdb/mod.rs:54-57 | the `data.location` line's value: none without `=`; `~/` joined to `HOME`, or none when `HOME` is unset; any other value as it is |
| Database.DataLocation | src/taskdb/mod.rs:48-65 | output without a newline has no location |
| Database.FirstKeyLine | src/taskdb/mod.rs:51-53 | the first line whose first part is `data.location`, or none when no line has it |
| Database.DataLocationOfLines | src/taskdb/mod.rs:48-65 | the output's newline-ended lines are read in order: the location is that of the first `data.location` line, or none |
| Database.GetDataLocation | src/taskdb/mod.rs:48-65 | the line loop returns what the specification `DataLocation` says |
| Database.DataLocationIgnoresTail | src/taskdb/mod.rs:51-64 | a last line without a newline is never read |
| Database.DataLocationFirstLine | src/taskdb/mod.rs:51-61 | the first `data.location` line wins, and the lines after it are ignored |
| Database.GetTasks | src/taskdb/mod.rs:77-89 | the insertion loop builds `TasksByUuid` |
| Database.TasksByUuidLastWins | src/taskdb/mod.rs:81-86 | a uuid is a key exactly when some task has it, mapped to the last such task; tasks without a uuid are dropped |
| Database.Open | src/taskdb/mod.rs:19-38 | `TaskDb::new`: each failure in the source's order (the `_show` error, missing location, the export error, the read error) and otherwise the parsed journal with the task map |
| Changes.Output.Write | src/changes.rs:27 | a write appends its text to the stream |
| Changes.Phrase | src/changes.rs:193-194 | the phrase is one line when its unit is |
| Changes.PhraseAgo | src/changes.rs:193 | a phrase ends in ` ago` exactly when the delta is positive |
| Changes.DeltaTime | src/changes.rs:167-195 | no phrase exactly beyond 90 days, and a phrase is one line |
| Changes.Count | src/changes.rs:179-191 | the unit name is one line |
| Changes.DeltaTimeUnits | src/changes.rs:176-194 | the unit buckets: days above 3 days, hours above 2 hours, minutes above 2 minutes, seconds otherwise, with a value that truncates the distance |
| Changes.DeltaTimeDayBoundary | src/changes.rs:179-183 | exactly 3 days is `72 hours ago`, one second more is `3 days ago` |
| Changes.DeltaTimeNearNow | src/changes.rs:185-193 | 121 seconds in the future is `2 minutes from now` |
| Changes.DeltaTimeNow | src/changes.rs:193 | a zero delta is `from now` |
| Changes.DeltaTimeMinutes | src/changes.rs:185-187 | 3482 seconds ago is `58 minutes ago` |
| Changes.DeltaTimeLimit | src/changes.rs:171-174 | exactly 90 days still has a phrase, one second beyond does not |
| Changes.FormatValue | src/changes.rs:139-165 | a value is changed only when it parses as an i64 within a year of now |
| Changes.FormatValueTimes | src/changes.rs:148-160 | a timestamp within a year: the phrase alone (Short) or the zoned time with the phrase (Long) within 90 days, the zoned time alone beyond |
| Changes.FormatValueParsed | src/changes.rs:148-160 | any value that `str::parse::<i64>` reads as a time within a year of now, however written (a sign, leading zeros), is shown as that time: the phrase alone (Short) or the zoned time with the phrase (Long) within 90 days, the zoned time alone beyond |
| Changes.FormatValueVerbatim | src/changes.rs:148-164 | a value that does not parse as an i64, or parses to a time more than a year from now, is shown as it is |
| Changes.FormatValueLeadingZero | src/changes.rs:148-164 | digits with a leading `0` are formatted as the digits alone when they are a time within a year, and shown as written otherwise |
| Changes.FormatValueLeadingZeroExample | src/changes.rs:148-160 | the value `01616626518` is shown as the time 1616626518 when that is within a year of now |
| Changes.FormatValueNoNewline | src/changes.rs:139-165 | a one-line value formats to one line |
| Changes.FormatValueRecent | src/changes.rs:148-157 | in Short, a time 3482 seconds ago formats as `58 minutes ago` |
| Changes.FormatValueLongShort | src/changes.rs:152-157 | within 90 days, Long is the zoned time followed by the Short phrase in parentheses |
| Changes.FormatValueWindow | src/changes.rs:144-149 | the year window is inclusive at both ends and exclusive one second beyond |
| Changes.FormatValueOutside | src/changes.rs:149-164 | numbers further than a year from now are left as they are |
| Changes.FormatValuePlusSign | src/changes.rs:148 | a leading `+` is accepted like the bare digits |
| Changes.FormatValueWord | src/changes.rs:164 | text that is not a number is left as it is |
| Changes.FormatValueSmallNumber | src/changes.rs:145-149 | a small number such as `2` is not a timestamp |
| Changes.ReportedAmong | src/changes.rs:89-100 | the reported fields are exactly those that change, without `modified` in Short, and none when the maps are equal |
| Changes.ReportedAmongAscending | src/changes.rs:85-89 | the reported fields keep the ascending order |
| Changes.ReportedFields | src/changes.rs:76-100 | the fields a diff reports are ascending, and are exactly the changed keys of either map |
| Changes.Diff | src/changes.rs:70-133 | the loop writes exactly `DiffText`, the reported fields' texts in order, with a final newline in Short |
| Changes.WriteField | src/changes.rs:102-125 | one field is written as its header, `from`/`-` part and `to`/`+` part |
| Changes.FieldText | src/changes.rs:102-125 | a field's text starts with ` | ` and the name (Short), or with the name and `:` on a line of its own and ends with a newline (Long) |
| Changes.FieldsTextShortNoNewline | src/changes.rs:103-112 | Short field texts contain no newline |
| Changes.DiffShortIsOneLine | src/changes.rs:103-130 | a Short diff is exactly one line |
| Changes.UuidPrefix | src/changes.rs:33 | the part of a uuid before its first `-` |
| Changes.TaskTag | src/changes.rs:29-40 | the task tag is empty exactly when the change has no uuid or the task is unknown |
| Changes.UuidPrefixOf | src/changes.rs:33 | the prefix of `head-rest` is `head` |
| Changes.TaskTagZeroId | src/changes.rs:31-33 | an id of 0 is shown like a missing id |
| Changes.TaskTagExamples | src/changes.rs:31-38 | `[id]` and the description, a negative id, and the uuid prefix when there is no id |
| Changes.Header | src/changes.rs:24-42 | the header is the local time, then the task tag, then a newline; just the time and a newline when the change has no uuid or the task is unknown |
| Changes.NewFields | src/changes.rs:53-68 | every field is written once, on its own line, in the order taken |
| Changes.Show | src/changes.rs:18-51 | the header, then the new fields or the diff, then a blank line |

## Left out

- `src/main.rs` and `src/pager.rs` (argument handling, the pager) are not part of this model.
- `run_cli` (src/taskdb/mod.rs:41-45) starts a process. Its standard output, or its error, is a parameter of `Database.Open`.
- The `task export` JSON decoding (src/taskdb/mod.rs:79) is not modelled. Tasks arrive already decoded, or as the decoding error.
- `fs::read` of `undo.data` is a parameter function from path to result.
- The `eprintln!` on a failed parse is not modelled. Only the empty result is.
- `env::var_os("HOME")` is a parameter.
- `std::path` paths are modelled as bytes. `join` is modelled only as replacement by absolute paths and `/` concatenation.
- The clock: `NOW`, computed once, is the parameter `now`. `NowInRange` keeps `now` at least a year away from both ends of the i64 range.
- chrono's local-time formatting (`%F %X`, `%F %X %Z`) is the `Local` parameter.
- The `unwrap` of `timestamp_opt` (src/changes.rs:24, 150) is not modelled. The model has no panic for times that chrono cannot represent.
- Colours (`colored`) are not modelled: the text is written without escape codes.
- `io::Write` errors, and their propagation by `?`, are not modelled. `Output.Write` always succeeds.
- Changes.DeltaTime: it does not model the overflow of `i64::abs` at `i64::MIN`. Every caller passes a delta within a year.
- Changes.NewFields: it does not fix the `HashMap` iteration order. The order taken is a ghost result that lists every field exactly once.
- The `project` and `status` task fields are carried in `Task` but never read.
- UndoData.QuotedString: the grammar takes the quote scanner as a parameter. `AsWritten` is the closure as the source has it, `Corrected` the intended one (see Findings).
- Json: the decoder is modelled only for what `serde_json::from_slice::<String>` does with a string body. Invalid UTF-8 and lone surrogates are rejected. Other JSON values are out of scope.
- UndoData.ChangeItems, UndoData.PairList, UndoData.MorePairs and UndoData.Attributes: their own contracts state only progress. What they parse is stated by the round-trip lemmas in `Journal`.
- Json.Unescape: its own contract states only how much it consumes. What each escape decodes to is stated by Json.TokenEscapeChar, Json.TokenEscapeUnicodeChar, Json.UnescapeSlash, Json.UnescapeUnit and Json.UnescapePair.
- Json.DecodeBody: it carries no contract of its own. Its length is stated by Json.DecodeBodyLength, and what it decodes by the two round-trip lemmas.

## Findings

| source | as written | input that shows it | evidently intended | confidence | as-written member | corrected member |
|---|---|---|---|---|---|---|
| src/taskdb/undodata.rs:66-76 | the `escaped` cell records only whether the previous byte was a backslash, so the second backslash of an escaped `\\` still counts as escaping, and the quote after it does not close the string | the value `C:\`, written `"C:\\"` and followed by `]`: the closing quote is skipped, the attribute list fails, and the whole journal parses to no change | a backslash escapes only the byte after it, so a quote preceded by an even run of backslashes closes the string | high (not executed) | Journal.ParseLoses | Journal.ParsePrint |
