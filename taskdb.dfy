/** The task database (src/taskdb/mod.rs): where the journal lives, according
    to Taskwarrior's configuration, and the tasks Taskwarrior exports. The
    outputs of the `task` command, `HOME` and the file system are parameters. */
module Database {
  import opened Base
  import opened UndoData

  /** A task as `task export` describes it; `id` is an `isize`. */
  datatype Task = Task(
    id: Option<int>,
    uuid: Option<string>,
    description: Option<string>,
    project: Option<string>,
    status: Option<string>)

  datatype TaskDb = TaskDb(changes: seq<Change>, tasks: map<string, Task>)

  datatype ErrorKind = NotFound | Other

  datatype IoError = IoError(kind: ErrorKind, message: string)

  datatype Result<T> = Ok(value: T) | Err(error: IoError)

  /** A path as the bytes of an `OsStr`. */
  type Path = Bytes

  const DATA_LOCATION_KEY: Bytes := [100, 97, 116, 97, 46, 108, 111, 99, 97, 116, 105, 111, 110]  // "data.location"
  const UNDO_DATA: Bytes := [117, 110, 100, 111, 46, 100, 97, 116, 97]  // "undo.data"
  const MISSING_DATA_LOCATION := "Missing data.location"

  /** The position of the first `b` in `s`. */
  function IndexOf(s: Bytes, b: byte): (r: Option<nat>)
    ensures r.Some? ==> r.value < |s| && s[r.value] == b && b !in s[..r.value]
    ensures r.None? ==> b !in s
  {
    if s == [] then None
    else if s[0] == b then Some(0)
    else
      match IndexOf(s[1..], b)
      case None => None
      case Some(i) =>
        assert s[..i + 1] == [s[0]] + s[1..][..i];
        Some(i + 1)
  }

  /** The first piece of `line.split(|b| *b == b'=')`. */
  function FirstPart(line: Bytes): (r: Bytes)
    ensures EQUALS !in r
    ensures |r| <= |line| && r == line[..|r|]
    ensures |r| < |line| ==> line[|r|] == EQUALS
  {
    match IndexOf(line, EQUALS)
    case None => line
    case Some(i) => line[..i]
  }

  /** The second piece of the same split: the bytes between the first and
      the second `=`, or `None` when there is no `=` at all. */
  function SecondPart(line: Bytes): (r: Option<Bytes>)
    ensures r.None? <==> EQUALS !in line
    ensures r.Some? ==> EQUALS !in r.value
    ensures r.Some? ==> var k := |FirstPart(line)| + 1;
      k + |r.value| <= |line| && r.value == line[k..k + |r.value|]
      && (k + |r.value| == |line| || line[k + |r.value|] == EQUALS)
  {
    match IndexOf(line, EQUALS)
    case None => None
    case Some(i) =>
      var rest := line[i + 1..];
      match IndexOf(rest, EQUALS)
      case None => Some(rest)
      case Some(j) => Some(rest[..j])
  }

  /** `PathBuf::join` on Unix: an absolute `rel` replaces `base`; otherwise
      `rel` is appended after a `/`, unless `base` is empty or already ends
      with one. */
  function JoinPath(base: Path, rel: Path): (r: Path)
    ensures |rel| > 0 && rel[0] == SLASH ==> r == rel
    ensures !(|rel| > 0 && rel[0] == SLASH) ==>
      |base| + |rel| <= |r| && r[..|base|] == base && r[|r| - |rel|..] == rel
  {
    if |rel| > 0 && rel[0] == SLASH then rel
    else if |base| > 0 && base[|base| - 1] != SLASH then base + [SLASH] + rel
    else base + rel
  }

  /** A `~/` prefix stands for `HOME`; without `HOME` there is no path. */
  function ExpandTilde(value: Path, home: Option<Path>): (r: Option<Path>)
    ensures !(|value| >= 2 && value[0] == TILDE && value[1] == SLASH) ==> r == Some(value)
    ensures |value| >= 2 && value[0] == TILDE && value[1] == SLASH ==>
      (r.Some? <==> home.Some?) && (r.Some? ==> r.value == JoinPath(home.value, value[2..]))
  {
    if |value| >= 2 && value[0] == TILDE && value[1] == SLASH then
      match home
      case None => None
      case Some(h) => Some(JoinPath(h, value[2..]))
    else Some(value)
  }

  /** A value that names a path under `HOME`. */
  predicate HomeRelative(value: Path) {
    |value| >= 2 && value[0] == TILDE && value[1] == SLASH
  }

  /** What the configuration says about a line whose key is `data.location`:
      nothing without an `=`; otherwise the value after it, a `~/` prefix
      replaced by `HOME`, and nothing when that prefix meets no `HOME`. */
  function LocationOf(line: Bytes, home: Option<Path>): (r: Option<Path>)
    ensures EQUALS !in line ==> r == None
    ensures EQUALS in line ==>
      var value := SecondPart(line).value;
      && (r.None? <==> HomeRelative(value) && home.None?)
      && (r.Some? && !HomeRelative(value) ==> r.value == value)
      && (r.Some? && HomeRelative(value) ==> r.value == JoinPath(home.value, value[2..]))
  {
    match SecondPart(line)
    case None => None
    case Some(value) => ExpandTilde(value, home)
  }

  /** The data location named by the `task _show` output: the first complete
      line whose key is `data.location` decides. */
  function DataLocation(output: Bytes, home: Option<Path>): (r: Option<Path>)
    ensures NEWLINE !in output ==> r == None
    decreases |output|
  {
    match IndexOf(output, NEWLINE)
    case None => None
    case Some(i) =>
      var line := output[..i];
      if FirstPart(line) == DATA_LOCATION_KEY then LocationOf(line, home)
      else DataLocation(output[i + 1..], home)
  }

  /** The loop of `get_data_location` over the newline positions of the
      output, `lastIndex` marking the start of the current line. */
  method GetDataLocation(output: Bytes, home: Option<Path>) returns (r: Option<Path>)
    ensures r == DataLocation(output, home)
  {
    hide DataLocation, FirstPart, LocationOf;
    var lastIndex := 0;
    var index := 0;
    while index < |output|
      invariant 0 <= lastIndex <= index <= |output|
      invariant NEWLINE !in output[lastIndex..index]
      invariant DataLocation(output, home) == DataLocation(output[lastIndex..], home)
    {
      if output[index] == NEWLINE {
        var line := output[lastIndex..index];
        assert output[lastIndex..][..index - lastIndex] == line;
        NextLine(output[lastIndex..], index - lastIndex, home);
        if FirstPart(line) == DATA_LOCATION_KEY {
          return LocationOf(line, home);
        }
        assert output[lastIndex..][index - lastIndex + 1..] == output[index + 1..];
        lastIndex := index + 1;
      } else {
        assert output[lastIndex..index + 1] == output[lastIndex..index] + [output[index]];
      }
      index := index + 1;
    }
    assert output[lastIndex..] == output[lastIndex..index];
    r := None;
  }

  /** One step of `DataLocation`: the first line is the bytes before the
      first newline. */
  lemma NextLine(s: Bytes, i: nat, home: Option<Path>)
    requires i < |s| && s[i] == NEWLINE && NEWLINE !in s[..i]
    ensures DataLocation(s, home) ==
      if FirstPart(s[..i]) == DATA_LOCATION_KEY then LocationOf(s[..i], home)
      else DataLocation(s[i + 1..], home)
  {
    var j := IndexOf(s, NEWLINE);
    assert j == Some(i);
  }

  /** Bytes after the last newline are never looked at. */
  lemma {:induction false} DataLocationIgnoresTail(lines: Bytes, tail: Bytes, home: Option<Path>)
    requires lines == [] || lines[|lines| - 1] == NEWLINE
    requires NEWLINE !in tail
    ensures DataLocation(lines + tail, home) == DataLocation(lines, home)
    decreases |lines|
  {
    hide DataLocation, FirstPart, LocationOf;
    if lines == [] {
      assert lines + tail == tail;
    } else {
      var i := IndexOf(lines, NEWLINE).value;
      assert (lines + tail)[..i] == lines[..i];
      NextLine(lines + tail, i, home);
      NextLine(lines, i, home);
      assert (lines + tail)[i + 1..] == lines[i + 1..] + tail;
      DataLocationIgnoresTail(lines[i + 1..], tail, home);
    }
  }

  /** The configuration output as complete lines. */
  function JoinLines(lines: seq<Bytes>): Bytes {
    if lines == [] then [] else lines[0] + [NEWLINE] + JoinLines(lines[1..])
  }

  /** The first line whose key is `data.location`, if any. */
  function FirstKeyLine(lines: seq<Bytes>): (r: Option<nat>)
    ensures r.Some? ==> r.value < |lines| && FirstPart(lines[r.value]) == DATA_LOCATION_KEY
    ensures r.Some? ==> forall j | 0 <= j < r.value :: FirstPart(lines[j]) != DATA_LOCATION_KEY
    ensures r.None? ==> forall j | 0 <= j < |lines| :: FirstPart(lines[j]) != DATA_LOCATION_KEY
  {
    if lines == [] then None
    else if FirstPart(lines[0]) == DATA_LOCATION_KEY then Some(0)
    else
      match FirstKeyLine(lines[1..])
      case None => None
      case Some(k) => Some(k + 1)
  }

  /** Over complete lines and an unterminated tail: the first line whose
      key is `data.location` decides, and without one there is no data
      location. */
  lemma {:induction false} DataLocationOfLines(lines: seq<Bytes>, tail: Bytes, home: Option<Path>)
    requires forall j | 0 <= j < |lines| :: NEWLINE !in lines[j]
    requires NEWLINE !in tail
    ensures DataLocation(JoinLines(lines) + tail, home) ==
      match FirstKeyLine(lines)
      case None => None
      case Some(k) => LocationOf(lines[k], home)
  {
    hide DataLocation, FirstPart, LocationOf;
    if lines == [] {
      assert JoinLines(lines) + tail == tail;
    } else {
      var rest := JoinLines(lines[1..]) + tail;
      assert JoinLines(lines) + tail == lines[0] + [NEWLINE] + rest;
      DataLocationFirstLine(lines[0], rest, home);
      DataLocationOfLines(lines[1..], tail, home);
      match FirstKeyLine(lines[1..])
      case None =>
      case Some(k) => assert lines[1..][k] == lines[k + 1];
    }
  }

  /** A line with another key is skipped; a `data.location` line decides,
      whatever follows it. */
  lemma DataLocationFirstLine(line: Bytes, rest: Bytes, home: Option<Path>)
    requires NEWLINE !in line
    ensures FirstPart(line) != DATA_LOCATION_KEY ==>
      DataLocation(line + [NEWLINE] + rest, home) == DataLocation(rest, home)
    ensures FirstPart(line) == DATA_LOCATION_KEY ==>
      DataLocation(line + [NEWLINE] + rest, home) == LocationOf(line, home)
  {
    var s := line + [NEWLINE] + rest;
    assert s[..|line|] == line;
    assert s[|line| + 1..] == rest;
    NextLine(s, |line|, home);
  }

  /** The map `get_tasks` builds: tasks inserted in order under their uuid,
      tasks without one left out. */
  function TasksByUuid(tasks: seq<Task>): map<string, Task>
  {
    if tasks == [] then map[]
    else
      var last := tasks[|tasks| - 1];
      var m := TasksByUuid(tasks[..|tasks| - 1]);
      if last.uuid.Some? then m[last.uuid.value := last] else m
  }

  /** The insertion loop of `get_tasks`. */
  method GetTasks(tasks: seq<Task>) returns (m: map<string, Task>)
    ensures m == TasksByUuid(tasks)
  {
    m := map[];
    for i := 0 to |tasks|
      invariant m == TasksByUuid(tasks[..i])
    {
      assert tasks[..i + 1][..i] == tasks[..i];
      var task := tasks[i];
      if task.uuid.Some? {
        m := m[task.uuid.value := task];
      }
    }
    assert tasks[..|tasks|] == tasks;
  }

  /** A uuid is a key exactly when some task has it, and the last such task
      is kept. */
  lemma {:induction false} TasksByUuidLastWins(tasks: seq<Task>, u: string)
    ensures u in TasksByUuid(tasks) <==> exists i :: 0 <= i < |tasks| && tasks[i].uuid == Some(u)
    ensures forall i | 0 <= i < |tasks| && tasks[i].uuid == Some(u) && (forall j | i < j < |tasks| :: tasks[j].uuid != Some(u))
      :: u in TasksByUuid(tasks) && TasksByUuid(tasks)[u] == tasks[i]
  {
    if tasks != [] {
      var init := tasks[..|tasks| - 1];
      assert TasksByUuid(tasks) == var m := TasksByUuid(init);
        if tasks[|tasks| - 1].uuid.Some? then m[tasks[|tasks| - 1].uuid.value := tasks[|tasks| - 1]] else m;
      hide TasksByUuid;
      TasksByUuidLastWins(init, u);
      forall i | 0 <= i < |tasks| && tasks[i].uuid == Some(u) && (forall j | i < j < |tasks| :: tasks[j].uuid != Some(u))
        ensures u in TasksByUuid(tasks) && TasksByUuid(tasks)[u] == tasks[i]
      {
        if i < |init| {
          assert init[i] == tasks[i];
          assert forall j | i < j < |init| :: init[j].uuid != Some(u);
        }
      }
      if u in TasksByUuid(tasks) && tasks[|tasks| - 1].uuid != Some(u) {
        var i :| 0 <= i < |init| && init[i].uuid == Some(u);
        assert tasks[i] == init[i];
      }
    }
  }

  /** `TaskDb::new`: the data location from `task _show` (a missing one is a
      `NotFound` error), then the tasks from `task export`, then the journal
      `undo.data` in the data location, read with the scanner `sc`. The
      first failure is returned. */
  method Open(sc: Scanner, show: Result<Bytes>, home: Option<Path>, exported: Result<seq<Task>>, readFile: Path -> Result<Bytes>)
    returns (r: Result<TaskDb>)
    ensures show.Err? ==> r == Err(show.error)
    ensures show.Ok? && DataLocation(show.value, home).None? ==> r == Err(IoError(NotFound, MISSING_DATA_LOCATION))
    ensures show.Ok? && DataLocation(show.value, home).Some? ==>
      var path := JoinPath(DataLocation(show.value, home).value, UNDO_DATA);
      && (exported.Err? ==> r == Err(exported.error))
      && (exported.Ok? && readFile(path).Err? ==> r == Err(readFile(path).error))
      && (exported.Ok? && readFile(path).Ok? ==> r == Ok(TaskDb(Parse(sc, readFile(path).value), TasksByUuid(exported.value))))
  {
    if show.Err? {
      return Err(show.error);
    }
    var dataLocation := GetDataLocation(show.value, home);
    if dataLocation.None? {
      return Err(IoError(NotFound, MISSING_DATA_LOCATION));
    }
    if exported.Err? {
      return Err(exported.error);
    }
    var tasks := GetTasks(exported.value);
    var contents := readFile(JoinPath(dataLocation.value, UNDO_DATA));
    if contents.Err? {
      return Err(contents.error);
    }
    return Ok(TaskDb(Parse(sc, contents.value), tasks));
  }
}
