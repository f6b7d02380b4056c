/** `PostgresqlLogRepository` over an in-memory `logs` table whose primary
    key is `id` alone and whose `metadata` column is nullable. Day queries
    select a timestamp range and order by timestamp, newest first, with no
    tiebreak among equal timestamps. */
module PostgresLog {
  import opened Wrappers
  import JsDate
  import Calendar
  import Seqs
  import opened LogEntity
  import opened StorageErrors

  /** A row of `logs`; the partition key is not a column. */
  datatype Row = Row(
    id: Id,
    level: LogLevel,
    message: string,
    context: string,
    timestamp: int,
    metadata: Option<Metadata>)

  /** No two rows share an id. */
  predicate UniqueIds(rows: seq<Row>) {
    forall i, j :: 0 <= i < |rows| && 0 <= j < |rows| && rows[i].id == rows[j].id ==> i == j
  }

  /** The table; `outage` holds the driver's error while the database is
      unreachable. */
  datatype TableState = TableState(rows: seq<Row>, outage: Option<string>)

  type Table = t: TableState | UniqueIds(t.rows) witness TableState([], None)

  /** TypeORM's `save` of an entity: an update of the row with the same id, or
      an insert. */
  function {:induction false} Put(rows: seq<Row>, row: Row): (r: seq<Row>)
    requires UniqueIds(rows)
    ensures UniqueIds(r)
    ensures forall x :: x in r <==> x == row || (x in rows && x.id != row.id)
    decreases |rows|
  {
    if rows == [] then [row]
    else if rows[0].id == row.id then
      PutReplacesHead(rows, row);
      [row] + rows[1..]
    else
      var rest := Put(rows[1..], row);
      PutBehindHead(rows, row, rest);
      [rows[0]] + rest
  }

  lemma PutReplacesHead(rows: seq<Row>, row: Row)
    requires UniqueIds(rows) && |rows| > 0 && rows[0].id == row.id
    ensures UniqueIds([row] + rows[1..])
    ensures forall x :: x in [row] + rows[1..] <==> x == row || (x in rows && x.id != row.id)
  {
    var r := [row] + rows[1..];
    forall i, j | 0 <= i < |r| && 0 <= j < |r| && r[i].id == r[j].id
      ensures i == j
    {
      assert r[i].id == rows[i].id && r[j].id == rows[j].id;
    }
    assert rows == [rows[0]] + rows[1..];
    forall x | x in rows[1..]
      ensures x.id != row.id
    {
      var k :| 0 <= k < |rows[1..]| && rows[1..][k] == x;
      assert rows[k + 1] == x;
    }
  }

  lemma PutBehindHead(rows: seq<Row>, row: Row, rest: seq<Row>)
    requires UniqueIds(rows) && |rows| > 0 && rows[0].id != row.id
    requires UniqueIds(rest)
    requires forall x :: x in rest <==> x == row || (x in rows[1..] && x.id != row.id)
    ensures UniqueIds([rows[0]] + rest)
    ensures forall x :: x in [rows[0]] + rest <==> x == row || (x in rows && x.id != row.id)
  {
    var r := [rows[0]] + rest;
    forall y | y in rest
      ensures y.id != rows[0].id
    {
      if y != row {
        var k :| 0 <= k < |rows[1..]| && rows[1..][k] == y;
        assert rows[k + 1] == y;
      }
    }
    forall i, j | 0 <= i < |r| && 0 <= j < |r| && r[i].id == r[j].id
      ensures i == j
    {
      if i > 0 && j > 0 {
        assert r[i] == rest[i - 1] && r[j] == rest[j - 1];
      }
    }
    assert rows == [rows[0]] + rows[1..];
  }

  /** The entity `save` builds: the log's fields one to one, without the
      partition key. */
  function RowOf(log: Log): Row {
    Row(log.id, log.level, log.message, log.context, log.timestamp, Some(log.metadata))
  }

  /** `save`. On success the table holds the log's row and no other row with
      its id; the rows of other ids are kept. */
  function Save(t: Table, log: Log): (r: Result<Table, StorageError>)
    ensures t.outage.Some? <==> r.Err?
    ensures r.Err? ==> r.error == Unavailable(t.outage.value)
    ensures r.Ok? ==> RowOf(log) in r.value.rows
    ensures r.Ok? ==> forall x :: x in r.value.rows && x.id == log.id ==> x == RowOf(log)
    ensures r.Ok? ==> forall x :: x in r.value.rows && x.id != log.id <==> x in t.rows && x.id != log.id
  {
    if t.outage.Some? then Err(Unavailable(t.outage.value))
    else Ok(TableState(Put(t.rows, RowOf(log)), None))
  }

  /** `mapEntityToDomain`: a null metadata column reads as `{}`; every other
      column is carried over. */
  function MapEntityToDomain(row: Row, zone: JsDate.ZoneOffset): (log: Log)
    ensures WellFormed(log, zone)
    ensures log.id == row.id && log.level == row.level && log.message == row.message
    ensures log.timestamp == row.timestamp
    ensures log.context == if row.context == "" then "default" else row.context
    ensures log.metadata == if row.metadata.Some? then row.metadata.value else map[]
  {
    Restore(row.id, row.level, row.message, row.context, row.timestamp, row.metadata.GetOr(map[]), zone)
  }

  /** `mapEntityToDomain` as a function value, for `entities.map`. */
  function Mapper(zone: JsDate.ZoneOffset): Row -> Log {
    row => MapEntityToDomain(row, zone)
  }

  /** A closed range of instants, `Between(start, end)`. */
  datatype Range = Range(start: int, end: int) {
    predicate Contains(t: int) {
      start <= t <= end
    }
  }

  /** The range `findByDate` queries as the code computes it: `new Date(date)`
      is midnight UTC of the named day, and `setHours` then moves to 00:00:00.000
      and 23:59:59.999 of the LOCAL day holding that instant. */
  function AsWrittenDayRange(date: string, zone: JsDate.ZoneOffset): (r: Option<Range>)
    ensures r.Some? <==> JsDate.ParseDateOnly(date).Some?
  {
    match JsDate.ParseDateOnly(date)
    case None => None
    case Some(t0) =>
      Some(Range(JsDate.SetHours(t0, zone, 0, 0, 0, 0), JsDate.SetHours(t0, zone, 23, 59, 59, 999)))
  }

  /** West of UTC the as-written range is the local day BEFORE the one the
      date names (east of UTC and at UTC it is the named day). */
  lemma AsWrittenDayRangeShift(date: string, zone: JsDate.ZoneOffset, t: int)
    requires JsDate.ParseDateOnly(date).Some?
    ensures var n := JsDate.ParseDateOnly(date).value / JsDate.DayMs;
      AsWrittenDayRange(date, zone).value.Contains(t)
      <==> JsDate.LocalDayNumber(t, zone) == (if zone < 0 then n - 1 else n)
  {
    var t0 := JsDate.ParseDateOnly(date).value;
    var n := t0 / JsDate.DayMs;
    var k := JsDate.LocalDayNumber(t0, zone);
    assert t0 == n * JsDate.DayMs;
    assert k == (if zone < 0 then n - 1 else n);
    JsDate.LocalDayBracket(t, t0, zone);
  }

  /** The range the method evidently means: from local midnight of the day
      `date` names through the last millisecond of that local day. */
  function DayRange(date: string, zone: JsDate.ZoneOffset): (r: Option<Range>)
    ensures r.Some? <==> JsDate.ParseDateOnly(date).Some?
    ensures r.Some? ==> r.value.end == r.value.start + JsDate.DayMs - 1
  {
    match JsDate.ParseDateOnly(date)
    case None => None
    case Some(t0) =>
      var start := JsDate.LocalMidnight(t0 / JsDate.DayMs, zone);
      Some(Range(start, start + JsDate.DayMs - 1))
  }

  /** The corrected range holds exactly the instants whose local day is the
      day the date names. */
  lemma DayRangeIsLocalDay(date: string, zone: JsDate.ZoneOffset, t: int)
    requires JsDate.ParseDateOnly(date).Some?
    ensures DayRange(date, zone).value.Contains(t)
            <==> JsDate.LocalDayNumber(t, zone) == JsDate.ParseDateOnly(date).value / JsDate.DayMs
  {
    JsDate.LocalDayInterval(JsDate.ParseDateOnly(date).value / JsDate.DayMs, t, zone);
  }

  /** For a valid `YYYY-MM-DD` date of a year from 1000 to 9999, an instant is
      in the corrected range exactly when its partition key is that date: the
      same day the Cassandra adapter selects. */
  lemma DayRangeMatchesPartitionDate(date: string, zone: JsDate.ZoneOffset, t: int)
    requires JsDate.IsDateOnlyForm(date) && Calendar.ValidDate(JsDate.DateOnlyFields(date))
    requires 1000 <= JsDate.DateOnlyFields(date).year <= 9999
    ensures DayRange(date, zone).Some?
    ensures DayRange(date, zone).value.Contains(t) <==> FormatPartitionDate(t, zone) == date
  {
    var f := JsDate.DateOnlyFields(date);
    var n := Calendar.DaysFromCivil(f);
    assert JsDate.ParseDateOnly(date) == Some(n * JsDate.DayMs);
    assert n * JsDate.DayMs / JsDate.DayMs == n;
    DayRangeIsLocalDay(date, zone, t);
    PartitionDateNamesDate(t, zone, date);
    Calendar.CivilOfDaysFromCivil(f);
    if JsDate.LocalDate(t, zone) == f {
      Calendar.DaysFromCivilOfCivil(JsDate.LocalDayNumber(t, zone));
    }
  }

  /** The fields of the date-only text "2024-01-15", and its day number. */
  lemma ExampleDate()
    ensures JsDate.IsDateOnlyForm("2024-01-15")
    ensures JsDate.DateOnlyFields("2024-01-15") == Calendar.Date(2024, 1, 15)
    ensures Calendar.ValidDate(Calendar.Date(2024, 1, 15))
    ensures Calendar.DaysFromCivil(Calendar.Date(2024, 1, 15)) == 19737
  {
    var date := "2024-01-15";
    assert date[..4] == "2024" && date[5..7] == "01" && date[8..] == "15";
    assert Strings.DigitsValue("2024") == 2024 by {
      assert "2024"[..3] == "202" && "202"[..2] == "20" && "20"[..1] == "2" && "2"[..0] == "";
    }
    assert Strings.DigitsValue("01") == 1 by {
      assert "01"[..1] == "0" && "0"[..0] == "";
    }
    assert Strings.DigitsValue("15") == 15 by {
      assert "15"[..1] == "1" && "1"[..0] == "";
    }
  }

  /** "2024-01-15" is a calendar date, and `new Date` reads it as midnight
      UTC of day 19737. */
  lemma ExampleDateParses()
    ensures CalendarDate("2024-01-15")
    ensures JsDate.ParseDateOnly("2024-01-15") == Some(19737 * JsDate.DayMs)
  {
    ExampleDate();
  }

  /** On a host three hours west of UTC (offset -10800000 ms), noon local
      time on 2024-01-15 (instant 1705330800000, 15:00 UTC) lies in the day
      the date names but outside the range the code queries, which is
      2024-01-14 local time. */
  lemma AsWrittenDayRangeMissesNamedDay(zone: JsDate.ZoneOffset, t: int, date: string)
    requires zone == -10800000 && t == 1705330800000 && date == "2024-01-15"
    ensures FormatPartitionDate(t, zone) == date
    ensures DayRange(date, zone).Some? && DayRange(date, zone).value.Contains(t)
    ensures AsWrittenDayRange(date, zone).Some? && !AsWrittenDayRange(date, zone).value.Contains(t)
  {
    ExampleDateParses();
    assert JsDate.LocalDayNumber(t, zone) == 19737 == 19737 * JsDate.DayMs / JsDate.DayMs;
    WestOfUtcMissesNamedDay(date, zone, t);
  }

  /** West of UTC, no instant of the local day a calendar date names is in
      the as-written range, although each is in the corrected range and has
      that date as its partition key. */
  lemma WestOfUtcMissesNamedDay(date: string, zone: JsDate.ZoneOffset, t: int)
    requires CalendarDate(date) && zone < 0
    requires JsDate.ParseDateOnly(date).Some?
    requires JsDate.LocalDayNumber(t, zone) == JsDate.ParseDateOnly(date).value / JsDate.DayMs
    ensures FormatPartitionDate(t, zone) == date
    ensures DayRange(date, zone).Some? && DayRange(date, zone).value.Contains(t)
    ensures AsWrittenDayRange(date, zone).Some? && !AsWrittenDayRange(date, zone).value.Contains(t)
  {
    DayRangeIsLocalDay(date, zone, t);
    DayRangeMatchesPartitionDate(date, zone, t);
    AsWrittenDayRangeShift(date, zone, t);
  }

  /** Entities with timestamps in `range`, in table order. */
  function {:induction false} InRange(rows: seq<Row>, range: Range): (r: seq<Row>)
    ensures |r| <= |rows|
    ensures multiset(r) <= multiset(rows)
    ensures forall x :: x in r <==> x in rows && range.Contains(x.timestamp)
    decreases |rows|
  {
    if rows == [] then []
    else
      var rest := InRange(rows[1..], range);
      assert forall x :: x in rows <==> x == rows[0] || x in rows[1..];
      assert rows == [rows[0]] + rows[1..];
      if range.Contains(rows[0].timestamp) then [rows[0]] + rest else rest
  }

  /** Entities whose `level` column holds `level`, in order. */
  function {:induction false} WithLevel(rows: seq<Row>, level: string): (r: seq<Row>)
    ensures |r| <= |rows|
    ensures multiset(r) <= multiset(rows)
    ensures forall x :: x in r <==> x in rows && LevelName(x.level) == level
    decreases |rows|
  {
    if rows == [] then []
    else
      var rest := WithLevel(rows[1..], level);
      assert forall x :: x in rows <==> x == rows[0] || x in rows[1..];
      assert rows == [rows[0]] + rows[1..];
      if LevelName(rows[0].level) == level then [rows[0]] + rest else rest
  }

  /** Rows with distinct ids are distinct rows: each occurs at most once. */
  lemma {:induction false} AtMostOnce(rows: seq<Row>)
    requires UniqueIds(rows)
    ensures forall x :: multiset(rows)[x] <= 1
    decreases |rows|
  {
    if rows != [] {
      var tail := rows[1..];
      forall i, j | 0 <= i < |tail| && 0 <= j < |tail| && tail[i].id == tail[j].id
        ensures i == j
      {
        assert tail[i] == rows[i + 1] && tail[j] == rows[j + 1];
      }
      AtMostOnce(tail);
      assert rows[0] !in tail;
      assert rows == [rows[0]] + tail;
    }
  }

  /** Timestamps never increase along the sequence. */
  predicate Descending(rows: seq<Row>) {
    forall i, j :: 0 <= i < j < |rows| ==> rows[i].timestamp >= rows[j].timestamp
  }

  lemma ConsDescending(x: Row, s: seq<Row>)
    requires Descending(s)
    requires forall y :: y in s ==> x.timestamp >= y.timestamp
    ensures Descending([x] + s)
  {
    var r := [x] + s;
    forall i, j | 0 <= i < j < |r|
      ensures r[i].timestamp >= r[j].timestamp
    {
      if i == 0 {
        assert r[j] in s;
      } else {
        assert r[i] == s[i - 1] && r[j] == s[j - 1];
      }
    }
  }

  lemma TailDescending(s: seq<Row>)
    requires Descending(s) && |s| > 0
    ensures Descending(s[1..])
    ensures forall y :: y in s[1..] ==> s[0].timestamp >= y.timestamp
  {
    forall i, j | 0 <= i < j < |s[1..]|
      ensures s[1..][i].timestamp >= s[1..][j].timestamp
    {
      assert s[1..][i] == s[i + 1] && s[1..][j] == s[j + 1];
    }
    forall y | y in s[1..]
      ensures s[0].timestamp >= y.timestamp
    {
      var k :| 0 <= k < |s[1..]| && s[1..][k] == y;
      assert s[k + 1] == y;
    }
  }

  /** Places `x` into a descending sequence, ahead of the entities with the
      same timestamp. */
  function {:induction false} Insert(x: Row, s: seq<Row>): (r: seq<Row>)
    requires Descending(s)
    ensures Descending(r)
    ensures multiset(r) == multiset(s) + multiset{x}
    decreases |s|
  {
    if s == [] then [x]
    else if x.timestamp >= s[0].timestamp then
      TailDescending(s);
      ConsDescending(x, s);
      [x] + s
    else
      TailDescending(s);
      var rest := Insert(x, s[1..]);
      InsertBehindHead(x, s, rest);
      [s[0]] + rest
  }

  lemma InsertBehindHead(x: Row, s: seq<Row>, rest: seq<Row>)
    requires Descending(s) && |s| > 0 && x.timestamp < s[0].timestamp
    requires Descending(rest) && multiset(rest) == multiset(s[1..]) + multiset{x}
    ensures Descending([s[0]] + rest)
    ensures multiset([s[0]] + rest) == multiset(s) + multiset{x}
  {
    TailDescending(s);
    forall y | y in rest
      ensures s[0].timestamp >= y.timestamp
    {
      assert y in multiset(rest);
    }
    ConsDescending(s[0], rest);
    assert s == [s[0]] + s[1..];
  }

  /** `ORDER BY timestamp DESC`: the same entities, newest first. The order
      among equal timestamps is not specified by the query. */
  function {:induction false} SortByTimestampDesc(s: seq<Row>): (r: seq<Row>)
    ensures Descending(r)
    ensures multiset(r) == multiset(s)
    decreases |s|
  {
    if s == [] then []
    else
      assert s == [s[0]] + s[1..];
      Insert(s[0], SortByTimestampDesc(s[1..]))
  }

  /** The entities `find` returns for a range (and optionally a level),
      ordered newest first, each once. */
  function Query(t: Table, range: Range, level: Option<string>): (r: seq<Row>)
    ensures Descending(r)
    ensures forall x :: x in r <==> x in t.rows && range.Contains(x.timestamp)
                                    && (level.Some? ==> LevelName(x.level) == level.value)
    ensures forall x :: x in r ==> multiset(r)[x] == 1
  {
    var selected := InRange(t.rows, range);
    var chosen := if level.Some? then WithLevel(selected, level.value) else selected;
    var sorted := SortByTimestampDesc(chosen);
    AtMostOnce(t.rows);
    assert multiset(sorted) <= multiset(t.rows);
    assert forall x :: x in sorted <==> x in multiset(chosen);
    sorted
  }

  /** The read both day queries share: `find` over `range`, with a level
      filter when one is given, each entity mapped to a log. No range means
      the date was an Invalid Date, which the query rejects. */
  function Find(t: Table, range: Option<Range>, date: string, level: Option<string>, zone: JsDate.ZoneOffset): (r: Result<seq<Log>, StorageError>)
    ensures t.outage.Some? ==> r == Err(Unavailable(t.outage.value))
    ensures t.outage.None? ==> (r.Err? <==> range.None?)
    ensures r.Err? && t.outage.None? ==> r.error == InvalidDate(date)
    ensures r.Ok? ==> |r.value| == |Query(t, range.value, level)|
  {
    if t.outage.Some? then Err(Unavailable(t.outage.value))
    else match range
      case None => Err(InvalidDate(date))
      case Some(rg) => Ok(Seqs.Map(Query(t, rg, level), Mapper(zone)))
  }

  /** `findByDate` as written: the logs timestamped within the as-written
      range of `date`, newest first. An unreadable date is an Invalid Date
      the query rejects. */
  function FindByDate(t: Table, date: string, zone: JsDate.ZoneOffset): (r: Result<seq<Log>, StorageError>)
    ensures t.outage.Some? ==> r == Err(Unavailable(t.outage.value))
    ensures t.outage.None? ==> (r.Err? <==> JsDate.ParseDateOnly(date).None?)
    ensures r.Err? && t.outage.None? ==> r.error == InvalidDate(date)
  {
    Find(t, AsWrittenDayRange(date, zone), date, None, zone)
  }

  /** `findByDateAndLevel` as written: the same range with a level filter,
      newest first. */
  function FindByDateAndLevel(t: Table, date: string, level: string, zone: JsDate.ZoneOffset): (r: Result<seq<Log>, StorageError>)
    ensures t.outage.Some? ==> r == Err(Unavailable(t.outage.value))
    ensures t.outage.None? ==> (r.Err? <==> JsDate.ParseDateOnly(date).None?)
    ensures r.Err? && t.outage.None? ==> r.error == InvalidDate(date)
  {
    Find(t, AsWrittenDayRange(date, zone), date, Some(level), zone)
  }

  /** `findByDate` with the range the method evidently means: the local day
      `date` names. */
  function CorrectedFindByDate(t: Table, date: string, zone: JsDate.ZoneOffset): (r: Result<seq<Log>, StorageError>)
    ensures t.outage.Some? ==> r == Err(Unavailable(t.outage.value))
    ensures t.outage.None? ==> (r.Err? <==> JsDate.ParseDateOnly(date).None?)
    ensures r.Err? && t.outage.None? ==> r.error == InvalidDate(date)
  {
    Find(t, DayRange(date, zone), date, None, zone)
  }

  /** `findByDateAndLevel` over the corrected range. */
  function CorrectedFindByDateAndLevel(t: Table, date: string, level: string, zone: JsDate.ZoneOffset): (r: Result<seq<Log>, StorageError>)
    ensures t.outage.Some? ==> r == Err(Unavailable(t.outage.value))
    ensures t.outage.None? ==> (r.Err? <==> JsDate.ParseDateOnly(date).None?)
    ensures r.Err? && t.outage.None? ==> r.error == InvalidDate(date)
  {
    Find(t, DayRange(date, zone), date, Some(level), zone)
  }

  /** At UTC and east of it, `setHours` on UTC midnight of the named day
      stays on that local day, so the as-written range is the corrected
      one. */
  lemma AsWrittenMatchesCorrected(date: string, zone: JsDate.ZoneOffset)
    requires zone >= 0
    ensures AsWrittenDayRange(date, zone) == DayRange(date, zone)
  {
    if JsDate.ParseDateOnly(date).Some? {
      var t0 := JsDate.ParseDateOnly(date).value;
      var n := t0 / JsDate.DayMs;
      assert t0 == n * JsDate.DayMs;
      assert JsDate.LocalDayNumber(t0, zone) == n;
    }
  }

  /** Hence at UTC and east of it both day queries answer exactly what the
      corrected ones do. */
  lemma FindByDateEastOfUtc(t: Table, date: string, level: string, zone: JsDate.ZoneOffset)
    requires zone >= 0
    ensures FindByDate(t, date, zone) == CorrectedFindByDate(t, date, zone)
    ensures FindByDateAndLevel(t, date, level, zone) == CorrectedFindByDateAndLevel(t, date, level, zone)
  {
    AsWrittenMatchesCorrected(date, zone);
  }

  /** `findById`: looks the id up and never reads `date`; `null` when no row
      has that id. */
  function FindById(t: Table, date: string, id: string, zone: JsDate.ZoneOffset): (r: Result<Option<Log>, StorageError>)
    ensures t.outage.Some? ==> r == Err(Unavailable(t.outage.value))
    ensures t.outage.None? ==> r.Ok?
    ensures r == Ok(None) <==> t.outage.None? && forall x :: x in t.rows ==> x.id != id
    ensures r.Ok? && r.value.Some? ==> exists x :: x in t.rows && x.id == id && r.value.value == MapEntityToDomain(x, zone)
  {
    if t.outage.Some? then Err(Unavailable(t.outage.value))
    else FindOne(t.rows, id, zone)
  }

  function {:induction false} FindOne(rows: seq<Row>, id: string, zone: JsDate.ZoneOffset): (r: Result<Option<Log>, StorageError>)
    ensures r.Ok?
    ensures r.value.None? <==> forall x :: x in rows ==> x.id != id
    ensures r.value.Some? ==> exists x :: x in rows && x.id == id && r.value.value == MapEntityToDomain(x, zone)
    decreases |rows|
  {
    if rows == [] then Ok(None)
    else if rows[0].id == id then Ok(Some(MapEntityToDomain(rows[0], zone)))
    else
      assert forall x :: x in rows <==> x == rows[0] || x in rows[1..];
      FindOne(rows[1..], id, zone)
  }

  /** Whatever date is passed, `findById(date, log.id)` right after
      `save(log)` returns a log equal to `log` in every field. */
  lemma SaveThenFindById(t: Table, log: Log, date: string, zone: JsDate.ZoneOffset)
    requires WellFormed(log, zone) && t.outage.None?
    ensures Save(t, log).Ok?
    ensures FindById(Save(t, log).value, date, log.id, zone) == Ok(Some(log))
  {
    RestoreOfLog(log, zone);
  }

  /** Saving two logs with the same id leaves one row for that id, holding
      the last write; the other ids are untouched. */
  lemma LastWriteWins(t: Table, first: Log, second: Log, date: string, zone: JsDate.ZoneOffset)
    requires first.id == second.id && WellFormed(second, zone) && t.outage.None?
    ensures Save(t, first).Ok? && Save(Save(t, first).value, second).Ok?
    ensures forall x :: x in Save(Save(t, first).value, second).value.rows && x.id == second.id ==> x == RowOf(second)
    ensures forall x :: x in Save(Save(t, first).value, second).value.rows && x.id != second.id <==> x in t.rows && x.id != second.id
    ensures FindById(Save(Save(t, first).value, second).value, date, second.id, zone) == Ok(Some(second))
  {
    SaveThenFindById(Save(t, first).value, second, date, zone);
  }

  /** The mapped logs carry the rows' timestamps, so they are newest first
      too. */
  lemma MappedDescending(rows: seq<Row>, zone: JsDate.ZoneOffset)
    requires Descending(rows)
    ensures var logs := Seqs.Map(rows, Mapper(zone));
      forall i, j :: 0 <= i < j < |logs| ==> logs[i].timestamp >= logs[j].timestamp
  {
    var logs := Seqs.Map(rows, Mapper(zone));
    forall i | 0 <= i < |logs|
      ensures logs[i].timestamp == rows[i].timestamp
    {
      assert logs[i] == MapEntityToDomain(rows[i], zone);
    }
  }

  /** The local day number the as-written range covers: the day `date` names
      at UTC and east of it, the day before west of it. */
  function QueriedDay(date: string, zone: JsDate.ZoneOffset): int
    requires JsDate.ParseDateOnly(date).Some?
  {
    var n := JsDate.ParseDateOnly(date).value / JsDate.DayMs;
    if zone < 0 then n - 1 else n
  }

  /** `findByDate(date)` maps, position by position, the rows whose local day
      is the queried day (each such row once, no other row), newest first. */
  lemma FindByDateContents(t: Table, date: string, zone: JsDate.ZoneOffset, logs: seq<Log>)
    requires FindByDate(t, date, zone) == Ok(logs)
    ensures JsDate.ParseDateOnly(date).Some?
    ensures var rows := Query(t, AsWrittenDayRange(date, zone).value, None);
      |logs| == |rows| && (forall i :: 0 <= i < |rows| ==> logs[i] == MapEntityToDomain(rows[i], zone))
      && (forall x :: x in rows <==> x in t.rows && JsDate.LocalDayNumber(x.timestamp, zone) == QueriedDay(date, zone))
      && (forall x :: x in rows ==> multiset(rows)[x] == 1)
    ensures forall i, j :: 0 <= i < j < |logs| ==> logs[i].timestamp >= logs[j].timestamp
  {
    var rows := Query(t, AsWrittenDayRange(date, zone).value, None);
    forall x
      ensures x in rows <==> x in t.rows && JsDate.LocalDayNumber(x.timestamp, zone) == QueriedDay(date, zone)
    {
      AsWrittenDayRangeShift(date, zone, x.timestamp);
    }
    MappedDescending(rows, zone);
  }

  /** `findByDateAndLevel(date, level)` maps the rows of the queried day whose
      level is `level`, each once, newest first. */
  lemma FindByDateAndLevelContents(t: Table, date: string, level: string, zone: JsDate.ZoneOffset, logs: seq<Log>)
    requires FindByDateAndLevel(t, date, level, zone) == Ok(logs)
    ensures JsDate.ParseDateOnly(date).Some?
    ensures var rows := Query(t, AsWrittenDayRange(date, zone).value, Some(level));
      |logs| == |rows| && (forall i :: 0 <= i < |rows| ==> logs[i] == MapEntityToDomain(rows[i], zone))
      && (forall x :: x in rows <==> x in t.rows && JsDate.LocalDayNumber(x.timestamp, zone) == QueriedDay(date, zone)
                                     && LevelName(x.level) == level)
      && (forall x :: x in rows ==> multiset(rows)[x] == 1)
    ensures forall i, j :: 0 <= i < j < |logs| ==> logs[i].timestamp >= logs[j].timestamp
  {
    var rows := Query(t, AsWrittenDayRange(date, zone).value, Some(level));
    forall x
      ensures x in rows <==> x in t.rows && JsDate.LocalDayNumber(x.timestamp, zone) == QueriedDay(date, zone)
                             && LevelName(x.level) == level
    {
      AsWrittenDayRangeShift(date, zone, x.timestamp);
    }
    MappedDescending(rows, zone);
  }

  /** A valid `YYYY-MM-DD` date of a year from 1000 to 9999. */
  predicate CalendarDate(date: string) {
    JsDate.IsDateOnlyForm(date) && Calendar.ValidDate(JsDate.DateOnlyFields(date))
    && 1000 <= JsDate.DateOnlyFields(date).year <= 9999
  }

  /** A row in the corrected range of `date` reads back as a log whose
      partition key is `date`. */
  lemma RowInDayHasPartitionDate(row: Row, date: string, zone: JsDate.ZoneOffset)
    requires CalendarDate(date)
    requires DayRange(date, zone).Some? && DayRange(date, zone).value.Contains(row.timestamp)
    ensures MapEntityToDomain(row, zone).partitionDate == date
  {
    DayRangeMatchesPartitionDate(date, zone, row.timestamp);
  }

  /** For a valid date of a year from 1000 to 9999, every log the corrected
      `findByDate` returns has that date as its partition key. */
  lemma CorrectedFindByDateKeepsPartitionDate(t: Table, date: string, zone: JsDate.ZoneOffset, logs: seq<Log>)
    requires CorrectedFindByDate(t, date, zone) == Ok(logs) && CalendarDate(date)
    ensures forall i :: 0 <= i < |logs| ==> logs[i].partitionDate == date
  {
    var rows := Query(t, DayRange(date, zone).value, None);
    forall i | 0 <= i < |logs|
      ensures logs[i].partitionDate == date
    {
      assert logs[i] == Mapper(zone)(rows[i]);
      assert rows[i] in rows;
      RowInDayHasPartitionDate(rows[i], date, zone);
    }
  }

  /** For a valid date of a year from 1000 to 9999, every stored row whose
      partition key would be that date is returned by the corrected
      `findByDate`. */
  lemma CorrectedFindByDateCoversPartitionDate(t: Table, date: string, zone: JsDate.ZoneOffset, logs: seq<Log>)
    requires CorrectedFindByDate(t, date, zone) == Ok(logs) && CalendarDate(date)
    ensures forall x :: x in t.rows && FormatPartitionDate(x.timestamp, zone) == date ==> MapEntityToDomain(x, zone) in logs
  {
    var range := DayRange(date, zone).value;
    var rows := Query(t, range, None);
    assert logs == Seqs.Map(rows, Mapper(zone));
    forall x | x in t.rows && FormatPartitionDate(x.timestamp, zone) == date
      ensures MapEntityToDomain(x, zone) in logs
    {
      DayRangeMatchesPartitionDate(date, zone, x.timestamp);
      assert range.Contains(x.timestamp);
      MappedMember(rows, x, zone);
    }
  }

  /** A row of `rows` reads back as a log of the mapped sequence. */
  lemma MappedMember(rows: seq<Row>, x: Row, zone: JsDate.ZoneOffset)
    requires x in rows
    ensures MapEntityToDomain(x, zone) in Seqs.Map(rows, Mapper(zone))
  {
    var i :| 0 <= i < |rows| && rows[i] == x;
    assert Seqs.Map(rows, Mapper(zone))[i] == Mapper(zone)(rows[i]);
  }

  /** For a valid date of a year from 1000 to 9999, the corrected
      `findByDateAndLevel` maps exactly the stored rows with that partition
      key and that level, each once, newest first. */
  lemma CorrectedFindByDateAndLevelContents(t: Table, date: string, level: string, zone: JsDate.ZoneOffset, logs: seq<Log>)
    requires CorrectedFindByDateAndLevel(t, date, level, zone) == Ok(logs) && CalendarDate(date)
    ensures var rows := Query(t, DayRange(date, zone).value, Some(level));
      |logs| == |rows| && (forall i :: 0 <= i < |rows| ==> logs[i] == MapEntityToDomain(rows[i], zone))
      && (forall x :: x in rows <==> x in t.rows && FormatPartitionDate(x.timestamp, zone) == date
                                     && LevelName(x.level) == level)
      && (forall x :: x in rows ==> multiset(rows)[x] == 1)
    ensures forall i, j :: 0 <= i < j < |logs| ==> logs[i].timestamp >= logs[j].timestamp
  {
    var rows := Query(t, DayRange(date, zone).value, Some(level));
    forall x
      ensures x in rows <==> x in t.rows && FormatPartitionDate(x.timestamp, zone) == date
                             && LevelName(x.level) == level
    {
      DayRangeMatchesPartitionDate(date, zone, x.timestamp);
    }
    MappedDescending(rows, zone);
  }

  /** On a host three hours west of UTC, a log saved at noon local time on
      2024-01-15 is missing from `findByDate` of its own partition date,
      while the corrected query lists it. */
  lemma FindByDateMissesSavedLogWestOfUtc(t: Table, log: Log, zone: JsDate.ZoneOffset)
    requires t.outage.None? && WellFormed(log, zone)
    requires zone == -10800000 && log.timestamp == 1705330800000
    ensures log.partitionDate == "2024-01-15"
    ensures Save(t, log).Ok?
    ensures CorrectedFindByDate(Save(t, log).value, log.partitionDate, zone).Ok?
    ensures log in CorrectedFindByDate(Save(t, log).value, log.partitionDate, zone).value
    ensures FindByDate(Save(t, log).value, log.partitionDate, zone).Ok?
    ensures log !in FindByDate(Save(t, log).value, log.partitionDate, zone).value
  {
    var date := "2024-01-15";
    AsWrittenDayRangeMissesNamedDay(zone, log.timestamp, date);
    ExampleDate();
    var t' := Save(t, log).value;
    var logs := CorrectedFindByDate(t', date, zone).value;
    CorrectedFindByDateCoversPartitionDate(t', date, zone, logs);
    RestoreOfLog(log, zone);
    assert MapEntityToDomain(RowOf(log), zone) == log;
    var rows := Query(t', AsWrittenDayRange(date, zone).value, None);
    var missed := FindByDate(t', date, zone).value;
    assert missed == Seqs.Map(rows, Mapper(zone));
  }
}
