/** `CassandraLogRepository` over an in-memory `logs` table. The table is
    partitioned by `partition_date` and clustered by `timestamp DESC, id ASC`;
    its primary key is `(partition_date, timestamp, id)`, so a write with an
    existing key replaces that row. The rows are kept in key order, which is
    the order a partition's rows are read in. */
module CassandraLog {
  import opened Wrappers
  import opened Strings
  import JsDate
  import Json
  import opened LogEntity
  import opened StorageErrors
  import Seqs

  /** A row of `logs`; `metadata` is the text column, `None` when null. */
  datatype Row = Row(
    partitionDate: string,
    id: Id,
    level: LogLevel,
    message: string,
    context: string,
    timestamp: int,
    metadata: Option<string>)

  datatype Key = Key(partitionDate: string, timestamp: int, id: string)

  function KeyOf(r: Row): Key {
    Key(r.partitionDate, r.timestamp, r.id)
  }

  /** Order of the clustering columns: newer timestamps first, then ids
      ascending. */
  predicate ClusteredBefore(a: Key, b: Key) {
    a.timestamp > b.timestamp || (a.timestamp == b.timestamp && Less(a.id, b.id))
  }

  /** Order of primary keys: partitions apart (any fixed order; lexicographic
      here), then the clustering order inside a partition. */
  predicate KeyBefore(a: Key, b: Key) {
    Less(a.partitionDate, b.partitionDate)
    || (a.partitionDate == b.partitionDate && ClusteredBefore(a, b))
  }

  lemma KeyBeforeTransitive(a: Key, b: Key, c: Key)
    requires KeyBefore(a, b) && KeyBefore(b, c)
    ensures KeyBefore(a, c)
  {
    if Less(a.partitionDate, b.partitionDate) && Less(b.partitionDate, c.partitionDate) {
      LessTransitive(a.partitionDate, b.partitionDate, c.partitionDate);
    } else if a.partitionDate == b.partitionDate == c.partitionDate {
      if a.timestamp == b.timestamp == c.timestamp {
        LessTransitive(a.id, b.id, c.id);
      }
    }
  }

  /** Distinct keys are ordered one way or the other, and never both ways. */
  lemma KeyBeforeTotal(a: Key, b: Key)
    ensures a == b || KeyBefore(a, b) || KeyBefore(b, a)
    ensures !(KeyBefore(a, b) && KeyBefore(b, a))
  {
    LessTrichotomy(a.partitionDate, b.partitionDate);
    LessTrichotomy(a.id, b.id);
    if KeyBefore(a, b) && KeyBefore(b, a) {
      KeyBeforeTransitive(a, b, a);
      LessIrreflexive(a.partitionDate);
      LessIrreflexive(a.id);
    }
  }

  /** Rows in strictly increasing key order, hence with distinct keys. */
  predicate Sorted(rows: seq<Row>) {
    forall i, j :: 0 <= i < j < |rows| ==> KeyBefore(KeyOf(rows[i]), KeyOf(rows[j]))
  }

  /** No two rows of a sorted table share a primary key. */
  lemma SortedKeysUnique(rows: seq<Row>, i: int, j: int)
    requires Sorted(rows) && 0 <= i < |rows| && 0 <= j < |rows|
    requires KeyOf(rows[i]) == KeyOf(rows[j])
    ensures i == j
  {
    if i < j || j < i {
      KeyBeforeTotal(KeyOf(rows[i]), KeyOf(rows[j]));
    }
  }

  /** The table; `outage` holds the driver's error while the cluster is
      unreachable. */
  datatype TableState = TableState(rows: seq<Row>, outage: Option<string>)

  type Table = t: TableState | Sorted(t.rows) witness TableState([], None)

  /** The head of a sorted sequence precedes every other row in it. */
  lemma HeadBeforeRest(rows: seq<Row>, x: Row)
    requires Sorted(rows) && |rows| > 0 && x in rows[1..]
    ensures KeyBefore(KeyOf(rows[0]), KeyOf(x))
  {
    var j :| 0 <= j < |rows[1..]| && rows[1..][j] == x;
    assert rows[j + 1] == x;
  }

  /** A row placed in front of a sorted sequence it precedes keeps it sorted. */
  lemma ConsSorted(x: Row, rows: seq<Row>)
    requires Sorted(rows)
    requires forall y :: y in rows ==> KeyBefore(KeyOf(x), KeyOf(y))
    ensures Sorted([x] + rows)
  {
    var r := [x] + rows;
    forall i, j | 0 <= i < j < |r|
      ensures KeyBefore(KeyOf(r[i]), KeyOf(r[j]))
    {
      if i == 0 {
        assert r[j] in rows;
      } else {
        assert r[i] == rows[i - 1] && r[j] == rows[j - 1];
      }
    }
  }

  /** An INSERT: the row takes the place of the row with its key, if any,
      and otherwise goes where its key sorts. */
  function {:induction false} Upsert(rows: seq<Row>, row: Row): (r: seq<Row>)
    requires Sorted(rows)
    ensures Sorted(r)
    ensures forall x :: x in r <==> x == row || (x in rows && KeyOf(x) != KeyOf(row))
    decreases |rows|
  {
    if rows == [] then [row]
    else if KeyOf(rows[0]) == KeyOf(row) then
      UpsertReplacesHead(rows, row);
      [row] + rows[1..]
    else if KeyBefore(KeyOf(row), KeyOf(rows[0])) then
      UpsertInFront(rows, row);
      [row] + rows
    else
      var rest := Upsert(rows[1..], row);
      UpsertBehindHead(rows, row, rest);
      [rows[0]] + rest
  }

  lemma UpsertReplacesHead(rows: seq<Row>, row: Row)
    requires Sorted(rows) && |rows| > 0 && KeyOf(rows[0]) == KeyOf(row)
    ensures Sorted([row] + rows[1..])
    ensures forall x :: x in [row] + rows[1..] <==> x == row || (x in rows && KeyOf(x) != KeyOf(row))
  {
    forall y | y in rows[1..]
      ensures KeyBefore(KeyOf(row), KeyOf(y))
    {
      HeadBeforeRest(rows, y);
    }
    ConsSorted(row, rows[1..]);
    assert rows == [rows[0]] + rows[1..];
    forall x | x in rows && KeyOf(x) != KeyOf(row)
      ensures x in rows[1..]
    {
    }
    forall x | x in rows[1..]
      ensures KeyOf(x) != KeyOf(row)
    {
      HeadBeforeRest(rows, x);
      KeyBeforeTotal(KeyOf(rows[0]), KeyOf(x));
    }
  }

  lemma UpsertInFront(rows: seq<Row>, row: Row)
    requires Sorted(rows) && |rows| > 0 && KeyBefore(KeyOf(row), KeyOf(rows[0]))
    ensures Sorted([row] + rows)
    ensures forall x :: x in [row] + rows <==> x == row || (x in rows && KeyOf(x) != KeyOf(row))
  {
    forall y | y in rows
      ensures KeyBefore(KeyOf(row), KeyOf(y))
    {
      if y != rows[0] {
        assert rows == [rows[0]] + rows[1..];
        HeadBeforeRest(rows, y);
        KeyBeforeTransitive(KeyOf(row), KeyOf(rows[0]), KeyOf(y));
      }
    }
    ConsSorted(row, rows);
    forall x | x in rows
      ensures KeyOf(x) != KeyOf(row)
    {
      KeyBeforeTotal(KeyOf(row), KeyOf(x));
    }
  }

  lemma UpsertBehindHead(rows: seq<Row>, row: Row, rest: seq<Row>)
    requires Sorted(rows) && |rows| > 0
    requires KeyOf(rows[0]) != KeyOf(row) && !KeyBefore(KeyOf(row), KeyOf(rows[0]))
    requires Sorted(rest)
    requires forall x :: x in rest <==> x == row || (x in rows[1..] && KeyOf(x) != KeyOf(row))
    ensures Sorted([rows[0]] + rest)
    ensures forall x :: x in [rows[0]] + rest <==> x == row || (x in rows && KeyOf(x) != KeyOf(row))
  {
    KeyBeforeTotal(KeyOf(row), KeyOf(rows[0]));
    forall y | y in rest
      ensures KeyBefore(KeyOf(rows[0]), KeyOf(y))
    {
      if y != row {
        HeadBeforeRest(rows, y);
      }
    }
    ConsSorted(rows[0], rest);
    assert rows == [rows[0]] + rows[1..];
  }

  /** The row `save` writes: the log's columns, with the metadata as its
      `JSON.stringify` text. */
  function RowOf(log: Log, codec: Json.Codec<Metadata>): Row {
    Row(log.partitionDate, log.id, log.level, log.message, log.context, log.timestamp,
        Some(codec.stringify(log.metadata)))
  }

  /** `save`. On success the table holds the log's row, and no other row with
      its key; every other row is kept. */
  function Save(t: Table, log: Log, codec: Json.Codec<Metadata>): (r: Result<Table, StorageError>)
    ensures t.outage.Some? <==> r.Err?
    ensures r.Err? ==> r.error == Unavailable(t.outage.value)
    ensures r.Ok? ==> RowOf(log, codec) in r.value.rows
    ensures r.Ok? ==> forall x :: x in r.value.rows && KeyOf(x) == KeyOf(RowOf(log, codec)) ==> x == RowOf(log, codec)
    ensures r.Ok? ==> forall x :: x in t.rows && KeyOf(x) != KeyOf(RowOf(log, codec)) ==> x in r.value.rows
    ensures r.Ok? ==> forall x :: x in r.value.rows ==> x == RowOf(log, codec) || x in t.rows
  {
    if t.outage.Some? then Err(Unavailable(t.outage.value))
    else Ok(TableState(Upsert(t.rows, RowOf(log, codec)), None))
  }

  /** `mapRowToLog`: a missing or empty metadata text reads as `{}`, any other
      text must parse, and the row's columns rebuild the log. */
  function MapRowToLog(row: Row, codec: Json.Codec<Metadata>, zone: JsDate.ZoneOffset): (r: Result<Log, StorageError>)
    ensures r.Err? <==> row.metadata.Some? && row.metadata.value != "" && codec.parse(row.metadata.value).None?
    ensures r.Err? ==> r.error == MalformedMetadata(row.metadata.value)
    ensures r.Ok? ==> WellFormed(r.value, zone)
    ensures r.Ok? ==> r.value.id == row.id && r.value.level == row.level && r.value.message == row.message
    ensures r.Ok? ==> r.value.timestamp == row.timestamp
    ensures r.Ok? ==> r.value.context == (if row.context == "" then "default" else row.context)
    ensures r.Ok? && (row.metadata.None? || row.metadata == Some("")) ==> r.value.metadata == map[]
    ensures r.Ok? && row.metadata.Some? && row.metadata.value != "" ==> Some(r.value.metadata) == codec.parse(row.metadata.value)
  {
    var metadata: Result<Metadata, StorageError> :=
      if row.metadata.None? || row.metadata.value == "" then Ok(map[])
      else match codec.parse(row.metadata.value)
        case Some(m) => Ok(m)
        case None => Err(MalformedMetadata(row.metadata.value));
    if metadata.Err? then Err(metadata.error)
    else Ok(Restore(row.id, row.level, row.message, row.context, row.timestamp, metadata.value, zone))
  }

  /** `mapRowToLog` as a function value, for `rows.map`. */
  function Mapper(codec: Json.Codec<Metadata>, zone: JsDate.ZoneOffset): Row -> Result<Log, StorageError> {
    row => MapRowToLog(row, codec, zone)
  }

  /** The rows of partition `date`, in table order. */
  function {:induction false} InPartition(rows: seq<Row>, date: string): (r: seq<Row>)
    ensures forall x :: x in r <==> x in rows && x.partitionDate == date
    ensures Sorted(rows) ==> Sorted(r)
    decreases |rows|
  {
    if rows == [] then []
    else
      var rest := InPartition(rows[1..], date);
      assert forall x :: x in rows <==> x == rows[0] || x in rows[1..];
      if rows[0].partitionDate != date then rest
      else if Sorted(rows) then
        TailSorted(rows);
        HeadBeforeSubset(rows, rest);
        [rows[0]] + rest
      else [rows[0]] + rest
  }

  lemma TailSorted(rows: seq<Row>)
    requires Sorted(rows) && |rows| > 0
    ensures Sorted(rows[1..])
  {
    forall i, j | 0 <= i < j < |rows[1..]|
      ensures KeyBefore(KeyOf(rows[1..][i]), KeyOf(rows[1..][j]))
    {
      assert rows[1..][i] == rows[i + 1] && rows[1..][j] == rows[j + 1];
    }
  }

  /** The head of a sorted sequence, put before a sorted selection of the
      rest, gives a sorted sequence. */
  lemma HeadBeforeSubset(rows: seq<Row>, rest: seq<Row>)
    requires Sorted(rows) && |rows| > 0 && Sorted(rest)
    requires forall x :: x in rest ==> x in rows[1..]
    ensures Sorted([rows[0]] + rest)
  {
    forall y | y in rest
      ensures KeyBefore(KeyOf(rows[0]), KeyOf(y))
    {
      HeadBeforeRest(rows, y);
    }
    ConsSorted(rows[0], rest);
  }

  /** The rows whose `level` column holds `level`, in order. */
  function {:induction false} WithLevel(rows: seq<Row>, level: string): (r: seq<Row>)
    ensures forall x :: x in r <==> x in rows && LevelName(x.level) == level
    decreases |rows|
  {
    if rows == [] then []
    else
      var rest := WithLevel(rows[1..], level);
      assert forall x :: x in rows <==> x == rows[0] || x in rows[1..];
      if LevelName(rows[0].level) == level then [rows[0]] + rest else rest
  }

  /** The rows whose `id` column holds `id`, in order. */
  function {:induction false} WithId(rows: seq<Row>, id: string): (r: seq<Row>)
    ensures forall x :: x in r <==> x in rows && x.id == id
    decreases |rows|
  {
    if rows == [] then []
    else
      var rest := WithId(rows[1..], id);
      assert forall x :: x in rows <==> x == rows[0] || x in rows[1..];
      if rows[0].id == id then [rows[0]] + rest else rest
  }

  /** The logs of level `level`, in order. */
  function {:induction false} LogsWithLevel(logs: seq<Log>, level: string): (r: seq<Log>)
    ensures forall x :: x in r <==> x in logs && LevelName(x.level) == level
    decreases |logs|
  {
    if logs == [] then []
    else
      var rest := LogsWithLevel(logs[1..], level);
      assert forall x :: x in logs <==> x == logs[0] || x in logs[1..];
      if LevelName(logs[0].level) == level then [logs[0]] + rest else rest
  }

  /** `findByDate`: the logs of partition `date` in clustering order. The
      read fails as a whole unless every row of the partition maps. */
  function FindByDate(t: Table, date: string, codec: Json.Codec<Metadata>, zone: JsDate.ZoneOffset): (r: Result<seq<Log>, StorageError>)
    ensures t.outage.Some? ==> r == Err(Unavailable(t.outage.value))
    ensures t.outage.None? ==>
      (r.Ok? <==> forall x :: x in t.rows && x.partitionDate == date ==> MapRowToLog(x, codec, zone).Ok?)
  {
    if t.outage.Some? then Err(Unavailable(t.outage.value))
    else
      var rows := InPartition(t.rows, date);
      Seqs.AllOkMembers(rows, Mapper(codec, zone));
      Seqs.MapAll(rows, Mapper(codec, zone))
  }

  /** `findByDateAndLevel`: the partition's rows of one level. Only the rows
      of that level are mapped, so only they can fail the read. */
  function FindByDateAndLevel(t: Table, date: string, level: string, codec: Json.Codec<Metadata>,
                              zone: JsDate.ZoneOffset): (r: Result<seq<Log>, StorageError>)
    ensures t.outage.Some? ==> r == Err(Unavailable(t.outage.value))
    ensures t.outage.None? ==>
      (r.Ok? <==> forall x :: (x in t.rows && x.partitionDate == date && LevelName(x.level) == level)
                                ==> MapRowToLog(x, codec, zone).Ok?)
  {
    if t.outage.Some? then Err(Unavailable(t.outage.value))
    else
      var rows := WithLevel(InPartition(t.rows, date), level);
      Seqs.AllOkMembers(rows, Mapper(codec, zone));
      Seqs.MapAll(rows, Mapper(codec, zone))
  }

  /** A reachable partition reads as the empty list exactly when it has no
      rows. */
  lemma EmptyPartitionReadsEmpty(t: Table, date: string, codec: Json.Codec<Metadata>, zone: JsDate.ZoneOffset)
    requires t.outage.None?
    ensures FindByDate(t, date, codec, zone) == Ok([]) <==> forall x :: x in t.rows ==> x.partitionDate != date
  {
    var rows := InPartition(t.rows, date);
    if FindByDate(t, date, codec, zone) == Ok([]) {
      assert Seqs.Mapped(rows, [], Mapper(codec, zone));
    }
  }

  /** `x` is a row of partition `date` with id `id` that precedes every other
      such row in clustering order. */
  predicate EarliestMatch(rows: seq<Row>, date: string, id: string, x: Row) {
    x in rows && x.partitionDate == date && x.id == id
    && forall y :: y in rows && y.partitionDate == date && y.id == id && y != x ==> KeyBefore(KeyOf(x), KeyOf(y))
  }

  /** A mapped row as `findById` answers it. */
  function Found(m: Result<Log, StorageError>): Result<Option<Log>, StorageError> {
    match m
    case Ok(log) => Ok(Some(log))
    case Err(e) => Err(e)
  }

  /** `findById`: `null` when the partition has no row with that id, otherwise
      the mapping of the first such row in clustering order, whose failure is
      the read's failure. */
  function FindById(t: Table, date: string, id: string, codec: Json.Codec<Metadata>,
                    zone: JsDate.ZoneOffset): (r: Result<Option<Log>, StorageError>)
    ensures t.outage.Some? ==> r == Err(Unavailable(t.outage.value))
    ensures t.outage.None? ==> (r == Ok(None) <==> forall x :: x in t.rows ==> !(x.partitionDate == date && x.id == id))
    ensures t.outage.None? && (exists x :: x in t.rows && x.partitionDate == date && x.id == id) ==>
      exists x :: EarliestMatch(t.rows, date, id, x)
    ensures t.outage.None? ==>
      forall x :: EarliestMatch(t.rows, date, id, x) ==> r == Found(MapRowToLog(x, codec, zone))
  {
    if t.outage.Some? then Err(Unavailable(t.outage.value))
    else
      var matches := WithId(InPartition(t.rows, date), id);
      if matches == [] then
        assert forall x :: x in t.rows && x.partitionDate == date && x.id == id ==> x in matches;
        Ok(None)
      else
        FirstMatchEarliest(t.rows, date, id);
        Found(MapRowToLog(matches[0], codec, zone))
  }

  /** The first row of the partition with the id is the one earliest match. */
  lemma FirstMatchEarliest(rows: seq<Row>, date: string, id: string)
    requires Sorted(rows) && WithId(InPartition(rows, date), id) != []
    ensures var x := WithId(InPartition(rows, date), id)[0];
      EarliestMatch(rows, date, id, x) && forall y :: EarliestMatch(rows, date, id, y) ==> y == x
  {
    var matches := WithId(InPartition(rows, date), id);
    var x := matches[0];
    assert x in matches;
    FirstIsEarliest(InPartition(rows, date), id);
    forall y | EarliestMatch(rows, date, id, y)
      ensures y == x
    {
      if y != x {
        KeyBeforeTotal(KeyOf(x), KeyOf(y));
      }
    }
  }

  lemma {:induction false} FirstIsEarliest(rows: seq<Row>, id: string)
    requires Sorted(rows) && WithId(rows, id) != []
    ensures forall y :: y in WithId(rows, id) && y != WithId(rows, id)[0] ==> KeyBefore(KeyOf(WithId(rows, id)[0]), KeyOf(y))
    decreases |rows|
  {
    if rows[0].id == id {
      assert WithId(rows, id) == [rows[0]] + WithId(rows[1..], id);
      forall y | y in WithId(rows, id) && y != rows[0]
        ensures KeyBefore(KeyOf(rows[0]), KeyOf(y))
      {
        HeadBeforeRest(rows, y);
      }
    } else {
      assert WithId(rows, id) == WithId(rows[1..], id);
      TailSorted(rows);
      FirstIsEarliest(rows[1..], id);
    }
  }

  /** Two sorted sequences holding the same rows are the same sequence. */
  lemma {:induction false} SortedUnique(a: seq<Row>, b: seq<Row>)
    requires Sorted(a) && Sorted(b)
    requires forall x :: x in a <==> x in b
    ensures a == b
    decreases |a|
  {
    assert a == [] <==> b == [] by {
      if a != [] { assert a[0] in b; }
      if b != [] { assert b[0] in a; }
    }
    if a != [] {
      assert a[0] == b[0] by {
        if a[0] != b[0] {
          assert b[0] in a[1..] by { assert b[0] in a; assert a == [a[0]] + a[1..]; }
          assert a[0] in b[1..] by { assert a[0] in b; assert b == [b[0]] + b[1..]; }
          HeadBeforeRest(a, b[0]);
          HeadBeforeRest(b, a[0]);
          KeyBeforeTotal(KeyOf(a[0]), KeyOf(b[0]));
        }
      }
      TailSorted(a);
      TailSorted(b);
      forall x
        ensures x in a[1..] <==> x in b[1..]
      {
        assert a == [a[0]] + a[1..] && b == [b[0]] + b[1..];
        if x in a[1..] {
          assert x in a && x in b;
          HeadBeforeRest(a, x);
          KeyBeforeTotal(KeyOf(a[0]), KeyOf(x));
          assert x != b[0];
        }
        if x in b[1..] {
          assert x in b && x in a;
          HeadBeforeRest(b, x);
          KeyBeforeTotal(KeyOf(b[0]), KeyOf(x));
          assert x != a[0];
        }
      }
      SortedUnique(a[1..], b[1..]);
      assert a == [a[0]] + a[1..] && b == [b[0]] + b[1..];
    }
  }

  /** Writing the same row twice leaves the table as one write does. */
  lemma UpsertIdempotent(rows: seq<Row>, row: Row)
    requires Sorted(rows)
    ensures Upsert(Upsert(rows, row), row) == Upsert(rows, row)
  {
    SortedUnique(Upsert(Upsert(rows, row), row), Upsert(rows, row));
  }

  /** Re-saving an identical log leaves exactly the table the first save
      left: one row for its key. */
  lemma ResaveIdempotent(t: Table, log: Log, codec: Json.Codec<Metadata>)
    requires Save(t, log, codec).Ok?
    ensures Save(Save(t, log, codec).value, log, codec) == Save(t, log, codec)
  {
    UpsertIdempotent(t.rows, RowOf(log, codec));
  }

  /** With JSON's round-trip law, the row `save` writes maps back to the log. */
  lemma MapRowOfLog(log: Log, codec: Json.Codec<Metadata>, zone: JsDate.ZoneOffset)
    requires Json.Lawful(codec) && WellFormed(log, zone)
    ensures MapRowToLog(RowOf(log, codec), codec, zone) == Ok(log)
  {
    RestoreOfLog(log, zone);
  }

  /** `save(log)` followed by `findById(log.partitionDate, log.id)` returns a
      log equal to `log` in every field, the partition key recomputed from the
      stored timestamp included, provided no row of that partition carries
      the same id with a later timestamp. */
  lemma SaveThenFindById(t: Table, log: Log, codec: Json.Codec<Metadata>, zone: JsDate.ZoneOffset)
    requires Json.Lawful(codec) && WellFormed(log, zone)
    requires t.outage.None?
    requires forall x :: x in t.rows && x.partitionDate == log.partitionDate && x.id == log.id ==> x.timestamp <= log.timestamp
    ensures Save(t, log, codec).Ok?
    ensures FindById(Save(t, log, codec).value, log.partitionDate, log.id, codec, zone) == Ok(Some(log))
  {
    var t' := Save(t, log, codec).value;
    var row := RowOf(log, codec);
    forall y | y in t'.rows && y.partitionDate == log.partitionDate && y.id == log.id && y != row
      ensures KeyBefore(KeyOf(row), KeyOf(y))
    {
      assert y in t.rows && KeyOf(y) != KeyOf(row);
    }
    assert EarliestMatch(t'.rows, log.partitionDate, log.id, row);
    MapRowOfLog(log, codec, zone);
  }

  /** The primary key holds the timestamp, so saving a log again under its id
      at a later timestamp adds a row instead of replacing one: both rows
      stay, and `findById` answers the newer. */
  lemma ResaveAtLaterTimestamp(t: Table, first: Log, second: Log, codec: Json.Codec<Metadata>, zone: JsDate.ZoneOffset)
    requires Json.Lawful(codec) && WellFormed(second, zone) && t.outage.None?
    requires first.id == second.id && first.partitionDate == second.partitionDate
    requires first.timestamp < second.timestamp
    requires forall x :: x in t.rows && x.partitionDate == second.partitionDate && x.id == second.id ==> x.timestamp <= second.timestamp
    ensures Save(t, first, codec).Ok? && Save(Save(t, first, codec).value, second, codec).Ok?
    ensures var t2 := Save(Save(t, first, codec).value, second, codec).value;
      RowOf(first, codec) in t2.rows && RowOf(second, codec) in t2.rows
      && RowOf(first, codec) != RowOf(second, codec)
      && FindById(t2, second.partitionDate, second.id, codec, zone) == Ok(Some(second))
  {
    var t1 := Save(t, first, codec).value;
    SaveThenFindById(t1, second, codec, zone);
  }

  /** Every log `findByDate(date)` returns is the mapping of a row of that
      partition. */
  lemma FindByDateOnlyPartition(t: Table, date: string, codec: Json.Codec<Metadata>, zone: JsDate.ZoneOffset, logs: seq<Log>)
    requires FindByDate(t, date, codec, zone) == Ok(logs)
    ensures forall i :: 0 <= i < |logs| ==>
      exists x :: x in t.rows && x.partitionDate == date && MapRowToLog(x, codec, zone) == Ok(logs[i])
  {
    var rows := InPartition(t.rows, date);
    assert Seqs.Mapped(rows, logs, Mapper(codec, zone));
    forall i | 0 <= i < |logs|
      ensures exists x :: x in t.rows && x.partitionDate == date && MapRowToLog(x, codec, zone) == Ok(logs[i])
    {
      assert rows[i] in rows;
      assert Mapper(codec, zone)(rows[i]) == Ok(logs[i]);
    }
  }

  /** Every row of partition `date` is represented in `findByDate(date)`. */
  lemma FindByDateWholePartition(t: Table, date: string, codec: Json.Codec<Metadata>, zone: JsDate.ZoneOffset, logs: seq<Log>)
    requires FindByDate(t, date, codec, zone) == Ok(logs)
    ensures forall x :: x in t.rows && x.partitionDate == date ==>
      exists i :: 0 <= i < |logs| && MapRowToLog(x, codec, zone) == Ok(logs[i])
  {
    var rows := InPartition(t.rows, date);
    assert Seqs.Mapped(rows, logs, Mapper(codec, zone));
    forall x | x in t.rows && x.partitionDate == date
      ensures exists i :: 0 <= i < |logs| && MapRowToLog(x, codec, zone) == Ok(logs[i])
    {
      Seqs.MappedMember(rows, logs, Mapper(codec, zone), x);
    }
  }

  /** `findByDate(date)` lists newer logs first, and ascending ids among equal
      timestamps. */
  lemma FindByDateOrdered(t: Table, date: string, codec: Json.Codec<Metadata>, zone: JsDate.ZoneOffset, logs: seq<Log>)
    requires FindByDate(t, date, codec, zone) == Ok(logs)
    ensures forall i, j :: 0 <= i < j < |logs| ==>
      logs[i].timestamp > logs[j].timestamp || (logs[i].timestamp == logs[j].timestamp && Less(logs[i].id, logs[j].id))
  {
    var rows := InPartition(t.rows, date);
    assert Seqs.Mapped(rows, logs, Mapper(codec, zone));
    forall i, j | 0 <= i < j < |logs|
      ensures logs[i].timestamp > logs[j].timestamp || (logs[i].timestamp == logs[j].timestamp && Less(logs[i].id, logs[j].id))
    {
      assert rows[i] in rows && rows[j] in rows;
      assert KeyBefore(KeyOf(rows[i]), KeyOf(rows[j]));
      LessIrreflexive(date);
      assert Mapper(codec, zone)(rows[i]) == Ok(logs[i]);
      assert Mapper(codec, zone)(rows[j]) == Ok(logs[j]);
    }
  }

  /** A saved log is listed by `findByDate` of its own partition key. */
  lemma SavedLogListed(t: Table, log: Log, codec: Json.Codec<Metadata>, zone: JsDate.ZoneOffset, logs: seq<Log>)
    requires Json.Lawful(codec) && WellFormed(log, zone)
    requires Save(t, log, codec).Ok?
    requires FindByDate(Save(t, log, codec).value, log.partitionDate, codec, zone) == Ok(logs)
    ensures log in logs
  {
    MapRowOfLog(log, codec, zone);
    FindByDateWholePartition(Save(t, log, codec).value, log.partitionDate, codec, zone, logs);
    var i :| 0 <= i < |logs| && MapRowToLog(RowOf(log, codec), codec, zone) == Ok(logs[i]);
  }

  /** One row of the partition whose metadata text does not parse makes the
      whole `findByDate` reject, with the error of the first such row in
      clustering order; the read never falls back to `{}`. */
  lemma MalformedMetadataAbortsRead(t: Table, date: string, codec: Json.Codec<Metadata>, zone: JsDate.ZoneOffset, bad: Row)
    requires t.outage.None?
    requires bad in t.rows && bad.partitionDate == date
    requires bad.metadata.Some? && bad.metadata.value != "" && codec.parse(bad.metadata.value).None?
    ensures FindByDate(t, date, codec, zone).Err?
    ensures FindByDate(t, date, codec, zone).error.MalformedMetadata?
  {
    var rows := InPartition(t.rows, date);
    var i :| 0 <= i < |rows| && rows[i] == bad;
    assert !Mapper(codec, zone)(rows[i]).Ok?;
    var r := FindByDate(t, date, codec, zone);
    var k :| Seqs.FirstFailure(rows, k, r.error, Mapper(codec, zone));
    assert MapRowToLog(rows[k], codec, zone) == Err(r.error);
  }

  /** Mapping the rows of one level gives the logs of that level, in the same
      relative order. */
  lemma {:induction false} MapWithLevel(rows: seq<Row>, level: string, codec: Json.Codec<Metadata>,
                                        zone: JsDate.ZoneOffset, logs: seq<Log>)
    requires Seqs.MapAll(rows, Mapper(codec, zone)) == Ok(logs)
    ensures Seqs.MapAll(WithLevel(rows, level), Mapper(codec, zone)) == Ok(LogsWithLevel(logs, level))
    decreases |rows|
  {
    var f := Mapper(codec, zone);
    if rows != [] {
      assert Seqs.Mapped(rows, logs, f);
      var tail := Seqs.MapAll(rows[1..], f);
      assert f(rows[0]) == Ok(logs[0]);
      assert tail.Ok? && logs == [logs[0]] + tail.value;
      assert logs[1..] == tail.value;
      MapWithLevel(rows[1..], level, codec, zone, tail.value);
      if LevelName(rows[0].level) == level {
        assert WithLevel(rows, level) == [rows[0]] + WithLevel(rows[1..], level);
        assert LogsWithLevel(logs, level) == [logs[0]] + LogsWithLevel(logs[1..], level);
      } else {
        assert WithLevel(rows, level) == WithLevel(rows[1..], level);
        assert LogsWithLevel(logs, level) == LogsWithLevel(logs[1..], level);
      }
    }
  }

  /** When `findByDate(date)` succeeds, `findByDateAndLevel(date, level)` is its
      result filtered to `level`, in the same relative order. */
  lemma FindByDateAndLevelFilters(t: Table, date: string, level: string, codec: Json.Codec<Metadata>,
                                  zone: JsDate.ZoneOffset, logs: seq<Log>)
    requires FindByDate(t, date, codec, zone) == Ok(logs)
    ensures FindByDateAndLevel(t, date, level, codec, zone) == Ok(LogsWithLevel(logs, level))
  {
    MapWithLevel(InPartition(t.rows, date), level, codec, zone, logs);
  }
}
