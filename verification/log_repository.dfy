/** The `LogRepository` interface the use cases depend on, bound to one of
    the two storage adapters. Every call is recorded, so that what a use case
    asked of its repository can be stated. */
module LogRepository {
  import opened Wrappers
  import JsDate
  import Json
  import opened LogEntity
  import opened StorageErrors
  import CassandraLog
  import PostgresLog

  /** The adapter bound to the repository token; the Cassandra adapter also
      holds the host's `JSON.stringify`/`JSON.parse` pair for metadata. */
  datatype Backend =
    | Cassandra(ring: CassandraLog.Table, codec: Json.Codec<Metadata>)
    | Postgres(relation: PostgresLog.Table)

  /** One call on the interface, with its arguments. */
  datatype Call =
    | SaveCall(log: Log)
    | FindByDateCall(date: string)
    | FindByDateAndLevelCall(date: string, level: string)
    | FindByIdCall(date: string, id: string)

  /** A repository: its adapter, the host's time zone and the calls made so
      far, oldest first. */
  datatype Repository = Repository(backend: Backend, zone: JsDate.ZoneOffset, calls: seq<Call>)

  /** `save(log)`: records the call; on success the adapter's table is the
      one its `save` produced, on failure nothing but the call log changes. */
  function Save(repo: Repository, log: Log): (r: (Repository, Result<(), StorageError>))
    ensures r.0.calls == repo.calls + [SaveCall(log)] && r.0.zone == repo.zone
    ensures r.0.backend.Cassandra? == repo.backend.Cassandra?
    ensures r.1.Err? ==> r.0.backend == repo.backend
    ensures repo.backend.Cassandra? ==>
      (r.1.Ok? <==> CassandraLog.Save(repo.backend.ring, log, repo.backend.codec).Ok?)
      && (r.1.Err? ==> r.1.error == CassandraLog.Save(repo.backend.ring, log, repo.backend.codec).error)
      && (r.1.Ok? ==> r.0.backend == Cassandra(CassandraLog.Save(repo.backend.ring, log, repo.backend.codec).value, repo.backend.codec))
    ensures repo.backend.Postgres? ==>
      (r.1.Ok? <==> PostgresLog.Save(repo.backend.relation, log).Ok?)
      && (r.1.Err? ==> r.1.error == PostgresLog.Save(repo.backend.relation, log).error)
      && (r.1.Ok? ==> r.0.backend == Postgres(PostgresLog.Save(repo.backend.relation, log).value))
  {
    var logged := repo.(calls := repo.calls + [SaveCall(log)]);
    match repo.backend
    case Cassandra(table, codec) =>
      (match CassandraLog.Save(table, log, codec)
       case Ok(t) => (logged.(backend := Cassandra(t, codec)), Ok(()))
       case Err(e) => (logged, Err(e)))
    case Postgres(table) =>
      (match PostgresLog.Save(table, log)
       case Ok(t) => (logged.(backend := Postgres(t)), Ok(()))
       case Err(e) => (logged, Err(e)))
  }

  /** `findByDate(date)`: records the call and answers from the adapter. */
  function FindByDate(repo: Repository, date: string): (r: (Repository, Result<seq<Log>, StorageError>))
    ensures r.0 == repo.(calls := repo.calls + [FindByDateCall(date)])
    ensures repo.backend.Cassandra? ==>
      r.1 == CassandraLog.FindByDate(repo.backend.ring, date, repo.backend.codec, repo.zone)
    ensures repo.backend.Postgres? ==> r.1 == PostgresLog.FindByDate(repo.backend.relation, date, repo.zone)
  {
    var logged := repo.(calls := repo.calls + [FindByDateCall(date)]);
    match repo.backend
    case Cassandra(table, codec) => (logged, CassandraLog.FindByDate(table, date, codec, repo.zone))
    case Postgres(table) => (logged, PostgresLog.FindByDate(table, date, repo.zone))
  }

  /** `findByDateAndLevel(date, level)`: records the call and answers from
      the adapter. */
  function FindByDateAndLevel(repo: Repository, date: string, level: string): (r: (Repository, Result<seq<Log>, StorageError>))
    ensures r.0 == repo.(calls := repo.calls + [FindByDateAndLevelCall(date, level)])
    ensures repo.backend.Cassandra? ==>
      r.1 == CassandraLog.FindByDateAndLevel(repo.backend.ring, date, level, repo.backend.codec, repo.zone)
    ensures repo.backend.Postgres? ==> r.1 == PostgresLog.FindByDateAndLevel(repo.backend.relation, date, level, repo.zone)
  {
    var logged := repo.(calls := repo.calls + [FindByDateAndLevelCall(date, level)]);
    match repo.backend
    case Cassandra(table, codec) => (logged, CassandraLog.FindByDateAndLevel(table, date, level, codec, repo.zone))
    case Postgres(table) => (logged, PostgresLog.FindByDateAndLevel(table, date, level, repo.zone))
  }

  /** `findById(date, id)`: records the call and answers from the adapter. */
  function FindById(repo: Repository, date: string, id: string): (r: (Repository, Result<Option<Log>, StorageError>))
    ensures r.0 == repo.(calls := repo.calls + [FindByIdCall(date, id)])
    ensures repo.backend.Cassandra? ==>
      r.1 == CassandraLog.FindById(repo.backend.ring, date, id, repo.backend.codec, repo.zone)
    ensures repo.backend.Postgres? ==> r.1 == PostgresLog.FindById(repo.backend.relation, date, id, repo.zone)
  {
    var logged := repo.(calls := repo.calls + [FindByIdCall(date, id)]);
    match repo.backend
    case Cassandra(table, codec) => (logged, CassandraLog.FindById(table, date, id, codec, repo.zone))
    case Postgres(table) => (logged, PostgresLog.FindById(table, date, id, repo.zone))
  }

  /** What the round trip through an adapter needs: a reachable store, and for
      Cassandra a lawful JSON pair and no row of the log's partition with the
      log's id and a later timestamp. */
  ghost predicate CanStore(repo: Repository, log: Log) {
    match repo.backend
    case Cassandra(table, codec) =>
      table.outage.None? && Json.Lawful(codec)
      && forall x :: x in table.rows && x.partitionDate == log.partitionDate && x.id == log.id ==> x.timestamp <= log.timestamp
    case Postgres(table) => table.outage.None?
  }

  /** Through either adapter, `save(log)` succeeds and a following
      `findById(log.partitionDate, log.id)` returns a log equal to `log` in
      every field. */
  lemma SaveThenFindById(repo: Repository, log: Log)
    requires WellFormed(log, repo.zone) && CanStore(repo, log)
    ensures Save(repo, log).1.Ok?
    ensures FindById(Save(repo, log).0, log.partitionDate, log.id).1 == Ok(Some(log))
  {
    match repo.backend
    case Cassandra(table, codec) =>
      CassandraLog.SaveThenFindById(table, log, codec, repo.zone);
    case Postgres(table) =>
      PostgresLog.SaveThenFindById(table, log, log.partitionDate, repo.zone);
  }

  /** Through either adapter, a saved log is among the logs a successful
      `findByDate` of its partition key returns. For PostgreSQL the host must
      be at UTC or east of it (west of it the query misses the day, see
      `PostgresLog.FindByDateMissesSavedLogWestOfUtc`) and the key must be of
      a year from 1000 to 9999, the years it has four digits. */
  lemma SavedLogListed(repo: Repository, log: Log, logs: seq<Log>)
    requires WellFormed(log, repo.zone) && CanStore(repo, log)
    requires repo.backend.Postgres? ==> repo.zone >= 0
    requires repo.backend.Postgres? ==> 1000 <= JsDate.LocalDate(log.timestamp, repo.zone).year <= 9999
    requires FindByDate(Save(repo, log).0, log.partitionDate).1 == Ok(logs)
    ensures log in logs
  {
    if repo.backend.Cassandra? {
      CassandraSavedLogListed(repo, log, logs);
    } else {
      PostgresSavedLogListed(repo, log, logs);
    }
  }

  lemma CassandraSavedLogListed(repo: Repository, log: Log, logs: seq<Log>)
    requires repo.backend.Cassandra? && WellFormed(log, repo.zone) && CanStore(repo, log)
    requires FindByDate(Save(repo, log).0, log.partitionDate).1 == Ok(logs)
    ensures log in logs
  {
    CassandraLog.SavedLogListed(repo.backend.ring, log, repo.backend.codec, repo.zone, logs);
  }

  lemma PostgresSavedLogListed(repo: Repository, log: Log, logs: seq<Log>)
    requires repo.backend.Postgres? && WellFormed(log, repo.zone) && CanStore(repo, log)
    requires repo.zone >= 0
    requires 1000 <= JsDate.LocalDate(log.timestamp, repo.zone).year <= 9999
    requires FindByDate(Save(repo, log).0, log.partitionDate).1 == Ok(logs)
    ensures log in logs
  {
    var relation := PostgresLog.Save(repo.backend.relation, log).value;
    PartitionDateShape(log.timestamp, repo.zone);
    PostgresLog.FindByDateEastOfUtc(relation, log.partitionDate, "", repo.zone);
    PostgresLog.CorrectedFindByDateCoversPartitionDate(relation, log.partitionDate, repo.zone, logs);
    RestoreOfLog(log, repo.zone);
    assert PostgresLog.MapEntityToDomain(PostgresLog.RowOf(log), repo.zone) == log;
  }
}
