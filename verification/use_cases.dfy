/** The two application use cases: creating a log from a request and listing
    the logs of a day, both through the `LogRepository` interface. */
module UseCases {
  import opened Wrappers
  import JsDate
  import Calendar
  import Seqs
  import opened LogEntity
  import opened StorageErrors
  import LogRepository
  import CassandraLog
  import PostgresLog

  /** A validated `CreateLogDto`: level and message are required, context
      and metadata optional. */
  datatype CreateLogDto = CreateLogDto(
    level: LogLevel,
    message: string,
    context: Option<string>,
    metadata: Option<Metadata>)

  /** The constructor input `execute` passes on: no id and no timestamp, so
      both come from the generators. */
  function PropsOfDto(dto: CreateLogDto): LogProps {
    LogProps(None, dto.level, dto.message, dto.context, None, dto.metadata)
  }

  /** `CreateLogUseCase.execute`: builds the log, saves it (one repository
      call) and answers with the log's seven response fields. A failing save
      rejects with the repository's error. */
  function CreateLog(repo: LogRepository.Repository, dto: CreateLogDto, gen: Fresh)
    : (r: (LogRepository.Repository, Result<LogJson, StorageError>))
    ensures |r.0.calls| == |repo.calls| + 1 && r.0.calls[..|repo.calls|] == repo.calls
    ensures r.0.calls[|repo.calls|].SaveCall?
    ensures var log := r.0.calls[|repo.calls|].log;
      WellFormed(log, repo.zone)
      && log.id == gen.uuid && log.timestamp == gen.now
      && log.level == dto.level && log.message == dto.message
      && log.context == OrElse(dto.context, "default")
      && log.metadata == dto.metadata.GetOr(map[])
      && r.0 == LogRepository.Save(repo, log).0
      && (r.1.Ok? <==> LogRepository.Save(repo, log).1.Ok?)
      && (r.1.Err? ==> r.1.error == LogRepository.Save(repo, log).1.error)
      && (r.1.Ok? ==> r.1.value == ToJson(log))
  {
    var log := NewLog(PropsOfDto(dto), repo.zone, gen);
    var (repo', saved) := LogRepository.Save(repo, log);
    assert repo'.calls[|repo.calls|] == LogRepository.SaveCall(log);
    if saved.Err? then (repo', Err(saved.error)) else (repo', Ok(ToJson(log)))
  }

  /** `GetLogsByDateUseCase.execute`: one `findByDate(date)` call; each log
      found becomes its response, in the order the repository returned them.
      A failing read rejects with the repository's error. */
  function GetLogsByDate(repo: LogRepository.Repository, date: string)
    : (r: (LogRepository.Repository, Result<seq<LogJson>, StorageError>))
    ensures r.0.calls == repo.calls + [LogRepository.FindByDateCall(date)]
    ensures r.0.backend == repo.backend && r.0.zone == repo.zone
    ensures var found := LogRepository.FindByDate(repo, date).1;
      (r.1.Ok? <==> found.Ok?)
      && (r.1.Err? ==> r.1.error == found.error)
      && (r.1.Ok? ==> |r.1.value| == |found.value|
                      && forall i :: 0 <= i < |found.value| ==> r.1.value[i] == ToJson(found.value[i]))
  {
    var (repo', found) := LogRepository.FindByDate(repo, date);
    match found
    case Err(e) => (repo', Err(e))
    case Ok(logs) => (repo', Ok(Seqs.Map(logs, ToJson)))
  }

  /** The response of a successful create: the generated id, the creation
      instant in ISO form that parses back to that instant, and (for local
      years 1000 to 9999) a `YYYY-MM-DD` partition key naming the local date
      of creation. */
  lemma CreateLogResponse(repo: LogRepository.Repository, dto: CreateLogDto, gen: Fresh)
    requires CreateLog(repo, dto, gen).1.Ok?
    requires 0 <= JsDate.LocalDate(gen.now, 0).year <= 9999
    requires 1000 <= JsDate.LocalDate(gen.now, repo.zone).year <= 9999
    ensures var resp := CreateLog(repo, dto, gen).1.value;
      resp.id == gen.uuid && resp.level == dto.level && resp.message == dto.message
      && JsDate.ParseIsoString(resp.timestamp) == Some(gen.now)
      && JsDate.IsDateOnlyForm(resp.partitionDate)
      && JsDate.DateOnlyFields(resp.partitionDate) == JsDate.LocalDate(gen.now, repo.zone)
  {
    JsDate.ToIsoStringRoundTrip(gen.now);
    PartitionDateShape(gen.now, repo.zone);
  }

  /** A log created through either adapter is found again by the
      `findById(partitionDate, id)` its response names, and that log's
      response is the one `create` answered. */
  lemma CreatedLogFoundById(repo: LogRepository.Repository, dto: CreateLogDto, gen: Fresh)
    requires LogRepository.CanStore(repo, NewLog(PropsOfDto(dto), repo.zone, gen))
    ensures CreateLog(repo, dto, gen).1.Ok?
    ensures var (repo', resp) := CreateLog(repo, dto, gen);
      exists log :: LogRepository.FindById(repo', resp.value.partitionDate, resp.value.id).1 == Ok(Some(log))
                    && ToJson(log) == resp.value
  {
    var log := NewLog(PropsOfDto(dto), repo.zone, gen);
    LogRepository.SaveThenFindById(repo, log);
    var (repo', resp) := CreateLog(repo, dto, gen);
    assert LogRepository.FindById(repo', resp.value.partitionDate, resp.value.id).1 == Ok(Some(log));
  }

  /** A log created through either adapter is listed by a following
      `GetLogsByDate` of its partition key, whenever that read succeeds (the
      Cassandra read fails as a whole on another row's malformed metadata;
      the PostgreSQL read needs a host at UTC or east of it and a key of a
      year from 1000 to 9999). */
  lemma CreatedLogListed(repo: LogRepository.Repository, dto: CreateLogDto, gen: Fresh)
    requires LogRepository.CanStore(repo, NewLog(PropsOfDto(dto), repo.zone, gen))
    requires repo.backend.Postgres? ==> repo.zone >= 0
    requires 1000 <= JsDate.LocalDate(gen.now, repo.zone).year <= 9999
    ensures var (repo', resp) := CreateLog(repo, dto, gen);
      resp.Ok? &&
      var listed := GetLogsByDate(repo', resp.value.partitionDate).1;
      listed.Ok? ==> resp.value in listed.value
  {
    var log := NewLog(PropsOfDto(dto), repo.zone, gen);
    LogRepository.SaveThenFindById(repo, log);
    var (repo', resp) := CreateLog(repo, dto, gen);
    assert repo' == LogRepository.Save(repo, log).0 && resp == Ok(ToJson(log));
    var (_, found) := LogRepository.FindByDate(repo', log.partitionDate);
    if found.Ok? {
      LogRepository.SavedLogListed(repo, log, found.value);
      ResponseListed(repo', log.partitionDate, log);
    }
  }

  /** A log the repository lists for a date has its response in the list
      `GetLogsByDate` answers. */
  lemma ResponseListed(repo: LogRepository.Repository, date: string, log: Log)
    requires LogRepository.FindByDate(repo, date).1.Ok? && log in LogRepository.FindByDate(repo, date).1.value
    ensures GetLogsByDate(repo, date).1.Ok? && ToJson(log) in GetLogsByDate(repo, date).1.value
  {
    var logs := LogRepository.FindByDate(repo, date).1.value;
    var i :| 0 <= i < |logs| && logs[i] == log;
    assert GetLogsByDate(repo, date).1.value[i] == ToJson(log);
  }
}
