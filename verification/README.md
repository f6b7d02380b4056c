# Log ingestion service: a verified model

A Dafny model of the core of a small NestJS log-ingestion service. Logs arrive
as `CreateLogDto` messages on a RabbitMQ queue or through the application's
use cases. They become immutable `Log` values and are stored through a
`LogRepository` backed either by Cassandra or by PostgreSQL. Every contract
below is proved by the Dafny verifier.

The modules follow the program's layers:

- `LogEntity` (`log_entity.dfy`) is the `Log` value type:
  - the constructor defaults (`||`, so an empty id or context counts as absent);
  - the `YYYY-MM-DD` partition key in host-local time;
  - `toJSON`.
- `JsDate`, `Calendar` and `Strings` hold the parts of JavaScript the entity
  and the PostgreSQL adapter rely on:
  - a `Date` is an integer time value and the host's zone is a fixed offset;
  - `getFullYear`/`getMonth`/`getDate`, `setHours`, `new Date("YYYY-MM-DD")`,
    `toISOString` and `padStart` are written out over a proleptic Gregorian
    calendar with proved round trips.
- `Json` holds `JSON.stringify`/`JSON.parse`. The caller supplies them as a
  `Codec`. The round-trip law (`Lawful`) is a hypothesis only of the lemmas
  that need it.
- `CassandraLog` is `CassandraLogRepository` over an in-memory `logs` table:
  - rows are kept in primary-key order: partition, then timestamp descending,
    then id ascending;
  - a write with an existing key replaces that row.
- `PostgresLog` is `PostgresqlLogRepository` over an in-memory table keyed by
  `id`. Day queries select a timestamp range and sort newest first.
- `LogRepository` is the repository interface bound to one of the two adapters.
  It records every call, so that "save was called once, with this log" can be
  stated.
- `UseCases` holds `CreateLogUseCase` and `GetLogsByDateUseCase`.
- `RabbitMq` models `RabbitMQService`:
  - the bounded connect-retry loop;
  - the channel guard and the fixed options of every channel command;
  - the ordered teardown.

  The broker's answers are parameters. The service appends each command it
  issues, with its options, to a trace.
- `LogConsumer` and `LogProducer` model the topology setup, the per-message
  ack/nack decision, and publishing under the consumer's routing key.

Random ids and the current time (`randomUUID()`, `new Date()`) are a
`Fresh(uuid, now)` parameter. A store that cannot be reached is an `outage`
value on its table, and the operation fails with that error.

## Model

Paths are relative to the repository root.

| member | source | states |
|---|---|---|
| LogEntity.LevelNames | src/domain/entities/log.entity.ts:3-8 | Each level's string value names that level and no other; exactly the four strings DEBUG, INFO, WARN, ERROR name a level. |
| LogEntity.NewLog | src/domain/entities/log.entity.ts:28-36 | The id is the supplied one when non-empty, else the generated uuid. The context is the supplied one when non-empty, else "default". The timestamp is the supplied one, else now. The metadata is the supplied map, else `{}`. The result is well formed: non-empty context, partition key derived from its own timestamp. |
| LogEntity.SuppliedIdentityWins | src/domain/entities/log.entity.ts:29-33 | With an id and a timestamp supplied, the result does not depend on the generators. |
| LogEntity.RebuildFromGetters | src/domain/entities/log.entity.ts:45-71 | Constructing a log from the values of another log's getters gives that log back, whatever the generators return. |
| LogEntity.Restore | src/domain/entities/log.entity.ts:28-36 | Constructing from stored columns keeps id, level, message, timestamp and metadata. An empty context becomes "default". The generators are never consulted. |
| LogEntity.RestoreOfLog | src/domain/entities/log.entity.ts:28-36 | Restoring the columns of a constructed log yields exactly that log, partition key included. |
| LogEntity.PartitionDateShape | src/domain/entities/log.entity.ts:38-43 | For local years 1000-9999 the key has length 10, dashes at positions 4 and 7 and digits elsewhere. Its fields read back as the local date of the timestamp. |
| LogEntity.PartitionDateIdentifiesDay | src/domain/entities/log.entity.ts:38-43 | Two instants share a partition key if and only if they fall on the same local day, in every year. |
| LogEntity.PartitionDateNamesDate | src/domain/entities/log.entity.ts:38-43 | A `YYYY-MM-DD` text of a year 1000-9999 is the partition key of an instant if and only if it names that instant's local date. |
| LogEntity.ToJsonFaithful | src/domain/entities/log.entity.ts:73-83 | `toJSON` carries every getter's value. Two logs' timestamp texts are equal only if their instants are. On a UTC host the text's date part is the partition key. |
| JsDate.SameLocalDate | src/domain/entities/log.entity.ts:39-41 | Two instants have the same local year, month and day if and only if they lie on the same local day. |
| JsDate.LocalDayBracket | src/infrastructure/database/postgresql/postgresql-log.repository.ts:28-32 | `setHours(0,0,0,0)` and `setHours(23,59,59,999)` of an instant bracket exactly the instants on its local day. |
| JsDate.ParseDateOnlyNamesItsDate | src/infrastructure/database/postgresql/postgresql-log.repository.ts:28 | `new Date("YYYY-MM-DD")` of a valid date is UTC midnight of exactly that date. |
| JsDate.ToIsoStringRoundTrip | src/domain/entities/log.entity.ts:79 | For years 0-9999 the `toISOString` text reads back as the instant it renders. |
| JsDate.ToIsoStringInjective | src/domain/entities/log.entity.ts:79 | For years 0-9999 distinct instants render as distinct `toISOString` texts. |
| Seqs.MapAll | src/infrastructure/database/cassandra/cassandra-log.repository.ts:33 | A map with a throwing mapper succeeds if and only if every element maps. The results then correspond position by position. Otherwise the error is that of the first failing element. |
| CassandraLog.Upsert | src/infrastructure/database/cassandra/cassandra.service.ts:65-66 | An insert keeps the rows in key order. Afterwards the table holds the new row and every old row with a different key, and nothing else. |
| CassandraLog.SortedUnique | src/infrastructure/database/cassandra/cassandra.service.ts:65-66 | Two key-ordered tables holding the same rows are identical, so the clustering order fixes the read order. |
| CassandraLog.Save | src/infrastructure/database/cassandra/cassandra-log.repository.ts:10-25 | `save` fails exactly when the cluster is unreachable, with that error. On success the table holds the log's row, keyed by its partition key, with the metadata's JSON text. No other row has that key and every row with another key is kept. |
| CassandraLog.ResaveIdempotent | src/infrastructure/database/cassandra/cassandra-log.repository.ts:10-25 | Saving the same log again leaves exactly the table the first save left: one row for it. |
| CassandraLog.MapRowToLog | src/infrastructure/database/cassandra/cassandra-log.repository.ts:58-72 | Mapping fails exactly when the metadata text is non-empty and does not parse, with that text as the error. Missing or empty text becomes `{}`. Columns carry over, and the partition key is recomputed from the timestamp. |
| CassandraLog.MapRowOfLog | src/infrastructure/database/cassandra/cassandra-log.repository.ts:58-72 | With JSON's round-trip law, the row `save` writes maps back to the saved log. |
| CassandraLog.FindByDate | src/infrastructure/database/cassandra/cassandra-log.repository.ts:27-34 | An unreachable cluster fails the read with its error. Otherwise the read succeeds if and only if every row of partition `date` maps, that is its metadata text is missing, empty or parses. |
| CassandraLog.FindByDateAndLevel | src/infrastructure/database/cassandra/cassandra-log.repository.ts:36-43 | An unreachable cluster fails the read with its error. Otherwise the read succeeds if and only if every row of partition `date` with that level maps; rows of other levels are never read. |
| CassandraLog.EmptyPartitionReadsEmpty | src/infrastructure/database/cassandra/cassandra-log.repository.ts:27-34 | A reachable partition reads as the empty list if and only if it has no rows. |
| CassandraLog.FindByDateOnlyPartition | src/infrastructure/database/cassandra/cassandra-log.repository.ts:27-34 | Every log returned maps some row of partition `date`. |
| CassandraLog.FindByDateWholePartition | src/infrastructure/database/cassandra/cassandra-log.repository.ts:27-34 | Every row of partition `date` is returned. |
| CassandraLog.FindByDateOrdered | src/infrastructure/database/cassandra/cassandra-log.repository.ts:27-34 | The logs come newest first, ties broken by ascending id. |
| CassandraLog.MalformedMetadataAbortsRead | src/infrastructure/database/cassandra/cassandra-log.repository.ts:27-62 | A single row of the partition with unparsable metadata fails the whole read with a malformed-metadata error. It never falls back to `{}`. |
| CassandraLog.FindByDateAndLevelFilters | src/infrastructure/database/cassandra/cassandra-log.repository.ts:36-43 | When `findByDate` succeeds, `findByDateAndLevel` returns exactly its logs of that level, in the same relative order. |
| CassandraLog.FindById | src/infrastructure/database/cassandra/cassandra-log.repository.ts:45-56 | An unreachable cluster fails with its error. The result is null if and only if the partition has no row with that id. Otherwise a matching row that comes first in clustering order exists, and the answer is its mapping: the mapping's error, or the mapped log. |
| CassandraLog.SaveThenFindById | src/infrastructure/database/cassandra/cassandra-log.repository.ts:10-72 | `save(log)` then `findById(log.partitionDate, log.id)` returns a log equal to `log` in every field. Needs JSON's round-trip law and no row of that partition with the same id and a later timestamp. |
| CassandraLog.ResaveAtLaterTimestamp | src/infrastructure/database/cassandra/cassandra-log.repository.ts:10-56 | The primary key includes the timestamp, so saving an id again at a later timestamp keeps both rows, and `findById` returns the later log. |
| CassandraLog.SavedLogListed | src/infrastructure/database/cassandra/cassandra-log.repository.ts:10-34 | A saved log is among the logs a successful `findByDate` of its partition key returns. |
| PostgresLog.Put | src/infrastructure/database/postgresql/postgresql-log.repository.ts:24 | An entity save replaces the row with the same id, or appends one. Ids stay unique. |
| PostgresLog.Save | src/infrastructure/database/postgresql/postgresql-log.repository.ts:15-25 | `save` fails exactly when the database is unreachable. On success the log's columns are the only row with its id and other ids' rows are unchanged. |
| PostgresLog.LastWriteWins | src/infrastructure/database/postgresql/postgresql-log.repository.ts:15-25 | Two saves with one id leave one row for it, holding the second log. `findById` then returns the second log. |
| PostgresLog.MapEntityToDomain | src/infrastructure/database/postgresql/postgresql-log.repository.ts:78-87 | Null metadata becomes `{}`. Every other field carries over, and the partition key is recomputed. |
| PostgresLog.AsWrittenDayRange | src/infrastructure/database/postgresql/postgresql-log.repository.ts:28-32 | The range exists exactly when the date is a valid date string. |
| PostgresLog.AsWrittenDayRangeShift | src/infrastructure/database/postgresql/postgresql-log.repository.ts:28-32 | The range as written holds the local day the date names at or east of UTC, and the local day before it west of UTC. |
| PostgresLog.AsWrittenDayRangeMissesNamedDay | src/infrastructure/database/postgresql/postgresql-log.repository.ts:28-32 | A concrete instant with partition key "2024-01-15" on a UTC-3 host lies outside the range as written. |
| PostgresLog.WestOfUtcMissesNamedDay | src/infrastructure/database/postgresql/postgresql-log.repository.ts:28-32 | West of UTC, every instant of the local day a date names is outside the range as written, though inside the corrected range and keyed by that date. |
| PostgresLog.AsWrittenMatchesCorrected | src/infrastructure/database/postgresql/postgresql-log.repository.ts:28-32 | At UTC and east of it, the range as written equals the corrected range. |
| PostgresLog.DayRange | src/infrastructure/database/postgresql/postgresql-log.repository.ts:28-32 | The corrected range exists exactly when the date is valid and spans one whole day. |
| PostgresLog.DayRangeIsLocalDay | src/infrastructure/database/postgresql/postgresql-log.repository.ts:28-32 | The corrected range holds exactly the instants of the local day the date names. |
| PostgresLog.DayRangeMatchesPartitionDate | src/infrastructure/database/postgresql/postgresql-log.repository.ts:28-32 | For a valid date of year 1000-9999, an instant is in the corrected range if and only if its partition key is that date. |
| PostgresLog.SortByTimestampDesc | src/infrastructure/database/postgresql/postgresql-log.repository.ts:38-40 | Ordering by timestamp DESC gives a non-increasing sequence that is a permutation of its input. |
| PostgresLog.Query | src/infrastructure/database/postgresql/postgresql-log.repository.ts:34-41 | `find` returns exactly the rows in the range, and of the level when one is given, newest first, each exactly once. |
| PostgresLog.FindByDate | src/infrastructure/database/postgresql/postgresql-log.repository.ts:27-44 | Over the range as written. An unreachable database fails with its error. Otherwise the read fails exactly when the date is not a valid date, with an invalid-date error. |
| PostgresLog.FindByDateContents | src/infrastructure/database/postgresql/postgresql-log.repository.ts:27-44 | The logs map, position by position, the rows whose local day is the queried day, each once, newest first. The queried day is the named day at UTC and east of it, and the day before west of it. |
| PostgresLog.FindByDateAndLevel | src/infrastructure/database/postgresql/postgresql-log.repository.ts:46-64 | Over the range as written, with the same error cases as `findByDate`. |
| PostgresLog.FindByDateAndLevelContents | src/infrastructure/database/postgresql/postgresql-log.repository.ts:46-64 | The logs map, position by position, the rows of the queried day with that level, each once, newest first. |
| PostgresLog.FindByDateEastOfUtc | src/infrastructure/database/postgresql/postgresql-log.repository.ts:27-64 | At UTC and east of it, both day queries answer exactly as their corrected versions. |
| PostgresLog.FindByDateMissesSavedLogWestOfUtc | src/infrastructure/database/postgresql/postgresql-log.repository.ts:15-44 | On a UTC-3 host, a log saved at noon local time on 2024-01-15 is missing from `findByDate` of its own partition key, while the corrected query lists it. |
| PostgresLog.CorrectedFindByDate | src/infrastructure/database/postgresql/postgresql-log.repository.ts:27-44 | `findByDate` over the corrected range, with the same error cases. |
| PostgresLog.CorrectedFindByDateKeepsPartitionDate | src/infrastructure/database/postgresql/postgresql-log.repository.ts:27-44 | Every log the corrected query returns for a date of year 1000-9999 has that date as its partition key. |
| PostgresLog.CorrectedFindByDateCoversPartitionDate | src/infrastructure/database/postgresql/postgresql-log.repository.ts:27-44 | Every stored row whose partition key is the date is returned by the corrected query. |
| PostgresLog.CorrectedFindByDateAndLevel | src/infrastructure/database/postgresql/postgresql-log.repository.ts:46-64 | `findByDateAndLevel` over the corrected range, with the same error cases. |
| PostgresLog.CorrectedFindByDateAndLevelContents | src/infrastructure/database/postgresql/postgresql-log.repository.ts:46-64 | For a date of year 1000-9999, the corrected query maps exactly the stored rows with that partition key and level, each once, newest first. |
| PostgresLog.FindById | src/infrastructure/database/postgresql/postgresql-log.repository.ts:66-76 | The date argument is never read. The result is null if and only if no row has the id; otherwise it is the mapping of the row with that id. |
| PostgresLog.SaveThenFindById | src/infrastructure/database/postgresql/postgresql-log.repository.ts:66-76 | After `save(log)`, `findById(date, log.id)` returns a log equal to `log` in every field, for any `date`. |
| LogRepository.Save | src/domain/repositories/log.repository.ts:4 | `save` records exactly one call. It succeeds or fails as the bound adapter does, and on failure changes nothing but the call log. |
| LogRepository.FindByDate | src/domain/repositories/log.repository.ts:5 | Records the call and answers as the bound adapter. |
| LogRepository.FindByDateAndLevel | src/domain/repositories/log.repository.ts:6 | Records the call and answers as the bound adapter. |
| LogRepository.FindById | src/domain/repositories/log.repository.ts:7 | Records the call and answers as the bound adapter. |
| LogRepository.SaveThenFindById | src/domain/repositories/log.repository.ts:3-8 | Through either adapter, `save` then `findById(partitionDate, id)` returns the saved log. For Cassandra, JSON's round-trip law must hold and no row of the partition may have the id with a later timestamp. |
| LogRepository.SavedLogListed | src/domain/repositories/log.repository.ts:3-8 | Through either adapter, a saved log is listed by a successful `findByDate` of its partition key. For PostgreSQL this holds on hosts at UTC or east of it. |
| UseCases.CreateLog | src/application/use-cases/create-log.use-case.ts:15-34 | Exactly one repository call is added: a save of a well-formed log with the generated id and timestamp, the dto's level and message, and the context ("default" when absent) and metadata (`{}` when absent). A failed save is returned unchanged. Success answers that log's response. |
| UseCases.CreateLogResponse | src/application/use-cases/create-log.use-case.ts:25-33 | The response carries the generated id. Its timestamp text parses back to the creation instant. Its partition key has the `YYYY-MM-DD` shape and names the local creation date. |
| UseCases.CreatedLogFoundById | src/application/use-cases/create-log.use-case.ts:15-34 | After a create, `findById` with the response's partition key and id returns a log whose response is the one returned. |
| UseCases.GetLogsByDate | src/application/use-cases/get-logs-by-date.use-case.ts:13-25 | Exactly one `findByDate(date)` call is made. Its failure is returned unchanged. On success the output has the same length and element i is the response of log i, so order is kept and an empty result stays empty. |
| UseCases.ResponseListed | src/application/use-cases/get-logs-by-date.use-case.ts:16-24 | Every log the repository returns has its response in the output. |
| UseCases.CreatedLogListed | src/application/use-cases/get-logs-by-date.use-case.ts:13-25 | A created log's response is listed by a following successful `GetLogsByDate` of its partition key, through either adapter. For PostgreSQL this holds on hosts at UTC or east of it. |
| RabbitMq.ConnectionAfter | src/infrastructure/messaging/rabbitmq/rabbitmq.service.ts:24-25 | The connection field after some attempts is the last connection `amqp.connect` returned, or the initial one. |
| RabbitMq.Connect | src/infrastructure/messaging/rabbitmq/rabbitmq.service.ts:21-39 | Makes at most `retries` attempts and stops at the first that opens a channel, which it keeps. It fails if and only if every attempt fails, rethrowing the last error. Each failed attempt but the last is followed by one 5000 ms wait. With `retries <= 0` it resolves without a channel and changes nothing. |
| RabbitMq.OnModuleInit | src/infrastructure/messaging/rabbitmq/rabbitmq.service.ts:12-19 | With the default of five attempts, it succeeds if and only if one of them opens. Total failure rethrows the fifth attempt's error after four waits. |
| RabbitMq.EnsureChannel | src/infrastructure/messaging/rabbitmq/rabbitmq.service.ts:120-126 | The guard passes if and only if a channel is set, and otherwise fails with the started-correctly message. |
| RabbitMq.AssertQueue | src/infrastructure/messaging/rabbitmq/rabbitmq.service.ts:50-53 | Without a channel it fails and changes nothing. With one it declares the queue durable. |
| RabbitMq.AssertExchange | src/infrastructure/messaging/rabbitmq/rabbitmq.service.ts:55-61 | Without a channel it fails and changes nothing. With one it declares the exchange durable, with its type. |
| RabbitMq.BindQueue | src/infrastructure/messaging/rabbitmq/rabbitmq.service.ts:63-70 | Without a channel it fails and changes nothing. With one it binds the queue to the exchange under the key. |
| RabbitMq.Publish | src/infrastructure/messaging/rabbitmq/rabbitmq.service.ts:72-81 | Without a channel it fails with "RabbitMQ channel not initialized". With one it publishes the JSON text, persistent, as `application/json`, and returns the channel's answer. |
| RabbitMq.SendToQueue | src/infrastructure/messaging/rabbitmq/rabbitmq.service.ts:83-92 | As `publish`, addressed to a queue. |
| RabbitMq.Consume | src/infrastructure/messaging/rabbitmq/rabbitmq.service.ts:94-100 | Without a channel it fails and changes nothing. With one it consumes with manual acknowledgement. |
| RabbitMq.Ack | src/infrastructure/messaging/rabbitmq/rabbitmq.service.ts:102-107 | Without a channel it fails and changes nothing. With one it acknowledges that delivery. |
| RabbitMq.Nack | src/infrastructure/messaging/rabbitmq/rabbitmq.service.ts:109-114 | Without a channel it fails and changes nothing. With one it rejects that single delivery (never all-up-to) with the given requeue flag. |
| RabbitMq.OnModuleDestroy | src/infrastructure/messaging/rabbitmq/rabbitmq.service.ts:41-48 | The channel is closed before the connection, and an absent one is skipped. A failing channel close ends the teardown with its error before the connection is touched. The fields are not cleared. |
| RabbitMq.Perform | src/infrastructure/messaging/rabbitmq/rabbitmq.service.ts:50-114 | Every guarded operation succeeds if and only if a channel is set. With one it appends exactly its own command with the fixed options; without one it leaves the service unchanged. |
| RabbitMq.RunResults | src/infrastructure/messaging/rabbitmq/rabbitmq.service.ts:50-126 | Over any sequence of operations, each succeeds if and only if a channel is set. |
| RabbitMq.RunWithoutChannel | src/infrastructure/messaging/rabbitmq/rabbitmq.service.ts:50-126 | Without a channel, no sequence of operations has any effect. |
| RabbitMq.RunWithChannel | src/infrastructure/messaging/rabbitmq/rabbitmq.service.ts:50-126 | With a channel, a sequence of operations issues exactly its commands, in order, with the fixed options. |
| LogConsumer.OnModuleInit | src/infrastructure/messaging/rabbitmq/log.consumer.ts:17-30 | With a channel: topic exchange `logs_exchange`, durable queue `logs_queue`, binding under `log.create`, then consumption, in that order. Without one the first step fails and nothing is issued. |
| LogConsumer.Reject | src/infrastructure/messaging/rabbitmq/log.consumer.ts:45-48 | The catch branch rejects the delivery without requeueing, or settles nothing without a channel. |
| LogConsumer.HandleMessage | src/infrastructure/messaging/rabbitmq/log.consumer.ts:32-53 | A null message does nothing. The use case runs if and only if the content parses. The delivery is acknowledged if and only if parse and use case both succeed; otherwise it is rejected without requeue. With a channel exactly one of the two is issued; without one neither. |
| LogConsumer.HandleAllSettles | src/infrastructure/messaging/rabbitmq/log.consumer.ts:32-53 | Over any run of messages with a channel, every delivery is settled exactly once, in delivery order, and never requeued. Without a channel nothing is issued. |
| LogProducer.PublishLog | src/infrastructure/messaging/rabbitmq/log.producer.ts:10-12 | Publishes the dto's JSON text unchanged to `logs_exchange` under `log.create`, persistent. It returns the service's answer unchanged, or fails without a channel. |
| LogProducer.PublishedLogReachesLogQueue | src/infrastructure/messaging/rabbitmq/log.producer.ts:10-12 | After the consumer's setup, a published log is routed to `logs_queue`. |
| LogProducer.DeliveredLogCreated | src/infrastructure/messaging/rabbitmq/log.consumer.ts:38-49 | A published dto delivered to the consumer is parsed back, saved with a freshly generated id and timestamp, and acknowledged. |

## Left out

- Network, drivers and the broker are not modelled. The Cassandra driver, TypeORM and amqplib become in-memory tables, an `outage` error value, and per-attempt connection outcomes.
- Console logging in `connect` and in the consumer is left out, because it has no effect on state.
- The `RABBITMQ_URL` configuration lookup is left out. The connection outcomes stand for the broker at whatever URL is configured.
- `getChannel` is a plain accessor and is not modelled.
- Concurrency is not modelled. The consumer's detached `processMessage` runs to completion, one message at a time, in delivery order.
- Broker-side failures of the guarded operations are not modelled. This covers a declaration the broker refuses, an exception from `channel.publish`, and `ack`/`nack` on a channel that `onModuleDestroy` closed. The fields are not cleared after close, so the guard still passes.
- Topic wildcards (`*`, `#`) are not modelled. `LogProducer.Routes` matches binding keys literally, which covers the only key bound (`log.create`).
- The consumer's payload is not validated. The parsed JSON is cast to `CreateLogDto` unchecked, and the model's `parse` yields a `CreateLogDto` or fails. A JSON text of another shape, which the code would pass on as it is, is not modelled.
- The DTO validation decorators are not modelled. The level is a `LogLevel` by type, and the non-empty message is not needed by any property.
- `JSON.stringify`/`JSON.parse` are parameters, not implementations. The decode-after-encode law is a hypothesis of the round-trip lemmas.
- JSON numbers are integers (`Json.Number(n: int)`), not JavaScript doubles. Metadata such as `{"latency": 1.5}` has no model value. No property depends on numbers.
- The time zone is a fixed offset with no daylight saving. JavaScript's time-value limit of ±8.64e15 ms is not modelled.
- Of the strings `new Date(...)` accepts, only `YYYY-MM-DD` is modelled. Any other date text makes the PostgreSQL reads fail with an invalid-date error.
- The Cassandra `id` column is a `uuid`; ids are ordered here as text.
- Both stores declare `id` as `uuid` and reject an id that is not one. This rejection is not modelled: ids are any text, and every save succeeds on a reachable store. The service only writes `randomUUID()` ids, because `CreateLogDto` has no id field.
- Partitions are ordered by lexicographic order of their keys, not by token. No read spans two partitions.
- Result paging is not modelled. The Cassandra reads call `execute` with no page size and no paging, so the driver's `rows` holds only the first page (5000 rows by default). The model reads the whole partition. The Cassandra contracts below therefore describe partitions of at most one page; for `findByDateAndLevel`, at most one page of rows of that level.
- CassandraLog.FindByDate: the success condition covers every row of the partition. The program only maps the first page, so a malformed row past it does not fail the read.
- CassandraLog.FindByDateAndLevel: the success condition covers every row of that level. The program only maps the first page of them.
- CassandraLog.FindByDateWholePartition: "every row is returned" holds only for a partition of at most one page; the program returns the newest page.
- CassandraLog.MalformedMetadataAbortsRead: a malformed row fails the read only when it is within the first page.
- CassandraLog.FindByDateAndLevelFilters: the equation holds only when the partition fits in one page. Otherwise the level query pages over matching rows and the day query over all rows.
- CassandraLog.SavedLogListed: stated for partitions of at most one page. In a bigger partition a saved log older than the first page is not listed.
- LogRepository.SavedLogListed: its Cassandra half has the same one-page bound.
- UseCases.CreatedLogListed: its Cassandra half has the same one-page bound.
- PostgreSQL column limits are not enforced: `varchar(10)` level and `varchar(100)` context. The `timestamp` column without time zone stores the instant unchanged.
- LogEntity.PartitionDateShape: the `\d{4}-\d{2}-\d{2}` shape is proved only for local years 1000 to 9999. Outside them the year is not four digits.
- UseCases.CreateLogResponse: requires UTC and local years 0-9999 and 1000-9999, the years in which `toISOString` and the partition key have their four-digit form.
- CassandraLog.FindByDate: its own contract states the outage case and exactly when the read succeeds. Which logs it returns and in what order are stated by `FindByDateOnlyPartition`, `FindByDateWholePartition` and `FindByDateOrdered`. The failing read's error is stated by `MalformedMetadataAbortsRead`.
- LogRepository.SavedLogListed: for PostgreSQL it is stated only for hosts at UTC or east of it. West of UTC the query as written misses the day (see Findings).
- UseCases.CreatedLogListed: for PostgreSQL it is stated only for hosts at UTC or east of it, for the same reason.

## Findings

| source | as written | input that shows it | evidently intended | confidence | as-written member | corrected member |
|---|---|---|---|---|---|---|
| src/infrastructure/database/postgresql/postgresql-log.repository.ts:28-32 | `new Date(date)` is UTC midnight of the date. `setHours` then moves to 00:00:00.000 and 23:59:59.999 of the host-local day holding that instant. West of UTC that is the day before the named date, so `findByDate`/`findByDateAndLevel` list the previous local day. | Host zone UTC-3 (offset -10800000 ms), date "2024-01-15", a log at 1705330800000 (12:00 local on 2024-01-15, partition key "2024-01-15"). The queried range is 2024-01-14 local time and misses it. | The range is the whole local day the date names, the same day the partition key and the Cassandra adapter use. | not executed | PostgresLog.FindByDateMissesSavedLogWestOfUtc | PostgresLog.CorrectedFindByDateCoversPartitionDate |

The PostgreSQL adapter's `FindByDate` and `FindByDateAndLevel` query the
range as the code computes it (`PostgresLog.AsWrittenDayRange`).
`PostgresLog.CorrectedFindByDate` and `PostgresLog.CorrectedFindByDateAndLevel`
query the corrected `PostgresLog.DayRange`. `PostgresLog.AsWrittenMatchesCorrected`
shows the two ranges agree at UTC and east of it. There the repository-level
listing lemmas hold for PostgreSQL as well.

The model follows the code where the code and its surrounding description
differ:
- A malformed Cassandra metadata text fails the whole read.
- A failing `close` in `onModuleDestroy` propagates. When the channel close
  fails, the connection is not closed.
- `connect` with `retries <= 0` resolves without a channel.
- A Cassandra save of an id already stored at another timestamp adds a
  second row, because the primary key includes the timestamp. "Last write
  wins" holds only for PostgreSQL. When the second save is at a later
  timestamp, Cassandra's `findById` answers the later log.
