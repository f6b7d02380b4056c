/** `LogProducer`: publishes a `CreateLogDto` to the log exchange under the
    key the consumer binds. */
module LogProducer {
  import opened Wrappers
  import Json
  import opened LogEntity
  import LogRepository
  import UseCases
  import RabbitMq
  import LogConsumer

  /** `publishLog(logDto)`: the dto itself, as JSON, to `logs_exchange` with
      key `log.create`; the service's answer is returned as it is. */
  function PublishLog(s: RabbitMq.Service, dto: UseCases.CreateLogDto, stringify: UseCases.CreateLogDto -> string,
                      accepted: bool): (r: (RabbitMq.Service, Result<bool, string>))
    ensures s.channel.None? ==> r == (s, Err(RabbitMq.ChannelMissing))
    ensures s.channel.Some? ==> r.1 == Ok(accepted)
    ensures s.channel.Some? ==> r.0 == RabbitMq.Issue(s, RabbitMq.Published(LogConsumer.LogExchange,
              LogConsumer.LogRoutingKey, stringify(dto), true, RabbitMq.JsonContentType))
  {
    RabbitMq.Publish(s, LogConsumer.LogExchange, LogConsumer.LogRoutingKey, dto, stringify, accepted)
  }

  /** The queues a message published to `exchange` with `routingKey` reaches,
      given the bindings in `trace`: those bound with exactly that key. */
  function Routes(trace: seq<RabbitMq.Event>, exchange: string, routingKey: string): set<string> {
    set e | e in trace && e.QueueBound? && e.exchange == exchange && e.routingKey == routingKey :: e.queue
  }

  /** After the consumer's setup, every log the producer publishes is routed
      to `logs_queue`: the producer's exchange and key are the ones the
      consumer binds the queue with. */
  lemma PublishedLogReachesLogQueue(s: RabbitMq.Service, dto: UseCases.CreateLogDto,
                                    stringify: UseCases.CreateLogDto -> string, accepted: bool)
    requires s.channel.Some?
    ensures var ready := LogConsumer.OnModuleInit(s).0;
      var (s', r) := PublishLog(ready, dto, stringify, accepted);
      r == Ok(accepted)
      && s'.trace[|s'.trace| - 1].Published?
      && LogConsumer.LogQueue in Routes(s'.trace, s'.trace[|s'.trace| - 1].exchange, s'.trace[|s'.trace| - 1].routingKey)
  {
    var ready := LogConsumer.OnModuleInit(s).0;
    var s' := PublishLog(ready, dto, stringify, accepted).0;
    var bound := RabbitMq.QueueBound(LogConsumer.LogQueue, LogConsumer.LogExchange, LogConsumer.LogRoutingKey);
    assert bound == LogConsumer.SetupEvents()[2];
    assert bound in s'.trace;
  }

  /** A published dto, delivered to the consumer on an open channel, is
      parsed back, saved through the use case as a log with a freshly
      generated id and timestamp (the dto carries neither), and acknowledged,
      provided JSON gives the dto back and the store accepts the log. */
  lemma DeliveredLogCreated(s: RabbitMq.Service, repo: LogRepository.Repository, dto: UseCases.CreateLogDto,
                            codec: Json.Codec<UseCases.CreateLogDto>, tag: nat, gen: Fresh)
    requires s.channel.Some? && codec.parse(codec.stringify(dto)) == Some(dto)
    requires LogRepository.CanStore(repo, NewLog(UseCases.PropsOfDto(dto), repo.zone, gen))
    ensures var s1 := PublishLog(s, dto, codec.stringify, true).0;
      var delivery := RabbitMq.Delivery(tag, s1.trace[|s1.trace| - 1].content);
      var (s2, repo', outcome) := LogConsumer.HandleMessage(s1, repo, Some(delivery), codec.parse, gen);
      outcome == LogConsumer.Acknowledged
      && s2.trace == s1.trace + [RabbitMq.Acked(tag)]
      && |repo'.calls| == |repo.calls| + 1 && repo'.calls[|repo.calls|].SaveCall?
      && var log := repo'.calls[|repo.calls|].log;
         log.id == gen.uuid && log.timestamp == gen.now && log.level == dto.level && log.message == dto.message
  {
    LogRepository.SaveThenFindById(repo, NewLog(UseCases.PropsOfDto(dto), repo.zone, gen));
  }
}
