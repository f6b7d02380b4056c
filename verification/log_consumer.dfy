/** `LogConsumer`: declares the log topology on the broker, then consumes
    `logs_queue`, turning each message into a `CreateLogUseCase` call and
    settling it. Messages are handled one at a time, in delivery order. */
module LogConsumer {
  import opened Wrappers
  import opened LogEntity
  import LogRepository
  import UseCases
  import RabbitMq

  const LogQueue: string := "logs_queue"
  const LogExchange: string := "logs_exchange"
  const LogRoutingKey: string := "log.create"

  /** The commands `onModuleInit` issues on an open channel, in order. */
  function SetupEvents(): seq<RabbitMq.Event> {
    [RabbitMq.ExchangeAsserted(LogExchange, RabbitMq.Topic, true),
     RabbitMq.QueueAsserted(LogQueue, true),
     RabbitMq.QueueBound(LogQueue, LogExchange, LogRoutingKey),
     RabbitMq.Consuming(LogQueue, false)]
  }

  /** `onModuleInit`: `setupQueue` (exchange, queue, binding) and then
      `startConsuming`; the first step that rejects ends it. */
  function OnModuleInit(s: RabbitMq.Service): (r: (RabbitMq.Service, Result<(), string>))
    ensures s.channel.None? ==> r == (s, Err(RabbitMq.ChannelNotStarted))
    ensures s.channel.Some? ==> r == (s.(trace := s.trace + SetupEvents()), Ok(()))
  {
    var (s1, r1) := RabbitMq.AssertExchange(s, LogExchange, RabbitMq.Topic);
    if r1.Err? then (s1, r1) else
    var (s2, r2) := RabbitMq.AssertQueue(s1, LogQueue);
    if r2.Err? then (s2, r2) else
    var (s3, r3) := RabbitMq.BindQueue(s2, LogQueue, LogExchange, LogRoutingKey);
    if r3.Err? then (s3, r3) else
    assert s3.trace + [RabbitMq.Consuming(LogQueue, false)] == s.trace + SetupEvents();
    RabbitMq.Consume(s3, LogQueue)
  }

  /** How the handling of one callback invocation ends. `Unsettled` is a
      message that neither `ack` nor `nack` could settle: both throw without
      a channel, and the rejection of the detached handler goes unobserved. */
  datatype Outcome = Ignored | Acknowledged | Rejected | Unsettled

  /** The `catch` branch: `nack` without requeueing. */
  function Reject(s: RabbitMq.Service, m: RabbitMq.Delivery): (r: (RabbitMq.Service, Outcome))
    ensures s.channel.Some? ==> r == (RabbitMq.Issue(s, RabbitMq.Nacked(m.tag, false, false)), Rejected)
    ensures s.channel.None? ==> r == (s, Unsettled)
  {
    var (s', n) := RabbitMq.Nack(s, m, false);
    if n.Ok? then (s', Rejected) else (s', Unsettled)
  }

  /** The consume callback on `message` (`None` for the null the broker
      sends when it cancels the consumer). `parse` is `JSON.parse` of the
      content read as a `CreateLogDto`, `gen` what the use case's
      generators return. A throwing `ack` lands in the `catch` branch. */
  function HandleMessage(s: RabbitMq.Service, repo: LogRepository.Repository, message: Option<RabbitMq.Delivery>,
                         parse: string -> Option<UseCases.CreateLogDto>, gen: Fresh)
    : (r: (RabbitMq.Service, LogRepository.Repository, Outcome))
    ensures message.None? ==> r == (s, repo, Ignored)
    ensures r.2 == Ignored <==> message.None?
    ensures message.Some? && parse(message.value.content).None? ==> r.1 == repo
    ensures message.Some? && parse(message.value.content).Some? ==>
      r.1 == UseCases.CreateLog(repo, parse(message.value.content).value, gen).0
    ensures r.0.connection == s.connection && r.0.channel == s.channel
    ensures r.2 == Acknowledged <==>
      message.Some? && s.channel.Some? && parse(message.value.content).Some?
      && UseCases.CreateLog(repo, parse(message.value.content).value, gen).1.Ok?
    ensures r.2 == Unsettled <==> message.Some? && s.channel.None?
    ensures r.2 == Rejected ==> message.Some? && s.channel.Some?
    ensures message.Some? && s.channel.Some? ==>
      r.0.trace == s.trace + [if r.2 == Acknowledged then RabbitMq.Acked(message.value.tag)
                              else RabbitMq.Nacked(message.value.tag, false, false)]
    ensures s.channel.None? ==> r.0 == s
  {
    if message.None? then (s, repo, Ignored)
    else
      var m := message.value;
      match parse(m.content)
      case None =>
        var (s', o) := Reject(s, m);
        (s', repo, o)
      case Some(dto) =>
        var (repo', created) := UseCases.CreateLog(repo, dto, gen);
        if created.Err? then
          var (s', o) := Reject(s, m);
          (s', repo', o)
        else
          var (s1, a) := RabbitMq.Ack(s, m);
          if a.Ok? then (s1, repo', Acknowledged)
          else
            var (s', o) := Reject(s1, m);
            (s', repo', o)
  }

  /** The deliveries among the callback's arguments, in order. */
  function Deliveries(messages: seq<Option<RabbitMq.Delivery>>): (ds: seq<RabbitMq.Delivery>)
    ensures |ds| <= |messages|
  {
    if messages == [] then []
    else if messages[0].None? then Deliveries(messages[1..])
    else [messages[0].value] + Deliveries(messages[1..])
  }

  /** The callback run on each message in turn, message `i` with
      generators `gens[i]`. */
  function HandleAll(s: RabbitMq.Service, repo: LogRepository.Repository, messages: seq<Option<RabbitMq.Delivery>>,
                     parse: string -> Option<UseCases.CreateLogDto>, gens: seq<Fresh>)
    : (RabbitMq.Service, LogRepository.Repository)
    requires |gens| == |messages|
    decreases |messages|
  {
    if messages == [] then (s, repo)
    else
      var (s1, repo1, _) := HandleMessage(s, repo, messages[0], parse, gens[0]);
      HandleAll(s1, repo1, messages[1..], parse, gens[1..])
  }

  /** A settlement that never requeues. */
  predicate SettlesWithoutRequeue(e: RabbitMq.Event, m: RabbitMq.Delivery) {
    e == RabbitMq.Acked(m.tag) || e == RabbitMq.Nacked(m.tag, false, false)
  }

  /** `events` settle `ds` one for one, in order, none of them requeueing. */
  predicate SettlesAll(events: seq<RabbitMq.Event>, ds: seq<RabbitMq.Delivery>) {
    |events| == |ds| && forall k :: 0 <= k < |ds| ==> SettlesWithoutRequeue(events[k], ds[k])
  }

  lemma SettlesCons(e: RabbitMq.Event, d: RabbitMq.Delivery, events: seq<RabbitMq.Event>, ds: seq<RabbitMq.Delivery>)
    requires SettlesWithoutRequeue(e, d) && SettlesAll(events, ds)
    ensures SettlesAll([e] + events, [d] + ds)
  {
    forall k | 0 <= k < |ds| + 1
      ensures SettlesWithoutRequeue(([e] + events)[k], ([d] + ds)[k])
    {
      if k > 0 {
        assert ([e] + events)[k] == events[k - 1] && ([d] + ds)[k] == ds[k - 1];
      }
    }
  }

  /** A trace that extends `b`, itself `a` plus one event, continues `a`
      with that event and then the rest. */
  lemma SuffixSplit<T>(a: seq<T>, b: seq<T>, c: seq<T>)
    requires |b| == |a| + 1 && b[..|a|] == a && |b| <= |c| && c[..|b|] == b
    ensures c[..|a|] == a && c[|a|..] == [b[|a|]] + c[|b|..]
  {
    assert c[..|a|] == c[..|b|][..|a|];
  }

  /** Over any run of messages, with a channel every delivery is settled
      exactly once, in delivery order, by an `ack` or by a `nack` that does
      not requeue, and nothing else is issued; without a channel nothing is
      issued at all. */
  lemma HandleAllSettles(s: RabbitMq.Service, repo: LogRepository.Repository,
                         messages: seq<Option<RabbitMq.Delivery>>,
                         parse: string -> Option<UseCases.CreateLogDto>, gens: seq<Fresh>)
    requires |gens| == |messages|
    ensures var s' := HandleAll(s, repo, messages, parse, gens).0;
      s'.connection == s.connection && s'.channel == s.channel
      && (s.channel.None? ==> s' == s)
      && (s.channel.Some? ==>
            |s.trace| <= |s'.trace| && s'.trace[..|s.trace|] == s.trace
            && SettlesAll(s'.trace[|s.trace|..], Deliveries(messages)))
  {
    if s.channel.None? {
      HandleAllWithoutChannel(s, repo, messages, parse, gens);
    } else {
      HandleAllWithChannel(s, repo, messages, parse, gens);
    }
  }

  lemma {:induction false} HandleAllWithoutChannel(s: RabbitMq.Service, repo: LogRepository.Repository,
                                                   messages: seq<Option<RabbitMq.Delivery>>,
                                                   parse: string -> Option<UseCases.CreateLogDto>, gens: seq<Fresh>)
    requires |gens| == |messages| && s.channel.None?
    ensures HandleAll(s, repo, messages, parse, gens).0 == s
    decreases |messages|
  {
    if messages != [] {
      var (s1, repo1, _) := HandleMessage(s, repo, messages[0], parse, gens[0]);
      HandleAllWithoutChannel(s1, repo1, messages[1..], parse, gens[1..]);
    }
  }

  lemma {:induction false} HandleAllWithChannel(s: RabbitMq.Service, repo: LogRepository.Repository,
                                                messages: seq<Option<RabbitMq.Delivery>>,
                                                parse: string -> Option<UseCases.CreateLogDto>, gens: seq<Fresh>)
    requires |gens| == |messages| && s.channel.Some?
    ensures var s' := HandleAll(s, repo, messages, parse, gens).0;
      s'.connection == s.connection && s'.channel == s.channel
      && |s.trace| <= |s'.trace| && s'.trace[..|s.trace|] == s.trace
      && SettlesAll(s'.trace[|s.trace|..], Deliveries(messages))
    decreases |messages|
  {
    if messages != [] {
      var (s1, repo1, _) := HandleMessage(s, repo, messages[0], parse, gens[0]);
      HandleAllWithChannel(s1, repo1, messages[1..], parse, gens[1..]);
      var s' := HandleAll(s1, repo1, messages[1..], parse, gens[1..]).0;
      if messages[0].Some? {
        SuffixSplit(s.trace, s1.trace, s'.trace);
        SettlesCons(s1.trace[|s.trace|], messages[0].value, s'.trace[|s1.trace|..], Deliveries(messages[1..]));
      }
    }
  }
}
