/** `RabbitMQService`: one connection and one channel to the broker, opened by
    a bounded retry loop, guarded operations that forward to the channel with
    fixed options, and an ordered teardown. The broker itself is not
    modelled: each command the service issues on the channel is appended to
    the service's trace, and what the broker answers is a parameter. */
module RabbitMq {
  import opened Wrappers
  import Json

  /** The default number of connection attempts. */
  const DefaultRetries: int := 5

  /** The pause after a failed attempt that is not the last, in milliseconds. */
  const RetryDelayMs: nat := 5000

  /** The error of `publish`, `sendToQueue`, `ack` and `nack` without a channel. */
  const ChannelMissing: string := "RabbitMQ channel not initialized"

  /** The error of the operations guarded by `ensureChannel`. */
  const ChannelNotStarted: string := "RabbitMQ channel not initialized. Service may not have started correctly."

  /** The content type of every published message. */
  const JsonContentType: string := "application/json"

  datatype ExchangeKind = Direct | Topic | Fanout | Headers

  /** Opaque handles for the objects the client library returns. */
  datatype Connection = Connection(handle: nat)
  datatype Channel = Channel(handle: nat)

  /** A message the broker delivered; the tag identifies it to `ack`/`nack`. */
  datatype Delivery = Delivery(tag: nat, content: string)

  /** What the service did, in order: waits of the retry loop and the
      commands it issued, with the options it passed. */
  datatype Event =
    | Waited(ms: nat)
    | ExchangeAsserted(exchange: string, kind: ExchangeKind, durable: bool)
    | QueueAsserted(queue: string, durable: bool)
    | QueueBound(queue: string, exchange: string, routingKey: string)
    | Published(exchange: string, routingKey: string, content: string, persistent: bool, contentType: string)
    | SentToQueue(queue: string, content: string, persistent: bool, contentType: string)
    | Consuming(queue: string, noAck: bool)
    | Acked(tag: nat)
    | Nacked(tag: nat, allUpTo: bool, requeue: bool)
    | ChannelClosed
    | ConnectionClosed

  /** The service's two fields (absent until set) and its trace. */
  datatype Service = Service(connection: Option<Connection>, channel: Option<Channel>, trace: seq<Event>)

  /** What one connection attempt turns out to be: `amqp.connect` throws, or
      it succeeds and `createChannel` throws, or both succeed. */
  datatype Attempt =
    | ConnectFailed(reason: string)
    | ChannelFailed(connection: Connection, reason: string)
    | Opened(connection: Connection, channel: Channel)

  /** `n` retry pauses. */
  function Waits(n: nat): (r: seq<Event>)
    ensures |r| == n && forall i :: 0 <= i < n ==> r[i] == Waited(RetryDelayMs)
  {
    if n == 0 then [] else Waits(n - 1) + [Waited(RetryDelayMs)]
  }

  /** The `connection` field after the first `n` attempts: each attempt whose
      `amqp.connect` succeeded overwrites it. */
  function ConnectionAfter(start: Option<Connection>, outcome: nat -> Attempt, n: nat): (c: Option<Connection>)
    ensures c.None? ==> start.None?
    ensures n > 0 && !outcome(n - 1).ConnectFailed? ==> c == Some(outcome(n - 1).connection)
  {
    if n == 0 then start
    else match outcome(n - 1)
      case ConnectFailed(_) => ConnectionAfter(start, outcome, n - 1)
      case ChannelFailed(c, _) => Some(c)
      case Opened(c, _) => Some(c)
  }

  /** `connect(url, retries)`, with `outcome(i)` the result of attempt `i`
      against the broker at `url`. `attempts` is how many attempts were
      made. */
  method Connect(s: Service, retries: int, outcome: nat -> Attempt)
    returns (s': Service, r: Result<(), string>, attempts: nat)
    ensures retries <= 0 ==> attempts == 0 && r.Ok? && s' == s
    ensures retries > 0 ==> 1 <= attempts <= retries
    ensures forall k :: 0 <= k < attempts - 1 ==> !outcome(k).Opened?
    ensures r.Ok? && attempts > 0 ==>
      outcome(attempts - 1).Opened? && s'.channel == Some(outcome(attempts - 1).channel)
    ensures r.Err? <==> retries > 0 && forall k :: 0 <= k < retries ==> !outcome(k).Opened?
    ensures r.Err? ==> attempts == retries && r.error == outcome(retries - 1).reason && s'.channel == s.channel
    ensures s'.connection == ConnectionAfter(s.connection, outcome, attempts)
    ensures attempts > 0 ==> s'.trace == s.trace + Waits(attempts - 1)
  {
    s', r, attempts := s, Ok(()), 0;
    var i := 0;
    while i < retries
      invariant 0 <= i && (retries > 0 ==> i < retries) && (retries <= 0 ==> i == 0) && attempts == i
      invariant forall k :: 0 <= k < i ==> !outcome(k).Opened?
      invariant s'.connection == ConnectionAfter(s.connection, outcome, i)
      invariant s'.channel == s.channel
      invariant s'.trace == s.trace + Waits(i)
      decreases retries - i
    {
      attempts := i + 1;
      match outcome(i) {
        case Opened(c, ch) =>
          s' := s'.(connection := Some(c), channel := Some(ch));
          return;
        case ChannelFailed(c, e) =>
          s' := s'.(connection := Some(c));
          if i == retries - 1 {
            r := Err(e);
            return;
          }
        case ConnectFailed(e) =>
          if i == retries - 1 {
            r := Err(e);
            return;
          }
      }
      s' := s'.(trace := s'.trace + [Waited(RetryDelayMs)]);
      i := i + 1;
    }
  }

  /** `onModuleInit`: `connect` with the default number of attempts. */
  method OnModuleInit(s: Service, outcome: nat -> Attempt) returns (s': Service, r: Result<(), string>)
    ensures r.Ok? <==> exists k :: 0 <= k < DefaultRetries && outcome(k).Opened?
    ensures r.Ok? ==> s'.channel.Some?
    ensures r.Err? ==>
      r.error == outcome(DefaultRetries - 1).reason && s'.trace == s.trace + Waits(DefaultRetries - 1)
  {
    var attempts;
    s', r, attempts := Connect(s, DefaultRetries, outcome);
  }

  /** `ensureChannel`. */
  function EnsureChannel(s: Service): (r: Result<(), string>)
    ensures r.Ok? <==> s.channel.Some?
    ensures r.Err? ==> r.error == ChannelNotStarted
  {
    if s.channel.None? then Err(ChannelNotStarted) else Ok(())
  }

  /** Issues one command on the channel. */
  function Issue(s: Service, e: Event): (s': Service)
    ensures s'.connection == s.connection && s'.channel == s.channel
    ensures s'.trace == s.trace + [e]
  {
    s.(trace := s.trace + [e])
  }

  /** `assertQueue(queue)`: a durable queue. */
  function AssertQueue(s: Service, queue: string): (r: (Service, Result<(), string>))
    ensures s.channel.None? ==> r == (s, Err(ChannelNotStarted))
    ensures s.channel.Some? ==> r == (Issue(s, QueueAsserted(queue, true)), Ok(()))
  {
    if EnsureChannel(s).Err? then (s, Err(EnsureChannel(s).error))
    else (Issue(s, QueueAsserted(queue, true)), Ok(()))
  }

  /** `assertExchange(exchange, type)`: a durable exchange. */
  function AssertExchange(s: Service, exchange: string, kind: ExchangeKind): (r: (Service, Result<(), string>))
    ensures s.channel.None? ==> r == (s, Err(ChannelNotStarted))
    ensures s.channel.Some? ==> r == (Issue(s, ExchangeAsserted(exchange, kind, true)), Ok(()))
  {
    if EnsureChannel(s).Err? then (s, Err(EnsureChannel(s).error))
    else (Issue(s, ExchangeAsserted(exchange, kind, true)), Ok(()))
  }

  /** `bindQueue(queue, exchange, routingKey)`. */
  function BindQueue(s: Service, queue: string, exchange: string, routingKey: string): (r: (Service, Result<(), string>))
    ensures s.channel.None? ==> r == (s, Err(ChannelNotStarted))
    ensures s.channel.Some? ==> r == (Issue(s, QueueBound(queue, exchange, routingKey)), Ok(()))
  {
    if EnsureChannel(s).Err? then (s, Err(EnsureChannel(s).error))
    else (Issue(s, QueueBound(queue, exchange, routingKey)), Ok(()))
  }

  /** `consume(queue, callback)`: manual acknowledgement. The callback is
      the consumer's message handler, modelled on its own. */
  function Consume(s: Service, queue: string): (r: (Service, Result<(), string>))
    ensures s.channel.None? ==> r == (s, Err(ChannelNotStarted))
    ensures s.channel.Some? ==> r == (Issue(s, Consuming(queue, false)), Ok(()))
  {
    if EnsureChannel(s).Err? then (s, Err(EnsureChannel(s).error))
    else (Issue(s, Consuming(queue, false)), Ok(()))
  }

  /** `publish(exchange, routingKey, message)`: the message's JSON text,
      persistent, as `application/json`; the answer is the channel's
      `publish` result, `accepted`. */
  function Publish<T>(s: Service, exchange: string, routingKey: string, message: T,
                      stringify: T -> string, accepted: bool): (r: (Service, Result<bool, string>))
    ensures s.channel.None? ==> r == (s, Err(ChannelMissing))
    ensures s.channel.Some? ==>
      r == (Issue(s, Published(exchange, routingKey, stringify(message), true, JsonContentType)), Ok(accepted))
  {
    if s.channel.None? then (s, Err(ChannelMissing))
    else (Issue(s, Published(exchange, routingKey, stringify(message), true, JsonContentType)), Ok(accepted))
  }

  /** `sendToQueue(queue, message)`: as `publish`, straight to a queue. */
  function SendToQueue<T>(s: Service, queue: string, message: T, stringify: T -> string, accepted: bool)
    : (r: (Service, Result<bool, string>))
    ensures s.channel.None? ==> r == (s, Err(ChannelMissing))
    ensures s.channel.Some? ==>
      r == (Issue(s, SentToQueue(queue, stringify(message), true, JsonContentType)), Ok(accepted))
  {
    if s.channel.None? then (s, Err(ChannelMissing))
    else (Issue(s, SentToQueue(queue, stringify(message), true, JsonContentType)), Ok(accepted))
  }

  /** `ack(message)`. */
  function Ack(s: Service, m: Delivery): (r: (Service, Result<(), string>))
    ensures s.channel.None? ==> r == (s, Err(ChannelMissing))
    ensures s.channel.Some? ==> r == (Issue(s, Acked(m.tag)), Ok(()))
  {
    if s.channel.None? then (s, Err(ChannelMissing)) else (Issue(s, Acked(m.tag)), Ok(()))
  }

  /** `nack(message, requeue)`: never all-up-to; `requeue` defaults to false
      at the call sites that omit it. */
  function Nack(s: Service, m: Delivery, requeue: bool): (r: (Service, Result<(), string>))
    ensures s.channel.None? ==> r == (s, Err(ChannelMissing))
    ensures s.channel.Some? ==> r == (Issue(s, Nacked(m.tag, false, requeue)), Ok(()))
  {
    if s.channel.None? then (s, Err(ChannelMissing)) else (Issue(s, Nacked(m.tag, false, requeue)), Ok(()))
  }

  /** `onModuleDestroy`, with the outcome of each `close` (`None` when it
      resolves, the error when it rejects). The channel is closed before the
      connection, an absent one is skipped, a rejection ends the teardown,
      and the fields are not cleared. */
  function OnModuleDestroy(s: Service, channelClose: Option<string>, connectionClose: Option<string>)
    : (r: (Service, Result<(), string>))
    ensures r.0.connection == s.connection && r.0.channel == s.channel
    ensures |s.trace| <= |r.0.trace| <= |s.trace| + 2 && r.0.trace[..|s.trace|] == s.trace
    ensures s.channel.Some? && channelClose.Some? ==> r == (s, Err(channelClose.value))
    ensures r.1.Ok? <==> (s.channel.None? || channelClose.None?) && (s.connection.None? || connectionClose.None?)
    ensures r.1.Err? && !(s.channel.Some? && channelClose.Some?) ==> r.1 == Err(connectionClose.value)
    ensures ChannelClosed in r.0.trace[|s.trace|..] <==> s.channel.Some? && channelClose.None?
    ensures ConnectionClosed in r.0.trace[|s.trace|..] <==>
      s.connection.Some? && connectionClose.None? && (s.channel.None? || channelClose.None?)
    ensures s.channel.Some? && channelClose.None? ==> r.0.trace[..|s.trace| + 1] == s.trace + [ChannelClosed]
  {
    var closed := if s.channel.Some? && channelClose.None? then [ChannelClosed] else [];
    var s1 := s.(trace := s.trace + closed);
    if s.channel.Some? && channelClose.Some? then (s, Err(channelClose.value))
    else if s.connection.Some? && connectionClose.Some? then
      assert s1.trace[|s.trace|..] == closed;
      (s1, Err(connectionClose.value))
    else if s.connection.Some? then
      assert (s1.trace + [ConnectionClosed])[|s.trace|..] == closed + [ConnectionClosed];
      (Issue(s1, ConnectionClosed), Ok(()))
    else
      assert s1.trace[|s.trace|..] == closed;
      (s1, Ok(()))
  }

  /** A channel command without its service, for running several in turn. */
  datatype Command =
    | AssertQueueCmd(queue: string)
    | AssertExchangeCmd(exchange: string, kind: ExchangeKind)
    | BindQueueCmd(queue: string, exchange: string, routingKey: string)
    | ConsumeCmd(queue: string)
    | PublishCmd(exchange: string, routingKey: string, message: Json.Value)
    | SendToQueueCmd(queue: string, message: Json.Value)
    | AckCmd(m: Delivery)
    | NackCmd(m: Delivery, requeue: bool)

  /** One command through the service's own operation. */
  function Perform(s: Service, c: Command, stringify: Json.Value -> string, accepted: bool): (r: (Service, bool))
    ensures r.1 <==> s.channel.Some?
    ensures s.channel.Some? ==> r.0 == Issue(s, EventOf(c, stringify))
    ensures s.channel.None? ==> r.0 == s
  {
    match c
    case AssertQueueCmd(q) => var (s', r) := AssertQueue(s, q); (s', r.Ok?)
    case AssertExchangeCmd(x, k) => var (s', r) := AssertExchange(s, x, k); (s', r.Ok?)
    case BindQueueCmd(q, x, k) => var (s', r) := BindQueue(s, q, x, k); (s', r.Ok?)
    case ConsumeCmd(q) => var (s', r) := Consume(s, q); (s', r.Ok?)
    case PublishCmd(x, k, m) => var (s', r) := Publish(s, x, k, m, stringify, accepted); (s', r.Ok?)
    case SendToQueueCmd(q, m) => var (s', r) := SendToQueue(s, q, m, stringify, accepted); (s', r.Ok?)
    case AckCmd(m) => var (s', r) := Ack(s, m); (s', r.Ok?)
    case NackCmd(m, rq) => var (s', r) := Nack(s, m, rq); (s', r.Ok?)
  }

  /** The event a command issues on an open channel, with the options the
      service fixes: durable declarations, manual acknowledgement,
      persistent JSON messages, single-message negative acknowledgements. */
  function EventOf(c: Command, stringify: Json.Value -> string): Event {
    match c
    case AssertQueueCmd(q) => QueueAsserted(q, true)
    case AssertExchangeCmd(x, k) => ExchangeAsserted(x, k, true)
    case BindQueueCmd(q, x, k) => QueueBound(q, x, k)
    case ConsumeCmd(q) => Consuming(q, false)
    case PublishCmd(x, k, m) => Published(x, k, stringify(m), true, JsonContentType)
    case SendToQueueCmd(q, m) => SentToQueue(q, stringify(m), true, JsonContentType)
    case AckCmd(m) => Acked(m.tag)
    case NackCmd(m, rq) => Nacked(m.tag, false, rq)
  }

  /** Runs commands in order; the flags say which succeeded. */
  function Run(s: Service, cs: seq<Command>, stringify: Json.Value -> string, accepted: bool): (Service, seq<bool>)
    decreases |cs|
  {
    if cs == [] then (s, [])
    else
      var (s1, ok) := Perform(s, cs[0], stringify, accepted);
      var (s2, oks) := Run(s1, cs[1..], stringify, accepted);
      (s2, [ok] + oks)
  }

  /** The commands' events, in order. */
  function EventsOf(cs: seq<Command>, stringify: Json.Value -> string): (es: seq<Event>)
    ensures |es| == |cs| && forall i :: 0 <= i < |cs| ==> es[i] == EventOf(cs[i], stringify)
  {
    if cs == [] then [] else [EventOf(cs[0], stringify)] + EventsOf(cs[1..], stringify)
  }

  /** Run in turn, each command succeeds exactly when the service has a
      channel. */
  lemma {:induction false} RunResults(s: Service, cs: seq<Command>, stringify: Json.Value -> string, accepted: bool)
    ensures |Run(s, cs, stringify, accepted).1| == |cs|
    ensures forall i :: 0 <= i < |cs| ==> (Run(s, cs, stringify, accepted).1[i] <==> s.channel.Some?)
    decreases |cs|
  {
    if cs != [] {
      RunResults(Perform(s, cs[0], stringify, accepted).0, cs[1..], stringify, accepted);
    }
  }

  /** Without a channel, a run of commands leaves the service as it was. */
  lemma {:induction false} RunWithoutChannel(s: Service, cs: seq<Command>, stringify: Json.Value -> string, accepted: bool)
    requires s.channel.None?
    ensures Run(s, cs, stringify, accepted).0 == s
    decreases |cs|
  {
    if cs != [] {
      RunWithoutChannel(Perform(s, cs[0], stringify, accepted).0, cs[1..], stringify, accepted);
    }
  }

  /** With a channel, a run of commands grows the trace by exactly the
      commands' events, in order, with the fixed options, and leaves both
      fields as they were. */
  lemma {:induction false} RunWithChannel(s: Service, cs: seq<Command>, stringify: Json.Value -> string, accepted: bool)
    requires s.channel.Some?
    ensures Run(s, cs, stringify, accepted).0 == s.(trace := s.trace + EventsOf(cs, stringify))
    decreases |cs|
  {
    if cs != [] {
      RunWithChannel(Perform(s, cs[0], stringify, accepted).0, cs[1..], stringify, accepted);
      assert EventsOf(cs, stringify) == [EventOf(cs[0], stringify)] + EventsOf(cs[1..], stringify);
    }
  }
}
