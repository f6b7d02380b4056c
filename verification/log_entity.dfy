/** The `Log` value type: one immutable log event, the defaults its
    constructor applies, and its derived storage partition key. */
module LogEntity {
  import opened Wrappers
  import opened Strings
  import Calendar
  import JsDate
  import Json

  /** The four severities; each is represented by its own name. */
  datatype LogLevel = DEBUG | INFO | WARN | ERROR

  function LevelName(l: LogLevel): string {
    match l
    case DEBUG => "DEBUG"
    case INFO => "INFO"
    case WARN => "WARN"
    case ERROR => "ERROR"
  }

  /** The level whose string value is `s`, if any. */
  function ParseLevel(s: string): Option<LogLevel> {
    if s == "DEBUG" then Some(DEBUG)
    else if s == "INFO" then Some(INFO)
    else if s == "WARN" then Some(WARN)
    else if s == "ERROR" then Some(ERROR)
    else None
  }

  /** A level's name reads back as that level and no other string names it:
      the enum has exactly the four values DEBUG, INFO, WARN and ERROR. */
  lemma LevelNames(s: string, l: LogLevel)
    ensures ParseLevel(s) == Some(l) <==> LevelName(l) == s
    ensures ParseLevel(s).Some? <==> s in {"DEBUG", "INFO", "WARN", "ERROR"}
  {
  }

  /** A log identifier; the constructor never leaves it empty. */
  type Id = s: string | s != "" witness "0"

  type Metadata = Json.Record

  /** Constructor input; `None` is a property left `undefined`. */
  datatype LogProps = LogProps(
    id: Option<string>,
    level: LogLevel,
    message: string,
    context: Option<string>,
    timestamp: Option<int>,
    metadata: Option<Metadata>)

  /** What `randomUUID()` and `new Date()` return when the constructor
      consults them. */
  datatype Fresh = Fresh(uuid: Id, now: int)

  /** A constructed log. Its fields are fixed at construction and each getter
      returns its field, so a field access is the getter. */
  datatype Log = Log(
    id: Id,
    level: LogLevel,
    message: string,
    context: string,
    timestamp: int,
    metadata: Metadata,
    partitionDate: string)

  /** `formatPartitionDate`: local year unpadded, then month and day padded to
      two digits, joined by dashes. */
  function FormatPartitionDate(t: int, zone: JsDate.ZoneOffset): string {
    DateKey(JsDate.LocalDate(t, zone))
  }

  /** The partition key of a calendar date. */
  function DateKey(d: Calendar.Date): string
    requires Calendar.ValidDate(d)
  {
    IntToString(d.year) + "-" + PadStart(NatToString(d.month), 2, '0')
      + "-" + PadStart(NatToString(d.day), 2, '0')
  }

  /** What every constructed log satisfies: a non-empty context and the
      partition key derived from its own timestamp. */
  predicate WellFormed(log: Log, zone: JsDate.ZoneOffset) {
    log.context != "" && log.partitionDate == FormatPartitionDate(log.timestamp, zone)
  }

  /** JavaScript's `s || fallback` for an optional string: an empty string
      counts as absent. */
  function OrElse(s: Option<string>, fallback: string): string {
    if s.Some? && s.value != "" then s.value else fallback
  }

  /** `new Log(props)`. */
  function NewLog(props: LogProps, zone: JsDate.ZoneOffset, gen: Fresh): (log: Log)
    ensures WellFormed(log, zone)
    ensures props.id.Some? && props.id.value != "" ==> log.id == props.id.value
    ensures props.id.None? || props.id == Some("") ==> log.id == gen.uuid
    ensures props.context.Some? && props.context.value != "" ==> log.context == props.context.value
    ensures props.context.None? || props.context == Some("") ==> log.context == "default"
    ensures props.timestamp.Some? ==> log.timestamp == props.timestamp.value
    ensures props.timestamp.None? ==> log.timestamp == gen.now
    ensures props.metadata.Some? ==> log.metadata == props.metadata.value
    ensures props.metadata.None? ==> log.metadata == map[]
    ensures log.level == props.level && log.message == props.message
  {
    var id: Id := if props.id.Some? && props.id.value != "" then props.id.value else gen.uuid;
    var timestamp := props.timestamp.GetOr(gen.now);
    Log(id, props.level, props.message, OrElse(props.context, "default"), timestamp,
        props.metadata.GetOr(map[]), FormatPartitionDate(timestamp, zone))
  }

  /** The constructor input that the getters of `log` describe. */
  function PropsOf(log: Log): LogProps {
    LogProps(Some(log.id), log.level, log.message, Some(log.context), Some(log.timestamp), Some(log.metadata))
  }

  /** Rebuilding a log from its own getters gives the same log, whatever the
      generators would have produced: this is what lets a stored log be read
      back unchanged. */
  lemma RebuildFromGetters(log: Log, zone: JsDate.ZoneOffset, gen: Fresh)
    requires WellFormed(log, zone)
    ensures NewLog(PropsOf(log), zone, gen) == log
  {
  }

  /** With an id and a timestamp supplied, the generators are never consulted. */
  lemma SuppliedIdentityWins(props: LogProps, zone: JsDate.ZoneOffset, f: Fresh, g: Fresh)
    requires props.id.Some? && props.id.value != "" && props.timestamp.Some?
    ensures NewLog(props, zone, f) == NewLog(props, zone, g)
  {
  }

  /** `new Log(...)` from stored columns: the id and timestamp are supplied, so
      neither generator is consulted and only the context and partition key
      are derived. */
  function Restore(id: Id, level: LogLevel, message: string, context: string, timestamp: int,
                   metadata: Metadata, zone: JsDate.ZoneOffset): (log: Log)
    ensures WellFormed(log, zone)
    ensures log.id == id && log.level == level && log.message == message
    ensures log.timestamp == timestamp && log.metadata == metadata
    ensures log.context == if context == "" then "default" else context
    ensures forall gen: Fresh ::
      NewLog(LogProps(Some(id), level, message, Some(context), Some(timestamp), Some(metadata)), zone, gen) == log
  {
    NewLog(LogProps(Some(id), level, message, Some(context), Some(timestamp), Some(metadata)), zone, Fresh(id, timestamp))
  }

  /** Restoring the columns of a constructed log gives that log back. */
  lemma RestoreOfLog(log: Log, zone: JsDate.ZoneOffset)
    requires WellFormed(log, zone)
    ensures Restore(log.id, log.level, log.message, log.context, log.timestamp, log.metadata, zone) == log
  {
  }

  /** For years 1000 to 9999 the partition key has the `\d{4}-\d{2}-\d{2}`
      shape (ten characters, dashes at positions 4 and 7, digits elsewhere)
      and its fields read back as the local date of the timestamp. */
  lemma PartitionDateShape(t: int, zone: JsDate.ZoneOffset)
    requires 1000 <= JsDate.LocalDate(t, zone).year <= 9999
    ensures var p := FormatPartitionDate(t, zone);
      |p| == 10 && p[4] == '-' && p[7] == '-'
      && (forall i :: 0 <= i < 10 && i != 4 && i != 7 ==> IsDigit(p[i]))
      && JsDate.IsDateOnlyForm(p) && JsDate.DateOnlyFields(p) == JsDate.LocalDate(t, zone)
  {
    DateKeyShape(JsDate.LocalDate(t, zone));
  }

  lemma DateKeyShape(d: Calendar.Date)
    requires Calendar.ValidDate(d) && 1000 <= d.year <= 9999
    ensures var p := DateKey(d);
      |p| == 10 && p[4] == '-' && p[7] == '-'
      && (forall i :: 0 <= i < 10 && i != 4 && i != 7 ==> IsDigit(p[i]))
      && JsDate.IsDateOnlyForm(p) && JsDate.DateOnlyFields(p) == d
  {
    var p := DateKey(d);
    var y, m, dd := IntToString(d.year), PadStart(NatToString(d.month), 2, '0'), PadStart(NatToString(d.day), 2, '0');
    assert p == y + "-" + m + "-" + dd;
    assert p[..4] == y && p[5..7] == m && p[8..] == dd;
    NatToStringRoundTrip(d.year);
    ZeroPadRoundTrip(d.month, 2);
    ZeroPadRoundTrip(d.day, 2);
    assert forall i :: 0 <= i < 4 ==> p[i] == y[i];
    assert forall i :: 5 <= i < 7 ==> p[i] == m[i - 5];
    assert forall i :: 8 <= i < 10 ==> p[i] == dd[i - 8];
  }

  /** The partition key splits back into its year, month and day texts: the
      month and day are the last five characters around the final dash. */
  lemma DateKeyParts(d: Calendar.Date)
    requires Calendar.ValidDate(d)
    ensures var p := DateKey(d);
      |p| >= 7 && p[..|p| - 6] == IntToString(d.year)
      && p[|p| - 5..|p| - 3] == ZeroPad(d.month, 2) && p[|p| - 2..] == ZeroPad(d.day, 2)
  {
    var y, m, dd := IntToString(d.year), ZeroPad(d.month, 2), ZeroPad(d.day, 2);
    assert DateKey(d) == y + "-" + m + "-" + dd;
  }

  /** Distinct dates have distinct keys, in every year. */
  lemma DateKeyInjective(d: Calendar.Date, e: Calendar.Date)
    requires Calendar.ValidDate(d) && Calendar.ValidDate(e)
    requires DateKey(d) == DateKey(e)
    ensures d == e
  {
    DateKeyParts(d);
    DateKeyParts(e);
    IntToStringInjective(d.year, e.year);
    ZeroPadRoundTrip(d.month, 2);
    ZeroPadRoundTrip(e.month, 2);
    ZeroPadRoundTrip(d.day, 2);
    ZeroPadRoundTrip(e.day, 2);
  }

  /** Two instants share a partition key exactly when they fall on the same
      local day, in every year. */
  lemma PartitionDateIdentifiesDay(t: int, u: int, zone: JsDate.ZoneOffset)
    ensures FormatPartitionDate(t, zone) == FormatPartitionDate(u, zone)
            <==> JsDate.LocalDayNumber(t, zone) == JsDate.LocalDayNumber(u, zone)
  {
    JsDate.SameLocalDate(t, u, zone);
    if FormatPartitionDate(t, zone) == FormatPartitionDate(u, zone) {
      DateKeyInjective(JsDate.LocalDate(t, zone), JsDate.LocalDate(u, zone));
    }
  }

  /** A well-formed `YYYY-MM-DD` key of a year from 1000 to 9999 is the
      partition key of exactly the instants whose local date it names. */
  lemma PartitionDateNamesDate(t: int, zone: JsDate.ZoneOffset, key: string)
    requires JsDate.IsDateOnlyForm(key) && 1000 <= JsDate.DateOnlyFields(key).year <= 9999
    ensures FormatPartitionDate(t, zone) == key <==> JsDate.LocalDate(t, zone) == JsDate.DateOnlyFields(key)
  {
    DateKeyNames(JsDate.LocalDate(t, zone), key);
  }

  lemma DateKeyNames(d: Calendar.Date, key: string)
    requires Calendar.ValidDate(d)
    requires JsDate.IsDateOnlyForm(key) && 1000 <= JsDate.DateOnlyFields(key).year <= 9999
    ensures DateKey(d) == key <==> d == JsDate.DateOnlyFields(key)
  {
    if 1000 <= d.year <= 9999 {
      DateKeyShape(d);
      if d == JsDate.DateOnlyFields(key) {
        JsDate.DateOnlyFormUnique(DateKey(d), key);
      }
    } else if DateKey(d) == key {
      DateKeyParts(d);
      assert false;
    }
  }

  /** The seven-field projection `toJSON` returns (and the shape of the API's
      log response). */
  datatype LogJson = LogJson(
    id: string,
    level: LogLevel,
    message: string,
    context: string,
    timestamp: string,
    metadata: Metadata,
    partitionDate: string)

  function ToJson(log: Log): LogJson {
    LogJson(log.id, log.level, log.message, log.context, JsDate.ToIsoString(log.timestamp),
            log.metadata, log.partitionDate)
  }

  /** `toJSON` carries every getter's value; its timestamp text names the
      log's instant and no other, and on a UTC host its date part is the
      partition key. */
  lemma ToJsonFaithful(log: Log, other: Log, zone: JsDate.ZoneOffset)
    requires WellFormed(log, zone)
    requires 0 <= JsDate.LocalDate(log.timestamp, 0).year <= 9999
    requires 0 <= JsDate.LocalDate(other.timestamp, 0).year <= 9999
    ensures var j := ToJson(log);
      j.id == log.id && j.level == log.level && j.message == log.message && j.context == log.context
      && j.metadata == log.metadata && j.partitionDate == log.partitionDate
      && (ToJson(other).timestamp == j.timestamp <==> other.timestamp == log.timestamp)
      && (zone == 0 && 1000 <= JsDate.LocalDate(log.timestamp, 0).year ==> j.timestamp[..10] == j.partitionDate)
  {
    if ToJson(other).timestamp == ToJson(log).timestamp {
      JsDate.ToIsoStringInjective(other.timestamp, log.timestamp);
    }
    if zone == 0 && 1000 <= JsDate.LocalDate(log.timestamp, 0).year {
      PartitionDateShape(log.timestamp, 0);
      JsDate.ToIsoStringFields(log.timestamp);
      JsDate.DateOnlyFormUnique(JsDate.ToIsoString(log.timestamp)[..10], log.partitionDate);
    }
  }
}
