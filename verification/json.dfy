/** JSON values and the host's `JSON.stringify`/`JSON.parse` pair, which the
    model receives from its caller instead of implementing. */
module Json {
  import opened Wrappers

  datatype Value =
    | Null
    | Bool(b: bool)
    | Number(n: int)
    | Text(s: string)
    | Array(items: seq<Value>)
    | Object(fields: map<string, Value>)

  /** A TypeScript `Record<string, unknown>` holding JSON values. */
  type Record = map<string, Value>

  /** `JSON.stringify` and `JSON.parse` (followed by a cast) at type `T`;
      `parse` yields `None` where `JSON.parse` throws a SyntaxError. */
  datatype Codec<!T> = Codec(stringify: T -> string, parse: string -> Option<T>)

  /** What JSON guarantees of the pair for the values the service sends through
      it: parsing the text of a value gives the value back, and the text is
      never empty (an object renders at least as `{}`). */
  ghost predicate Lawful<T(!new)>(c: Codec<T>) {
    forall x: T :: c.parse(c.stringify(x)) == Some(x) && c.stringify(x) != ""
  }
}
