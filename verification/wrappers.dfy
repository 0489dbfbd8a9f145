/** Failure-compatible result types shared by every module of the model. */
module Wrappers {

  /** A value that may be absent: JavaScript's `undefined`/`null` for an optional field. */
  datatype Option<+T> = None | Some(value: T)

  /** The request-level errors the handlers answer with (HTTP 400, 403, 404 and 500). */
  datatype Error = BadRequest(reason: string) | Forbidden(reason: string) | NotFound(reason: string) | ServerError(reason: string)

  /** Either a value or one of the errors above. */
  datatype Result<+T> = Ok(value: T) | Err(error: Error)

  /** JavaScript truthiness of an optional string: absent and "" are falsy. */
  predicate Truthy(s: Option<string>)
  {
    s.Some? && s.value != ""
  }

  /**
   * A value that is a string when it is set, where the code compares it with
   * `===`: `undefined` (a missing body property or document field), `null`,
   * or a string. Strict equality tells all three apart.
   */
  datatype Text = Undefined | Null | Str(s: string)

  /** JavaScript truthiness of a `Text`: only a non-empty string is truthy. */
  predicate TruthyText(t: Text)
  {
    t.Str? && t.s != ""
  }

  /**
   * The value the database driver writes for a property the handler set:
   * `undefined` is serialized as `null`, anything else as itself.
   */
  function Stored(t: Text): (r: Text)
    ensures r != Undefined
    ensures t != Undefined ==> r == t
  {
    if t == Undefined then Null else t
  }

  /** A `Text` where `null` and `undefined` need not be told apart. */
  function ToOption(t: Text): (o: Option<string>)
    ensures o.Some? <==> t.Str?
    ensures o.Some? ==> o.value == t.s
  {
    if t.Str? then Some(t.s) else None
  }
}
