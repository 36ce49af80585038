/**
  JavaScript values the wall's code tests: optional fields (absent, `null`
  or `undefined` as `None`), the truthiness of an optional string, and the
  value a `catch` clause receives.
 */
module JsValues {

  datatype Option<T> = None | Some(value: T)

  /** `if (x)` on a `string | null | undefined`: present and not `""`. */
  predicate Truthy(x: Option<string>) {
    x.Some? && x.value != []
  }

  /** What a `catch (error)` receives: an `Error` with its message, or
      anything else that was thrown. */
  datatype Thrown = ErrorObject(message: string) | OtherThrown

  /** `error instanceof Error ? error.message : fallback`. */
  function MessageOr(e: Thrown, fallback: string): string {
    match e
    case ErrorObject(message) => message
    case OtherThrown => fallback
  }

  /** How an awaited call ended: it resolved, or it threw. */
  datatype Outcome = Resolved | Threw(error: Thrown)
}
