/**
 * The per-field error record the account forms keep in React state
 * (`Partial<FormData>`), and the way a caught exception becomes the message
 * the form shows.
 */
module FormErrors {

  /** What an error record holds for a field: a message, the bare `true` the
      sign-up form stores for unaccepted terms, or the `undefined` written
      back when the user edits the field (the key stays in the record). */
  datatype ErrorValue = Message(text: string) | Flag | Cleared

  /** JavaScript truthiness of a stored value. */
  predicate Truthy(v: ErrorValue) {
    match v
    case Message(text) => text != []
    case Flag => true
    case Cleared => false
  }

  /** `errors[field]` is truthy: the form shows an error under the field. */
  predicate HasError<F>(errors: map<F, ErrorValue>, field: F) {
    field in errors && Truthy(errors[field])
  }

  /** The error reset of a change handler: a shown error is overwritten by
      `undefined`; a record that shows none for the field is left as it is. */
  function ClearField<F>(errors: map<F, ErrorValue>, field: F): (r: map<F, ErrorValue>)
    ensures !HasError(r, field)
    ensures r.Keys == errors.Keys
    ensures forall g | g in r && g != field :: r[g] == errors[g]
    ensures HasError(errors, field) ==> r[field] == Cleared
  {
    if HasError(errors, field) then errors[field := Cleared] else errors
  }

  /** What an `await`ed call can reject with: an `Error` object, or any other
      thrown value. */
  datatype Thrown = ErrorObject(message: string) | OtherValue

  /** `error instanceof Error ? error.message : fallback`. */
  function ShownMessage(t: Thrown, fallback: string): string {
    match t
    case ErrorObject(message) => message
    case OtherValue => fallback
  }

  /** What an awaited authentication call does. */
  datatype AuthOutcome = Resolved | Rejected(thrown: Thrown)
}
