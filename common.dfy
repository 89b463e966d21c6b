/**
 * Vocabulary shared by every part of the upload widget: a file as the core
 * sees it, the status and intent of an item, and the settled value of the
 * asynchronous callbacks the host supplies.
 */
module Common {

  datatype Option<T> = None | Some(value: T)

  /** A file reduced to what the core reads: its name and its MIME type. */
  datatype FileRef = FileRef(name: string, mime: string)

  /** `'loading' | 'success' | 'error'`. */
  datatype Status = Loading | Success | Error

  /** `'upload' | 'delete'`: the operation an item is associated with. */
  datatype Intent = Upload | Delete

  /**
   * The value a rejected promise carries, reduced to what the code does with
   * it: a value with a string form (a string, an `Error`, ...), or one of the
   * two nullish values.
   */
  datatype Rejection = Thrown(text: string) | Undefined | Null

  /** How a host callback settled. */
  datatype Outcome<T> = Resolved(value: T) | Rejected(reason: Rejection)

  /** JavaScript's `String(e)`: total, nullish values print their own name. */
  function StringOf(e: Rejection): (s: string)
    ensures e.Thrown? ==> s == e.text
    ensures e.Undefined? ==> s == "undefined"
    ensures e.Null? ==> s == "null"
  {
    match e
    case Thrown(text) => text
    case Undefined => "undefined"
    case Null => "null"
  }

  /**
   * A rejection stored as is in a `message?: string` field: a nullish value
   * reads as an absent message wherever the field is read through `??`.
   */
  function RawMessage(e: Rejection): (r: Option<string>)
    ensures r.None? <==> !e.Thrown?
    ensures r.Some? ==> r.value == StringOf(e)
  {
    if e.Thrown? then Some(e.text) else None
  }
}
