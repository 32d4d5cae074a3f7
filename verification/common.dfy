/** Types shared by the user, authorization and blog models. */
module Common {

  /** An optional value: a document field that may be absent. */
  datatype Option<+T> = None | Some(value: T)

  /** A document identifier (a database object id, compared by value). */
  type Id = nat

  /** A point in time, in milliseconds since the epoch, as `Date.now()` returns it. */
  type Millis = int
}
