/** Values shared by both resource routers: optional values, the outcome of a
    handler, and the records a handler answers with. */
module Common {

  datatype Option<+T> = None | Some(value: T) {
    /** The value, or `default` when there is none (a JavaScript default parameter). */
    function GetOr(default: T): T {
      match this
      case Some(v) => v
      case None => default
    }
  }

  /** The outcome of a handler. `Conflict` is the duplicate natural key answer. */
  datatype Status = Ok | Created | NotFound | Conflict

  /** Answer of a read-only handler: the status and the record sent back, if any. */
  datatype Lookup<T> = Lookup(status: Status, record: Option<T>)

  /** Answer of a writing handler: the status, the record sent back, if any, and the
      collection as it is saved afterwards (the loaded collection when nothing is saved). */
  datatype Write<T> = Write(status: Status, record: Option<T>, items: seq<T>)

  function Min(a: int, b: int): int { if a <= b then a else b }
}
