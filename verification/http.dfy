/** Outcomes of a request handler: a success value or one of the four client
    error statuses the handlers and middleware answer with. */
module Http {

  /** The client-error statuses of the API: 401, 403, 404 and 400. The
      catch-all 500 paths are not modelled. */
  datatype Status = Unauthenticated | Forbidden | NotFound | BadRequest
  {
    function Code(): (c: int)
      ensures 400 <= c < 500
    {
      match this
      case Unauthenticated => 401
      case Forbidden => 403
      case NotFound => 404
      case BadRequest => 400
    }
  }

  /** A handler's answer, usable with `:-`. */
  datatype Result<+T> = Ok(value: T) | Err(status: Status)
  {
    predicate IsFailure() {
      Err?
    }

    function PropagateFailure<U>(): Result<U>
      requires Err?
    {
      Err(status)
    }

    function Extract(): T
      requires Ok?
    {
      value
    }
  }

  /** The result of `:- Need(...)`: passes, or fails with a status. */
  datatype Check = Pass | Fail(status: Status)
  {
    predicate IsFailure() {
      Fail?
    }

    function PropagateFailure<U>(): Result<U>
      requires Fail?
    {
      Err(status)
    }
  }

  function Need(condition: bool, status: Status): Check
  {
    if condition then Pass else Fail(status)
  }

  /** An optional JSON body field. The store layer distinguishes a field that
      is left out (`undefined`: the column is not touched) from an explicit
      `null` (the column is cleared). */
  datatype Arg<+T> = Absent | Null | Given(v: T)
  {
    /** The stored value after writing this field over `current`. */
    function Over(current: Option<T>): (r: Option<T>)
      ensures Absent? ==> r == current
      ensures Null? ==> r.None?
      ensures Given? ==> r == Some(v)
    {
      match this
      case Absent => current
      case Null => None
      case Given(x) => Some(x)
    }
  }

  datatype Option<+T> = None | Some(value: T)
}
