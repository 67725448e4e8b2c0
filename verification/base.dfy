/** Small shared vocabulary: nullable columns and ambient identity. */
module Base {

  /** A nullable column or an absent value: `None` plays the part of SQL NULL,
      JavaScript `null` and `undefined`. */
  datatype Option<+T> = None | Some(value: T) {

    /** The value, or `default` when there is none (JavaScript's `??`). */
    function GetOr(default: T): T {
      match this
      case Some(v) => v
      case None => default
    }
  }

  /** Identity of a signed-in user (`user.id`, a `profiles.user_id`). */
  type UserId = string

  /** Primary key of a stored row. */
  type RowId = string

  /** A point in time; only comparisons between times are modelled. */
  type Time = int

  /** The signed-in user, if any: `None` when the auth hook reports no user. */
  type Viewer = Option<UserId>

  /** Why a page action wrote nothing to the store. */
  datatype Failure =
    | AuthRequired   // no signed-in user: the page shows "Authentication Required"
    | InvalidDate    // an empty date input: `new Date('').toISOString()` throws
    | MissingFields  // a local validation check failed before any write

  /** The outcome of a page action that builds a row to send to the store. */
  datatype Result<+T> = Ok(value: T) | Err(failure: Failure)
}
