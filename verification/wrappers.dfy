/** Optional values: the model's stand-in for the source's `null`/`undefined`. */
module Wrappers {

  datatype Option<+T> = None | Some(value: T) {

    /** The value, or `default` when absent (the source's `x ?? d`). */
    function GetOr(default: T): T {
      match this
      case Some(v) => v
      case None => default
    }
  }

  /** What every server action returns: `{ success, message, data? }`. */
  datatype ActionResult<+T> = ActionResult(success: bool, message: string, data: Option<T>)

  /** A database call as the code sees it: it throws, it returns an
      `error`, or it returns `data`, which may be null. */
  datatype Query<+T> = Thrown | Error | Ok(data: Option<T>)
}
