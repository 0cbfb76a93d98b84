/** Optional values: the model's stand-in for Python's `None` and for
    operations that raise instead of returning. */
module Common {

  datatype Option<+T> = None | Some(value: T) {

    /** The carried value, or `default` when there is none. */
    function GetOr(default: T): T {
      match this
      case Some(v) => v
      case None => default
    }
  }
}
