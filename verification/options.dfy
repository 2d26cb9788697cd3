/** Optional values: the model's stand-in for JavaScript's `null`/`undefined` where the
    source uses them to mean "absent". */
module Options {

  datatype Option<+T> = None | Some(value: T) {

    /** The wrapped value, or `default` when absent. */
    function GetOr(default: T): T {
      match this
      case Some(v) => v
      case None => default
    }
  }
}
