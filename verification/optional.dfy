/** The absent-or-present value used wherever the source returns `null`,
    `undefined` or `NaN` in place of a result. */
module Optional {

  datatype Option<+T> = None | Some(value: T) {

    /** Returns the value held in Some, or `default` for None. */
    function GetOr(default: T): T {
      match this
      case Some(v) => v
      case None => default
    }
  }
}
