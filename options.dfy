/** The optional value the model uses for JavaScript's `null`, `undefined`
    and `NaN` outcomes. */
module Options {

  datatype Option<T> = None | Some(value: T) {

    /** The value, or `default` when there is none. */
    function GetOr(default: T): T {
      match this
      case Some(v) => v
      case None => default
    }
  }
}
