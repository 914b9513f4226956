/** The optional value that stands for TypeScript's `T | null` results. */
module Options {

  datatype Option<T> = None | Some(value: T) {

    /** The value, or `default` when absent: the `??` operator. */
    function GetOr(default: T): T {
      match this
      case Some(v) => v
      case None => default
    }
  }
}
