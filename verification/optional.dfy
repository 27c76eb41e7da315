/** The absent-or-present value used throughout the model, the Dafny
    counterpart of TypeScript's `T | null` / `T | undefined`. */
module Optional {

  datatype Option<+T> = None | Some(value: T) {

    /** The carried value, or `default` when absent (TypeScript's `x || d`
        for values that are always truthy when present). */
    function GetOr(default: T): T {
      match this
      case Some(v) => v
      case None => default
    }
  }
}
