/** The JavaScript "maybe unset" reference (`null` / `undefined`) as a value. */
module Optional {

  datatype Option<+T> = None | Some(value: T) {

    /** The carried value, or `default` when unset (JavaScript's `a || b` on objects). */
    function GetOr(default: T): T {
      match this
      case Some(v) => v
      case None => default
    }
  }
}
