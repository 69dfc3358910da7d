/** The optional values of the editor's data: a field that JavaScript leaves
    `null` or `undefined`, a collection a caller passes as `null`. */
module Wrappers {

  datatype Option<+T> = None | Some(value: T) {

    /** The value held, or `default` when there is none: a default
        parameter's value. A value that is held is returned as it is, even
        an empty string. */
    function GetOr(default: T): T {
      match this
      case Some(v) => v
      case None => default
    }
  }
}
