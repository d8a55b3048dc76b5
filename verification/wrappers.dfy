/** The optional-value datatype shared by every module of the model.
    `None` stands for a JavaScript `undefined` or `null` where the source
    treats the two alike. */
module Wrappers {

  datatype Option<+T> = None | Some(value: T) {

    /** The wrapped value, or `default` when there is none. The source writes
        `v || d`; for the objects and arrays it applies this to, which are
        always truthy, that is the same as falling back on absence alone. */
    function GetOr(default: T): T {
      match this
      case Some(v) => v
      case None => default
    }
  }
}
