/** The absent-or-present value used for the manifest header, for attribute
    settings and for the decoding of a configuration location. */
module Optional {

  datatype Option<+T> = None | Some(value: T) {

    /** The value if present, otherwise the given default. */
    function GetOr(default: T): T {
      match this
      case Some(v) => v
      case None => default
    }
  }
}
