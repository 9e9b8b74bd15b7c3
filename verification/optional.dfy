/** The optional value used wherever the importer or a parser may produce nothing:
    a pandas NaN / NaT after coercion, a column that is not there, an empty report. */
module Optional {

  datatype Option<+T> = None | Some(value: T) {

    /** The wrapped value, or `default` when there is none. */
    function GetOr(default: T): T {
      match this
      case Some(v) => v
      case None => default
    }
  }
}
