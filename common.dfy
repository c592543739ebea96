/** Small shared datatypes: an optional value and the errors the connection reports. */
module Common {

  datatype Option<+T> = None | Some(value: T) {
    function GetOr(default: T): T {
      match this
      case Some(v) => v
      case None => default
    }
  }

  /** The two kinds of error the connection methods hand back to the scheduler:
      a document that json.Marshal refused, and any failure of the database call. */
  datatype Error = EncodeError | DbError
}
