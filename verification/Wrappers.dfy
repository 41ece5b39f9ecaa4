// The two outcome types shared by every component.
module Wrappers {
  datatype Option<+T> = None | Some(value: T) {
    function GetOr(default: T): T {
      match this
      case Some(v) => v
      case None => default
    }
  }

  // A thrown exception is modelled by the second constructor.
  datatype Result<+T> = Ok(value: T) | Thrown
}
