/** The optional value used wherever the C++ code signals "nothing here"
    (std::string::npos, a failed conversion, a missing header). */
module Wrappers {

  datatype Option<+T> = None | Some(value: T) {

    /** The carried value, or `default` when there is none. */
    function GetOr(default: T): (v: T)
    {
      match this
      case Some(v) => v
      case None => default
    }
  }
}
