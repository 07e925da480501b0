/** Option and Result, as the registry's operations return them. */
module Wrappers {

  datatype Option<+T> = None | Some(value: T)

  /** `Result<T, ()>`: the only error a registry operation reports is a poisoned lock. */
  datatype Result<+T> = Ok(value: T) | Err {

    /** `Result::ok`: keep the value, forget the error. */
    function ToOption(): (r: Option<T>)
      ensures r.Some? <==> Ok?
      ensures r.Some? ==> r.value == value
    {
      match this
      case Ok(v) => Some(v)
      case Err => None
    }
  }
}
