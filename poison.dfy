/** What an operation does when the lock it took turns out to be poisoned. */
module Poison {
  import opened Wrappers

  /**
   * `handle_poison`: a thread already unwinding a panic tolerates the poison
   * and gets `result.ok()`; any other thread aborts on an `Err` ("registry
   * poisoned"), which is why such a caller must not pass one.
   */
  function HandlePoison<T>(panicking: bool, result: Result<T>): (r: Option<T>)
    requires panicking || result.Ok?
    ensures r.Some? <==> result.Ok?
    ensures r.Some? ==> r.value == result.value
  {
    if panicking then result.ToOption() else Some(result.value)
  }
}
