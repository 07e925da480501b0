/** The per-span slot of a shard: the span's data, or the thread that took it. */
module Slots {
  import opened Wrappers
  import opened Threads

  datatype Slot<T> = Present(span: T) | Stolen(thread: Thread) {

    /** `Slot::get_mut`: the span's data when it lives here; nothing once it was stolen. */
    function GetMut(): (r: Option<T>)
      ensures r.Some? <==> Present?
      ensures r.Some? ==> this == Present(r.value)
    {
      match this
      case Present(span) => Some(span)
      case Stolen(_) => None
    }
  }
}
