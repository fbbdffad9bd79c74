/** Small result shapes shared by the stores. */
module Outcomes {

  /** A value that may be absent; `None` plays the part of Python's None. */
  datatype Option<+T> = None | Some(value: T)

  /** What a mutating store operation hands back: the boolean the operation
      returns, and the store as it is after the call. */
  datatype Reply<S> = Reply(ok: bool, state: S)

  /** A call that either returns normally or raises an exception it does not
      catch itself. */
  datatype Call<S> = Returned(reply: Reply<S>) | Raised
}
