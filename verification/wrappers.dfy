/** Small result-carrying datatypes shared by every store and controller. */
module Wrappers {

  /** A value that may be absent; stands for the source's nullable returns. */
  datatype Option<+T> = None | Some(value: T)

  /** What one store operation yields: the value handed back to the caller
      and the state of the store afterwards. */
  datatype Step<+R, +S> = Step(result: R, state: S)
}
