/** Result types shared by the codec modules. */
module Wrappers {

  /** Bytes of the wire format and of C strings. */
  type byte = x: int | 0 <= x < 256

  /** The conventional optional value. */
  datatype Option<+T> = None | Some(value: T) {

    predicate IsFailure() {
      None?
    }

    function PropagateFailure<U>(): Option<U>
      requires None?
    {
      None
    }

    function Extract(): T
      requires Some?
    {
      value
    }
  }

  /** Outcome of reading one item off the front of a byte string: the item and what follows it. */
  datatype Parsed<+T> = Bad | Got(val: T, rest: seq<byte>) {

    /** The outcome when `t` is appended to an input on which this was the outcome. */
    function Then(t: seq<byte>): Parsed<T> {
      if Bad? then Bad else Got(val, rest + t)
    }
  }
}
