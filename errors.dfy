/** The two ways a record of a graph file can be rejected, and a result
    type that carries either a value or one of them. */
module Errors {

  /** `InvalidNode` is the `ValueError` raised for a node id outside 1..100;
      `TimeOutOfRange` is the `IndexError` raised when `time - 1` does not
      index the list of eight graphs. */
  datatype Error = InvalidNode(node: int) | TimeOutOfRange(time: int)

  datatype Result<T> = Ok(value: T) | Err(error: Error)
}
