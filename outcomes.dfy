/** Results of operations that either return a value or stop the Go program with a panic. */
module Outcomes {

  datatype Option<T> = None | Some(value: T)

  /** The run-time faults the core can raise. */
  datatype Fault =
    | EmptyRing              // panic("HashRing is empty")
    | IndexOutOfRange        // Go's run-time "index out of range" panic
    | SliceBoundsOutOfRange  // Go's run-time "slice bounds out of range" panic

  /** A value, or the panic that replaced it. */
  datatype Outcome<T> = Ok(value: T) | Panic(fault: Fault)
}
