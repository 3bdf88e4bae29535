/** Failure kinds of the memory subsystem and the outcome types that carry them.

    Every Java exception the core can raise is reduced to its kind and, for the
    bus's own faults, the offending address; message texts are not modelled.
 */
module Faults {

  /** The exceptions of the memory core. */
  datatype Fault =
    | Unmapped(addr: int)    // Bus.BusException: no region claims the address
    | Misaligned(addr: int)  // Bus.BusException: 16/32-bit access off its boundary
    | ReadOnly               // ROM.ROMWriteException
    | Unsupported            // UnsupportedOperationException, or a failed Java assert
    | IndexOutOfBounds       // ArrayIndexOutOfBoundsException from a backing byte array
    | IllegalArgument        // IllegalArgumentException from the ROM constructor
    | DivideByZero           // ArithmeticException from a long division by zero

  /** The outcome of an operation that returns a value and changes nothing. */
  datatype Result<+T> = Ok(value: T) | Err(fault: Fault) {

    predicate IsFailure() {
      Err?
    }

    function PropagateFailure<U>(): Result<U>
      requires Err?
    {
      Err(fault)
    }

    function Extract(): T
      requires Ok?
    {
      value
    }
  }

  /** The outcome of an operation that changes state. Java exceptions do not
      roll back stores made before the throw, so a fault carries the state as
      it was left at that point. */
  datatype Effect<S> = Done(state: S) | Faulted(state: S, fault: Fault) {

    predicate IsFailure() {
      Faulted?
    }

    function PropagateFailure(): Effect<S>
      requires Faulted?
    {
      this
    }

    function Extract(): S
      requires Done?
    {
      state
    }
  }
}
