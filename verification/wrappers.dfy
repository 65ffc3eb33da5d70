/**
 * Failure values of the simulator.  Every pgp_* call of the C code ends the
 * process; the model turns each into a failed result so that callers can see
 * which inputs are fatal.
 */
module Wrappers {

  /**
   * The fatal conditions the modelled core can reach (pegasus_panic.h).
   * pgp_null is not among them: a NULL array is an Option argument, and the
   * routines that would panic on one are only called with real blocks.
   */
  datatype Fatal =
    | RangeError     // pgp_range
    | SwitchDefault  // pgp_switch_default: an identifier outside its enumeration

  datatype Result<+T> = Ok(value: T) | Fail(error: Fatal) {
    predicate IsFailure() { Fail? }

    function PropagateFailure<U>(): Result<U>
      requires Fail?
    {
      Fail(error)
    }

    function Extract(): T
      requires Ok?
    {
      value
    }
  }

  datatype Option<+T> = None | Some(value: T)
}
