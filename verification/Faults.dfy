/** Errors a single guest instruction can raise. A host panic is never one of a verified program. */
module Faults {
  datatype Fault = DivideByZero | DivideOverflow | InvalidInstruction | AccessViolation(code: nat) | HostPanic
}
