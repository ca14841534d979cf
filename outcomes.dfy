/** Errors a reduction can end with, and the result type that carries them. */
module Outcomes {

  /**
   * The exceptions the reduction code can surface: Java's `ArithmeticException`
   * ("/ by zero") and the OpenCL errors that jocl turns into exceptions.
   */
  datatype Error =
    | DivisionByZero        // integer division by a zero group size
    | InvalidBufferSize     // clCreateBuffer of zero bytes
    | DeviceFault           // any device call that fails (out of resources, launch failure, ...)
    | HostAccessDenied      // a host read of a buffer created as host-inaccessible

  datatype Result<T> = Success(value: T) | Failure(error: Error)
}
