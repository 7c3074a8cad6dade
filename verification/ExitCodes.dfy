/** The results of the operations of the shortest path program. */
module ExitCodes {

  datatype ExitCode = Success | OutOfBounds | InvalidArgument | NoPath | Overflow
}
