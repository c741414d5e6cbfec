/** The ways a stream operation fails. The stream class throws a plain
    `\RuntimeException` for the conditions it checks itself; the others are
    errors the PHP engine raises inside an operation. */
module StreamErrors {
  import opened Php

  datatype Error =
    /** seek: "The position must be < size of the stream". */
    | PositionNotBelowSize(position: int, size: nat)
    /** seek: `fseek` refused the offset (a negative one): "Unable to set new position". */
    | SeekFailed(position: int)
    /** `unpack` got fewer bytes than its format needs, in a fixed-width
        integer read or in strByteToUint: it fails, and the null it leaves is
        rejected by the method's `int` return type with a `TypeError`. */
    | NotEnoughInput(requested: nat, available: nat)
    /** readS8be, readS8le: "Not implemented yet". */
    | NotImplemented
    /** ensureFixedContents: "Expected bytes are not equal to actual bytes". */
    | UnexpectedContents(expected: seq<byte>, actual: seq<byte>)
    /** readStrz: "End of stream reached, but no terminator ... found". */
    | NoTerminatorFound(terminator: seq<byte>)
    /** processRotateLeft: "Unable to rotate group of N bytes yet". */
    | UnsupportedGroupSize(groupSize: int)
    /** processRotateLeft: a shift count below zero (amount < 0, or
        8 - amount < 0) raises an `ArithmeticError`. */
    | NegativeShift(amount: int)
}
