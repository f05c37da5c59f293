/** Machine-integer bounds, the program's error codes and the Result/Option
    wrappers shared by the fixed-point math and the tick-array traversal. */
module Types {

  const TWO_64: nat := 0x1_0000_0000_0000_0000
  const TWO_128: nat := 0x1_0000_0000_0000_0000_0000_0000_0000_0000
  const TWO_192: nat := 0x1_0000_0000_0000_0000_0000_0000_0000_0000_0000_0000_0000_0000
  const TWO_256: nat := 0x1_0000_0000_0000_0000_0000_0000_0000_0000_0000_0000_0000_0000_0000_0000_0000_0000

  /** `u64::MAX` */
  const U64_MAX: nat := 0xFFFF_FFFF_FFFF_FFFF

  type U16 = x: int | 0 <= x < 0x1_0000
  type U64 = x: int | 0 <= x < TWO_64
  type U128 = x: int | 0 <= x < TWO_128
  /** The values a `U256Muldiv` can hold. */
  type U256 = x: int | 0 <= x < TWO_256

  /** The variants of the program's `ErrorCode` that the modelled core can return. */
  datatype ErrorCode =
    | DivideByZero
    | MulDivOverflow
    | MultiplicationShiftRightOverflow
    | MultiplicationOverflow
    | NumberDownCastError
    | TokenMaxExceeded
    | TokenMinSubceeded
    | SqrtPriceOutOfBounds
    | InvalidTickSpacing
    | TickNotFound
    | InvalidTickArraySequence
    | TickArrayIndexOutofBounds
    | TickArraySequenceInvalidIndex

  /** `Result<T, ErrorCode>`; usable with `:-`. */
  datatype Result<+T> = Ok(value: T) | Err(error: ErrorCode) {
    predicate IsFailure() {
      Err?
    }

    function PropagateFailure<U>(): Result<U>
      requires Err?
    {
      Err(error)
    }

    function Extract(): T
      requires Ok?
    {
      value
    }
  }

  datatype Option<+T> = None | Some(value: T)
}
