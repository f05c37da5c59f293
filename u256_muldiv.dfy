/** The 256-bit helper `U256Muldiv`, whose word-level code is not part of this
    model. A value is the exact integer it stands for, in [0, 2^256); each
    operation the price math uses is given by what it computes. */
module U256Muldiv {
  import opened Types

  /** `mul_u256`: the full product of two u128 values. */
  function MulU256(a: U128, b: U128): U256 {
    ProductBound(a, b, TWO_128, TWO_128);
    a * b
  }

  lemma ProductBound(a: nat, b: nat, ba: nat, bb: nat)
    requires a < ba && b < bb
    ensures a * b < ba * bb
  {
    if a > 0 {
      assert a * b <= a * (bb - 1) < ba * bb;
    }
  }

  /** `checked_shift_word_left`: multiplies by 2^64, or gives None when the
      top 64-bit word is occupied and would be shifted out. */
  function CheckedShiftWordLeft(x: U256): Option<U256> {
    if x < TWO_192 then Some(x * TWO_64) else None
  }

  /** `shift_word_left` of a value built from one u128 word, which never
      loses a bit. */
  function ShiftWordLeft(x: U128): U256 {
    x * TWO_64
  }

  /** `div`: the floor quotient and the exact remainder. The helper aborts on
      a zero divisor, which callers must therefore never pass. */
  function Div(n: U256, d: U256): (r: (U256, U256))
    requires d > 0
    ensures n == r.0 * d + r.1 && r.1 < d
  {
    (n / d, n % d)
  }

  /** `try_into_u128`: narrows to u128, failing when the value does not fit. */
  function TryIntoU128(x: U256): Result<U128> {
    if x < TWO_128 then Ok(x) else Err(NumberDownCastError)
  }
}
