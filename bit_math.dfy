/** Fixed-point primitives: checked multiply-divide, multiply then shift right
    by 64 (an integer times a Q64.64 value, truncated back to u64), and
    division, each with an explicit rounding direction. */
module BitMath {
  import opened Types
  import opened Rounding
  import U256Muldiv

  const Q64_RESOLUTION: nat := 64
  /** `1 << Q64_RESOLUTION`: one, in Q64.64. */
  const TO_Q64: U128 := TWO_64
  /** The 64 fractional bits of a Q64.64 value. */
  const Q64_MASK: U128 := 0xFFFF_FFFF_FFFF_FFFF

  /** `checked_mul_div`: the rounding-down instance. */
  function CheckedMulDiv(n0: U128, n1: U128, d: U128): (r: Result<U128>)
    ensures d == 0 ==> r == Err(DivideByZero)
    ensures d != 0 && n0 * n1 >= TWO_128 ==> r == Err(MulDivOverflow)
    ensures d != 0 && n0 * n1 < TWO_128 ==> r == Ok(FloorDiv(n0 * n1, d))
  {
    CheckedMulDivRoundUpIf(n0, n1, d, false)
  }

  /** `checked_mul_div_round_up`: the rounding-up instance. */
  function CheckedMulDivRoundUp(n0: U128, n1: U128, d: U128): (r: Result<U128>)
    ensures d == 0 ==> r == Err(DivideByZero)
    ensures d != 0 && n0 * n1 >= TWO_128 ==> r == Err(MulDivOverflow)
    ensures d != 0 && n0 * n1 < TWO_128 ==> r == Ok(CeilDiv(n0 * n1, d))
  {
    CheckedMulDivRoundUpIf(n0, n1, d, true)
  }

  /** `checked_mul_div_round_up_if`: n0 * n1 / d, rounded as asked. The
      product is taken with a checked u128 multiply, so it fails as soon as
      the product leaves u128 (there is no 256-bit intermediate). */
  function CheckedMulDivRoundUpIf(n0: U128, n1: U128, d: U128, roundUp: bool): (r: Result<U128>)
    ensures d == 0 ==> r == Err(DivideByZero)
    ensures d != 0 ==> (r == Err(MulDivOverflow) <==> n0 * n1 >= TWO_128)
    ensures r.Ok? <==> d != 0 && n0 * n1 < TWO_128
    ensures r.Ok? ==> r.value == RoundedDiv(n0 * n1, d, roundUp)
  {
    if d == 0 then
      Err(DivideByZero)
    else if n0 * n1 >= TWO_128 then
      Err(MulDivOverflow)
    else
      var p := n0 * n1;
      var n := p / d;
      CeilDivIsFloorPlusCarry(p, d);
      if roundUp && p % d > 0 then
        CarryFits(p, d, TWO_128);
        Ok(n + 1)
      else
        Ok(n)
  }

  /** `checked_mul_shift_right`: the rounding-down instance. */
  function CheckedMulShiftRight(n0: U128, n1: U128): (r: Result<U64>)
    ensures n0 * n1 >= TWO_128 ==> r == Err(MultiplicationShiftRightOverflow)
    ensures n0 * n1 < TWO_128 ==> r == Ok(FloorDiv(n0 * n1, TWO_64))
  {
    CheckedMulShiftRightRoundUpIf(n0, n1, false)
  }

  /** `checked_mul_shift_right_round_up_if`: (n0 * n1) >> 64, with the 64
      discarded low bits rounded as asked, as a u64. */
  function CheckedMulShiftRightRoundUpIf(n0: U128, n1: U128, roundUp: bool): (r: Result<U64>)
    ensures n0 == 0 || n1 == 0 ==> r == Ok(0)
    ensures r == Err(MultiplicationShiftRightOverflow) <==> n0 * n1 >= TWO_128
    ensures r == Err(MultiplicationOverflow) <==>
              n0 * n1 < TWO_128 && RoundedDiv(n0 * n1, TWO_64, roundUp) > U64_MAX
    ensures r.Ok? <==> n0 * n1 < TWO_128 && RoundedDiv(n0 * n1, TWO_64, roundUp) <= U64_MAX
    ensures r.Ok? ==> r.value == RoundedDiv(n0 * n1, TWO_64, roundUp)
  {
    if n0 == 0 || n1 == 0 then
      assert n0 * n1 == 0;
      RoundedDivAtMost(0, TWO_64, 0, roundUp);
      Ok(0)
    else if n0 * n1 >= TWO_128 then
      Err(MultiplicationShiftRightOverflow)
    else
      var p := n0 * n1;
      ShiftedWordFits(p);
      // `(p >> Q64_RESOLUTION) as u64`: p < 2^128, so the cast drops nothing
      var result := (p / TWO_64) % TWO_64;
      assert result == p / TWO_64;
      // `p & Q64_MASK > 0`: some fractional bit is set
      var shouldRound := roundUp && p % (Q64_MASK + 1) > 0;
      CeilDivIsFloorPlusCarry(p, TWO_64);
      if shouldRound && result == U64_MAX then
        Err(MultiplicationOverflow)
      else
        Ok(if shouldRound then result + 1 else result)
  }

  /** A u128 value shifted right by 64 fits in 64 bits. */
  lemma ShiftedWordFits(p: nat)
    requires p < TWO_128
    ensures p / TWO_64 < TWO_64
  {
    RoundedDivMonotone(p, TWO_128 - 1, TWO_64, false);
    assert (TWO_128 - 1) / TWO_64 == TWO_64 - 1;
  }

  /** `div_round_up`: the rounding-up instance. */
  function DivRoundUp(n: U128, d: U128): (r: Result<U128>)
    ensures d == 0 <==> r == Err(DivideByZero)
    ensures d != 0 ==> r == Ok(CeilDiv(n, d))
  {
    DivRoundUpIf(n, d, true)
  }

  /** `div_round_up_if`: n / d, rounded as asked. */
  function DivRoundUpIf(n: U128, d: U128, roundUp: bool): (r: Result<U128>)
    ensures d == 0 <==> r == Err(DivideByZero)
    ensures r.Ok? <==> d != 0
    ensures r.Ok? ==> r.value == RoundedDiv(n, d, roundUp)
  {
    if d == 0 then
      Err(DivideByZero)
    else
      var q := n / d;
      CeilDivIsFloorPlusCarry(n, d);
      if roundUp && n % d > 0 then
        CarryFits(n, d, TWO_128);
        Ok(q + 1)
      else
        Ok(q)
  }

  /** `div_round_up_if_u256`: a 256-bit n / d, rounded as asked and narrowed
      to u128. A zero divisor aborts inside the 256-bit division. */
  function DivRoundUpIfU256(n: U256, d: U256, roundUp: bool): (r: Result<U128>)
    requires d > 0
    ensures r.Ok? <==> RoundedDiv(n, d, roundUp) < TWO_128
    ensures r.Ok? ==> r.value == RoundedDiv(n, d, roundUp)
    ensures r.Err? ==> r.error == NumberDownCastError
  {
    var (quotient, remainder) := U256Muldiv.Div(n, d);
    DivModUnique(n, d, quotient, remainder);
    CeilDivIsFloorPlusCarry(n, d);
    var result: U256 :=
      if roundUp && remainder != 0 then
        CarryFits(n, d, TWO_256);
        quotient + 1
      else
        quotient;
    U256Muldiv.TryIntoU128(result)
  }

  /** Rounding up never gives less than rounding down and at most one more;
      the two agree exactly when d divides n0 * n1. */
  lemma MulDivRoundUpVersusRoundDown(n0: U128, n1: U128, d: U128)
    requires CheckedMulDiv(n0, n1, d).Ok?
    ensures CheckedMulDivRoundUp(n0, n1, d).Ok?
    ensures CheckedMulDiv(n0, n1, d).value <= CheckedMulDivRoundUp(n0, n1, d).value
              <= CheckedMulDiv(n0, n1, d).value + 1
    ensures CheckedMulDivRoundUp(n0, n1, d) == CheckedMulDiv(n0, n1, d) <==> (n0 * n1) % d == 0
  {
    RoundUpVersusRoundDown(n0 * n1, d);
  }

  /** Whenever the rounded-up shift succeeds, so does the rounded-down one,
      and the two differ by the carry out of the discarded 64 bits. */
  lemma MulShiftRightRoundUpVersusRoundDown(n0: U128, n1: U128)
    requires CheckedMulShiftRightRoundUpIf(n0, n1, true).Ok?
    ensures CheckedMulShiftRight(n0, n1).Ok?
    ensures CheckedMulShiftRight(n0, n1).value <= CheckedMulShiftRightRoundUpIf(n0, n1, true).value
              <= CheckedMulShiftRight(n0, n1).value + 1
    ensures (CheckedMulShiftRightRoundUpIf(n0, n1, true) == CheckedMulShiftRight(n0, n1))
            <==> (n0 * n1) % TWO_64 == 0
  {
    RoundUpVersusRoundDown(n0 * n1, TWO_64);
  }

  /** The shift overflows u64 exactly when a discarded bit forces rounding up
      and the truncated quotient is already u64::MAX. */
  lemma MulShiftRightOverflowCondition(n0: U128, n1: U128, roundUp: bool)
    requires n0 * n1 < TWO_128
    ensures CheckedMulShiftRightRoundUpIf(n0, n1, roundUp) == Err(MultiplicationOverflow) <==>
              roundUp && (n0 * n1) % TWO_64 > 0 && (n0 * n1) / TWO_64 == U64_MAX
  {
    ShiftedWordFits(n0 * n1);
    CeilDivIsFloorPlusCarry(n0 * n1, TWO_64);
  }

  /** The shifted product is monotone in the product: when a larger product
      shifts without overflow, a smaller one does too, to no larger value. */
  lemma MulShiftRightMonotone(n0: U128, n1: U128, m0: U128, m1: U128, roundUp: bool)
    requires n0 * n1 <= m0 * m1
    requires CheckedMulShiftRightRoundUpIf(m0, m1, roundUp).Ok?
    ensures CheckedMulShiftRightRoundUpIf(n0, n1, roundUp).Ok?
    ensures CheckedMulShiftRightRoundUpIf(n0, n1, roundUp).value
         <= CheckedMulShiftRightRoundUpIf(m0, m1, roundUp).value
  {
    RoundedDivMonotone(n0 * n1, m0 * m1, TWO_64, roundUp);
  }

  /** `div_round_up` is never below the rounded-down quotient and exceeds it
      exactly when d does not divide n. */
  lemma DivRoundUpVersusRoundDown(n: U128, d: U128)
    requires d != 0
    ensures DivRoundUpIf(n, d, false).value <= DivRoundUp(n, d).value
              <= DivRoundUpIf(n, d, false).value + 1
    ensures DivRoundUp(n, d) == DivRoundUpIf(n, d, false) <==> n % d == 0
  {
    RoundUpVersusRoundDown(n, d);
  }
}
