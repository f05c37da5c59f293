/** Price/amount conversion: the token amounts backing a liquidity between two
    square-root prices (equations 6.14 and 6.16 of the Uniswap v3 core
    whitepaper) and the square-root price reached after adding or removing a
    fixed amount of one token (equations 6.13 and 6.15). Prices are Q64.64. */
module TokenMath {
  import opened Types
  import opened Rounding
  import opened BitMath
  import U256Muldiv

  // Fee rate, in hundredths of a basis point: fee = amount * fee_rate / 1_000_000; at most 1%.
  const MAX_FEE_RATE: U16 := 10_000
  const FEE_RATE_MUL_VALUE: U128 := 1_000_000
  // Protocol fee rate, in basis points of the fee: protocol fee = fee * rate / 10_000; at most 25%.
  const MAX_PROTOCOL_FEE_RATE: U16 := 2_500
  const PROTOCOL_FEE_RATE_MUL_VALUE: U128 := 10_000

  // Global square-root price bounds, as Q64.64 (defined beside the tick/price
  // conversion, which is not part of this model).
  const MIN_SQRT_PRICE_X64: U128 := 4295048016
  const MAX_SQRT_PRICE_X64: U128 := 79226673515401279992447579055

  /** The two prices as (lower, upper). */
  function IncreasingPriceOrder(sqrtPrice0: U128, sqrtPrice1: U128): (r: (U128, U128))
    ensures r.0 <= r.1
    ensures (r.0 == sqrtPrice0 && r.1 == sqrtPrice1) || (r.0 == sqrtPrice1 && r.1 == sqrtPrice0)
  {
    if sqrtPrice0 > sqrtPrice1 then (sqrtPrice1, sqrtPrice0) else (sqrtPrice0, sqrtPrice1)
  }

  /** Equation 6.16: the token-A amount liquidity * (upper - lower) / (upper * lower),
      in Q64.64 prices (hence the factor 2^64), rounded as asked. */
  ghost function AmountA(lower: nat, upper: nat, liquidity: nat, roundUp: bool): nat
    requires 0 < lower <= upper
  {
    RoundedDiv(liquidity * (upper - lower) * TWO_64, upper * lower, roundUp)
  }

  /** Equation 6.14: the token-B amount liquidity * (upper - lower), back from
      Q64.64 to an integer, rounded as asked. */
  ghost function AmountB(lower: nat, upper: nat, liquidity: nat, roundUp: bool): nat
    requires lower <= upper
  {
    RoundedDiv(liquidity * (upper - lower), TWO_64, roundUp)
  }

  /** The 256-bit division in `get_amount_delta_a` aborts on a zero divisor;
      this holds on every path that reaches it with a non-zero one. */
  predicate AmountDeltaADefined(sqrtPrice0: U128, sqrtPrice1: U128, liquidity: U128) {
    var (lower, upper) := IncreasingPriceOrder(sqrtPrice0, sqrtPrice1);
    lower > 0 || liquidity * (upper - lower) >= TWO_192
  }

  /** `get_amount_delta_a` */
  function GetAmountDeltaA(sqrtPrice0: U128, sqrtPrice1: U128, liquidity: U128, roundUp: bool): (r: Result<U64>)
    requires AmountDeltaADefined(sqrtPrice0, sqrtPrice1, liquidity)
    ensures var (lower, upper) := IncreasingPriceOrder(sqrtPrice0, sqrtPrice1);
      && (r == Err(MultiplicationOverflow) <==> liquidity * (upper - lower) >= TWO_192)
      && (liquidity * (upper - lower) < TWO_192 ==>
            && (r.Ok? <==> AmountA(lower, upper, liquidity, roundUp) <= U64_MAX)
            && (r.Ok? ==> r.value == AmountA(lower, upper, liquidity, roundUp))
            && (r == Err(TokenMaxExceeded) <==> U64_MAX < AmountA(lower, upper, liquidity, roundUp) < TWO_128)
            && (r == Err(NumberDownCastError) <==> TWO_128 <= AmountA(lower, upper, liquidity, roundUp)))
  {
    var (lower, upper) := IncreasingPriceOrder(sqrtPrice0, sqrtPrice1);
    var diff := upper - lower;
    match U256Muldiv.CheckedShiftWordLeft(U256Muldiv.MulU256(liquidity, diff))
    case None => Err(MultiplicationOverflow)
    case Some(numerator) =>
      var denominator := U256Muldiv.MulU256(upper, lower);
      var (quotient, remainder) := U256Muldiv.Div(numerator, denominator);
      DivModUnique(numerator, denominator, quotient, remainder);
      CeilDivIsFloorPlusCarry(numerator, denominator);
      var result :-
        if roundUp && remainder != 0 then
          CarryFits(numerator, denominator, TWO_256);
          U256Muldiv.TryIntoU128(quotient + 1)
        else
          U256Muldiv.TryIntoU128(quotient);
      if result > U64_MAX then Err(TokenMaxExceeded) else Ok(result)
  }

  /** `get_amount_delta_b` */
  function GetAmountDeltaB(sqrtPrice0: U128, sqrtPrice1: U128, liquidity: U128, roundUp: bool): (r: Result<U64>)
    ensures var (lower, upper) := IncreasingPriceOrder(sqrtPrice0, sqrtPrice1);
      && (r == Err(MultiplicationShiftRightOverflow) <==> liquidity * (upper - lower) >= TWO_128)
      && (r == Err(MultiplicationOverflow) <==>
            liquidity * (upper - lower) < TWO_128 && AmountB(lower, upper, liquidity, roundUp) > U64_MAX)
      && (r.Ok? <==> liquidity * (upper - lower) < TWO_128 && AmountB(lower, upper, liquidity, roundUp) <= U64_MAX)
      && (r.Ok? ==> r.value == AmountB(lower, upper, liquidity, roundUp))
  {
    var (lower, upper) := IncreasingPriceOrder(sqrtPrice0, sqrtPrice1);
    CheckedMulShiftRightRoundUpIf(liquidity, upper - lower, roundUp)
  }

  /** Swapping the two prices changes neither amount. */
  lemma AmountDeltasSymmetric(sqrtPrice0: U128, sqrtPrice1: U128, liquidity: U128, roundUp: bool)
    requires AmountDeltaADefined(sqrtPrice0, sqrtPrice1, liquidity)
    ensures AmountDeltaADefined(sqrtPrice1, sqrtPrice0, liquidity)
    ensures GetAmountDeltaA(sqrtPrice0, sqrtPrice1, liquidity, roundUp)
         == GetAmountDeltaA(sqrtPrice1, sqrtPrice0, liquidity, roundUp)
    ensures GetAmountDeltaB(sqrtPrice0, sqrtPrice1, liquidity, roundUp)
         == GetAmountDeltaB(sqrtPrice1, sqrtPrice0, liquidity, roundUp)
  {
  }

  /** Between equal prices there is nothing of either token. */
  lemma AmountDeltasVanishAtEqualPrices(sqrtPrice: U128, liquidity: U128, roundUp: bool)
    ensures sqrtPrice > 0 ==> GetAmountDeltaA(sqrtPrice, sqrtPrice, liquidity, roundUp) == Ok(0)
    ensures GetAmountDeltaB(sqrtPrice, sqrtPrice, liquidity, roundUp) == Ok(0)
  {
    if sqrtPrice > 0 {
      assert AmountA(sqrtPrice, sqrtPrice, liquidity, roundUp) == 0 by {
        RoundedDivAtMost(0, sqrtPrice * sqrtPrice, 0, roundUp);
      }
    }
  }

  /** Whenever the rounded-up token-A amount succeeds, the rounded-down one
      succeeds too, is never larger, and is smaller by at most one. */
  lemma AmountDeltaARoundUpVersusRoundDown(sqrtPrice0: U128, sqrtPrice1: U128, liquidity: U128)
    requires AmountDeltaADefined(sqrtPrice0, sqrtPrice1, liquidity)
    requires GetAmountDeltaA(sqrtPrice0, sqrtPrice1, liquidity, true).Ok?
    ensures GetAmountDeltaA(sqrtPrice0, sqrtPrice1, liquidity, false).Ok?
    ensures GetAmountDeltaA(sqrtPrice0, sqrtPrice1, liquidity, false).value
         <= GetAmountDeltaA(sqrtPrice0, sqrtPrice1, liquidity, true).value
         <= GetAmountDeltaA(sqrtPrice0, sqrtPrice1, liquidity, false).value + 1
  {
    var (lower, upper) := IncreasingPriceOrder(sqrtPrice0, sqrtPrice1);
    RoundUpVersusRoundDown(liquidity * (upper - lower) * TWO_64, upper * lower);
  }

  /** Equation 6.16 is monotone in the liquidity. */
  lemma AmountAMonotoneInLiquidity(lower: nat, upper: nat, liquidity: nat, liquidity': nat, roundUp: bool)
    requires 0 < lower <= upper && liquidity <= liquidity'
    ensures AmountA(lower, upper, liquidity, roundUp) <= AmountA(lower, upper, liquidity', roundUp)
  {
    var p, p' := liquidity * (upper - lower), liquidity' * (upper - lower);
    MulMonotone(liquidity, liquidity', upper - lower);
    MulMonotone(p, p', TWO_64);
    RoundedDivMonotone(p * TWO_64, p' * TWO_64, upper * lower, roundUp);
  }

  /** More liquidity never backs less of token A (for the same prices and
      rounding): if the larger liquidity succeeds, so does the smaller. */
  lemma AmountDeltaAMonotoneInLiquidity(sqrtPrice0: U128, sqrtPrice1: U128, liquidity: U128, liquidity': U128, roundUp: bool)
    requires liquidity <= liquidity'
    requires AmountDeltaADefined(sqrtPrice0, sqrtPrice1, liquidity)
    requires AmountDeltaADefined(sqrtPrice0, sqrtPrice1, liquidity')
    requires GetAmountDeltaA(sqrtPrice0, sqrtPrice1, liquidity', roundUp).Ok?
    ensures GetAmountDeltaA(sqrtPrice0, sqrtPrice1, liquidity, roundUp).Ok?
    ensures GetAmountDeltaA(sqrtPrice0, sqrtPrice1, liquidity, roundUp).value
         <= GetAmountDeltaA(sqrtPrice0, sqrtPrice1, liquidity', roundUp).value
  {
    var (lower, upper) := IncreasingPriceOrder(sqrtPrice0, sqrtPrice1);
    MulMonotone(liquidity, liquidity', upper - lower);
    assert 0 < lower;
    AmountAMonotoneInLiquidity(lower, upper, liquidity, liquidity', roundUp);
  }

  /** Equation 6.16 grows with the range: liquidity * (1/lower - 1/upper)
      can only increase when lower falls or upper rises. */
  lemma AmountAMonotoneInRange(lower: nat, upper: nat, lower': nat, upper': nat, liquidity: nat, roundUp: bool)
    requires 0 < lower' <= lower <= upper <= upper'
    ensures AmountA(lower, upper, liquidity, roundUp) <= AmountA(lower', upper', liquidity, roundUp)
  {
    var lhs, rhs := (upper - lower) * (upper' * lower'), (upper' - lower') * (upper * lower);
    RangeCrossProducts(lower, upper, lower', upper');
    var k := liquidity * TWO_64;
    MulMonotone(lhs, rhs, k);
    var n, n' := liquidity * (upper - lower) * TWO_64, liquidity * (upper' - lower') * TWO_64;
    ScaledCrossProduct(liquidity, upper - lower, upper' * lower', TWO_64);
    ScaledCrossProduct(liquidity, upper' - lower', upper * lower, TWO_64);
    RoundedDivCrossMonotone(n, upper * lower, n', upper' * lower', roundUp);
  }

  /** Regrouping the factors of a cross-multiplied numerator. */
  lemma ScaledCrossProduct(liquidity: nat, diff: nat, denominator: nat, scale: nat)
    ensures liquidity * diff * scale * denominator == diff * denominator * (liquidity * scale)
  {
  }

  /** 1/lower - 1/upper grows with the range, cross-multiplied. */
  lemma RangeCrossProducts(lower: nat, upper: nat, lower': nat, upper': nat)
    requires lower' <= lower <= upper <= upper'
    ensures (upper - lower) * (upper' * lower') <= (upper' - lower') * (upper * lower)
  {
    var lhs, rhs := (upper - lower) * (upper' * lower'), (upper' - lower') * (upper * lower);
    assert rhs - lhs == (lower - lower') * (upper * upper') + (upper' - upper) * (lower * lower');
    MulMonotone(0, lower - lower', upper * upper');
    MulMonotone(0, upper' - upper, lower * lower');
  }

  /** A wider price range never backs less of token A: if the wider range
      succeeds, so does the narrower one. */
  lemma AmountDeltaAMonotoneInRange(lower: U128, upper: U128, lower': U128, upper': U128, liquidity: U128, roundUp: bool)
    requires 0 < lower' <= lower <= upper <= upper'
    requires GetAmountDeltaA(lower', upper', liquidity, roundUp).Ok?
    ensures GetAmountDeltaA(lower, upper, liquidity, roundUp).Ok?
    ensures GetAmountDeltaA(lower, upper, liquidity, roundUp).value
         <= GetAmountDeltaA(lower', upper', liquidity, roundUp).value
  {
    assert IncreasingPriceOrder(lower, upper) == (lower, upper);
    assert IncreasingPriceOrder(lower', upper') == (lower', upper');
    var p, p' := liquidity * (upper - lower), liquidity * (upper' - lower');
    assert p' < TWO_192;
    assert p <= p' by { MulMonotone(upper - lower, upper' - lower', liquidity); }
    var a, a' := AmountA(lower, upper, liquidity, roundUp), AmountA(lower', upper', liquidity, roundUp);
    assert a <= a' by { AmountAMonotoneInRange(lower, upper, lower', upper', liquidity, roundUp); }
    assert a' <= U64_MAX;
  }

  /** More liquidity never backs less of token B: if the larger liquidity
      succeeds, so does the smaller. */
  lemma AmountDeltaBMonotoneInLiquidity(sqrtPrice0: U128, sqrtPrice1: U128, liquidity: U128, liquidity': U128, roundUp: bool)
    requires liquidity <= liquidity'
    requires GetAmountDeltaB(sqrtPrice0, sqrtPrice1, liquidity', roundUp).Ok?
    ensures GetAmountDeltaB(sqrtPrice0, sqrtPrice1, liquidity, roundUp).Ok?
    ensures GetAmountDeltaB(sqrtPrice0, sqrtPrice1, liquidity, roundUp).value
         <= GetAmountDeltaB(sqrtPrice0, sqrtPrice1, liquidity', roundUp).value
  {
    var (lower, upper) := IncreasingPriceOrder(sqrtPrice0, sqrtPrice1);
    MulMonotone(liquidity, liquidity', upper - lower);
    MulShiftRightMonotone(liquidity, upper - lower, liquidity', upper - lower, roundUp);
  }

  /** A wider price range never backs less of token B: if the wider range
      succeeds, so does the narrower one. */
  lemma AmountDeltaBMonotoneInRange(lower: U128, upper: U128, lower': U128, upper': U128, liquidity: U128, roundUp: bool)
    requires lower' <= lower <= upper <= upper'
    requires GetAmountDeltaB(lower', upper', liquidity, roundUp).Ok?
    ensures GetAmountDeltaB(lower, upper, liquidity, roundUp).Ok?
    ensures GetAmountDeltaB(lower, upper, liquidity, roundUp).value
         <= GetAmountDeltaB(lower', upper', liquidity, roundUp).value
  {
    assert IncreasingPriceOrder(lower, upper) == (lower, upper);
    assert IncreasingPriceOrder(lower', upper') == (lower', upper');
    MulMonotone(upper - lower, upper' - lower', liquidity);
    MulShiftRightMonotone(liquidity, upper - lower, liquidity, upper' - lower', roundUp);
  }

  /** The denominator of equation 6.15 in Q64.64: liquidity * 2^64 plus
      (adding A) or minus (removing A) amount * sqrt_price. */
  ghost function FromADenominator(sqrtPrice: nat, liquidity: nat, amount: nat, isInput: bool): int {
    if isInput then liquidity * TWO_64 + sqrtPrice * amount else liquidity * TWO_64 - sqrtPrice * amount
  }

  /** Equation 6.15: sqrt_price' = liquidity * sqrt_price / (liquidity ± amount * sqrt_price),
      rounded up. */
  ghost function NextSqrtPriceFromA(sqrtPrice: nat, liquidity: nat, amount: nat, isInput: bool): nat
    requires FromADenominator(sqrtPrice, liquidity, amount, isInput) > 0
  {
    CeilDiv(liquidity * sqrtPrice * TWO_64, FromADenominator(sqrtPrice, liquidity, amount, isInput))
  }

  /** Adding token A never raises the exact price; removing it never lowers it. */
  lemma NextSqrtPriceFromADirection(sqrtPrice: nat, liquidity: nat, amount: nat, isInput: bool)
    requires FromADenominator(sqrtPrice, liquidity, amount, isInput) > 0
    ensures isInput ==> NextSqrtPriceFromA(sqrtPrice, liquidity, amount, isInput) <= sqrtPrice
    ensures !isInput ==> sqrtPrice <= NextSqrtPriceFromA(sqrtPrice, liquidity, amount, isInput)
  {
    var n, d := liquidity * sqrtPrice * TWO_64, FromADenominator(sqrtPrice, liquidity, amount, isInput);
    var extra := sqrtPrice * (sqrtPrice * amount);
    assert extra >= 0;
    if isInput {
      assert sqrtPrice * d == n + extra;
      RoundedDivAtMost(n, d, sqrtPrice, true);
    } else {
      assert sqrtPrice * d == n - extra;
      RoundedDivAtLeast(n, d, sqrtPrice, true);
    }
  }

  /** The 256-bit division in `get_next_sqrt_price_from_a_round_up` aborts on
      a zero divisor; when removing A the code rejects that case itself, and
      when adding A it cannot arise unless both liquidity and price are zero. */
  predicate FromADefined(sqrtPrice: U128, liquidity: U128, amount: U64, isInput: bool) {
    amount == 0 || !isInput || liquidity > 0 || sqrtPrice > 0
  }

  /** `get_next_sqrt_price_from_a_round_up` */
  function GetNextSqrtPriceFromARoundUp(sqrtPrice: U128, liquidity: U128, amount: U64, isInput: bool): (r: Result<U128>)
    requires FromADefined(sqrtPrice, liquidity, amount, isInput)
    ensures amount == 0 ==> r == Ok(sqrtPrice)
    ensures amount > 0 ==> (r == Err(MultiplicationOverflow) <==> liquidity * sqrtPrice >= TWO_192)
    ensures amount > 0 ==>
      (r == Err(DivideByZero) <==>
         !isInput && liquidity * sqrtPrice < TWO_192 && liquidity * TWO_64 <= sqrtPrice * amount)
    ensures amount > 0 && liquidity * sqrtPrice < TWO_192 && FromADenominator(sqrtPrice, liquidity, amount, isInput) > 0 ==>
      var price := NextSqrtPriceFromA(sqrtPrice, liquidity, amount, isInput);
      && (r == Err(NumberDownCastError) <==> TWO_128 <= price)
      && (r == Err(TokenMinSubceeded) <==> price < MIN_SQRT_PRICE_X64)
      && (r == Err(TokenMaxExceeded) <==> MAX_SQRT_PRICE_X64 < price < TWO_128)
      && (r.Ok? <==> MIN_SQRT_PRICE_X64 <= price <= MAX_SQRT_PRICE_X64)
      && (r.Ok? ==> r.value == price)
    ensures r.Ok? && amount > 0 ==> MIN_SQRT_PRICE_X64 <= r.value <= MAX_SQRT_PRICE_X64
    ensures r.Ok? ==> if isInput then r.value <= sqrtPrice else sqrtPrice <= r.value
  {
    if amount == 0 then
      Ok(sqrtPrice)
    else
      var product := U256Muldiv.MulU256(sqrtPrice, amount);
      match U256Muldiv.CheckedShiftWordLeft(U256Muldiv.MulU256(liquidity, sqrtPrice))
      case None => Err(MultiplicationOverflow)
      case Some(numerator) =>
        var liquidityShiftLeft := U256Muldiv.ShiftWordLeft(liquidity);
        if !isInput && liquidityShiftLeft <= product then
          Err(DivideByZero)
        else
          U256Muldiv.ProductBound(sqrtPrice, amount, TWO_128, TWO_64);
          var denominator: U256 :=
            if isInput then liquidityShiftLeft + product else liquidityShiftLeft - product;
          NextSqrtPriceFromADirection(sqrtPrice, liquidity, amount, isInput);
          var price :- DivRoundUpIfU256(numerator, denominator, true);
          if price < MIN_SQRT_PRICE_X64 then
            Err(TokenMinSubceeded)
          else if price > MAX_SQRT_PRICE_X64 then
            Err(TokenMaxExceeded)
          else
            Ok(price)
  }

  /** The price from A is the smallest Q64.64 value at or above the exact
      quotient of equation 6.15: rounding up means adding A never moves the
      price as far as the exact amount would, and removing A moves it at
      least that far. */
  lemma NextSqrtPriceFromAIsCeiling(sqrtPrice: U128, liquidity: U128, amount: U64, isInput: bool)
    requires FromADefined(sqrtPrice, liquidity, amount, isInput)
    requires amount > 0 && GetNextSqrtPriceFromARoundUp(sqrtPrice, liquidity, amount, isInput).Ok?
    ensures var d := FromADenominator(sqrtPrice, liquidity, amount, isInput);
      var price := GetNextSqrtPriceFromARoundUp(sqrtPrice, liquidity, amount, isInput).value;
      d > 0 &&
      price * d - d < liquidity * sqrtPrice * TWO_64 <= price * d
  {
    CeilDivBounds(liquidity * sqrtPrice * TWO_64, FromADenominator(sqrtPrice, liquidity, amount, isInput));
  }

  /** `get_next_sqrt_price_from_b_round_down` */
  function GetNextSqrtPriceFromBRoundDown(sqrtPrice: U128, liquidity: U128, amount: U64, isInput: bool): (r: Result<U128>)
    ensures liquidity == 0 <==> r == Err(DivideByZero)
    ensures liquidity > 0 && isInput ==>
      var next := sqrtPrice + FloorDiv(amount * TWO_64, liquidity);
      (r.Ok? <==> next < TWO_128) && (r.Ok? ==> r.value == next)
    ensures liquidity > 0 && !isInput ==>
      var next := sqrtPrice - CeilDiv(amount * TWO_64, liquidity);
      (r.Ok? <==> 0 <= next) && (r.Ok? ==> r.value == next)
    ensures r.Err? ==> r.error == DivideByZero || r.error == SqrtPriceOutOfBounds
  {
    // `(amount as u128) << Q64_RESOLUTION`: amount < 2^64, so no bit is shifted out
    var amountX64: U128 := amount * TWO_64;
    var delta :- DivRoundUpIf(amountX64, liquidity, !isInput);
    if isInput then
      if sqrtPrice + delta < TWO_128 then Ok(sqrtPrice + delta) else Err(SqrtPriceOutOfBounds)
    else
      if delta <= sqrtPrice then Ok(sqrtPrice - delta) else Err(SqrtPriceOutOfBounds)
  }

  /** Adding B raises the price by no more than amount / liquidity: a fixed
      input never buys more price movement than it pays for. */
  lemma NextSqrtPriceFromBInputRoundsDown(sqrtPrice: U128, liquidity: U128, amount: U64)
    requires GetNextSqrtPriceFromBRoundDown(sqrtPrice, liquidity, amount, true).Ok?
    ensures var next := GetNextSqrtPriceFromBRoundDown(sqrtPrice, liquidity, amount, true).value;
      sqrtPrice <= next &&
      (next - sqrtPrice) * liquidity <= amount * TWO_64 < (next - sqrtPrice + 1) * liquidity
  {
    FloorDivBounds(amount * TWO_64, liquidity);
  }

  /** Removing B lowers the price by at least amount / liquidity: a fixed
      output is always fully paid for, with less than one unit of slack. */
  lemma NextSqrtPriceFromBOutputRoundsDown(sqrtPrice: U128, liquidity: U128, amount: U64)
    requires GetNextSqrtPriceFromBRoundDown(sqrtPrice, liquidity, amount, false).Ok?
    ensures var next := GetNextSqrtPriceFromBRoundDown(sqrtPrice, liquidity, amount, false).value;
      next <= sqrtPrice &&
      (sqrtPrice - next - 1) * liquidity < amount * TWO_64 <= (sqrtPrice - next) * liquidity
  {
    CeilDivBounds(amount * TWO_64, liquidity);
  }

  /** `get_next_sqrt_price`: the token whose amount is fixed is A exactly when
      `amount_specified_is_input == a_to_b`. Either way the price falls for an
      A-to-B trade and rises for a B-to-A trade. */
  function GetNextSqrtPrice(sqrtPrice: U128, liquidity: U128, amount: U64, isInput: bool, aToB: bool): (r: Result<U128>)
    requires isInput == aToB ==> FromADefined(sqrtPrice, liquidity, amount, isInput)
    ensures isInput == aToB ==> r == GetNextSqrtPriceFromARoundUp(sqrtPrice, liquidity, amount, isInput)
    ensures isInput != aToB ==> r == GetNextSqrtPriceFromBRoundDown(sqrtPrice, liquidity, amount, isInput)
    ensures r.Ok? ==> if aToB then r.value <= sqrtPrice else sqrtPrice <= r.value
  {
    if isInput == aToB then
      GetNextSqrtPriceFromARoundUp(sqrtPrice, liquidity, amount, isInput)
    else
      GetNextSqrtPriceFromBRoundDown(sqrtPrice, liquidity, amount, isInput)
  }
}
