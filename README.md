# Whirlpool fixed-point math and tick-array window, in Dafny

This project models three pieces of exact-integer logic of the Whirlpool
concentrated-liquidity AMM (the `sol-farm/whirlpool-fork` program) and proves
their contracts:

- **Fixed-point primitives** (`bit_math.dfy`, module `BitMath`). These cover:
  - checked multiply-divide;
  - multiply-then-shift-right by 64 (an integer times a Q64.64 value, back to u64);
  - u128 and 256-bit division.

  Each takes an explicit round-up flag and reports typed errors. Their
  results are tied to reference floor/ceiling quotients (`rounding.dfy`,
  module `Rounding`).
- **Price/amount conversion** (`token_math.dfy`, module `TokenMath`). This is
  equations 6.13–6.16 of the Uniswap v3 core whitepaper over Q64.64 square-root
  prices:
  - the token-A and token-B amounts between two prices;
  - the price reached after adding or removing a fixed amount of A (rounded up)
    or of B (rounded down).

  The proofs cover every error boundary, the rounding direction and the
  direction in which the price moves.
- **The swap's tick-array window** (`swap_tick_sequence.dfy`, module
  `TickSequence`). `SwapTickSequence` is a class holding one to three tick-array
  chunks. Its get, update and offset operations check the index. Its walk for
  the next initialized tick is a `while` loop, proved equal to a recursive
  specification whose outcome, index range and direction are proved as lemmas.

The collaborators the core calls are modelled by their contracts:
- `U256Muldiv` is modelled on exact integers below 2^256 (`u256_muldiv.dfy`).
  Its 256-bit product (`mul_u256`), word shifts (`checked_shift_word_left`,
  `shift_word_left`) and narrowing to u128 (`try_into_u128`) are plain
  definitions on those integers: the product, multiplication by 2^64 (with
  `checked_shift_word_left` failing from 2^192 up), and the identity below
  2^128. Only its division carries a stated property.
- `TickArray` is modelled as a class over an `array<Tick>` of `TICK_ARRAY_SIZE`
  slots (`tick_array.dfy`).

Integer widths (u16, u64, u128, U256) are subset types of `int`
(`types.dfy`). Every overflow check of the source is written out against
2^64, 2^128, 2^192 or 2^256.

`checked_mul_div_round_up_if` takes `n0 * n1` with a checked u128 multiply
(`src/math/bit_math.rs:26`), so it fails with `MulDivOverflow` once the product
reaches 2^128, even when the quotient would fit.

## Model

| member | source | states |
|---|---|---|
| BitMath.CheckedMulDiv | src/math/bit_math.rs:8-10 | d = 0 gives DivideByZero; a product of at least 2^128 gives MulDivOverflow; otherwise the floor of n0*n1/d |
| BitMath.CheckedMulDivRoundUp | src/math/bit_math.rs:12-14 | the same errors; otherwise the ceiling of n0*n1/d |
| BitMath.CheckedMulDivRoundUpIf | src/math/bit_math.rs:16-30 | DivideByZero whenever d = 0, before the product is looked at; MulDivOverflow exactly when n0*n1 >= 2^128; success exactly otherwise, with n0*n1/d rounded as asked |
| BitMath.MulDivRoundUpVersusRoundDown | src/math/bit_math.rs:27-29 | whenever rounding down succeeds, rounding up succeeds too; it is at least the rounded-down value and at most one more, and equal exactly when d divides n0*n1 |
| BitMath.CheckedMulShiftRight | src/math/bit_math.rs:32-34 | MultiplicationShiftRightOverflow when n0*n1 >= 2^128; otherwise the floor of n0*n1/2^64 |
| BitMath.CheckedMulShiftRightRoundUpIf | src/math/bit_math.rs:40-61 | 0 when either operand is 0; MultiplicationShiftRightOverflow exactly when n0*n1 >= 2^128; MultiplicationOverflow exactly when the rounded quotient n0*n1/2^64 exceeds u64::MAX; success exactly otherwise, with that rounded quotient |
| BitMath.MulShiftRightOverflowCondition | src/math/bit_math.rs:53-58 | the u64 overflow happens exactly when rounding up is asked, a discarded low bit is set and the truncated quotient is already u64::MAX |
| BitMath.MulShiftRightRoundUpVersusRoundDown | src/math/bit_math.rs:53-60 | whenever rounding up succeeds, rounding down does too; the two differ by at most one, and are equal exactly when 2^64 divides n0*n1 |
| BitMath.MulShiftRightMonotone | src/math/bit_math.rs:49-60 | a product no larger than one that shifts successfully also shifts successfully, to no larger a value |
| BitMath.ShiftedWordFits | src/math/bit_math.rs:53 | a u128 shifted right by 64 fits in u64, so the cast drops nothing |
| BitMath.DivRoundUp | src/math/bit_math.rs:63-65 | DivideByZero exactly when d = 0; otherwise the ceiling of n/d |
| BitMath.DivRoundUpIf | src/math/bit_math.rs:67-75 | DivideByZero exactly when d = 0; otherwise n/d rounded as asked |
| BitMath.DivRoundUpVersusRoundDown | src/math/bit_math.rs:72-74 | the rounded-up quotient is the rounded-down one or one more, and equals it exactly when d divides n |
| BitMath.DivRoundUpIfU256 | src/math/bit_math.rs:77-91 | n/d rounded as asked; succeeds exactly when that value is below 2^128, and otherwise fails with the narrowing error |
| U256Muldiv.Div | src/math/token_math.rs:57 | the floor quotient and the remainder: n = q*d + r with r < d |
| TokenMath.IncreasingPriceOrder | src/math/token_math.rs:94-100 | the pair sorted ascending, and a permutation of the two inputs |
| TokenMath.GetAmountDeltaA | src/math/token_math.rs:41-70 | MultiplicationOverflow exactly when liquidity*(upper-lower)*2^64 reaches 2^256; otherwise equation 6.16 rounded as asked, which succeeds exactly when it fits in u64, fails with TokenMaxExceeded between u64::MAX and 2^128, and with the narrowing error at 2^128 or more |
| TokenMath.GetAmountDeltaB | src/math/token_math.rs:81-92 | equation 6.14 rounded as asked; MultiplicationShiftRightOverflow exactly when liquidity*(upper-lower) >= 2^128; MultiplicationOverflow exactly when the amount exceeds u64::MAX |
| TokenMath.AmountDeltasSymmetric | src/math/token_math.rs:94-100 | swapping the two prices changes neither amount |
| TokenMath.AmountDeltasVanishAtEqualPrices | src/math/token_math.rs:87-91 | between equal prices the amount of B is 0 at every price, and the amount of A is 0 at every positive price (at price 0 the 256-bit division would get a zero divisor) |
| TokenMath.AmountDeltaARoundUpVersusRoundDown | src/math/token_math.rs:57-63 | when the rounded-up amount of A succeeds, the rounded-down one does too, is no larger, and is smaller by at most one |
| TokenMath.AmountAMonotoneInLiquidity | src/math/token_math.rs:49-63 | equation 6.16 never decreases as liquidity grows |
| TokenMath.AmountDeltaAMonotoneInLiquidity | src/math/token_math.rs:41-70 | the amount of A never decreases with liquidity; if the larger liquidity succeeds, so does the smaller |
| TokenMath.AmountAMonotoneInRange | src/math/token_math.rs:49-63 | equation 6.16 never decreases as the price range widens |
| TokenMath.AmountDeltaAMonotoneInRange | src/math/token_math.rs:41-70 | the amount of A never decreases as the range widens; if the wider range succeeds, so does the narrower |
| TokenMath.AmountDeltaBMonotoneInLiquidity | src/math/token_math.rs:81-92 | the amount of B never decreases with liquidity; if the larger liquidity succeeds, so does the smaller |
| TokenMath.AmountDeltaBMonotoneInRange | src/math/token_math.rs:81-92 | the amount of B never decreases as the range widens; if the wider range succeeds, so does the narrower |
| TokenMath.NextSqrtPriceFromADirection | src/math/token_math.rs:105-118 | the exact price of equation 6.15 never rises when A is added and never falls when A is removed |
| TokenMath.GetNextSqrtPriceFromARoundUp | src/math/token_math.rs:119-154 | an unchanged price for amount 0; MultiplicationOverflow exactly when liquidity*price*2^64 reaches 2^256; DivideByZero exactly when removing A with liquidity*2^64 <= price*amount; otherwise the ceiling of equation 6.15, which succeeds exactly when it lies within [MIN_SQRT_PRICE_X64, MAX_SQRT_PRICE_X64], fails with TokenMinSubceeded below, TokenMaxExceeded above and the narrowing error from 2^128 up; a success lies within those bounds, at or below the start price when adding A and at or above it when removing A |
| TokenMath.NextSqrtPriceFromAIsCeiling | src/math/token_math.rs:140-146 | the returned price is the smallest value whose product with the denominator reaches liquidity*price*2^64 |
| TokenMath.GetNextSqrtPriceFromBRoundDown | src/math/token_math.rs:161-192 | DivideByZero exactly when liquidity is 0; adding B gives price + floor(amount*2^64/liquidity) and removing B gives price - ceil(amount*2^64/liquidity), each succeeding exactly when the result stays within u128; every other failure is SqrtPriceOutOfBounds |
| TokenMath.NextSqrtPriceFromBInputRoundsDown | src/math/token_math.rs:167-185 | adding B never lowers the price; it rises by no more than amount/liquidity and by less than one unit below it |
| TokenMath.NextSqrtPriceFromBOutputRoundsDown | src/math/token_math.rs:171-190 | removing B lowers the price, by at least amount/liquidity and by less than one unit above it |
| TokenMath.GetNextSqrtPrice | src/math/token_math.rs:194-264 | the A formula exactly when amount_specified_is_input == a_to_b, else the B formula; a success never rises for A to B and never falls for B to A |
| TickArrays.TickArray.TickOffset | src/util/swap_tick_sequence.rs:87 | InvalidTickSpacing exactly for spacing 0, success exactly for a non-zero spacing, with the slot whose spacing-wide range holds the tick index |
| TickArrays.TickArray.IsMinTickArray | src/util/swap_tick_sequence.rs:134 | holds exactly when no tick index of the global range [MIN_TICK_INDEX, MAX_TICK_INDEX] lies below the chunk's start |
| TickArrays.TickArray.IsMaxTickArray | src/util/swap_tick_sequence.rs:136 | holds exactly when every tick index of the global range lies below the chunk's end, start + TICK_ARRAY_SIZE * spacing |
| TickArrays.TickArray.GetTick | src/util/swap_tick_sequence.rs:46 | succeeds exactly for a usable tick inside the chunk, returning the tick of the slot holding it; otherwise TickNotFound |
| TickArrays.TickArray.UpdateTick | src/util/swap_tick_sequence.rs:72 | succeeds exactly when GetTick would; then it overwrites that one slot with the update; a failure changes nothing |
| TickArrays.TickArray.NextInitTickIndex | src/util/swap_tick_sequence.rs:97-98 | InvalidTickArraySequence exactly when the start lies outside the chunk's search range for the direction; a tick it finds is initialized, at or below the start for A to B, and strictly above it for B to A |
| TickArrays.TickArray.NextInitTickIndexIsNearest | src/util/swap_tick_sequence.rs:97-98 | the search skips no initialized tick of the chunk between the start and the tick it returns, and returns nothing only when that side holds none |
| TickSequence.SwapTickSequence.constructor | src/util/swap_tick_sequence.rs:11-25 | the window holds ta0, then ta1 and ta2 when present, so its length is 1 plus the number of present arguments, between 1 and 3 |
| TickSequence.SwapTickSequence.GetTick | src/util/swap_tick_sequence.rs:38-49 | TickArrayIndexOutofBounds exactly when array_index >= len; otherwise the answer of that one chunk |
| TickSequence.SwapTickSequence.UpdateTick | src/util/swap_tick_sequence.rs:62-77 | TickArrayIndexOutofBounds exactly when array_index >= len; otherwise the chunk's own update, failing only with TickNotFound; only that chunk's tick changes, every other chunk and the window's length stay as they were |
| TickSequence.SwapTickSequence.GetTickOffset | src/util/swap_tick_sequence.rs:79-90 | TickArrayIndexOutofBounds exactly when array_index >= len; otherwise that chunk's offset |
| TickSequence.SwapTickSequence.GetNextInitializedTickIndex | src/util/swap_tick_sequence.rs:106-162 | the loop computes the walk's specification; TickArraySequenceInvalidIndex exactly when start_array_index >= len; a success lies in a chunk in [start_array_index, len), at or below the start tick for A to B (or the global minimum), above it for B to A (or the global maximum); nothing is modified; the loop ends because the chunk index increases |
| TickSequence.SwapTickSequence.NextInitializedIndexRange | src/util/swap_tick_sequence.rs:118-141 | the walk fails with TickArraySequenceInvalidIndex only when it starts past the last chunk, and otherwise stops in a chunk at or after its start |
| TickSequence.SwapTickSequence.NextInitializedDirection | src/util/swap_tick_sequence.rs:125-156 | the walk never goes against the trade direction, except to return MIN_TICK_INDEX or MAX_TICK_INDEX |
| TickSequence.SwapTickSequence.NextInitializedOutcome | src/util/swap_tick_sequence.rs:125-158 | every chunk passed was exhausted from its entry search index (the caller's start, then start-1 or the last tick of the previous chunk) without being the min or max chunk; the chunk it stops in reported the tick, or is the min chunk (A to B, MIN_TICK_INDEX), or is the max chunk (B to A, MAX_TICK_INDEX), or is the last loaded chunk, provided it is not the min chunk (A to B) or the max chunk (B to A), stopping at its start tick for A to B and its last tick for B to A |

## Left out

- The internals of `U256Muldiv` and `TickArray` are not part of this model. They are given by contracts over exact integers and a slot array, following the upstream Orca Whirlpools semantics:
  - `tick_offset` is a floor division;
  - `get_tick` requires a usable tick inside the chunk;
  - a usable tick (`check_is_usable_tick`) lies in [MIN_TICK_INDEX, MAX_TICK_INDEX] and is a multiple of the spacing;
  - `is_min_tick_array` is start <= MIN_TICK_INDEX;
  - `is_max_tick_array` is start + TICK_ARRAY_SIZE * spacing > MAX_TICK_INDEX;
  - the next-initialized search first checks the start against the chunk's search range.
  - `Tick::update` (TickArrays.ApplyUpdate) copies every field of the `TickUpdate` into the tick.
- The constants that live outside the modelled files take the upstream Orca Whirlpools values: `MIN_SQRT_PRICE_X64`, `MAX_SQRT_PRICE_X64`, `TICK_ARRAY_SIZE` = 88, `MIN_TICK_INDEX`/`MAX_TICK_INDEX` = ∓443636.
- U256Muldiv.Div: the flag that tells the 256-bit division whether to compute the remainder is dropped. The remainder is always exact, and callers only read it when rounding up.
- BitMath.DivRoundUpIfU256: requires a non-zero divisor, because the 256-bit division aborts on zero rather than returning an error.
- TokenMath.GetAmountDeltaA: requires a positive lower price unless the numerator overflows first. With a zero lower price the code reaches the aborting 256-bit division by zero.
- TokenMath.GetNextSqrtPriceFromARoundUp: requires that adding a non-zero amount of A does not meet zero liquidity and zero price together. That is the only input where the 256-bit division gets a zero divisor. `TokenMath.GetNextSqrtPrice` inherits this requirement.
- Tick indexes, `ticks_in_array` and `array_index + 1` are unbounded integers. i32 and usize overflow of tick arithmetic is not modelled.
- Chunks are exclusively borrowed (`RefMut`). This is modelled as distinct tick arrays, and `get_tick` returns the tick's value rather than a reference.
- Anchor's conversion of `ErrorCode` into its own `Result` is not modelled. Errors are one datatype.
- The round trip "feed an amount delta back into the next-price function and recover the bounding price within one unit" is not proved.
- The swap loop, liquidity changes, fee and reward accrual, and the Anchor instruction handlers and account structs are outside this model.
