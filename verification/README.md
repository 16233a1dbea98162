# solrush-dex core, modelled in Dafny

SolRush is a Solana (Anchor) program with two parts: a constant-product AMM and a perpetual-futures engine. The AMM has liquidity pools, LP tokens, swaps, limit orders and RUSH liquidity-mining rewards. The perpetuals engine has cross-collateral user accounts, positions with a volume-weighted entry price, a funding index, and partial liquidation backed by an insurance vault.

This project models the arithmetic core of both parts and the perpetuals instruction handlers that update accounts.

- `machine.dfy` (`Machine`): the Rust integer types (`u8`, `u16`, `u64`, `i64`, `u128`, `i128`) as subset types of `int`, together with:
  - `checked_*` arithmetic;
  - truncating `/` and `%`;
  - the `as` casts;
  - the program's error codes;
  - a `Result` type.

  A Rust panic is written out as the `Panic` error when the function returns `Result`. Otherwise it is excluded by a `requires`.
- `fixed_point.dfy` (`FixedPoint`), from `perps_math.rs`:
  - 256-bit widening multiply and long division;
  - `mul_div`;
  - the signed, floor and ceiling variants.
- `position_engine.dfy` (`PositionEngine`), from `perps_math.rs`:
  - `apply_trade_to_position`: open, increase, reduce, close, flip;
  - PnL, notional, margin, equity;
  - liquidation eligibility and the close size.
- `perps_handlers.dfy` (`PerpsHandlers`), from `instructions/perps.rs`:
  - funding settlement and the funding-index update;
  - `open_position`, `close_position`, `liquidate_position`.

  Each handler is a function that computes the error or every new field value. A method on the account classes (`Market`, `Position`, `UserAccount`, `InsuranceVault`) applies the result. A failed transaction leaves every account unchanged.
- `amm_math.dfy` (`AmmMath`), from `utils.rs`:
  - integer square root;
  - LP tokens for a first and a later deposit, and the amounts returned on withdrawal;
  - the ratio-imbalance check;
  - the swap output with its fee;
  - the pool price and the limit-order price condition.
- `pairs.dfy` (`Pairs`), from `constants.rs`: pair validity and the canonical (sorted) mint pair under the byte order of `Pubkey`.
- `limit_orders.dfy`, `rush_rewards.dfy`, `pools.dfy`, `liquidity_positions.dfy`: the accessor methods of the `state/` accounts `LimitOrder`, `RushConfig`, `LiquidityPool` and `UserLiquidityPosition`.

Inputs that come from outside the program are parameters:
- the oracle price, the clock (`now`), the collateral vault's token balance, and the global `paused` flag;
- whether the liquidator is the position owner.

Token transfers are reported as amounts.

## Model

| member | source | states |
|---|---|---|
| FixedPoint.FullMulU128 | solrush-dex/programs/solrush-dex/src/perps_math.rs:496-511 | the (high, low) word pair recombines to exactly a * b |
| FixedPoint.QuotientFits | solrush-dex/programs/solrush-dex/src/perps_math.rs:515-519 | the overflow guard `hi >= d` is exactly the case where the 256-by-128-bit quotient does not fit in u128 |
| FixedPoint.WideDivU256 | solrush-dex/programs/solrush-dex/src/perps_math.rs:515-545 | corrected long division: Err(CalculationOverflow) iff hi >= d, otherwise the exact quotient and remainder of hi * 2^128 + lo by d |
| FixedPoint.WideDivU256AsWritten | solrush-dex/programs/solrush-dex/src/perps_math.rs:515-545 | the loop as written (u128 remainder shifted left, top bit lost): same guard, result is the bit-serial loop over the low word |
| FixedPoint.WideDivAsWrittenExactBelowHalf | solrush-dex/programs/solrush-dex/src/perps_math.rs:531-542 | for divisors up to 2^127 the loop as written computes the exact quotient and remainder |
| FixedPoint.WideDivAsWrittenCounterexample | solrush-dex/programs/solrush-dex/src/perps_math.rs:531-542 | for u128::MAX * u128::MAX / u128::MAX the true quotient u128::MAX fits, but the loop as written returns a quotient below 2^127 |
| FixedPoint.WideMulDivWithRem | solrush-dex/programs/solrush-dex/src/perps_math.rs:477-493 | corrected (built on WideDivU256): Err on d == 0; otherwise Ok((a*b / d, a*b % d)) exactly when the quotient fits in u128, else CalculationOverflow |
| FixedPoint.WideMulDiv | solrush-dex/programs/solrush-dex/src/perps_math.rs:471-474 | corrected (built on WideDivU256): the quotient of the above, with the same error cases |
| FixedPoint.MulDiv | solrush-dex/programs/solrush-dex/src/perps_math.rs:33-42 | corrected (built on WideDivU256), as its doc comment promises: Ok iff denom > 0 and floor(a*b/denom) fits in u128; the value is floor(a*b/denom); the only error is CalculationOverflow |
| FixedPoint.SignedDivisorExact | solrush-dex/programs/solrush-dex/src/perps_math.rs:48-59 | the divisor of a signed multiply-divide, abs(denom) of an i128, is at most 2^127, so there the long division as written gives the exact quotient and remainder, the same as the corrected one |
| FixedPoint.SignedMulDiv | solrush-dex/programs/solrush-dex/src/perps_math.rs:48-59 | Ok iff denom != 0 and the truncated quotient a*b/denom has magnitude at most i128::MAX; the value is that quotient rounded toward zero |
| FixedPoint.FloorDiv | solrush-dex/programs/solrush-dex/src/perps_math.rs:82-94 | b == 0 is CalculationOverflow, i128::MIN / -1 panics, otherwise the mathematical floor of a/b |
| FixedPoint.CeilDiv | solrush-dex/programs/solrush-dex/src/perps_math.rs:99-112 | b == 0 is CalculationOverflow, i128::MIN / -1 panics, otherwise the mathematical ceiling of a/b |
| FixedPoint.FloorCeilBracket | solrush-dex/programs/solrush-dex/src/perps_math.rs:82-112 | both succeed; floor and ceiling bracket a/b, differ by at most one, and coincide exactly when b divides a |
| FixedPoint.TruncatedToRounded | solrush-dex/programs/solrush-dex/src/perps_math.rs:82-112 | the floor is the truncated quotient minus one exactly when the remainder is non-zero with the sign opposite to b's, and the ceiling is plus one exactly when it has b's sign |
| FixedPoint.SignedMulDivFloor | solrush-dex/programs/solrush-dex/src/perps_math.rs:115-136 | Ok iff denom != 0 and floor(a*b/denom) lies in [-i128::MAX, i128::MAX], with that value; Panic only when the floor is i128::MIN |
| FixedPoint.SignedMulDivCeil | solrush-dex/programs/solrush-dex/src/perps_math.rs:139-160 | Ok iff denom != 0 and ceil(a*b/denom) lies in [-i128::MAX, i128::MAX], with that value; Panic only when the ceiling is 2^127 |
| PositionEngine.ApplyTrade | solrush-dex/programs/solrush-dex/src/perps_math.rs:197-314 | a zero trade changes nothing; the new base is old base + delta (CalculationOverflow when that leaves i64); realized PnL accumulates the trade's pnl delta; every failure is CalculationOverflow |
| PositionEngine.ApplyTradeOpensFromFlat | solrush-dex/programs/solrush-dex/src/perps_math.rs:220-227 | from a flat position the trade opens at the trade price with no PnL |
| PositionEngine.AverageEntry | solrush-dex/programs/solrush-dex/src/perps_math.rs:231-260 | the only failure of the weighted-average computation is CalculationOverflow |
| PositionEngine.AverageEntryIncrease | solrush-dex/programs/solrush-dex/src/perps_math.rs:231-260 | for non-negative prices and sizes up to 2^63 the casts change nothing, no checked step overflows, and the new entry is the truncated size-weighted average of entry and trade price, lying between the two |
| PositionEngine.WeightedAverageBetween | solrush-dex/programs/solrush-dex/src/perps_math.rs:231-260 | the truncated weighted average lies between the two prices |
| PositionEngine.ApplyTradeIncrease | solrush-dex/programs/solrush-dex/src/perps_math.rs:231-260 | increasing with non-negative prices succeeds iff the new base fits, realizes nothing, and the new entry is the weighted average, between the old entry and the trade price |
| PositionEngine.ApplyTradeReduce | solrush-dex/programs/solrush-dex/src/perps_math.rs:261-312 | reducing/closing/flipping realizes min(abs(base),abs(delta)) * (price - entry), signed by the old side; Ok iff base and realized PnL fit; full close resets entry to 0, partial keeps it, a flip re-enters at the trade price |
| PositionEngine.ApplyTradeKeepsEntryConsistent | solrush-dex/programs/solrush-dex/src/perps_math.rs:197-314 | at a positive trade price, "open iff entry price > 0" is preserved by every successful trade |
| PositionEngine.ApplyTradeExamples | solrush-dex/programs/solrush-dex/src/perps_math.rs:687-785 | the increase and flip cases of the unit tests give the values the tests expect |
| PositionEngine.ApplyTradeAccumulatesRealized | solrush-dex/programs/solrush-dex/src/perps_math.rs:843-862 | two partial closes accumulate +50e12 and -25e12 into realized PnL, as the unit test expects |
| PositionEngine.UnrealizedPnl | solrush-dex/programs/solrush-dex/src/perps_math.rs:323-333 | always Ok with base * (mark - entry) (the product of two i64-sized values cannot overflow i128) |
| PositionEngine.UnrealizedPnlDirection | solrush-dex/programs/solrush-dex/src/perps_math.rs:323-333 | a long gains iff mark > entry, a short gains iff mark < entry, and opposite positions have opposite PnL |
| PositionEngine.NotionalValue | solrush-dex/programs/solrush-dex/src/perps_math.rs:338-345 | always Ok with abs(base) * abs(price) |
| PositionEngine.NotionalValueProperties | solrush-dex/programs/solrush-dex/src/perps_math.rs:338-345 | notional is non-negative, the same for long and short, and monotone in position size |
| PositionEngine.RequiredMargin | solrush-dex/programs/solrush-dex/src/perps_math.rs:350-355 | leverage 0 is InvalidLeverage; otherwise the least value m with m * leverage >= notional (ceiling) |
| PositionEngine.PositionEquity | solrush-dex/programs/solrush-dex/src/perps_math.rs:366-372 | Ok iff collateral + unrealized PnL fits i128, with that value; otherwise CalculationOverflow |
| PositionEngine.MaintenanceMargin | solrush-dex/programs/solrush-dex/src/perps_math.rs:394-398 | Ok iff notional * bps fits i128, with value notional * bps / 10000 |
| PositionEngine.IsLiquidatable | solrush-dex/programs/solrush-dex/src/perps_math.rs:382-400 | flat positions never are; otherwise Ok iff equity and margin product fit, and true iff equity < notional * bps / 10000 |
| PositionEngine.LiquidationCloseSize | solrush-dex/programs/solrush-dex/src/perps_math.rs:413-462 | flat gives 0; otherwise Ok exactly when the equity fits i128 and, for positive equity, abs(base) * abs(mark) * bps fits i128 (the checks is_liquidatable makes); a size in [0, abs(base)] (for base other than i64::MIN); errors are CalculationOverflow |
| PositionEngine.LiquidationCloseSizeCases | solrush-dex/programs/solrush-dex/src/perps_math.rs:413-462 | Ok exactly when equity <= 0 or the maintenance-margin product fits i128; full close when equity <= 0 or the per-unit margin rounds to 0; 0 when not under-margined; otherwise ceil(deficit / per-unit margin) clamped to [1, abs(base)], which covers the deficit unless everything is closed |
| PositionEngine.CloseSizeAgreesWithLiquidatable | solrush-dex/programs/solrush-dex/src/perps_math.rs:382-462 | whenever is_liquidatable succeeds the close size succeeds too; a liquidatable position gets a close size >= 1; a healthy one with positive equity gets 0 |
| PositionEngine.EquityFits | solrush-dex/programs/solrush-dex/src/perps_math.rs:366-380 | for a base other than i64::MIN, collateral + base * (mark - entry) always fits i128, so position_equity never fails there |
| PositionEngine.LiquidationCloseSizeMinBase | solrush-dex/programs/solrush-dex/src/perps_math.rs:421-428 | for base i64::MIN with non-positive equity the `unsigned_abs() as i64` wrap makes the close size i64::MIN |
| PositionEngine.LiquidationExamples | solrush-dex/programs/solrush-dex/src/perps_math.rs:892-991 | the liquidation unit tests' inputs give the expected eligibility and close sizes |
| PerpsHandlers.SettleFunding | solrush-dex/programs/solrush-dex/src/instructions/perps.rs:33-61 | nothing moves for a flat position or an unchanged index; otherwise Ok iff every intermediate fits; checkpoint becomes the market index, the payment is base * index change, and collateral is max(0, collateral - payment) |
| PerpsHandlers.SettleFundingDirection | solrush-dex/programs/solrush-dex/src/instructions/perps.rs:25-61 | longs pay when the index rises, shorts when it falls; paying never raises collateral and receiving credits exactly the payment |
| PerpsHandlers.SettleFundingIdempotent | solrush-dex/programs/solrush-dex/src/instructions/perps.rs:33-61 | settling again at the same index is a no-op |
| PerpsHandlers.FundingRate | solrush-dex/programs/solrush-dex/src/instructions/perps.rs:704-720 | the premium (mark - index) * 1e6 / index, truncated, clamped to [-max, max]; its sign follows mark vs index; it always fits i64 |
| PerpsHandlers.FundingIncrement | solrush-dex/programs/solrush-dex/src/instructions/perps.rs:723-727 | abs(increment) = index * abs(rate) / 1e6, with the sign of the rate |
| PerpsHandlers.Market.UpdateFunding | solrush-dex/programs/solrush-dex/src/instructions/perps.rs:684-744 | the error order paused, elapsed overflow, FundingTooSoon, non-positive index; on success the stored rate, the index advanced by the increment and the timestamp; other fields and failed calls leave the market unchanged |
| PerpsHandlers.TradeDelta | solrush-dex/programs/solrush-dex/src/instructions/perps.rs:380-384 | the signed trade has magnitude size and is positive iff the side is long |
| PerpsHandlers.RequiredCollateral | solrush-dex/programs/solrush-dex/src/instructions/perps.rs:399-414 | Ok iff ceil(abs(base) * abs(price) / leverage) fits u64, and then the initial margin is that ceiling; otherwise CalculationOverflow |
| PerpsHandlers.PnlCredit | solrush-dex/programs/solrush-dex/src/instructions/perps.rs:417-425 | realized profit is credited (when it fits u64), losses credit 0 |
| PerpsHandlers.CountAfterTrade | solrush-dex/programs/solrush-dex/src/instructions/perps.rs:457-466 | opening from flat increments the count (checked), going flat decrements it (saturating), otherwise unchanged |
| PerpsHandlers.OpenOutcome | solrush-dex/programs/solrush-dex/src/instructions/perps.rs:341-470 | the validation errors PerpsPaused, OrderTypeNotSupported, InvalidAmount, InvalidLeverage in the source's order; after them Ok exactly when funding settles, ApplyTrade and RequiredCollateral succeed, the user covers the shortfall, the profit credit, new user balance and open interest fit and CountAfterTrade succeeds; the only other errors are InsufficientCollateral and CalculationOverflow; on success: funding settled, the position takes ApplyTrade's new base, entry and realized PnL, collateral is the initial margin, the user pays the shortfall over settled collateral and is credited max(0, pnl delta), the count follows CountAfterTrade, open interest moves by the notional change |
| PerpsHandlers.OpenRejectsWithoutCollateral | solrush-dex/programs/solrush-dex/src/instructions/perps.rs:399-414 | once trade and margin are computed, InsufficientCollateral is returned exactly when free collateral is below the shortfall |
| PerpsHandlers.OpenPosition | solrush-dex/programs/solrush-dex/src/instructions/perps.rs:341-470 | the accounts take the values OpenOutcome computes, and are unchanged on error |
| PerpsHandlers.CloseTrade | solrush-dex/programs/solrush-dex/src/instructions/perps.rs:541-545 | closing with -base realizes base * (price - entry) and leaves the position flat, failing only on realized-PnL overflow |
| PerpsHandlers.CloseOutcome | solrush-dex/programs/solrush-dex/src/instructions/perps.rs:506-589 | paused, then NoOpenPosition; after them Ok exactly when funding settles, base is not i64::MIN, the realized PnL, the user's new balance and open interest fit; other errors are CalculationOverflow; on success the user gets max(0, settled collateral + PnL), the position is reset keeping realized PnL, the count decrements and open interest drops by the notional |
| PerpsHandlers.ClosePosition | solrush-dex/programs/solrush-dex/src/instructions/perps.rs:506-589 | the accounts take the values CloseOutcome computes, and are unchanged on error |
| PerpsHandlers.LiquidationFee | solrush-dex/programs/solrush-dex/src/instructions/perps.rs:977-995 | Ok iff notional * bps fits i128; the fee is notional * bps / 1e10 (0 if it exceeds u64), never more than the exact share |
| PerpsHandlers.AbsorbBadDebt | solrush-dex/programs/solrush-dex/src/instructions/perps.rs:1011-1030 | balance + absorbed debt = old balance; remaining is max(0, left); a deficit the fund covers is absorbed in full, a larger one absorbs exactly the balance, drains the fund and sets emergency |
| PerpsHandlers.AbsorbBadDebtSaturated | solrush-dex/programs/solrush-dex/src/instructions/perps.rs:1017-1022 | a deficit above u64::MAX against a fund of exactly u64::MAX drains the fund without setting emergency |
| PerpsHandlers.VaultTransfers | solrush-dex/programs/solrush-dex/src/instructions/perps.rs:1036-1061 | the fee is paid first, up to the vault; the penalty is paid only once the fee is paid in full, and then up to what is left in the vault; together they never exceed the vault, and both are paid in full when the vault covers them |
| PerpsHandlers.PlanLiquidation | solrush-dex/programs/solrush-dex/src/instructions/perps.rs:903-974 | errors paused, SelfLiquidation, NoOpenPosition in that order; NotLiquidatable when the settled position is healthy; after the first three checks Ok exactly when funding settles, base is not i64::MIN, the position is liquidatable, and LiquidationClose succeeds; other errors are CalculationOverflow; on success funding is settled, the position is liquidatable on settled collateral, closed is LiquidationCloseSize's size with 1 <= closed <= abs(base), full close iff all is closed, and the trade is ApplyTrade of the opposite of closed |
| PerpsHandlers.LiquidationClose | solrush-dex/programs/solrush-dex/src/instructions/perps.rs:948-974 | on a liquidatable position, Ok exactly when base is not i64::MIN, LiquidationCloseSize succeeds and the closing ApplyTrade succeeds, otherwise CalculationOverflow; on success closed is LiquidationCloseSize's size with 1 <= closed <= abs(base), full close iff all is closed, and the trade is ApplyTrade of the opposite of closed |
| PerpsHandlers.LiquidationPlanFacts | solrush-dex/programs/solrush-dex/src/instructions/perps.rs:949-966 | a liquidatable position other than i64::MIN has close size in [1, abs(base)]; for i64::MIN the clamped close size is i64::MIN |
| PerpsHandlers.SettleLiquidationFunds | solrush-dex/programs/solrush-dex/src/instructions/perps.rs:977-1085 | Ok exactly when both LiquidationFee calls succeed, the three i128 steps to the collateral left fit, the remaining collateral and the new insurance balance fit u64, and otherwise CalculationOverflow; fee and penalty per LiquidationFee; left = collateral + PnL - fee - penalty; bad debt, emergency flag and remaining collateral are AbsorbBadDebt's, so a drained fund absorbs exactly its balance; the vault payments are VaultTransfers' values; the fund gains the paid penalty |
| PerpsHandlers.LiquidationBookkeeping | solrush-dex/programs/solrush-dex/src/instructions/perps.rs:1087-1125 | Ok exactly when SettleLiquidationFunds succeeds and, on a full close, the user's balance plus the remaining collateral fits u64, otherwise CalculationOverflow; open interest drops by the closed notional (0 on overflow); full close resets the position and returns the remaining collateral; partial close keeps the reduced position with the remaining collateral |
| PerpsHandlers.LiquidatePosition | solrush-dex/programs/solrush-dex/src/instructions/perps.rs:903-1142 | the result is PlanLiquidation then LiquidationBookkeeping; the accounts take those values, and are unchanged on error |
| AmmMath.Isqrt | solrush-dex/programs/solrush-dex/src/utils.rs:130-141 | the Newton iteration returns the integer square root r (r*r <= n < (r+1)*(r+1)); 0 and 1 map to themselves |
| AmmMath.IsqrtUnique | solrush-dex/programs/solrush-dex/src/utils.rs:130-141 | the integer square root is unique |
| AmmMath.CalculateLpTokens | solrush-dex/programs/solrush-dex/src/utils.rs:4-9 | always Ok with the integer square root of amountA * amountB |
| AmmMath.ProportionalLpAsWritten | solrush-dex/programs/solrush-dex/src/utils.rs:29-39 | as written (`as u64` casts): never above either exact proportional share, and equal to their minimum when both fit u64 |
| AmmMath.ProportionalLp | solrush-dex/programs/solrush-dex/src/utils.rs:29-39 | corrected (checked cast): Ok iff both shares fit u64; the value is the largest v with v*Ra <= a*T and v*Rb <= b*T |
| AmmMath.ProportionalLpAsWrittenCounterexample | solrush-dex/programs/solrush-dex/src/utils.rs:29-39 | depositing 2^63 of each into reserves (1, 1) with supply 2 mints 0 LP tokens as written, where the checked version errors |
| AmmMath.LpTokensForAdd | solrush-dex/programs/solrush-dex/src/utils.rs:11-40 | corrected (built on ProportionalLp): InvalidAmount for a zero amount; the square root for an empty pool; InsufficientLiquidity for a zero reserve; otherwise the proportional share |
| AmmMath.RemoveLiquidityAmounts | solrush-dex/programs/solrush-dex/src/utils.rs:42-61 | InvalidAmount for 0 LP, InsufficientLiquidity for empty supply, otherwise Ok; each amount is the floor of lp/T of its reserve and never exceeds it; burning all LP returns both reserves |
| AmmMath.ValidateRatioImbalance | solrush-dex/programs/solrush-dex/src/utils.rs:63-87 | a zero reserveA or amountA is CalculationOverflow; otherwise Ok iff the two scaled ratios differ by at most 100, else RatioImbalance |
| AmmMath.ProportionalDepositPasses | solrush-dex/programs/solrush-dex/src/utils.rs:63-87 | a deposit exactly in the pool ratio always passes the check |
| AmmMath.CalculateOutputAmount | solrush-dex/programs/solrush-dex/src/utils.rs:89-128 | error cases InvalidAmount, InsufficientLiquidity (also for a zero output), Panic (fee above 100%), CalculationOverflow; Ok iff the u128 intermediates fit and the output is positive; then 0 < out < reserveOut and out is the floor of the fee-adjusted constant-product formula |
| AmmMath.SwapKeepsConstantProduct | solrush-dex/programs/solrush-dex/src/utils.rs:89-128 | after a swap the reserves' product never decreases |
| AmmMath.PoolPriceAsWritten | solrush-dex/programs/solrush-dex/src/utils.rs:143-151 | as written (`as u64`): InsufficientLiquidity iff reserveA = 0; never above the exact price; equal to it when it fits |
| AmmMath.PoolPrice | solrush-dex/programs/solrush-dex/src/utils.rs:143-151 | corrected (checked cast): Ok iff the price fits u64; the value is floor(reserveB * 1e6 / reserveA) |
| AmmMath.PoolPriceMonotone | solrush-dex/programs/solrush-dex/src/utils.rs:143-151 | the price rises with reserveB |
| AmmMath.PoolPriceAsWrittenCounterexample | solrush-dex/programs/solrush-dex/src/utils.rs:143-151 | one more unit of reserveB past the u64 limit turns a price of about 1.8e19 into 448384 as written |
| AmmMath.CheckPriceCondition | solrush-dex/programs/solrush-dex/src/utils.rs:153-163 | a sell order triggers at or above its target, a buy order at or below (no contract of its own; see PriceConditionProperties) |
| AmmMath.PriceConditionProperties | solrush-dex/programs/solrush-dex/src/utils.rs:153-163 | at the target both sides trigger, otherwise exactly one; a better pool price keeps the condition true |
| Pairs.LessIrreflexive | solrush-dex/programs/solrush-dex/src/constants.rs:25 | the key order used by `mint_a < mint_b` is irreflexive |
| Pairs.LessAsymmetric | solrush-dex/programs/solrush-dex/src/constants.rs:25 | and asymmetric |
| Pairs.LessTransitive | solrush-dex/programs/solrush-dex/src/constants.rs:25 | and transitive |
| Pairs.LessTotal | solrush-dex/programs/solrush-dex/src/constants.rs:25 | and total on 32-byte keys |
| Pairs.IsValidPair | solrush-dex/programs/solrush-dex/src/constants.rs:20-22 | two mints form a valid pair iff one is strictly below the other in the key order |
| Pairs.CanonicalPair | solrush-dex/programs/solrush-dex/src/constants.rs:24-30 | the result is the two mints in some order, never descending, and strictly ascending for a valid pair |
| Pairs.CanonicalPairSymmetric | solrush-dex/programs/solrush-dex/src/constants.rs:24-30 | the canonical pair does not depend on argument order and is a fixed point |
| LimitOrders.OrderStatus.IsExecutable | solrush-dex/programs/solrush-dex/src/state/limit_order.rs:10-12 | only a pending order can execute (no contract of its own; see StatusLifecycle) |
| LimitOrders.OrderStatus.IsCancellable | solrush-dex/programs/solrush-dex/src/state/limit_order.rs:13-15 | only a pending order can be cancelled (no contract of its own; see StatusLifecycle) |
| LimitOrders.OrderStatus.IsFinal | solrush-dex/programs/solrush-dex/src/state/limit_order.rs:16-18 | executed, cancelled and expired are final (no contract of its own; see StatusLifecycle) |
| LimitOrders.StatusLifecycle | solrush-dex/programs/solrush-dex/src/state/limit_order.rs:10-18 | only Pending is executable, exactly the executable statuses are cancellable, and final is the complement |
| LimitOrders.LimitOrder.TimeUntilExpiry | solrush-dex/programs/solrush-dex/src/state/limit_order.rs:43-49 | 0 iff expired; otherwise now + result = expiry |
| LimitOrders.LimitOrder.IsExpired | solrush-dex/programs/solrush-dex/src/state/limit_order.rs:37-39 | expired from the expiry instant on (no contract of its own; see ExpiryConsistent) |
| LimitOrders.LimitOrder.CanExecute | solrush-dex/programs/solrush-dex/src/state/limit_order.rs:40-42 | executable status and not expired (no contract of its own; see ExpiryConsistent) |
| LimitOrders.ExpiryConsistent | solrush-dex/programs/solrush-dex/src/state/limit_order.rs:37-49 | an order is expired at its expiry time; executable iff pending with time left; expired or final orders never execute |
| LimitOrders.LimitOrder.IsSellOrder | solrush-dex/programs/solrush-dex/src/state/limit_order.rs:50-52 | the order sells token A iff its sell token is token A's mint (no contract of its own; see OrderSide) |
| LimitOrders.LimitOrder.AskingPrice | solrush-dex/programs/solrush-dex/src/state/limit_order.rs:53-55 | the order's target price (no contract of its own; see OrderSide) |
| LimitOrders.OrderSide | solrush-dex/programs/solrush-dex/src/state/limit_order.rs:50-55 | in a pool of two different mints an order sells exactly one of them; it sells A iff it buys B; its asking price triggers at or above the target when selling A and at or below it when buying A |
| LimitOrders.TimeUntilExpiryDecreases | solrush-dex/programs/solrush-dex/src/state/limit_order.rs:43-49 | time to expiry never grows and falls one-for-one with the clock until expiry |
| RushRewards.RushConfig.YearlyRewards | solrush-dex/programs/solrush-dex/src/state/rush_config.rs:18-20 | floor(supply * apy_num / apy_den), at most the supply when the APY is at most 100% |
| RushRewards.RushConfig.RemainingRewards | solrush-dex/programs/solrush-dex/src/state/rush_config.rs:21-23 | supply - minted, saturating at 0; never above supply |
| RushRewards.RushConfig.HasRemainingRewards | solrush-dex/programs/solrush-dex/src/state/rush_config.rs:24-26 | some rewards remain (no contract of its own; see ActiveIff) |
| RushRewards.RushConfig.IsActive | solrush-dex/programs/solrush-dex/src/state/rush_config.rs:27-29 | not paused and rewards remain (no contract of its own; see ActiveIff) |
| RushRewards.ActiveIff | solrush-dex/programs/solrush-dex/src/state/rush_config.rs:24-29 | active iff not paused and minted < supply |
| RushRewards.RushConfig.CalculateRewards | solrush-dex/programs/solrush-dex/src/state/rush_config.rs:36-50 | 0 when paused or without LP; otherwise min(rate * t * share, remaining); never above the remaining rewards nor above rate * t |
| RushRewards.RewardsMonotoneInTime | solrush-dex/programs/solrush-dex/src/state/rush_config.rs:36-50 | rewards never decrease with elapsed time |
| Pools.LiquidityPool.IsStablePair | solrush-dex/programs/solrush-dex/src/state/pool.rs:26-28 | the pool's stablecoin flag (no contract of its own) |
| Pools.LiquidityPool.PriceAToB | solrush-dex/programs/solrush-dex/src/state/pool.rs:29-36 | 0 for an empty reserve A; the pool-price computation as written; equal to the checked price whenever that succeeds; never above the exact price |
| Pools.LiquidityPool.PriceBToA | solrush-dex/programs/solrush-dex/src/state/pool.rs:37-44 | the same for the reversed direction |
| Pools.PricesReciprocal | solrush-dex/programs/solrush-dex/src/state/pool.rs:29-44 | the two directional prices multiply to at most 1e12 |
| Pools.SwapKeepsPoolProduct | solrush-dex/programs/solrush-dex/src/state/pool.rs:45-47 | a successful swap into the pool never lowers its constant product |
| LiquidityPositions.UserLiquidityPosition.PoolShare | solrush-dex/programs/solrush-dex/src/state/user_position.rs:14-20 | 0 for an empty supply; floor(lp * 1e6 / total) whenever that fits u64 (always for lp <= total), at most 1e6 and exactly 1e6 for the whole supply |
| LiquidityPositions.SharesWithinWhole | solrush-dex/programs/solrush-dex/src/state/user_position.rs:14-20 | two positions that together hold at most the supply have shares summing to at most 1e6 |
| LiquidityPositions.UserLiquidityPosition.HasLiquidity | solrush-dex/programs/solrush-dex/src/state/user_position.rs:24-26 | the position holds LP tokens (no contract of its own; see LiquidityAndShare) |
| LiquidityPositions.LiquidityAndShare | solrush-dex/programs/solrush-dex/src/state/user_position.rs:14-26 | a position without liquidity has share 0; within the supply the share is positive iff the position holds at least a millionth of it |
| LiquidityPositions.UserLiquidityPosition.TimeSinceLastClaim | solrush-dex/programs/solrush-dex/src/state/user_position.rs:21-23 | last claim + result = now, non-negative iff now is not before the claim |
| LiquidityPositions.UserLiquidityPosition.PositionAgeDays | solrush-dex/programs/solrush-dex/src/state/user_position.rs:27-30 | whole days since deposit; a deposit in the future wraps to a huge age |

## Left out

- Oracle reading (`read_oracle_price`, the oracle account-key checks), the Clock sysvar, token transfers (CPIs), PDA seeds, bumps and signer checks, and event emission: the model takes prices, time and the vault balance as inputs and reports transfer amounts.
- The position `side` field and `derived_side`: the source writes it but no arithmetic reads it.
- `checked_add_signed` / `checked_sub_signed` (perps_math.rs:62-71) are the `Machine.CheckedI128` checks used inline; they have no rows of their own.
- Handlers for initialisation, deposit and withdraw of perps collateral, market creation, and the AMM instruction handlers (instructions/pool.rs, swap.rs, limit_orders.rs, rewards.rs) are not part of this model; the AMM arithmetic they call is.
- `RushConfig::distribution_percentage` and `LiquidityPool::get_fee_percentage` return `f64`; floating point is not modelled.
- `LiquidityPool::get_constant_product` is modelled (`Pools.LiquidityPool.ConstantProduct`) without a contract of its own; its property is `Pools.SwapKeepsPoolProduct`.
- The perps account structs in `state/` (e.g. `PerpsPosition`, `PerpsMarket`) lack fields the handlers use (`base_position_i64`, `realized_pnl_i128`, `liquidation_fee_bps`, `emergency`, …), and the perps modules are not declared in `lib.rs` / `instructions/mod.rs`. The model follows the handler code and gives the account classes the fields that code reads and writes.
- AmmMath.Isqrt: requires n < u128::MAX, because the source's `x + 1` overflows there; the only caller passes a product of two u64 values, which is far smaller.
- RushRewards.RushConfig.YearlyRewards: requires a non-zero denominator and no u64 overflow of the product; the source panics otherwise.
- RushRewards.RushConfig.CalculateRewards: requires that its unchecked u128 product rewards_per_second * time_elapsed * user_lp fits u128; the source panics otherwise.
- LimitOrders.LimitOrder.TimeUntilExpiry, LiquidityPositions.UserLiquidityPosition.TimeSinceLastClaim, LiquidityPositions.UserLiquidityPosition.PositionAgeDays: require that the i64 subtraction does not overflow; the source panics otherwise.
- AmmMath.RemoveLiquidityAmounts: the "at most the reserve" property is stated only for burns of at most the total supply; the source itself does not check this (the instruction handler does).
- FixedPoint.WideMulDivWithRem: modelled over the corrected FixedPoint.WideDivU256; the source as written returns a wrong quotient for some divisors above 2^127 (first row under Findings). FixedPoint.SignedDivisorExact shows the signed callers never reach such divisors.
- FixedPoint.WideMulDiv: modelled over the corrected division, as FixedPoint.WideMulDivWithRem.
- FixedPoint.MulDiv: modelled over the corrected division, as FixedPoint.WideMulDivWithRem; as written, `mul_div(u128::MAX, u128::MAX, u128::MAX)` returns less than 2^127.
- AmmMath.LpTokensForAdd: modelled over the corrected AmmMath.ProportionalLp; as written, `calculate_lp_tokens_for_add_liquidity(2^63, 2^63, 1, 1, 2)` returns Ok(0) where the model returns Err(CalculationOverflow) (second row under Findings).
- LiquidityPositions.UserLiquidityPosition.PoolShare: the value is stated only where floor(lp * 1e6 / total) fits u64; beyond that (a position holding more than about 1.8 * 10^13 times the supply, which the handlers never create) the `as u64` cast wraps and the contract gives no value.
- PositionEngine.LiquidationCloseSize: the range [0, |base|] is stated for bases other than i64::MIN; for i64::MIN the wrapped value is stated by PositionEngine.LiquidationCloseSizeMinBase, and PerpsHandlers.PlanLiquidation shows that such a liquidation never succeeds.

## Findings

| source | as written | input that shows it | evidently intended | confidence | as-written member | corrected member |
|---|---|---|---|---|---|---|
| solrush-dex/programs/solrush-dex/src/perps_math.rs:531-542 | the long-division loop shifts a u128 remainder left, losing its top bit once the remainder reaches 2^127, which can happen only for divisors above 2^127 | `mul_div(u128::MAX, u128::MAX, u128::MAX)`: the product overflows u128, hi = u128::MAX - 1 < d, and the loop returns a quotient below 2^127 instead of u128::MAX | the exact quotient and remainder whenever hi < d | not executed | FixedPoint.WideDivU256AsWritten, FixedPoint.WideDivAsWrittenCounterexample | FixedPoint.WideDivU256 |
| solrush-dex/programs/solrush-dex/src/utils.rs:29-39 | each LP share is cast with `as u64`, which truncates modulo 2^64 | amounts (2^63, 2^63), reserves (1, 1), supply 2: each share is 2^64, cast to 0, so the depositor gets 0 LP tokens | a checked conversion that fails with CalculationOverflow | not executed | AmmMath.ProportionalLpAsWritten, AmmMath.ProportionalLpAsWrittenCounterexample | AmmMath.ProportionalLp |
| solrush-dex/programs/solrush-dex/src/utils.rs:143-151 | the price is cast with `as u64`, which truncates modulo 2^64 (the same cast is at state/pool.rs:33-35 and 41-43) | reserves (1, 18446744073710): the price 18446744073710000000 exceeds u64::MAX and becomes 448384 | a checked conversion that fails with CalculationOverflow | not executed | AmmMath.PoolPriceAsWritten, AmmMath.PoolPriceAsWrittenCounterexample | AmmMath.PoolPrice |
