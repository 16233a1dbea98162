/**
 * The position engine of the perpetuals market: applying a trade to a
 * position, and the valuation and liquidation helpers.
 *
 * Bases are signed (`i64`, positive = long, negative = short); prices are
 * `i64` in the fixed-point scale; PnL is `i128`. PnL is kept in the product
 * of the base and price scales: a trade's PnL is its size times the price
 * move, with no rescaling.
 */
module PositionEngine {
  import opened Machine
  import opened FixedPoint

  /** `PositionState`: a position's signed base, entry price, realized PnL
      and funding checkpoint. */
  datatype PositionState = PositionState(
    basePosition: I64,
    entryPrice: I64,
    realizedPnl: I128,
    lastCumFunding: I128)

  /** `TradeResult`: the position after a trade and the PnL it realized. */
  datatype TradeResult = TradeResult(
    newBasePosition: I64,
    newEntryPrice: I64,
    newRealizedPnl: I128,
    pnlDelta: I128)

  predicate SameDirection(oldBase: int, delta: int)
  {
    (oldBase > 0 && delta > 0) || (oldBase < 0 && delta < 0)
  }

  /** `apply_trade_to_position`: opens, increases (weighted-average entry,
      truncated), partially reduces (entry kept), fully closes (entry reset
      to 0) or flips (entry = trade price) a position. PnL is realized on the
      closed part only. Every arithmetic failure is `CalculationOverflow`.
      The `i64 as u128` casts of the prices sign-extend. */
  function ApplyTrade(state: PositionState, tradeBaseDelta: I64, tradePrice: I64): (r: Result<TradeResult>)
    ensures tradeBaseDelta == 0 ==>
              r == Ok(TradeResult(state.basePosition, state.entryPrice, state.realizedPnl, 0))
    ensures tradeBaseDelta != 0 && !InI64(state.basePosition + tradeBaseDelta) ==>
              r == Err(CalculationOverflow)
    ensures r.Ok? ==> r.value.newBasePosition == state.basePosition + tradeBaseDelta
    ensures r.Ok? ==> r.value.newRealizedPnl == state.realizedPnl + r.value.pnlDelta
    ensures r.Err? ==> r.error == CalculationOverflow
  {
    if tradeBaseDelta == 0 then
      Ok(TradeResult(state.basePosition, state.entryPrice, state.realizedPnl, 0))
    else
      var oldBase := state.basePosition;
      var delta := tradeBaseDelta;
      // the i128 sum of two i64 values cannot overflow
      var newBaseWide := oldBase + delta;
      var newBase :- CheckedI64(newBaseWide);
      if oldBase == 0 then
        Ok(TradeResult(newBase, tradePrice, state.realizedPnl, 0))
      else if SameDirection(oldBase, delta) then
        var absOld, absDelta, absNew := Abs(oldBase), Abs(delta), Abs(newBaseWide);
        if absNew == 0 then Err(CalculationOverflow)
        else
          var avgEntry :- AverageEntry(absOld, absDelta, absNew, state.entryPrice, tradePrice);
          Ok(TradeResult(newBase, avgEntry, state.realizedPnl, 0))
      else
        var absOld, absDelta := Abs(oldBase), Abs(delta);
        var closeSize := Min(absOld, absDelta);
        // The difference of two i64 prices, its product with a size of at
        // most 2^63 and the sign flip all stay inside i128, so those
        // checked operations never fail.
        var priceDiff := tradePrice - state.entryPrice;
        var direction := if oldBase > 0 then 1 else -1;
        I64ProductBound(closeSize, priceDiff);
        var pnlDelta := closeSize * priceDiff * direction;
        var newRealized :- CheckedI128(state.realizedPnl + pnlDelta);
        if newBase == 0 then
          Ok(TradeResult(0, 0, newRealized, pnlDelta))
        else if (newBase > 0) == (oldBase > 0) then
          Ok(TradeResult(newBase, state.entryPrice, newRealized, pnlDelta))
        else
          Ok(TradeResult(newBase, tradePrice, newRealized, pnlDelta))
  }

  /** The weighted-average entry of an increase: (|old| * entry + |delta| *
      price) / |new|, truncated, in `u128` with the prices cast by
      sign extension. AverageEntryIncrease states what it computes for
      non-negative prices. */
  function AverageEntry(absOld: nat, absDelta: nat, absNew: nat, entry: I64, price: I64): (r: Result<I64>)
    requires absNew > 0
    ensures r.Err? ==> r.error == CalculationOverflow
  {
    var oldCost :- CheckedU128(absOld * I64AsU128(entry));
    var deltaCost :- CheckedU128(absDelta * I64AsU128(price));
    var totalCost :- CheckedU128(oldCost + deltaCost);
    CheckedI64(totalCost / absNew)
  }

  /** A size of at most 2^63 times the difference of two `i64` prices stays
      strictly inside `i128`, and so does its negation. */
  lemma I64ProductBound(x: int, y: int)
    requires Abs(x) <= I64_MAX + 1 && Abs(y) <= 2 * I64_MAX + 1
    ensures Abs(x * y) < I128_MAX
    ensures InI128(x * y) && InI128(-(x * y))
  {
    AbsMul(x, y);
    MulLe(Abs(x), I64_MAX + 1, Abs(y));
    MulLe(Abs(y), 2 * I64_MAX + 1, I64_MAX + 1);
  }

  /** From a flat position any non-zero trade opens at the trade price,
      realizing nothing. */
  lemma ApplyTradeOpensFromFlat(state: PositionState, delta: I64, price: I64)
    requires state.basePosition == 0 && delta != 0
    ensures ApplyTrade(state, delta, price) == Ok(TradeResult(delta, price, state.realizedPnl, 0))
  {}

  /** With non-negative prices the two costs of an increase and their sum
      fit in `u128`. */
  lemma CostsFit(absOld: nat, absDelta: nat, entry: nat, price: nat)
    requires absOld <= I64_MAX + 1 && absDelta <= I64_MAX + 1
    requires entry <= I64_MAX && price <= I64_MAX
    ensures absOld * entry + absDelta * price < U128_LIMIT
    ensures absOld * entry < U128_LIMIT && absDelta * price < U128_LIMIT
  {
    MulLe(absOld, I64_MAX + 1, entry);
    MulLe(entry, I64_MAX, I64_MAX + 1);
    MulLe(absDelta, I64_MAX + 1, price);
    MulLe(price, I64_MAX, I64_MAX + 1);
  }

  /** A total between lo * n and hi * n averages, truncated, to between lo
      and hi. */
  lemma AverageBetween(total: nat, n: nat, lo: nat, hi: nat)
    requires n > 0 && lo * n <= total <= hi * n
    ensures lo <= total / n <= hi
  {
    var q, r := total / n, total % n;
    assert total == q * n + r && r < n;
    assert (q + 1) * n == q * n + n;
    MulCancelLt(lo, q + 1, n);
    MulCancelLe(q, hi, n);
  }

  /** The truncated size-weighted average of two prices lies between them. */
  lemma WeightedAverageBetween(absOld: nat, absDelta: nat, entry: nat, price: nat)
    requires absOld + absDelta > 0
    ensures var avg := (absOld * entry + absDelta * price) / (absOld + absDelta);
            Min(entry, price) <= avg <= Max(entry, price)
  {
    var lo: nat, hi: nat := Min(entry, price), Max(entry, price);
    var n := absOld + absDelta;
    var total := absOld * entry + absDelta * price;
    MulLe(lo, entry, absOld);
    MulLe(lo, price, absDelta);
    MulLe(entry, hi, absOld);
    MulLe(price, hi, absDelta);
    assert lo * n == lo * absOld + lo * absDelta;
    assert hi * n == hi * absOld + hi * absDelta;
    AverageBetween(total, n, lo, hi);
  }

  /** With non-negative prices the casts to `u128` change nothing, the
      checked costs never overflow, and the average entry is the truncated
      size-weighted average, between the two prices. */
  lemma AverageEntryIncrease(absOld: nat, absDelta: nat, entry: I64, price: I64)
    requires absOld <= I64_MAX + 1 && absDelta <= I64_MAX + 1 && absOld + absDelta > 0
    requires entry >= 0 && price >= 0
    ensures var r := AverageEntry(absOld, absDelta, absOld + absDelta, entry, price);
            var avg := (absOld * entry + absDelta * price) / (absOld + absDelta);
            r == Ok(avg) && Min(entry, price) <= avg <= Max(entry, price)
  {
    assert I64AsU128(entry) == entry && I64AsU128(price) == price;
    CostsFit(absOld, absDelta, entry, price);
    var oldCost, deltaCost := absOld * entry, absDelta * price;
    assert CheckedU128(absOld * I64AsU128(entry)) == Ok(oldCost);
    assert CheckedU128(absDelta * I64AsU128(price)) == Ok(deltaCost);
    assert CheckedU128(oldCost + deltaCost) == Ok(oldCost + deltaCost);
    WeightedAverageBetween(absOld, absDelta, entry, price);
    assert CheckedI64((oldCost + deltaCost) / (absOld + absDelta)) == Ok((oldCost + deltaCost) / (absOld + absDelta));
  }

  /** Increasing a position with non-negative prices: the trade succeeds
      whenever the new base fits in an `i64`; the new entry is the truncated
      size-weighted average of the old entry and the trade price, so it lies
      between them; nothing is realized. */
  lemma {:induction false} ApplyTradeIncrease(state: PositionState, delta: I64, price: I64)
    requires SameDirection(state.basePosition, delta)
    requires state.entryPrice >= 0 && price >= 0
    ensures var r := ApplyTrade(state, delta, price);
            var newBase := state.basePosition + delta;
            var total := Abs(state.basePosition) * state.entryPrice + Abs(delta) * price;
            (r.Ok? <==> InI64(newBase)) &&
            (r.Ok? ==> r.value == TradeResult(newBase, total / Abs(newBase), state.realizedPnl, 0)) &&
            (r.Ok? ==> Min(state.entryPrice, price) <= r.value.newEntryPrice <= Max(state.entryPrice, price))
  {
    var newBase := state.basePosition + delta;
    assert Abs(newBase) == Abs(state.basePosition) + Abs(delta);
    AverageEntryIncrease(Abs(state.basePosition), Abs(delta), state.entryPrice, price);
  }

  /** Reducing, closing or flipping a position: the realized PnL is the
      closed size times the price move, signed by the old direction; the
      trade fails only when the new base leaves `i64` or the realized PnL
      leaves `i128`. A full close resets the entry to 0, a partial reduction
      keeps it, a flip opens the remainder at the trade price. */
  lemma {:induction false} ApplyTradeReduce(state: PositionState, delta: I64, price: I64)
    requires state.basePosition != 0 && delta != 0
    requires !SameDirection(state.basePosition, delta)
    ensures var r := ApplyTrade(state, delta, price);
            var oldBase := state.basePosition;
            var newBase := oldBase + delta;
            var closed := Min(Abs(oldBase), Abs(delta));
            var pnl := closed * (price - state.entryPrice) * (if oldBase > 0 then 1 else -1);
            (r.Ok? <==> InI64(newBase) && InI128(state.realizedPnl + pnl)) &&
            (r.Ok? ==> r.value.pnlDelta == pnl) &&
            (r.Ok? && newBase == 0 ==> r.value.newEntryPrice == 0) &&
            (r.Ok? && newBase != 0 && (newBase > 0) == (oldBase > 0) ==>
               r.value.newEntryPrice == state.entryPrice && closed == Abs(delta)) &&
            (r.Ok? && newBase != 0 && (newBase > 0) != (oldBase > 0) ==>
               r.value.newEntryPrice == price && closed == Abs(oldBase))
  {
    var oldBase := state.basePosition;
    var closed := Min(Abs(oldBase), Abs(delta));
    var diff := price - state.entryPrice;
    I64ProductBound(closed, diff);
    assert closed * diff * (if oldBase > 0 then 1 else -1) == (if oldBase > 0 then closed * diff else -(closed * diff));
  }

  /** A position is open exactly when it has a positive entry price. */
  predicate EntryConsistent(base: int, entry: int)
  {
    (base == 0 ==> entry == 0) && (base != 0 ==> entry > 0)
  }

  /** Trading at a positive price keeps "open iff positive entry". */
  lemma {:induction false} ApplyTradeKeepsEntryConsistent(state: PositionState, delta: I64, price: I64)
    requires price > 0
    requires EntryConsistent(state.basePosition, state.entryPrice)
    ensures var r := ApplyTrade(state, delta, price);
            r.Ok? ==> EntryConsistent(r.value.newBasePosition, r.value.newEntryPrice)
  {
    if delta != 0 && state.basePosition != 0 {
      if SameDirection(state.basePosition, delta) {
        ApplyTradeIncrease(state, delta, price);
      } else {
        ApplyTradeReduce(state, delta, price);
      }
    }
  }

  /** Worked examples: long 10 @ 50 plus 10 @ 60 averages to 55; short 10 @
      50 plus 10 @ 40 averages to 45; selling 15 from long 10 @ 50 at 60
      realizes 10 * 10 and leaves short 5 @ 60; buying 15 against short 10 @
      50 at 40 realizes 10 * 10 and leaves long 5 @ 40. */
  lemma ApplyTradeExamples()
    ensures ApplyTrade(PositionState(10_000_000, 50_000_000, 0, 0), 10_000_000, 60_000_000)
            == Ok(TradeResult(20_000_000, 55_000_000, 0, 0))
    ensures ApplyTrade(PositionState(-10_000_000, 50_000_000, 0, 0), -10_000_000, 40_000_000)
            == Ok(TradeResult(-20_000_000, 45_000_000, 0, 0))
    ensures ApplyTrade(PositionState(10_000_000, 50_000_000, 0, 0), -15_000_000, 60_000_000)
            == Ok(TradeResult(-5_000_000, 60_000_000, 100_000_000_000_000, 100_000_000_000_000))
    ensures ApplyTrade(PositionState(-10_000_000, 50_000_000, 0, 0), 15_000_000, 40_000_000)
            == Ok(TradeResult(5_000_000, 40_000_000, 100_000_000_000_000, 100_000_000_000_000))
  {
    ApplyTradeIncrease(PositionState(10_000_000, 50_000_000, 0, 0), 10_000_000, 60_000_000);
    ApplyTradeIncrease(PositionState(-10_000_000, 50_000_000, 0, 0), -10_000_000, 40_000_000);
    ApplyTradeReduce(PositionState(10_000_000, 50_000_000, 0, 0), -15_000_000, 60_000_000);
    ApplyTradeReduce(PositionState(-10_000_000, 50_000_000, 0, 0), 15_000_000, 40_000_000);
  }

  /** Two partial closes of long 20 @ 50, 5 at 60 and 5 at 45, accumulate
      +50e12 and -25e12 of realized PnL. */
  lemma ApplyTradeAccumulatesRealized()
    ensures var r1 := ApplyTrade(PositionState(20_000_000, 50_000_000, 0, 0), -5_000_000, 60_000_000);
            r1 == Ok(TradeResult(15_000_000, 50_000_000, 50_000_000_000_000, 50_000_000_000_000)) &&
            ApplyTrade(PositionState(15_000_000, 50_000_000, 50_000_000_000_000, 0), -5_000_000, 45_000_000)
            == Ok(TradeResult(10_000_000, 50_000_000, 25_000_000_000_000, -25_000_000_000_000))
  {
    ApplyTradeReduce(PositionState(20_000_000, 50_000_000, 0, 0), -5_000_000, 60_000_000);
    ApplyTradeReduce(PositionState(15_000_000, 50_000_000, 50_000_000_000_000, 0), -5_000_000, 45_000_000);
  }

  // ---------------------------------------------------------------------
  // Valuation
  // ---------------------------------------------------------------------

  /** `unrealized_pnl`: base * (mark - entry); the checked operations can
      never fail for `i64` inputs. */
  function UnrealizedPnl(base: I64, entry: I64, mark: I64): (r: Result<I128>)
    ensures r == Ok(base * (mark - entry))
  {
    if base == 0 then Ok(0)
    else
      // neither the subtraction nor the product can leave i128
      var priceDiff := mark - entry;
      I64ProductBound(base, priceDiff);
      Ok(base * priceDiff)
  }

  /** A long gains when the mark is above the entry and a short when it is
      below; opposite positions have opposite PnL. */
  lemma {:induction false} UnrealizedPnlDirection(base: I64, entry: I64, mark: I64)
    ensures base > 0 ==> (UnrealizedPnl(base, entry, mark).value > 0 <==> mark > entry)
    ensures base < 0 ==> (UnrealizedPnl(base, entry, mark).value > 0 <==> mark < entry)
    ensures base != I64_MIN ==> UnrealizedPnl(-base, entry, mark).value == -UnrealizedPnl(base, entry, mark).value
  {
    var b: int, diff: int := base, mark - entry;
    AbsMul(b, diff);
    assert (-b) * diff == -(b * diff);
  }

  /** `notional_value`: |base| * |price|, never failing for `i64` inputs. */
  function NotionalValue(base: I64, price: I64): (r: Result<I128>)
    ensures r == Ok(Abs(base) * Abs(price)) && r.value >= 0
  {
    var absBase, absPrice := Abs(base), Abs(price);
    MulLe(absBase, I64_MAX + 1, absPrice);
    MulLe(absPrice, I64_MAX + 1, I64_MAX + 1);
    // |i64| * |i64| <= 2^126: both checks always pass
    Ok(absBase * absPrice)
  }

  /** Notional value is non-negative, the same for a long and a short of
      the same size, and grows with the size. */
  lemma {:induction false} NotionalValueProperties(base: I64, base2: I64, price: I64)
    ensures NotionalValue(base, price).value >= 0
    ensures base != I64_MIN ==> NotionalValue(-base, price) == NotionalValue(base, price)
    ensures Abs(base) <= Abs(base2) ==> NotionalValue(base, price).value <= NotionalValue(base2, price).value
  {
    if Abs(base) <= Abs(base2) {
      MulLe(Abs(base), Abs(base2), Abs(price));
    }
    MulLe(0, Abs(base), Abs(price));
  }

  /** `required_margin_scaled`: the ceiling of notional / leverage;
      `InvalidLeverage` for leverage 0. */
  function RequiredMargin(notional: I128, leverage: U16): (r: Result<I128>)
    ensures leverage == 0 ==> r == Err(InvalidLeverage)
    ensures leverage > 0 ==> r.Ok? && (r.value - 1) * leverage < notional <= r.value * leverage
  {
    if leverage == 0 then Err(InvalidLeverage)
    else
      CeilBracket(notional, leverage);
      CeilDiv(notional, leverage)
  }

  /** `position_equity`: collateral plus unrealized PnL, failing only when
      the sum leaves `i128`. */
  function PositionEquity(collateral: U64, base: I64, entry: I64, mark: I64): (r: Result<I128>)
    ensures r.Ok? <==> InI128(collateral + base * (mark - entry))
    ensures r.Ok? ==> r.value == collateral + base * (mark - entry)
    ensures r.Err? ==> r.error == CalculationOverflow
  {
    var upnl := UnrealizedPnl(base, entry, mark).value;
    CheckedI128(collateral + upnl)
  }

  /** Maintenance margin: notional * bps / 10000, the product checked in `i128`. */
  function MaintenanceMargin(notional: I128, maintenanceMarginBps: U16): (r: Result<I128>)
    requires notional >= 0
    ensures r.Ok? <==> InI128(notional * maintenanceMarginBps)
    ensures r.Ok? ==> r.value == notional * maintenanceMarginBps / 10_000 && r.value >= 0
  {
    MulLe(0, notional, maintenanceMarginBps);
    var scaled :- CheckedI128(notional * maintenanceMarginBps);
    Ok(TDiv(scaled, 10_000))
  }

  /** `is_liquidatable`: a flat position never is; otherwise exactly when
      equity is strictly below notional * bps / 10000 at the mark price. */
  function IsLiquidatable(collateral: U64, base: I64, entry: I64, mark: I64,
                          maintenanceMarginBps: U16): (r: Result<bool>)
    ensures base == 0 ==> r == Ok(false)
    ensures base != 0 ==>
              (r.Ok? <==> InI128(collateral + base * (mark - entry)) &&
                          InI128(Abs(base) * Abs(mark) * maintenanceMarginBps))
    ensures base != 0 && r.Ok? ==>
              (r.value <==> collateral + base * (mark - entry) < Abs(base) * Abs(mark) * maintenanceMarginBps / 10_000)
    ensures r.Err? ==> r.error == CalculationOverflow
  {
    if base == 0 then Ok(false)
    else
      var equity :- PositionEquity(collateral, base, entry, mark);
      var notional := NotionalValue(base, mark).value;
      var mm :- MaintenanceMargin(notional, maintenanceMarginBps);
      Ok(equity < mm)
  }

  /** `compute_liquidation_close_size`. The source's `unsigned_abs() as i64`
      wraps |i64::MIN| back to i64::MIN, which is kept here. */
  function LiquidationCloseSize(collateral: U64, base: I64, entry: I64, mark: I64,
                                maintenanceMarginBps: U16): (r: Result<I64>)
    ensures base == 0 ==> r == Ok(0)
    ensures base != 0 ==>
              (r.Ok? <==> InI128(collateral + base * (mark - entry)) &&
                          (collateral + base * (mark - entry) <= 0 ||
                           InI128(Abs(base) * Abs(mark) * maintenanceMarginBps)))
    ensures r.Ok? && base != I64_MIN ==> 0 <= r.value <= Abs(base)
    ensures r.Err? ==> r.error == CalculationOverflow
  {
    var absBase := U64AsI64(Abs(base));
    if absBase == 0 then Ok(0)
    else
      var equity :- PositionEquity(collateral, base, entry, mark);
      if equity <= 0 then Ok(absBase)
      else
        var notional := NotionalValue(base, mark).value;
        UnderMarginedCloseSize(notional, equity, mark, maintenanceMarginBps, absBase)
  }

  /** The close size once equity is known to be positive: nothing when the
      maintenance margin is covered, everything when the per-unit margin
      rounds to 0, otherwise the clamped ceiling of the deficit. */
  function UnderMarginedCloseSize(notional: I128, equity: I128, mark: I64, bps: U16, absBase: I64): (r: Result<I64>)
    requires notional >= 0 && equity > 0
    ensures r.Ok? <==> InI128(notional * bps)
    ensures r.Err? ==> r.error == CalculationOverflow
    ensures r.Ok? && absBase > 0 ==> 0 <= r.value <= absBase
  {
    var mm :- MaintenanceMargin(notional, bps);
    // mm >= 0 and equity > 0: the subtraction cannot overflow
    var deficit := mm - equity;
    if deficit <= 0 then Ok(0)
    else
      PerUnitMarginFits(mark, bps);
      var mmPerUnit := Abs(mark) * bps / 10_000;
      if mmPerUnit == 0 then Ok(absBase)
      else Ok(ClampedCloseSize(deficit, mmPerUnit, absBase))
  }

  /** |mark| * bps < 2^80: the source's checked product cannot overflow,
      and the per-unit margin is an `i128`. */
  lemma PerUnitMarginFits(mark: I64, bps: U16)
    ensures 0 <= Abs(mark) * bps / 10_000 <= Abs(mark) * bps < 0x1_0000_0000_0000_0000_0000
  {
    MulLe(Abs(mark), I64_MAX + 1, bps);
    DivLeDividend(Abs(mark) * bps, 10_000);
  }

  /** The ceiling of the deficit over the per-unit margin, clamped to
      [1, |base|]. The result is never below 1, so it fits in `i64` even
      when the wrapped |base| is i64::MIN; below |base| the size covers the
      deficit. */
  function ClampedCloseSize(deficit: I128, perUnit: I128, absBase: I64): (r: I64)
    requires deficit > 0 && perUnit > 0
    ensures r == Max(Min(MathCeil(deficit, perUnit), absBase), 1)
    ensures absBase > 0 ==> 1 <= r <= absBase && (r == absBase || r * perUnit >= deficit)
  {
    var closeSize := CeilDiv(deficit, perUnit).value;
    CeilBracket(deficit, perUnit);
    Max(Min(closeSize, absBase), 1)
  }

  /** For a position other than i64::MIN: full liquidation when equity is
      not positive or the per-unit margin rounds to 0; nothing when the
      position is not under-margined; otherwise the ceiling of the deficit
      over the per-unit margin, clamped to [1, |base|], so that closing it
      covers the deficit at the per-unit rate unless the whole position
      goes. */
  lemma {:induction false} LiquidationCloseSizeCases(collateral: U64, base: I64, entry: I64, mark: I64, bps: U16)
    requires base != 0 && base != I64_MIN
    ensures var r := LiquidationCloseSize(collateral, base, entry, mark, bps);
            var equity := collateral + base * (mark - entry);
            var mm := Abs(base) * Abs(mark) * bps / 10_000;
            var perUnit := Abs(mark) * bps / 10_000;
            (r.Ok? <==> equity <= 0 || InI128(Abs(base) * Abs(mark) * bps)) &&
            (r.Ok? ==>
              (equity <= 0 ==> r.value == Abs(base)) &&
              (equity > 0 && mm <= equity ==> r.value == 0) &&
              (equity > 0 && mm > equity && perUnit == 0 ==> r.value == Abs(base)) &&
              (equity > 0 && mm > equity && perUnit > 0 ==>
                 r.value == Max(Min(MathCeil(mm - equity, perUnit), Abs(base)), 1) &&
                 (r.value == Abs(base) || r.value * perUnit >= mm - equity)))
  {
    EquityFits(collateral, base, entry, mark);
  }

  /** For a base other than i64::MIN the equity always fits in `i128`:
      |base * (mark - entry)| < 2^63 * 2^64 - 2^64, and the collateral is
      below 2^64. */
  lemma EquityFits(collateral: U64, base: I64, entry: I64, mark: I64)
    requires base != I64_MIN
    ensures InI128(collateral + base * (mark - entry))
  {
    AbsMul(base, mark - entry);
    MulLe(Abs(base), I64_MAX, Abs(mark - entry));
    MulLe(Abs(mark - entry), U64_MAX, I64_MAX);
  }

  /** A liquidatable position always gets a positive close size, and a
      position with positive equity that is not liquidatable gets 0. */
  lemma {:induction false} CloseSizeAgreesWithLiquidatable(collateral: U64, base: I64, entry: I64, mark: I64, bps: U16)
    requires base != 0 && base != I64_MIN
    requires IsLiquidatable(collateral, base, entry, mark, bps).Ok?
    ensures LiquidationCloseSize(collateral, base, entry, mark, bps).Ok?
    ensures IsLiquidatable(collateral, base, entry, mark, bps).value ==>
              LiquidationCloseSize(collateral, base, entry, mark, bps).value >= 1
    ensures !IsLiquidatable(collateral, base, entry, mark, bps).value &&
            collateral + base * (mark - entry) > 0 ==>
              LiquidationCloseSize(collateral, base, entry, mark, bps).value == 0
  {
    LiquidationCloseSizeCases(collateral, base, entry, mark, bps);
  }

  /** The wrap of |i64::MIN|: a fully underwater short of i64::MIN units gets
      the negative close size i64::MIN. */
  lemma LiquidationCloseSizeMinBase(collateral: U64, entry: I64, mark: I64, bps: U16)
    requires collateral + I64_MIN * (mark - entry) <= 0
    ensures LiquidationCloseSize(collateral, I64_MIN, entry, mark, bps) == Ok(I64_MIN)
  {}

  /** Worked examples: long 10 @ 100 with collateral 200 and 5% maintenance
      is healthy at 100; with collateral 100 it is liquidatable at 91, and a
      short 10 @ 100 is at 109; long 100 @ 100 with collateral 1000 at 96
      needs no close, and long 10 @ 100 with collateral 100 at 80 is fully
      closed. */
  lemma LiquidationExamples()
    ensures IsLiquidatable(200, 10, 100, 100, 500) == Ok(false)
    ensures IsLiquidatable(100, 10, 100, 91, 500) == Ok(true)
    ensures IsLiquidatable(100, -10, 100, 109, 500) == Ok(true)
    ensures LiquidationCloseSize(1000, 100, 100, 96, 500) == Ok(0)
    ensures LiquidationCloseSize(100, 10, 100, 80, 500) == Ok(10)
  {
    LiquidationCloseSizeCases(1000, 100, 100, 96, 500);
    LiquidationCloseSizeCases(100, 10, 100, 80, 500);
  }
}
