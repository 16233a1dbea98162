/**
 * The arithmetic and account updates of the perpetuals instruction
 * handlers: funding settlement, the funding-index update, and the
 * collateral, fee and insurance bookkeeping of opening, closing and
 * liquidating a position.
 *
 * Each handler is split in two. A function computes, from the values of
 * the accounts it reads, either the error the handler fails with or every
 * new field value; a method on the account objects applies it. A failed
 * Solana transaction leaves every account as it was, so the methods change
 * nothing on error even where the handler had already written a field.
 * The oracle price, the clock and the collateral vault's token balance are
 * inputs; token transfers are reported as amounts.
 */
module PerpsHandlers {
  import opened Machine
  import opened FixedPoint
  import opened PositionEngine

  // ---------------------------------------------------------------------
  // Funding settlement
  // ---------------------------------------------------------------------

  /** The result of `settle_funding_inner`. */
  datatype Settlement = Settlement(newCollateral: U64, checkpoint: I128, fundingDelta: I128)

  /** Every intermediate of a non-trivial settlement fits its type. */
  predicate SettlementFits(base: int, collateral: int, cumDiff: int)
  {
    InI128(cumDiff) && InI128(base * cumDiff) &&
    InI128(collateral - base * cumDiff) && collateral - base * cumDiff <= U64_MAX
  }

  /** `settle_funding_inner`: the position pays base * (market index - its
      checkpoint) out of its collateral, which is floored at 0; the
      checkpoint always moves to the market index. */
  function SettleFunding(base: I64, collateral: U64, lastCumFunding: I128, marketCumFunding: I128): (r: Result<Settlement>)
    ensures base == 0 || marketCumFunding == lastCumFunding ==>
              r == Ok(Settlement(collateral, marketCumFunding, 0))
    ensures r.Err? <==> base != 0 && !SettlementFits(base, collateral, marketCumFunding - lastCumFunding)
    ensures r.Err? ==> r.error == CalculationOverflow
    ensures r.Ok? ==> r.value.checkpoint == marketCumFunding
    ensures r.Ok? ==> r.value.fundingDelta == base * (marketCumFunding - lastCumFunding)
    ensures r.Ok? ==> r.value.newCollateral == Max(0, collateral - r.value.fundingDelta)
  {
    if base == 0 then Ok(Settlement(collateral, marketCumFunding, 0))
    else
      var cumDiff :- CheckedI128(marketCumFunding - lastCumFunding);
      if cumDiff == 0 then Ok(Settlement(collateral, marketCumFunding, 0))
      else
        var fundingDelta :- CheckedI128(base * cumDiff);
        var newCollateralWide :- CheckedI128(collateral - fundingDelta);
        if newCollateralWide <= 0 then Ok(Settlement(0, marketCumFunding, fundingDelta))
        else
          var newCollateral :- CheckedU64(newCollateralWide);
          Ok(Settlement(newCollateral, marketCumFunding, fundingDelta))
  }

  /** Longs pay and shorts receive when the index rises, and the reverse
      when it falls; paying never raises the collateral and receiving never
      lowers it. */
  lemma {:induction false} SettleFundingDirection(base: I64, collateral: U64, lastCum: I128, marketCum: I128)
    requires SettleFunding(base, collateral, lastCum, marketCum).Ok?
    ensures var s := SettleFunding(base, collateral, lastCum, marketCum).value;
            (s.fundingDelta > 0 <==> (base > 0 && marketCum > lastCum) || (base < 0 && marketCum < lastCum)) &&
            (s.fundingDelta >= 0 ==> s.newCollateral <= collateral) &&
            (s.fundingDelta <= 0 ==> s.newCollateral >= collateral) &&
            (s.fundingDelta < 0 ==> s.newCollateral == collateral - s.fundingDelta)
  {
    var b: int, d: int := base, marketCum - lastCum;
    AbsMul(b, d);
  }

  /** Settling again right after a settlement changes nothing. */
  lemma SettleFundingIdempotent(base: I64, collateral: U64, lastCum: I128, marketCum: I128)
    requires SettleFunding(base, collateral, lastCum, marketCum).Ok?
    ensures var s := SettleFunding(base, collateral, lastCum, marketCum).value;
            SettleFunding(base, s.newCollateral, s.checkpoint, marketCum) == Ok(Settlement(s.newCollateral, marketCum, 0))
  {}

  // ---------------------------------------------------------------------
  // Funding-index update
  // ---------------------------------------------------------------------

  /** The funding rate of `update_funding`: the premium
      (mark - index) * PRICE_SCALE / index, truncated toward zero, clamped to
      the band [-maxRate, maxRate] (to maxRate itself when maxRate < 0). The
      premium's checked product cannot overflow for `i64` prices. */
  function FundingRate(markPrice: I64, indexPrice: I64, maxFundingRate: I64): (r: I64)
    requires indexPrice > 0
    ensures maxFundingRate >= 0 ==> Abs(r) <= maxFundingRate
    ensures var premium := TDiv((markPrice - indexPrice) * PRICE_SCALE, indexPrice);
            (Abs(premium) <= maxFundingRate ==> r == premium) &&
            (maxFundingRate >= 0 && premium > maxFundingRate ==> r == maxFundingRate) &&
            (maxFundingRate >= 0 && premium < -maxFundingRate ==> r == -maxFundingRate)
    ensures markPrice >= indexPrice ==> r >= 0 || maxFundingRate < 0
    ensures markPrice <= indexPrice ==> r <= 0
  {
    var premium := TDiv((markPrice - indexPrice) * PRICE_SCALE, indexPrice);
    var maxRate: int := maxFundingRate;
    Min(Max(premium, -maxRate), maxRate)
  }

  /** The index increment index * rate / PRICE_SCALE, truncated toward zero;
      the product of two `i64` values cannot overflow `i128`. It has the
      sign of the rate and is at most index * |rate| / PRICE_SCALE in size. */
  function FundingIncrement(indexPrice: I64, rate: I64): (r: I128)
    requires indexPrice > 0
    ensures Abs(r) == indexPrice * Abs(rate) / PRICE_SCALE
    ensures r > 0 ==> rate > 0
    ensures r < 0 ==> rate < 0
  {
    var ip: int, rt: int := indexPrice, rate;
    AbsMul(ip, rt);
    MulLe(Abs(rt), I64_MAX + 1, ip);
    MulLe(ip, I64_MAX, I64_MAX + 1);
    TDivAbsLe(ip * rt, PRICE_SCALE);
    TDiv(ip * rt, PRICE_SCALE)
  }

  // ---------------------------------------------------------------------
  // Accounts
  // ---------------------------------------------------------------------

  /** The fields of a position account the handlers use, as one value. */
  datatype PositionFields = PositionFields(
    base: I64,
    entry: I64,
    collateral: U64,
    leverage: U16,
    lastFunding: I128,
    realizedPnl: I128)

  datatype Side = Long | Short

  datatype OrderType = MarketOrder | LimitOrder

  /** The perps market account. */
  class Market {
    var maxLeverage: U16
    var maintenanceMarginBps: U16
    var liquidationFeeBps: U16
    var liquidationPenaltyBps: U16
    var fundingRate: I64
    var openInterest: I128
    var cumulativeFunding: I128
    var lastFundingTs: I64
    var maxFundingRate: I64
    var fundingIntervalSecs: I64
    var emergency: bool

    /** `update_funding`: once a funding interval has passed and the index
        price is positive, stores the clamped rate, adds its increment to the
        cumulative index and stamps the time. */
    method UpdateFunding(paused: bool, now: I64, indexPrice: I64, markPrice: I64) returns (r: Result<()>)
      modifies this
      ensures paused ==> r == Err(PerpsPaused)
      ensures !paused && !InI64(now - old(lastFundingTs)) ==> r == Err(CalculationOverflow)
      ensures !paused && InI64(now - old(lastFundingTs)) && now - old(lastFundingTs) < fundingIntervalSecs ==>
                r == Err(FundingTooSoon)
      ensures (!paused && InI64(now - old(lastFundingTs)) && now - old(lastFundingTs) >= fundingIntervalSecs &&
               indexPrice <= 0) ==> r == Err(OraclePriceUnavailable)
      ensures r.Ok? <==> !paused && InI64(now - old(lastFundingTs)) && now - old(lastFundingTs) >= fundingIntervalSecs &&
                         indexPrice > 0 &&
                         InI128(old(cumulativeFunding) + FundingIncrement(indexPrice, FundingRate(markPrice, indexPrice, maxFundingRate)))
      ensures r.Ok? ==> indexPrice > 0 &&
                        fundingRate == FundingRate(markPrice, indexPrice, maxFundingRate) &&
                        cumulativeFunding == old(cumulativeFunding) + FundingIncrement(indexPrice, fundingRate) &&
                        lastFundingTs == now
      ensures r.Err? ==> unchanged(this)
      ensures maxLeverage == old(maxLeverage) && maintenanceMarginBps == old(maintenanceMarginBps) &&
              liquidationFeeBps == old(liquidationFeeBps) && liquidationPenaltyBps == old(liquidationPenaltyBps) &&
              openInterest == old(openInterest) && maxFundingRate == old(maxFundingRate) &&
              fundingIntervalSecs == old(fundingIntervalSecs) && emergency == old(emergency)
    {
      if paused {
        return Err(PerpsPaused);
      }
      var elapsed := now - lastFundingTs;
      if !InI64(elapsed) {
        return Err(CalculationOverflow);
      }
      if elapsed < fundingIntervalSecs {
        return Err(FundingTooSoon);
      }
      if indexPrice <= 0 {
        return Err(OraclePriceUnavailable);
      }
      var rate := FundingRate(markPrice, indexPrice, maxFundingRate);
      var increment := FundingIncrement(indexPrice, rate);
      var newCumulative := cumulativeFunding + increment;
      if !InI128(newCumulative) {
        return Err(CalculationOverflow);
      }
      fundingRate := rate;
      cumulativeFunding := newCumulative;
      lastFundingTs := now;
      return Ok(());
    }
  }

  /** The perps position account. */
  class Position {
    var basePosition: I64
    var entryPrice: I64
    var collateral: U64
    var leverage: U16
    var lastFunding: I128
    var realizedPnl: I128

    function Fields(): PositionFields
      reads this
    {
      PositionFields(basePosition, entryPrice, collateral, leverage, lastFunding, realizedPnl)
    }

    method Store(f: PositionFields)
      modifies this
      ensures Fields() == f
    {
      basePosition, entryPrice, collateral := f.base, f.entry, f.collateral;
      leverage, lastFunding, realizedPnl := f.leverage, f.lastFunding, f.realizedPnl;
    }
  }

  /** The perps user account: free collateral and the open-position count. */
  class UserAccount {
    var collateralQuote: U64
    var positionsCount: U8
  }

  /** The insurance vault account's tracked balance. */
  class InsuranceVault {
    var balance: U64
  }

  // ---------------------------------------------------------------------
  // open_position
  // ---------------------------------------------------------------------

  /** The signed base change of an order: + size for a long, - size for a short. */
  function TradeDelta(side: Side, size: I64): (d: I64)
    requires size > 0
    ensures Abs(d) == size
    ensures d > 0 <==> side == Long
  {
    if side == Long then size else -size
  }

  /** Realized profit is paid to the user; a loss is not charged here. */
  function PnlCredit(pnlDelta: I128): (r: Result<U64>)
    ensures pnlDelta <= 0 ==> r == Ok(0)
    ensures pnlDelta > 0 ==> (r.Ok? <==> pnlDelta <= U64_MAX)
    ensures r.Ok? ==> r.value == Max(0, pnlDelta)
  {
    if pnlDelta > 0 then CheckedU64(pnlDelta) else Ok(0)
  }

  /** The position counter after a trade: one more for a freshly opened
      position (checked), one fewer, saturating, for one that became flat. */
  function CountAfterTrade(count: U8, oldBase: int, newBase: int): (r: Result<U8>)
    ensures oldBase == 0 && newBase != 0 ==> (r.Ok? <==> count < U8_LIMIT - 1) && (r.Ok? ==> r.value == count + 1)
    ensures oldBase != 0 && newBase == 0 ==> r == Ok(Max(0, count - 1))
    ensures (oldBase == 0) == (newBase == 0) ==> r == Ok(count)
  {
    if oldBase == 0 && newBase != 0 then CheckedU8(count + 1)
    else if oldBase != 0 && newBase == 0 then Ok(Max(0, count - 1))
    else Ok(count)
  }

  /** What `open_position` writes. */
  datatype OpenEffects = OpenEffects(
    position: PositionFields,
    userCollateral: U64,
    positionsCount: U8,
    openInterest: I128,
    debit: U64,
    credit: U64)

  /** The initial margin of a position of `base` at `price`, if it fits in
      `u64`: ceil(|base| * |price| / leverage). */
  function RequiredCollateral(base: I64, price: I64, leverage: U16): (r: Result<U64>)
    requires leverage > 0
    ensures r.Ok? <==> MathCeil(Abs(base) * Abs(price), leverage) <= U64_MAX
    ensures r.Ok? ==> (r.value - 1) * leverage < Abs(base) * Abs(price) <= r.value * leverage
    ensures r.Err? ==> r.error == CalculationOverflow
  {
    CeilUnique(Abs(base) * Abs(price), leverage, RequiredMargin(NotionalValue(base, price).value, leverage).value);
    CheckedU64(RequiredMargin(NotionalValue(base, price).value, leverage).value)
  }

  /** `open_position` from the validations to the open-interest update:
      settles funding, applies the trade, re-margins the position to the
      initial margin of its new size and debits the shortfall over the
      settled collateral from the user. */
  function OpenOutcome(paused: bool, maxLeverage: U16, cumFunding: I128, openInterest: I128,
                       pos: PositionFields, userCollateral: U64, positionsCount: U8,
                       side: Side, size: I64, leverage: U16, orderType: OrderType, price: I64): (r: Result<OpenEffects>)
    ensures paused ==> r == Err(PerpsPaused)
    ensures !paused && orderType != MarketOrder ==> r == Err(OrderTypeNotSupported)
    ensures !paused && orderType == MarketOrder && size <= 0 ==> r == Err(InvalidAmount)
    ensures !paused && orderType == MarketOrder && size > 0 && (leverage == 0 || leverage > maxLeverage) ==>
              r == Err(InvalidLeverage)
    ensures r.Ok? ==> orderType == MarketOrder && size > 0 && 0 < leverage <= maxLeverage
    ensures !paused && orderType == MarketOrder && size > 0 && 0 < leverage <= maxLeverage ==>
              var s := SettleFunding(pos.base, pos.collateral, pos.lastFunding, cumFunding);
              (r.Ok? <==>
                 s.Ok? &&
                 var t := ApplyTrade(PositionState(pos.base, pos.entry, pos.realizedPnl, s.value.checkpoint),
                                     TradeDelta(side, size), price);
                 t.Ok? &&
                 var required := RequiredCollateral(t.value.newBasePosition, price, leverage);
                 required.Ok? &&
                 userCollateral >= Max(0, required.value - s.value.newCollateral) &&
                 t.value.pnlDelta <= U64_MAX &&
                 InU64(userCollateral - Max(0, required.value - s.value.newCollateral) + Max(0, t.value.pnlDelta)) &&
                 InI128(openInterest + Abs(t.value.newBasePosition) * Abs(price) - Abs(pos.base) * Abs(price)) &&
                 CountAfterTrade(positionsCount, pos.base, t.value.newBasePosition).Ok?)
    ensures r.Err? ==> r.error in {PerpsPaused, OrderTypeNotSupported, InvalidAmount, InvalidLeverage,
                                   InsufficientCollateral, CalculationOverflow}
    ensures r.Ok? ==>
              var s := SettleFunding(pos.base, pos.collateral, pos.lastFunding, cumFunding);
              var p := r.value.position;
              s.Ok? &&
              var t := ApplyTrade(PositionState(pos.base, pos.entry, pos.realizedPnl, s.value.checkpoint),
                                  TradeDelta(side, size), price);
              t.Ok? &&
              p.base == t.value.newBasePosition && p.base == pos.base + TradeDelta(side, size) &&
              p.entry == t.value.newEntryPrice && p.realizedPnl == t.value.newRealizedPnl &&
              p.leverage == leverage && p.lastFunding == cumFunding &&
              (p.collateral - 1) * leverage < Abs(p.base) * Abs(price) <= p.collateral * leverage &&
              r.value.debit == Max(0, p.collateral - s.value.newCollateral) &&
              r.value.credit == Max(0, t.value.pnlDelta) &&
              CountAfterTrade(positionsCount, pos.base, p.base) == Ok(r.value.positionsCount) &&
              userCollateral >= r.value.debit &&
              r.value.userCollateral == userCollateral - r.value.debit + r.value.credit &&
              r.value.openInterest == openInterest + Abs(p.base) * Abs(price) - Abs(pos.base) * Abs(price)
  {
    if paused then Err(PerpsPaused)
    else if orderType != MarketOrder then Err(OrderTypeNotSupported)
    else if size <= 0 then Err(InvalidAmount)
    else if leverage == 0 || leverage > maxLeverage then Err(InvalidLeverage)
    else
      var s :- SettleFunding(pos.base, pos.collateral, pos.lastFunding, cumFunding);
      var delta := TradeDelta(side, size);
      var trade :- ApplyTrade(PositionState(pos.base, pos.entry, pos.realizedPnl, s.checkpoint), delta, price);
      var required :- RequiredCollateral(trade.newBasePosition, price, leverage);
      var debit := Max(0, required - s.newCollateral);
      if userCollateral < debit then Err(InsufficientCollateral)
      else
        var credit :- PnlCredit(trade.pnlDelta);
        var newUserCollateral :- CheckedU64(userCollateral - debit + credit);
        var newNotional := NotionalValue(trade.newBasePosition, price).value;
        var oldNotional := NotionalValue(pos.base, price).value;
        var newOpenInterest :- CheckedI128(openInterest + (newNotional - oldNotional));
        var newCount :- CountAfterTrade(positionsCount, pos.base, trade.newBasePosition);
        Ok(OpenEffects(
             PositionFields(trade.newBasePosition, trade.newEntryPrice, required, leverage, cumFunding, trade.newRealizedPnl),
             newUserCollateral, newCount, newOpenInterest, debit, credit))
  }

  /** Once the trade and the new margin are computed, the order is rejected
      with `InsufficientCollateral` exactly when the user's free collateral
      is below the margin shortfall. */
  lemma {:induction false} OpenRejectsWithoutCollateral(
    maxLeverage: U16, cumFunding: I128, openInterest: I128, pos: PositionFields,
    userCollateral: U64, positionsCount: U8, side: Side, size: I64, leverage: U16, price: I64)
    requires size > 0 && 0 < leverage <= maxLeverage
    requires SettleFunding(pos.base, pos.collateral, pos.lastFunding, cumFunding).Ok?
    requires var s := SettleFunding(pos.base, pos.collateral, pos.lastFunding, cumFunding).value;
             ApplyTrade(PositionState(pos.base, pos.entry, pos.realizedPnl, s.checkpoint), TradeDelta(side, size), price).Ok?
    requires var s := SettleFunding(pos.base, pos.collateral, pos.lastFunding, cumFunding).value;
             var t := ApplyTrade(PositionState(pos.base, pos.entry, pos.realizedPnl, s.checkpoint), TradeDelta(side, size), price).value;
             RequiredCollateral(t.newBasePosition, price, leverage).Ok?
    ensures var s := SettleFunding(pos.base, pos.collateral, pos.lastFunding, cumFunding).value;
            var t := ApplyTrade(PositionState(pos.base, pos.entry, pos.realizedPnl, s.checkpoint), TradeDelta(side, size), price).value;
            var required := RequiredCollateral(t.newBasePosition, price, leverage).value;
            var r := OpenOutcome(false, maxLeverage, cumFunding, openInterest, pos, userCollateral, positionsCount,
                                 side, size, leverage, MarketOrder, price);
            r == Err(InsufficientCollateral) <==> userCollateral < Max(0, required - s.newCollateral)
  {
  }

  /** `open_position` on the accounts. */
  method OpenPosition(market: Market, position: Position, user: UserAccount, paused: bool,
                      side: Side, size: I64, leverage: U16, orderType: OrderType, price: I64)
    returns (r: Result<()>)
    modifies market, position, user
    ensures var o := OpenOutcome(paused, old(market.maxLeverage), old(market.cumulativeFunding), old(market.openInterest),
                                 old(position.Fields()), old(user.collateralQuote), old(user.positionsCount),
                                 side, size, leverage, orderType, price);
            (r.Ok? <==> o.Ok?) &&
            (r.Err? ==> o.Err? && r.error == o.error) &&
            (o.Ok? ==> position.Fields() == o.value.position &&
                       user.collateralQuote == o.value.userCollateral &&
                       user.positionsCount == o.value.positionsCount &&
                       market.openInterest == o.value.openInterest)
    ensures r.Err? ==> unchanged(position) && unchanged(user)
    ensures unchanged(market`maxLeverage, market`maintenanceMarginBps, market`liquidationFeeBps,
                      market`liquidationPenaltyBps, market`fundingRate, market`cumulativeFunding,
                      market`lastFundingTs, market`maxFundingRate, market`fundingIntervalSecs, market`emergency)
    ensures r.Err? ==> unchanged(market)
  {
    var o := OpenOutcome(paused, market.maxLeverage, market.cumulativeFunding, market.openInterest,
                         position.Fields(), user.collateralQuote, user.positionsCount,
                         side, size, leverage, orderType, price);
    if o.Err? {
      return Err(o.error);
    }
    position.Store(o.value.position);
    user.collateralQuote := o.value.userCollateral;
    user.positionsCount := o.value.positionsCount;
    market.openInterest := o.value.openInterest;
    return Ok(());
  }

  // ---------------------------------------------------------------------
  // close_position
  // ---------------------------------------------------------------------

  /** Closing with the trade -base realizes base * (price - entry) and
      leaves the position flat. */
  lemma {:induction false} CloseTrade(state: PositionState, price: I64)
    requires state.basePosition != 0 && state.basePosition != I64_MIN
    ensures var r := ApplyTrade(state, -state.basePosition, price);
            var pnl := state.basePosition * (price - state.entryPrice);
            (r.Ok? <==> InI128(state.realizedPnl + pnl)) &&
            (r.Ok? ==> r.value == TradeResult(0, 0, state.realizedPnl + pnl, pnl))
  {
    var b: int, d: int := state.basePosition, price - state.entryPrice;
    ApplyTradeReduce(state, -state.basePosition, price);
    assert Min(Abs(b), Abs(-b)) == Abs(b);
    assert Abs(b) * d * (if b > 0 then 1 else -1) == b * d;
  }

  /** What `close_position` writes. */
  datatype CloseEffects = CloseEffects(
    position: PositionFields,
    userCollateral: U64,
    positionsCount: U8,
    openInterest: I128,
    returned: U64)

  /** `close_position`: settles funding, closes the whole position at the
      price, returns the settled collateral plus the realized PnL (floored
      at 0) to the user and resets the position, keeping its realized PnL. */
  function CloseOutcome(paused: bool, cumFunding: I128, openInterest: I128, pos: PositionFields,
                        userCollateral: U64, positionsCount: U8, price: I64): (r: Result<CloseEffects>)
    ensures paused ==> r == Err(PerpsPaused)
    ensures !paused && pos.base == 0 ==> r == Err(NoOpenPosition)
    ensures !paused && pos.base != 0 ==>
              var s := SettleFunding(pos.base, pos.collateral, pos.lastFunding, cumFunding);
              var pnl := pos.base * (price - pos.entry);
              (r.Ok? <==>
                 s.Ok? && pos.base != I64_MIN &&
                 InI128(pos.realizedPnl + pnl) &&
                 InU64(userCollateral + Max(0, s.value.newCollateral + pnl)) &&
                 InI128(openInterest - Abs(pos.base) * Abs(price)))
    ensures r.Err? ==> r.error in {PerpsPaused, NoOpenPosition, CalculationOverflow}
    ensures r.Ok? ==>
              var s := SettleFunding(pos.base, pos.collateral, pos.lastFunding, cumFunding);
              var pnl := pos.base * (price - pos.entry);
              s.Ok? &&
              r.value.returned == Max(0, s.value.newCollateral + pnl) &&
              r.value.userCollateral == userCollateral + r.value.returned &&
              r.value.position.realizedPnl == pos.realizedPnl + pnl &&
              r.value.position.(realizedPnl := 0) == PositionFields(0, 0, 0, 0, 0, 0) &&
              r.value.positionsCount == Max(0, positionsCount - 1) &&
              r.value.openInterest == openInterest - Abs(pos.base) * Abs(price)
  {
    if paused then Err(PerpsPaused)
    else if pos.base == 0 then Err(NoOpenPosition)
    else
      var s :- SettleFunding(pos.base, pos.collateral, pos.lastFunding, cumFunding);
      var base: int := pos.base;
      var closeDelta :- CheckedI64(-base);
      EquityFits(s.newCollateral, pos.base, pos.entry, price);
      var state := PositionState(pos.base, pos.entry, pos.realizedPnl, s.checkpoint);
      CloseTrade(state, price);
      var trade :- ApplyTrade(state, closeDelta, price);
      var collateralWide :- CheckedI128(s.newCollateral + trade.pnlDelta);
      var returned :- CheckedU64(Max(0, collateralWide));
      var newUserCollateral :- CheckedU64(userCollateral + returned);
      var oldNotional := NotionalValue(pos.base, price).value;
      var newOpenInterest :- CheckedI128(openInterest - oldNotional);
      Ok(CloseEffects(PositionFields(0, 0, 0, 0, 0, trade.newRealizedPnl),
                      newUserCollateral, Max(0, positionsCount - 1), newOpenInterest, returned))
  }

  /** `close_position` on the accounts. */
  method ClosePosition(market: Market, position: Position, user: UserAccount, paused: bool, price: I64)
    returns (r: Result<()>)
    modifies market, position, user
    ensures var o := CloseOutcome(paused, old(market.cumulativeFunding), old(market.openInterest), old(position.Fields()),
                                  old(user.collateralQuote), old(user.positionsCount), price);
            (r.Ok? <==> o.Ok?) &&
            (r.Err? ==> o.Err? && r.error == o.error) &&
            (o.Ok? ==> position.Fields() == o.value.position &&
                       user.collateralQuote == o.value.userCollateral &&
                       user.positionsCount == o.value.positionsCount &&
                       market.openInterest == o.value.openInterest)
    ensures r.Err? ==> unchanged(position) && unchanged(user) && unchanged(market)
    ensures unchanged(market`maxLeverage, market`maintenanceMarginBps, market`liquidationFeeBps,
                      market`liquidationPenaltyBps, market`fundingRate, market`cumulativeFunding,
                      market`lastFundingTs, market`maxFundingRate, market`fundingIntervalSecs, market`emergency)
  {
    var o := CloseOutcome(paused, market.cumulativeFunding, market.openInterest, position.Fields(),
                          user.collateralQuote, user.positionsCount, price);
    if o.Err? {
      return Err(o.error);
    }
    position.Store(o.value.position);
    user.collateralQuote := o.value.userCollateral;
    user.positionsCount := o.value.positionsCount;
    market.openInterest := o.value.openInterest;
    return Ok(());
  }

  // ---------------------------------------------------------------------
  // liquidate_position
  // ---------------------------------------------------------------------

  /** `u64::try_from(x).unwrap_or(0)`. */
  function U64OrZero(x: int): U64
  {
    if InU64(x) then x else 0
  }

  /** A liquidation fee of `bps` basis points on a notional in the product
      of the base and price scales, brought back to quote units: the two
      truncating divisions give floor(notional * bps / 10^10), replaced by 0
      when that does not fit in `u64`. The checked notional * bps / 10_000
      is the same computation as the maintenance margin, so it is reused
      here. */
  function LiquidationFee(closedNotional: I128, bps: U16): (r: Result<U64>)
    requires closedNotional >= 0
    ensures r.Ok? <==> InI128(closedNotional * bps)
    ensures r.Err? ==> r.error == CalculationOverflow
    ensures r.Ok? ==> r.value == U64OrZero(closedNotional * bps / (10_000 * PRICE_SCALE))
    ensures r.Ok? && r.value > 0 ==> r.value * (10_000 * PRICE_SCALE) <= closedNotional * bps
  {
    MulLe(0, closedNotional, bps);
    DivDiv(closedNotional * bps, 10_000, PRICE_SCALE);
    var scaled :- MaintenanceMargin(closedNotional, bps);
    Ok(U64OrZero(scaled / PRICE_SCALE))
  }

  /** The bad-debt step of a liquidation. */
  datatype BadDebt = BadDebt(remaining: int, insuranceBalance: U64, badDebt: U64, emergency: bool)

  /** A negative remaining collateral is a deficit, converted to `u64`
      saturating at u64::MAX. The insurance fund pays it if its balance
      covers it; otherwise the fund pays what it holds and the market enters
      emergency mode. The remaining collateral becomes 0 either way. */
  function AbsorbBadDebt(remaining: I128, insuranceBalance: U64, emergency: bool): (r: BadDebt)
    ensures r.insuranceBalance + r.badDebt == insuranceBalance
    ensures r.remaining == Max(0, remaining)
    ensures remaining >= 0 ==> r.badDebt == 0 && r.emergency == emergency
    ensures remaining < 0 && Abs(remaining) <= insuranceBalance ==>
              r.badDebt == Abs(remaining) && r.emergency == emergency
    ensures remaining < 0 && Abs(remaining) > insuranceBalance && insuranceBalance < U64_MAX ==>
              r.insuranceBalance == 0 && r.emergency
    ensures remaining < 0 && Abs(remaining) > insuranceBalance ==> r.badDebt == insuranceBalance
    ensures remaining < 0 ==> r.badDebt <= Abs(remaining)
    ensures r.emergency ==> emergency || r.insuranceBalance == 0
  {
    if remaining < 0 then
      var deficit := Abs(remaining);
      var badDebt: U64 := if InU64(deficit) then deficit else U64_MAX;
      if insuranceBalance >= badDebt then
        BadDebt(0, insuranceBalance - badDebt, badDebt, emergency)
      else
        BadDebt(0, 0, insuranceBalance, true)
    else
      BadDebt(remaining, insuranceBalance, 0, emergency)
  }

  /** The saturated deficit: a deficit beyond u64::MAX against a fund of
      exactly u64::MAX empties the fund without raising the emergency flag. */
  lemma AbsorbBadDebtSaturated(remaining: I128, emergency: bool)
    requires remaining < 0 && Abs(remaining) > U64_MAX
    ensures AbsorbBadDebt(remaining, U64_MAX, emergency) == BadDebt(0, 0, U64_MAX, emergency)
  {}

  /** The fee and penalty actually paid out of the collateral vault: the fee
      first, then the penalty from what is left, so together they never
      exceed the vault's balance. */
  function VaultTransfers(liqFee: U64, penalty: U64, vaultAmount: U64): (r: (U64, U64))
    ensures r.0 + r.1 <= vaultAmount
    ensures r.0 <= liqFee && r.1 <= penalty
    ensures r.0 == Min(liqFee, vaultAmount)
    ensures r.0 < liqFee ==> r.1 == 0
    ensures r.0 == liqFee ==> r.1 == Min(penalty, vaultAmount - liqFee)
    ensures liqFee + penalty <= vaultAmount ==> r == (liqFee, penalty)
  {
    var paidFee := Min(liqFee, vaultAmount);
    var paidPenalty := Min(penalty, Max(0, vaultAmount - paidFee));
    (paidFee, paidPenalty)
  }

  /** The first half of a liquidation: how much of the position is closed
      and the trade that closes it. */
  datatype LiquidationPlan = LiquidationPlan(settlement: Settlement, closed: I64, fullClose: bool, trade: TradeResult)

  /** `liquidate_position` up to the closing trade: settles funding, requires
      the position to be liquidatable on the settled collateral, sizes the
      close and applies it. */
  function PlanLiquidation(paused: bool, selfLiquidation: bool, maintenanceMarginBps: U16, cumFunding: I128,
                           pos: PositionFields, price: I64): (r: Result<LiquidationPlan>)
    ensures paused ==> r == Err(PerpsPaused)
    ensures !paused && selfLiquidation ==> r == Err(SelfLiquidation)
    ensures !paused && !selfLiquidation && pos.base == 0 ==> r == Err(NoOpenPosition)
    ensures r.Ok? ==>
              var s := r.value.settlement;
              SettleFunding(pos.base, pos.collateral, pos.lastFunding, cumFunding) == Ok(s) &&
              IsLiquidatable(s.newCollateral, pos.base, pos.entry, price, maintenanceMarginBps) == Ok(true) &&
              pos.base != I64_MIN &&
              1 <= r.value.closed <= Abs(pos.base) &&
              (r.value.fullClose <==> r.value.closed == Abs(pos.base)) &&
              LiquidationCloseSize(s.newCollateral, pos.base, pos.entry, price, maintenanceMarginBps) == Ok(r.value.closed) &&
              ApplyTrade(PositionState(pos.base, pos.entry, pos.realizedPnl, s.checkpoint),
                         if pos.base > 0 then -r.value.closed else r.value.closed, price) == Ok(r.value.trade) &&
              r.value.trade.newBasePosition == pos.base - (if pos.base > 0 then r.value.closed else -r.value.closed)
    ensures !paused && !selfLiquidation && pos.base != 0 ==>
              var s := SettleFunding(pos.base, pos.collateral, pos.lastFunding, cumFunding);
              s.Ok? && IsLiquidatable(s.value.newCollateral, pos.base, pos.entry, price, maintenanceMarginBps) == Ok(false) ==>
                r == Err(NotLiquidatable)
    ensures !paused && !selfLiquidation && pos.base != 0 ==>
              var s := SettleFunding(pos.base, pos.collateral, pos.lastFunding, cumFunding);
              (r.Ok? <==>
                 s.Ok? && pos.base != I64_MIN &&
                 IsLiquidatable(s.value.newCollateral, pos.base, pos.entry, price, maintenanceMarginBps) == Ok(true) &&
                 LiquidationClose(s.value, maintenanceMarginBps, pos, price).Ok?)
    ensures r.Err? ==> r.error in {PerpsPaused, SelfLiquidation, NoOpenPosition, NotLiquidatable, CalculationOverflow}
  {
    if paused then Err(PerpsPaused)
    else if selfLiquidation then Err(SelfLiquidation)
    else if pos.base == 0 then Err(NoOpenPosition)
    else
      var s :- SettleFunding(pos.base, pos.collateral, pos.lastFunding, cumFunding);
      assert SettleFunding(pos.base, pos.collateral, pos.lastFunding, cumFunding) == Ok(s);
      var liquidatable :- IsLiquidatable(s.newCollateral, pos.base, pos.entry, price, maintenanceMarginBps);
      assert IsLiquidatable(s.newCollateral, pos.base, pos.entry, price, maintenanceMarginBps) == Ok(liquidatable);
      if !liquidatable then Err(NotLiquidatable)
      else LiquidationClose(s, maintenanceMarginBps, pos, price)
  }

  /** The part of `liquidate_position` after the liquidatable check: sizes
      the close on the settled collateral and applies the closing trade. */
  function LiquidationClose(s: Settlement, maintenanceMarginBps: U16, pos: PositionFields, price: I64): (r: Result<LiquidationPlan>)
    requires pos.base != 0
    requires IsLiquidatable(s.newCollateral, pos.base, pos.entry, price, maintenanceMarginBps) == Ok(true)
    ensures r.Ok? <==>
              pos.base != I64_MIN &&
              var c := LiquidationCloseSize(s.newCollateral, pos.base, pos.entry, price, maintenanceMarginBps);
              c.Ok? &&
              ApplyTrade(PositionState(pos.base, pos.entry, pos.realizedPnl, s.checkpoint),
                         if pos.base > 0 then -c.value else c.value, price).Ok?
    ensures r.Err? ==> r.error == CalculationOverflow
    ensures r.Ok? ==>
              r.value.settlement == s &&
              1 <= r.value.closed <= Abs(pos.base) &&
              (r.value.fullClose <==> r.value.closed == Abs(pos.base)) &&
              LiquidationCloseSize(s.newCollateral, pos.base, pos.entry, price, maintenanceMarginBps) == Ok(r.value.closed) &&
              ApplyTrade(PositionState(pos.base, pos.entry, pos.realizedPnl, s.checkpoint),
                         if pos.base > 0 then -r.value.closed else r.value.closed, price) == Ok(r.value.trade) &&
              r.value.trade.newBasePosition == pos.base - (if pos.base > 0 then r.value.closed else -r.value.closed)
  {
    // the checks that can fail here are the ones is_liquidatable has just passed
    var closeSize := LiquidationCloseSize(s.newCollateral, pos.base, pos.entry, price, maintenanceMarginBps).value;
    LiquidationPlanFacts(s.newCollateral, pos.base, pos.entry, price, maintenanceMarginBps, closeSize);
    var absBase := U64AsI64(Abs(pos.base));
    var closed := Min(closeSize, absBase);
    assert pos.base != I64_MIN ==> closed == closeSize;
    var fullClose := closed >= absBase;
    // for a long the close size lies in [0, base], so negating it cannot overflow
    var closeDelta: I64 := if pos.base > 0 then -closed else closed;
    var trade :- ApplyTrade(PositionState(pos.base, pos.entry, pos.realizedPnl, s.checkpoint), closeDelta, price);
    Ok(LiquidationPlan(s, closed, fullClose, trade))
  }

  /** The close size of a liquidatable position other than i64::MIN is
      between 1 and |base|; i64::MIN is never liquidated successfully since
      its closing trade overflows. */
  lemma LiquidationPlanFacts(collateral: U64, base: I64, entry: I64, price: I64, bps: U16, closeSize: I64)
    requires base != 0
    requires IsLiquidatable(collateral, base, entry, price, bps) == Ok(true)
    requires LiquidationCloseSize(collateral, base, entry, price, bps) == Ok(closeSize)
    ensures base != I64_MIN ==> 1 <= closeSize <= Abs(base)
    ensures base == I64_MIN ==> Min(closeSize, U64AsI64(Abs(base))) == I64_MIN
  {
    if base != I64_MIN {
      CloseSizeAgreesWithLiquidatable(collateral, base, entry, price, bps);
    }
  }

  /** What `liquidate_position` writes and reports. */
  datatype LiquidationEffects = LiquidationEffects(
    position: PositionFields,
    userCollateral: U64,
    positionsCount: U8,
    openInterest: I128,
    insuranceBalance: U64,
    emergency: bool,
    closed: I64,
    liquidatorFee: U64,
    insurancePenalty: U64,
    badDebt: U64)

  /** The money movements of a liquidation. */
  datatype LiquidationFunds = LiquidationFunds(
    fee: U64,
    penalty: U64,
    left: I128,
    remaining: U64,
    badDebt: U64,
    emergency: bool,
    paidFee: U64,
    paidPenalty: U64,
    insuranceBalance: U64)

  /** The fee and penalty on the closed notional, the collateral left after
      the realized PnL and both charges, the bad debt the insurance fund
      absorbs when that is negative, and what the collateral vault actually
      pays to the liquidator and to the insurance fund. */
  function SettleLiquidationFunds(closedNotional: I128, liquidationFeeBps: U16, liquidationPenaltyBps: U16,
                                  settledCollateral: U64, pnlDelta: I128, insuranceBalance: U64,
                                  emergency: bool, vaultAmount: U64): (r: Result<LiquidationFunds>)
    requires closedNotional >= 0
    ensures r.Ok? <==>
              var fee := LiquidationFee(closedNotional, liquidationFeeBps);
              var penalty := LiquidationFee(closedNotional, liquidationPenaltyBps);
              fee.Ok? && penalty.Ok? &&
              var left := settledCollateral + pnlDelta - fee.value - penalty.value;
              InI128(settledCollateral + pnlDelta) && InI128(settledCollateral + pnlDelta - fee.value) && InI128(left) &&
              InU64(Max(0, left)) &&
              InU64(AbsorbBadDebt(left, insuranceBalance, emergency).insuranceBalance +
                    VaultTransfers(fee.value, penalty.value, vaultAmount).1)
    ensures r.Err? ==> r.error == CalculationOverflow
    ensures r.Ok? ==> LiquidationFee(closedNotional, liquidationFeeBps) == Ok(r.value.fee) &&
                      LiquidationFee(closedNotional, liquidationPenaltyBps) == Ok(r.value.penalty)
    ensures r.Ok? ==> r.value.left == settledCollateral + pnlDelta - r.value.fee - r.value.penalty &&
                      r.value.remaining == Max(0, r.value.left)
    ensures r.Ok? ==> (r.value.paidFee, r.value.paidPenalty) == VaultTransfers(r.value.fee, r.value.penalty, vaultAmount) &&
                      r.value.paidFee + r.value.paidPenalty <= vaultAmount &&
                      r.value.paidFee <= r.value.fee && r.value.paidPenalty <= r.value.penalty &&
                      r.value.insuranceBalance == insuranceBalance - r.value.badDebt + r.value.paidPenalty
    ensures r.Ok? ==>
              var d := AbsorbBadDebt(r.value.left, insuranceBalance, emergency);
              r.value.badDebt == d.badDebt && r.value.emergency == d.emergency && r.value.remaining == d.remaining
    ensures r.Ok? ==>
              var f := r.value;
              (f.left >= 0 ==> f.badDebt == 0 && f.emergency == emergency) &&
              (f.left < 0 ==> f.badDebt <= Abs(f.left)) &&
              (f.left < 0 && Abs(f.left) <= insuranceBalance ==> f.badDebt == Abs(f.left) && f.emergency == emergency) &&
              (f.left < 0 && Abs(f.left) > insuranceBalance ==> f.badDebt == insuranceBalance) &&
              (f.left < 0 && Abs(f.left) > insuranceBalance && insuranceBalance < U64_MAX ==> f.emergency)
  {
    var liqFee :- LiquidationFee(closedNotional, liquidationFeeBps);
    var penalty :- LiquidationFee(closedNotional, liquidationPenaltyBps);
    var afterPnl :- CheckedI128(settledCollateral + pnlDelta);
    assert afterPnl == settledCollateral + pnlDelta;
    var afterFee :- CheckedI128(afterPnl - liqFee);
    assert afterFee == afterPnl - liqFee;
    var left :- CheckedI128(afterFee - penalty);
    assert left == settledCollateral + pnlDelta - liqFee - penalty;
    var debt := AbsorbBadDebt(left, insuranceBalance, emergency);
    var remaining :- CheckedU64(debt.remaining);
    assert remaining == Max(0, left);
    var transfers := VaultTransfers(liqFee, penalty, vaultAmount);
    var newInsurance :- if transfers.1 > 0 then CheckedU64(debt.insuranceBalance + transfers.1)
                        else Ok(debt.insuranceBalance);
    Ok(LiquidationFunds(liqFee, penalty, left, remaining, debt.badDebt, debt.emergency,
                        transfers.0, transfers.1, newInsurance))
  }

  /** `liquidate_position` after the closing trade: the money movements,
      open interest (set to 0 if the subtraction would overflow), and the
      position and user updates. A full close resets the position and
      returns the remaining collateral to the user; a partial one keeps the
      reduced position with the remaining collateral. */
  function LiquidationBookkeeping(plan: LiquidationPlan, liquidationFeeBps: U16, liquidationPenaltyBps: U16,
                                  openInterest: I128, emergency: bool, pos: PositionFields,
                                  userCollateral: U64, positionsCount: U8,
                                  insuranceBalance: U64, vaultAmount: U64, price: I64): (r: Result<LiquidationEffects>)
    requires plan.closed >= 0
    ensures var f := SettleLiquidationFunds(NotionalValue(plan.closed, price).value, liquidationFeeBps, liquidationPenaltyBps,
                                            plan.settlement.newCollateral, plan.trade.pnlDelta,
                                            insuranceBalance, emergency, vaultAmount);
            r.Ok? <==> f.Ok? && (plan.fullClose ==> InU64(userCollateral + f.value.remaining))
    ensures r.Err? ==> r.error == CalculationOverflow
    ensures r.Ok? ==>
              SettleLiquidationFunds(NotionalValue(plan.closed, price).value, liquidationFeeBps, liquidationPenaltyBps,
                                     plan.settlement.newCollateral, plan.trade.pnlDelta,
                                     insuranceBalance, emergency, vaultAmount).Ok?
    ensures r.Ok? ==>
              var f := SettleLiquidationFunds(NotionalValue(plan.closed, price).value, liquidationFeeBps, liquidationPenaltyBps,
                                              plan.settlement.newCollateral, plan.trade.pnlDelta,
                                              insuranceBalance, emergency, vaultAmount).value;
              var e := r.value;
              e.closed == plan.closed &&
              e.liquidatorFee == f.paidFee && e.insurancePenalty == f.paidPenalty && e.badDebt == f.badDebt &&
              e.insuranceBalance == f.insuranceBalance && e.emergency == f.emergency &&
              e.position.realizedPnl == plan.trade.newRealizedPnl &&
              (plan.fullClose ==>
                 e.position.(realizedPnl := 0) == PositionFields(0, 0, 0, 0, 0, 0) &&
                 e.userCollateral == userCollateral + f.remaining &&
                 e.positionsCount == Max(0, positionsCount - 1)) &&
              (!plan.fullClose ==>
                 e.position == PositionFields(plan.trade.newBasePosition, plan.trade.newEntryPrice, f.remaining,
                                              pos.leverage, plan.settlement.checkpoint, plan.trade.newRealizedPnl) &&
                 e.userCollateral == userCollateral && e.positionsCount == positionsCount)
    ensures r.Ok? ==>
              var closedNotional := NotionalValue(plan.closed, price).value;
              r.value.openInterest == (if InI128(openInterest - closedNotional) then openInterest - closedNotional else 0)
  {
    var closedNotional := NotionalValue(plan.closed, price).value;
    var funds :- SettleLiquidationFunds(closedNotional, liquidationFeeBps, liquidationPenaltyBps,
                                        plan.settlement.newCollateral, plan.trade.pnlDelta,
                                        insuranceBalance, emergency, vaultAmount);
    var newOpenInterest := if InI128(openInterest - closedNotional) then openInterest - closedNotional else 0;
    if plan.fullClose then
      var newUserCollateral :- if funds.remaining > 0 then CheckedU64(userCollateral + funds.remaining)
                               else Ok(userCollateral);
      Ok(LiquidationEffects(PositionFields(0, 0, 0, 0, 0, plan.trade.newRealizedPnl),
                            newUserCollateral, Max(0, positionsCount - 1), newOpenInterest,
                            funds.insuranceBalance, funds.emergency, plan.closed,
                            funds.paidFee, funds.paidPenalty, funds.badDebt))
    else
      Ok(LiquidationEffects(PositionFields(plan.trade.newBasePosition, plan.trade.newEntryPrice, funds.remaining,
                                           pos.leverage, plan.settlement.checkpoint, plan.trade.newRealizedPnl),
                            userCollateral, positionsCount, newOpenInterest,
                            funds.insuranceBalance, funds.emergency, plan.closed,
                            funds.paidFee, funds.paidPenalty, funds.badDebt))
  }

  /** `liquidate_position` on the accounts; the result reports the amounts
      of the `Liquidated` event. */
  method LiquidatePosition(market: Market, position: Position, user: UserAccount, vault: InsuranceVault,
                           paused: bool, selfLiquidation: bool, vaultAmount: U64, price: I64)
    returns (r: Result<LiquidationEffects>)
    modifies market, position, user, vault
    ensures var plan := PlanLiquidation(paused, selfLiquidation, old(market.maintenanceMarginBps),
                                        old(market.cumulativeFunding), old(position.Fields()), price);
            (plan.Err? ==> r == Err(plan.error)) &&
            (plan.Ok? ==> r == LiquidationBookkeeping(plan.value, old(market.liquidationFeeBps), old(market.liquidationPenaltyBps),
                                                      old(market.openInterest), old(market.emergency), old(position.Fields()),
                                                      old(user.collateralQuote), old(user.positionsCount),
                                                      old(vault.balance), vaultAmount, price))
    ensures r.Ok? ==> position.Fields() == r.value.position &&
                      user.collateralQuote == r.value.userCollateral &&
                      user.positionsCount == r.value.positionsCount &&
                      market.openInterest == r.value.openInterest &&
                      market.emergency == r.value.emergency &&
                      vault.balance == r.value.insuranceBalance
    ensures r.Err? ==> unchanged(position) && unchanged(user) && unchanged(market) && unchanged(vault)
    ensures unchanged(market`maxLeverage, market`maintenanceMarginBps, market`liquidationFeeBps,
                      market`liquidationPenaltyBps, market`fundingRate, market`cumulativeFunding,
                      market`lastFundingTs, market`maxFundingRate, market`fundingIntervalSecs)
  {
    var plan := PlanLiquidation(paused, selfLiquidation, market.maintenanceMarginBps,
                                market.cumulativeFunding, position.Fields(), price);
    if plan.Err? {
      return Err(plan.error);
    }
    r := LiquidationBookkeeping(plan.value, market.liquidationFeeBps, market.liquidationPenaltyBps,
                                market.openInterest, market.emergency, position.Fields(),
                                user.collateralQuote, user.positionsCount, vault.balance, vaultAmount, price);
    if r.Ok? {
      StoreLiquidation(market, position, user, vault, r.value);
    }
  }

  /** Writes the effects of a successful liquidation to the four accounts. */
  method StoreLiquidation(market: Market, position: Position, user: UserAccount, vault: InsuranceVault,
                          e: LiquidationEffects)
    modifies market, position, user, vault
    ensures position.Fields() == e.position
    ensures user.collateralQuote == e.userCollateral && user.positionsCount == e.positionsCount
    ensures market.openInterest == e.openInterest && market.emergency == e.emergency
    ensures vault.balance == e.insuranceBalance
    ensures unchanged(market`maxLeverage, market`maintenanceMarginBps, market`liquidationFeeBps,
                      market`liquidationPenaltyBps, market`fundingRate, market`cumulativeFunding,
                      market`lastFundingTs, market`maxFundingRate, market`fundingIntervalSecs)
  {
    position.Store(e.position);
    user.collateralQuote := e.userCollateral;
    user.positionsCount := e.positionsCount;
    market.openInterest := e.openInterest;
    market.emergency := e.emergency;
    vault.balance := e.insuranceBalance;
  }
}
