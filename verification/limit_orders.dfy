/**
 * Limit orders (`state/limit_order.rs`): the order status lifecycle and
 * the expiry predicates. An order executes against a pool when its status
 * is still `Pending`, it has not expired, and the pool price meets its
 * target (`AmmMath.CheckPriceCondition`).
 */
module LimitOrders {
  import opened Machine
  import opened Pairs
  import AmmMath

  datatype OrderStatus = Pending | Executed | Cancelled | Expired
  {
    /** `is_executable`: only a pending order can still execute. */
    predicate IsExecutable()
    {
      this == Pending
    }

    /** `is_cancellable`: only a pending order can be cancelled. */
    predicate IsCancellable()
    {
      this == Pending
    }

    /** `is_final`: executed, cancelled and expired orders are settled. */
    predicate IsFinal()
    {
      this == Executed || this == Cancelled || this == Expired
    }
  }

  /** The four status predicates partition the statuses: an order is final
      exactly when it can no longer execute, and executable exactly when it
      is cancellable. */
  lemma StatusLifecycle(s: OrderStatus)
    ensures s.IsFinal() <==> !s.IsExecutable()
    ensures s.IsExecutable() <==> s.IsCancellable()
    ensures s.IsExecutable() <==> s == Pending
  {}

  datatype LimitOrder = LimitOrder(
    owner: Pubkey,
    pool: Pubkey,
    sellToken: Pubkey,
    buyToken: Pubkey,
    sellAmount: U64,
    targetPrice: U64,
    minimumReceive: U64,
    createdAt: I64,
    expiresAt: I64,
    status: OrderStatus,
    bump: U8,
    orderId: U64)
  {
    /** `is_expired`: the order lapses at its expiry instant, inclusive. */
    predicate IsExpired(now: I64)
    {
      now >= expiresAt
    }

    /** `can_execute`: pending and not yet expired. */
    predicate CanExecute(now: I64)
    {
      status.IsExecutable() && !IsExpired(now)
    }

    /** `time_until_expiry`: the seconds left, 0 once expired. The `i64`
        subtraction `expires_at - now` panics when it overflows, which the
        precondition excludes; the `as u64` of the positive difference is
        exact. */
    function TimeUntilExpiry(now: I64): (r: U64)
      requires now >= expiresAt || InI64(expiresAt - now)
      ensures r == 0 <==> IsExpired(now)
      ensures !IsExpired(now) ==> now + r == expiresAt
    {
      if now >= expiresAt then 0 else AsU64(expiresAt - now)
    }

    /** `is_sell_order`: the order sells the pool's token A. */
    predicate IsSellOrder(tokenAMint: Pubkey)
    {
      sellToken == tokenAMint
    }

    /** `get_asking_price`: the order's target price. */
    function AskingPrice(): U64
    {
      targetPrice
    }
  }

  /** An order that can execute has time left, an order is expired at its
      own expiry instant, and an expired or settled order cannot execute. */
  lemma ExpiryConsistent(order: LimitOrder, now: I64)
    requires now >= order.expiresAt || InI64(order.expiresAt - now)
    ensures order.CanExecute(now) ==> order.TimeUntilExpiry(now) > 0
    ensures order.IsExpired(order.expiresAt)
    ensures order.IsExpired(now) || order.status.IsFinal() ==> !order.CanExecute(now)
    ensures order.CanExecute(now) <==> order.status == Pending && order.TimeUntilExpiry(now) > 0
  {}

  /** Waiting never extends an order's remaining time: a later instant leaves
      no more time, and exactly the elapsed seconds fewer while unexpired. */
  lemma TimeUntilExpiryDecreases(order: LimitOrder, now: I64, later: I64)
    requires now <= later
    requires now >= order.expiresAt || InI64(order.expiresAt - now)
    ensures later >= order.expiresAt || InI64(order.expiresAt - later)
    ensures order.TimeUntilExpiry(later) <= order.TimeUntilExpiry(now)
    ensures !order.IsExpired(later) ==> order.TimeUntilExpiry(later) + (later - now) == order.TimeUntilExpiry(now)
  {}

  /** In a pool of two different mints, an order that trades one for the
      other sells token A exactly when it does not sell token B, and its
      asking price triggers at or above the target when it sells A, at or
      below it when it buys A. */
  lemma OrderSide(order: LimitOrder, tokenA: Pubkey, tokenB: Pubkey, poolPrice: U64)
    requires IsValidPair(tokenA, tokenB)
    requires (order.sellToken, order.buyToken) == (tokenA, tokenB) ||
             (order.sellToken, order.buyToken) == (tokenB, tokenA)
    ensures order.IsSellOrder(tokenA) != order.IsSellOrder(tokenB)
    ensures order.IsSellOrder(tokenA) <==> order.buyToken == tokenB
    ensures AmmMath.CheckPriceCondition(poolPrice, order.AskingPrice(), order.IsSellOrder(tokenA)) <==>
            (if order.sellToken == tokenA then poolPrice >= order.targetPrice else poolPrice <= order.targetPrice)
  {}
}
