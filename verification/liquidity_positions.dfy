/**
 * A provider's liquidity position (`state/user_position.rs`): the share of
 * the pool it holds and the clocks used for reward claims.
 */
module LiquidityPositions {
  import opened Machine
  import opened Pairs
  import AmmMath

  /** Pool shares are expressed in millionths. */
  const SHARE_SCALE: int := 1_000_000

  const SECONDS_PER_DAY: int := 86_400

  datatype UserLiquidityPosition = UserLiquidityPosition(
    owner: Pubkey,
    pool: Pubkey,
    lpTokens: U64,
    depositTimestamp: I64,
    lastClaimTimestamp: I64,
    totalRushClaimed: U64,
    bump: U8)
  {
    /** `get_pool_share`: the position's fraction of the LP supply in
        millionths, rounded down, cast with `as u64`; 0 for an empty supply. */
    function PoolShare(totalLp: U64): (r: U64)
      ensures totalLp == 0 ==> r == 0
      ensures 0 < totalLp && lpTokens <= totalLp ==>
                r <= SHARE_SCALE && r * totalLp <= lpTokens * SHARE_SCALE < (r + 1) * totalLp
      ensures 0 < totalLp && lpTokens == totalLp ==> r == SHARE_SCALE
      ensures 0 < totalLp && lpTokens * SHARE_SCALE < U64_LIMIT * totalLp ==>
                r * totalLp <= lpTokens * SHARE_SCALE < (r + 1) * totalLp
    {
      if totalLp == 0 then 0
      else
        var share: nat := lpTokens * SHARE_SCALE / totalLp;
        AmmMath.ShareOfReserve(lpTokens, totalLp, SHARE_SCALE);
        AmmMath.CastBelow(share);
        if lpTokens * SHARE_SCALE < U64_LIMIT * totalLp then
          MulCancelLt(share, U64_LIMIT, totalLp);
          AsU64(share)
        else
          AsU64(share)
    }

    /** `get_time_since_last_claim`: an unchecked `i64` subtraction, which
        panics on overflow. */
    function TimeSinceLastClaim(now: I64): (r: I64)
      requires InI64(now - lastClaimTimestamp)
      ensures lastClaimTimestamp + r == now
      ensures r >= 0 <==> now >= lastClaimTimestamp
    {
      now - lastClaimTimestamp
    }

    /** `has_liquidity`. */
    predicate HasLiquidity()
    {
      lpTokens > 0
    }

    /** `get_position_age_days`: whole days since the deposit. The
        difference is cast with `as u64`, so a deposit stamped after `now`
        wraps to an age of more than 10^14 days. */
    function PositionAgeDays(now: I64): (r: U64)
      requires InI64(now - depositTimestamp)
      ensures now >= depositTimestamp ==>
                r * SECONDS_PER_DAY <= now - depositTimestamp < (r + 1) * SECONDS_PER_DAY
      ensures now < depositTimestamp ==> r >= 106_751_991_167_300
    {
      var secondsElapsed := AsU64(now - depositTimestamp);
      assert secondsElapsed == secondsElapsed / SECONDS_PER_DAY * SECONDS_PER_DAY + secondsElapsed % SECONDS_PER_DAY;
      secondsElapsed / SECONDS_PER_DAY
    }
  }

  /** Two floors of x * s / t and y * s / t add up to at most s when
      x + y <= t. */
  lemma FloorsWithinWhole(a: nat, b: nat, x: nat, y: nat, t: nat, s: nat)
    requires t > 0 && x + y <= t
    requires a * t <= x * s && b * t <= y * s
    ensures a + b <= s
  {
    MulLe(x + y, t, s);
    assert (a + b) * t == a * t + b * t;
    assert (x + y) * s == x * s + y * s;
    MulCancelLe(a + b, s, t);
  }

  /** Two positions holding between them no more than the LP supply hold
      between them no more than the whole pool. */
  lemma SharesWithinWhole(p: UserLiquidityPosition, q: UserLiquidityPosition, totalLp: U64)
    requires p.lpTokens + q.lpTokens <= totalLp
    ensures p.PoolShare(totalLp) + q.PoolShare(totalLp) <= SHARE_SCALE
  {
    if totalLp > 0 {
      FloorsWithinWhole(p.PoolShare(totalLp), q.PoolShare(totalLp), p.lpTokens, q.lpTokens, totalLp, SHARE_SCALE);
    }
  }

  /** A position without LP tokens has no share of the pool; one within the
      supply has a positive share exactly when it holds at least a
      millionth of the supply. */
  lemma {:induction false} LiquidityAndShare(p: UserLiquidityPosition, totalLp: U64)
    ensures !p.HasLiquidity() ==> p.PoolShare(totalLp) == 0
    ensures 0 < totalLp && p.lpTokens <= totalLp ==>
              (p.PoolShare(totalLp) > 0 <==> p.lpTokens * SHARE_SCALE >= totalLp)
  {
    var r := p.PoolShare(totalLp);
    if 0 < totalLp && p.lpTokens <= totalLp {
      if r > 0 {
        MulLe(1, r, totalLp);
      }
      if !p.HasLiquidity() {
        assert r * totalLp <= 0;
        MulCancelLt(r, 1, totalLp);
      }
    }
  }
}
