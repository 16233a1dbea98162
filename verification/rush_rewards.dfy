/**
 * The RUSH liquidity-mining configuration (`state/rush_config.rs`): the
 * remaining supply and the reward a liquidity provider accrues over a
 * period, which is the provider's share of the emission, capped by what
 * is left of the supply.
 */
module RushRewards {
  import opened Machine
  import opened Pairs

  const SECONDS_PER_YEAR: int := 31_536_000

  datatype RushConfig = RushConfig(
    mint: Pubkey,
    authority: Pubkey,
    totalSupply: U64,
    mintedSoFar: U64,
    rewardsPerSecond: U64,
    apyNumerator: U64,
    apyDenominator: U64,
    startTimestamp: I64,
    isPaused: bool,
    bump: U8)
  {
    /** `yearly_rewards`: the supply times the APY fraction, rounded down.
        Both the `u64` product and the division are unchecked, so an
        overflowing product or a zero denominator panics; the precondition
        excludes both. */
    function YearlyRewards(): (r: U64)
      requires apyDenominator > 0 && InU64(totalSupply * apyNumerator)
      ensures r * apyDenominator <= totalSupply * apyNumerator < (r + 1) * apyDenominator
      ensures apyNumerator <= apyDenominator ==> r <= totalSupply
    {
      YearlyBound(totalSupply, apyNumerator, apyDenominator);
      totalSupply * apyNumerator / apyDenominator
    }

    /** `remaining_rewards`: the unminted supply, saturating at 0. */
    function RemainingRewards(): (r: U64)
      ensures r <= totalSupply
      ensures mintedSoFar <= totalSupply ==> r + mintedSoFar == totalSupply
      ensures mintedSoFar >= totalSupply ==> r == 0
    {
      if totalSupply >= mintedSoFar then totalSupply - mintedSoFar else 0
    }

    /** `has_remaining_rewards`. */
    predicate HasRemainingRewards()
    {
      RemainingRewards() > 0
    }

    /** `is_active`: not paused and not exhausted. */
    predicate IsActive()
    {
      !isPaused && HasRemainingRewards()
    }

    /** The `u128` product `rewards_per_second * time_elapsed * user_lp` of
        `calculate_rewards` is unchecked and panics when it overflows. */
    predicate RewardProductFits(timeElapsed: U64, userLp: U64, totalLp: U64)
    {
      totalLp == 0 || userLp == 0 || isPaused || InU128(rewardsPerSecond * timeElapsed * userLp)
    }

    /** `calculate_rewards`: the provider's pro-rata share of the emission
        over the period, rounded down, capped by the remaining supply. */
    function CalculateRewards(timeElapsed: U64, userLp: U64, totalLp: U64): (r: U64)
      requires RewardProductFits(timeElapsed, userLp, totalLp)
      ensures r <= RemainingRewards()
      ensures totalLp == 0 || userLp == 0 || isPaused ==> r == 0
      ensures totalLp > 0 && userLp <= totalLp ==> r <= rewardsPerSecond * timeElapsed
      ensures totalLp > 0 && userLp > 0 && !isPaused ==>
                r == Min(rewardsPerSecond * timeElapsed * userLp / totalLp, RemainingRewards())
    {
      if totalLp == 0 || userLp == 0 || isPaused then 0
      else
        var baseRewards := rewardsPerSecond * timeElapsed;
        var userRewards := baseRewards * userLp / totalLp;
        ShareBound(baseRewards, userLp, totalLp);
        var remaining := RemainingRewards();
        if userRewards < remaining then userRewards else remaining
    }
  }

  /** The floor of s * n / d, and the bound s * n / d <= s when n <= d. */
  lemma YearlyBound(s: nat, n: nat, d: nat)
    requires d > 0
    ensures (s * n / d) * d <= s * n < (s * n / d + 1) * d
    ensures n <= d ==> s * n / d <= s
  {
    var p := s * n;
    assert p == (p / d) * d + p % d;
    if n <= d {
      MulLe(n, d, s);
      DivUnique(d * s, d, s, 0);
      DivMonotone(p, d * s, d);
    }
  }

  /** A share of at most the whole is at most the whole: b * u / t <= b for u <= t. */
  lemma ShareBound(b: nat, u: nat, t: nat)
    requires t > 0
    ensures u <= t ==> b * u / t <= b
  {
    YearlyBound(b, u, t);
  }

  /** Activity means unpaused with supply left to mint. */
  lemma ActiveIff(config: RushConfig)
    ensures config.IsActive() <==> !config.isPaused && config.mintedSoFar < config.totalSupply
  {}

  /** A longer period never earns less. */
  lemma RewardsMonotoneInTime(config: RushConfig, t1: U64, t2: U64, userLp: U64, totalLp: U64)
    requires t1 <= t2
    requires config.RewardProductFits(t1, userLp, totalLp) && config.RewardProductFits(t2, userLp, totalLp)
    ensures config.CalculateRewards(t1, userLp, totalLp) <= config.CalculateRewards(t2, userLp, totalLp)
  {
    if totalLp > 0 && userLp > 0 && !config.isPaused {
      var rps := config.rewardsPerSecond;
      MulLe(t1, t2, rps);
      MulLe(rps * t1, rps * t2, userLp);
      assert rps * t1 * userLp <= rps * t2 * userLp;
      DivMonotone(rps * t1 * userLp, rps * t2 * userLp, totalLp);
    }
  }
}
