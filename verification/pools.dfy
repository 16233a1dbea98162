/**
 * The liquidity pool account (`state/pool.rs`) and its read-only
 * accessors: the spot prices in both directions and the constant product.
 */
module Pools {
  import opened Machine
  import opened Pairs
  import AmmMath

  datatype LiquidityPool = LiquidityPool(
    authority: Pubkey,
    tokenAMint: Pubkey,
    tokenBMint: Pubkey,
    tokenAVault: Pubkey,
    tokenBVault: Pubkey,
    lpTokenMint: Pubkey,
    reserveA: U64,
    reserveB: U64,
    totalLpSupply: U64,
    feeNumerator: U64,
    feeDenominator: U64,
    tokenADecimals: U8,
    tokenBDecimals: U8,
    isStablecoinPool: bool,
    createdAt: I64,
    totalVolumeA: U64,
    totalVolumeB: U64,
    lockedLiquidity: U64,
    bump: U8)
  {
    /** `is_stable_pair`. */
    predicate IsStablePair()
    {
      isStablecoinPool
    }

    /** `get_price_a_to_b`: B per A with six decimals, 0 for an empty
        reserve A. The quotient is cast with `as u64`, as in
        `calculate_pool_price`; where the checked price exists the two
        agree. */
    function PriceAToB(): (r: U64)
      ensures reserveA == 0 ==> r == 0
      ensures reserveA > 0 ==> AmmMath.PoolPriceAsWritten(reserveA, reserveB) == Ok(r)
      ensures AmmMath.PoolPrice(reserveA, reserveB).Ok? ==> r == AmmMath.PoolPrice(reserveA, reserveB).value
      ensures reserveA > 0 ==> r * reserveA <= reserveB * AmmMath.PRICE_PRECISION
    {
      if reserveA == 0 then 0
      else
        var price := reserveB * AmmMath.PRICE_PRECISION / reserveA;
        PriceCastBelow(reserveB * AmmMath.PRICE_PRECISION, reserveA);
        AsU64(price)
    }

    /** `get_price_b_to_a`: the mirror image, A per B. */
    function PriceBToA(): (r: U64)
      ensures reserveB == 0 ==> r == 0
      ensures reserveB > 0 ==> AmmMath.PoolPriceAsWritten(reserveB, reserveA) == Ok(r)
      ensures AmmMath.PoolPrice(reserveB, reserveA).Ok? ==> r == AmmMath.PoolPrice(reserveB, reserveA).value
      ensures reserveB > 0 ==> r * reserveB <= reserveA * AmmMath.PRICE_PRECISION
    {
      if reserveB == 0 then 0
      else
        var price := reserveA * AmmMath.PRICE_PRECISION / reserveB;
        PriceCastBelow(reserveA * AmmMath.PRICE_PRECISION, reserveB);
        AsU64(price)
    }

    /** `get_constant_product`: the product of the reserves; two `u64`
        factors always fit in a `u128`. */
    function ConstantProduct(): U128
    {
      AmmMath.U64ProductFits(reserveA, reserveB);
      reserveA * reserveB
    }
  }

  /** The truncated price times the divisor stays within the dividend. */
  lemma PriceCastBelow(x: nat, c: nat)
    requires c > 0
    ensures AsU64(x / c) * c <= x
  {
    AmmMath.CastBelow(x / c);
    assert x == (x / c) * c + x % c;
    MulLe(AsU64(x / c), x / c, c);
  }

  /** If pa * ra <= rb * p and pb * rb <= ra * p then pa * pb <= p * p. */
  lemma ReciprocalBound(pa: nat, pb: nat, ra: nat, rb: nat, p: nat)
    requires ra > 0 && rb > 0
    requires pa * ra <= rb * p && pb * rb <= ra * p
    ensures pa * pb <= p * p
  {
    MulLe(pa * ra, rb * p, pb * rb);
    MulLe(pb * rb, ra * p, rb * p);
    assert (pa * ra) * (pb * rb) == (pa * pb) * (ra * rb);
    assert (rb * p) * (pb * rb) == (pb * rb) * (rb * p);
    assert (ra * p) * (rb * p) == (p * p) * (ra * rb);
    MulCancelLe(pa * pb, p * p, ra * rb);
  }

  /** The two prices are at most reciprocal: their product never exceeds
      the square of the price precision. */
  lemma PricesReciprocal(pool: LiquidityPool)
    ensures pool.PriceAToB() * pool.PriceBToA() <= AmmMath.PRICE_PRECISION * AmmMath.PRICE_PRECISION
  {
    if pool.reserveA > 0 && pool.reserveB > 0 {
      ReciprocalBound(pool.PriceAToB(), pool.PriceBToA(), pool.reserveA, pool.reserveB, AmmMath.PRICE_PRECISION);
    }
  }

  /** Swapping A for B at the pool's fee, with the reserves moved by the
      input and the output, never lowers the constant product. */
  lemma SwapKeepsPoolProduct(pool: LiquidityPool, amountIn: U64)
    requires AmmMath.CalculateOutputAmount(amountIn, pool.reserveA, pool.reserveB, pool.feeNumerator, pool.feeDenominator).Ok?
    requires InU64(pool.reserveA + amountIn)
    ensures var out := AmmMath.CalculateOutputAmount(amountIn, pool.reserveA, pool.reserveB, pool.feeNumerator, pool.feeDenominator).value;
            pool.(reserveA := pool.reserveA + amountIn, reserveB := pool.reserveB - out).ConstantProduct()
            >= pool.ConstantProduct()
  {
    AmmMath.SwapKeepsConstantProduct(amountIn, pool.reserveA, pool.reserveB, pool.feeNumerator, pool.feeDenominator);
  }
}
