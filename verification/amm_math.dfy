/**
 * The integer mathematics of the constant-product spot pools
 * (`utils.rs`): the integer square root used to price the first deposit,
 * LP tokens minted on a deposit and paid out on a withdrawal, the deposit
 * ratio check, the swap output with its fee, the pool price and the
 * trigger predicate of limit orders.
 *
 * All amounts are `u64`; intermediate products are formed in `u128`.
 */
module AmmMath {
  import opened Machine

  /** Prices are quoted with six decimals. */
  const PRICE_PRECISION: int := 1_000_000

  /** Ratios are compared in basis points. */
  const RATIO_SCALE: int := 10_000

  /** The largest accepted difference of the two ratios, in basis points. */
  const RATIO_TOLERANCE: int := 100

  // ---------------------------------------------------------------------
  // Small arithmetic facts
  // ---------------------------------------------------------------------

  lemma SquareLe(a: nat, b: nat)
    requires a <= b
    ensures a * a <= b * b
  {
    MulLe(a, b, a);
    MulLe(a, b, b);
  }

  /** Scaling dividend and divisor by the same positive factor keeps the quotient. */
  lemma {:induction false} ScaleDiv(x: nat, c: nat, d: nat)
    requires c > 0 && d > 0
    ensures (x * d) / (c * d) == x / c
  {
    var q, m := x / c, x % c;
    assert x == q * c + m;
    assert x * d == q * (c * d) + m * d;
    MulLt(m, c, d);
    DivUnique(x * d, c * d, q, m * d);
  }

  /** Equal cross products give equal quotients. */
  lemma CrossDiv(x: nat, c: nat, y: nat, d: nat)
    requires c > 0 && d > 0 && x * d == y * c
    ensures x / c == y / d
  {
    ScaleDiv(x, c, d);
    ScaleDiv(y, d, c);
    assert c * d == d * c;
  }

  /** Two `u64` factors never overflow a `u128` product. */
  lemma U64ProductFits(a: U64, b: U64)
    ensures 0 <= a * b <= U64_MAX * U64_MAX < U128_MAX
  {
    MulLe(a, U64_MAX, b);
    MulLe(b, U64_MAX, U64_MAX);
  }

  // ---------------------------------------------------------------------
  // Integer square root
  // ---------------------------------------------------------------------

  /** `r` is the integer square root of `n`: the largest r with r * r <= n. */
  predicate IsSqrt(r: int, n: int)
  {
    r >= 0 && r * r <= n < (r + 1) * (r + 1)
  }

  /** The integer square root is unique. */
  lemma IsqrtUnique(n: int, r: int, s: int)
    requires IsSqrt(r, n) && IsSqrt(s, n)
    ensures r == s
  {
    if r < s {
      SquareLe(r + 1, s);
      assert false;
    } else if s < r {
      SquareLe(s + 1, r);
      assert false;
    }
  }

  /** A square root of a number below m * m is below m. */
  lemma SqrtBelow(r: int, n: int, m: nat)
    requires IsSqrt(r, n) && n < m * m
    ensures r < m
  {
    if r >= m {
      SquareLe(m, r);
      assert false;
    }
  }

  /** Between 1 and n the Newton sum x + n / x stays within n + 1, so the
      iteration never overflows. */
  lemma SumFits(n: nat, x: nat)
    requires 1 <= x <= n
    ensures 1 <= n / x
    ensures x + n / x <= n + 1
  {
    var q := n / x;
    DivMonotone(x, n, x);
    assert x / x == 1;
    assert q * x <= n by {
      assert n == q * x + n % x;
    }
    MulLe(1, x, q - 1);
    assert x * (q - 1) == q * x - x;
  }

  /** A Newton step from any positive x lands on a y whose successor squared
      exceeds n: (x + n / x) / 2 never falls below the root. */
  lemma NewtonStep(n: nat, x: nat)
    requires x >= 1
    ensures n < ((x + n / x) / 2 + 1) * ((x + n / x) / 2 + 1)
  {
    var q := n / x;
    assert n == q * x + n % x;
    assert n < (q + 1) * x;
    var s := x + q;
    var y := s / 2;
    assert 2 * y + 2 >= s + 1;
    var d := x - q - 1;
    assert (s + 1) * (s + 1) == 4 * (x * (q + 1)) + d * d;
    assert 4 * (x * (q + 1)) == 4 * ((q + 1) * x);
    SquareLe(s + 1, 2 * y + 2);
    assert (2 * y + 2) * (2 * y + 2) == 4 * ((y + 1) * (y + 1));
  }

  /** When the Newton step no longer decreases, x * x <= n. */
  lemma NewtonStop(n: nat, x: nat)
    requires x >= 1 && (x + n / x) / 2 >= x
    ensures x * x <= n
  {
    var q := n / x;
    assert q >= x;
    MulLe(x, q, x);
    assert q * x <= n;
  }

  /** `isqrt`: Newton's iteration from x = n, stopping at the first step
      that does not decrease. The first step computes `x + 1`, which
      panics at u128::MAX, so n = u128::MAX is excluded. */
  method Isqrt(n: U128) returns (r: U128)
    requires n < U128_MAX
    ensures IsSqrt(r, n)
    ensures n < 2 ==> r == n
  {
    if n < 2 {
      return n;
    }
    var x: U128 := n;
    var y: U128 := (x + 1) / 2;
    while y < x
      invariant 1 <= x <= n
      invariant y == (x + n / x) / 2
      invariant n < (x + 1) * (x + 1)
      decreases x
    {
      NewtonStep(n, x);
      SumFits(n, x);
      x := y;
      SumFits(n, x);
      y := (x + n / x) / 2;
    }
    NewtonStop(n, x);
    r := x;
  }

  // ---------------------------------------------------------------------
  // LP tokens
  // ---------------------------------------------------------------------

  /** `calculate_lp_tokens`: the geometric mean of the two amounts. The
      `u128` product of two `u64` never overflows and its root always fits
      back in a `u64`, so the result is always `Ok`. */
  method CalculateLpTokens(amountA: U64, amountB: U64) returns (r: Result<U64>)
    ensures r.Ok? && IsSqrt(r.value, amountA * amountB)
  {
    U64ProductFits(amountA, amountB);
    var root := Isqrt(amountA * amountB);
    SqrtBelow(root, amountA * amountB, U64_LIMIT);
    r := Ok(root);
  }

  /** `as u64` never increases a non-negative value and keeps one that fits. */
  lemma CastBelow(x: nat)
    ensures AsU64(x) <= x
    ensures InU64(x) ==> AsU64(x) == x
  {}

  /** The proportional branch of `calculate_lp_tokens_for_add_liquidity` as
      written: each quotient is cast with `as u64`, which drops its high bits. */
  function ProportionalLpAsWritten(amountA: U64, amountB: U64, reserveA: U64, reserveB: U64, totalLp: U64): (r: U64)
    requires reserveA > 0 && reserveB > 0
    ensures r <= amountA * totalLp / reserveA && r <= amountB * totalLp / reserveB
    ensures InU64(amountA * totalLp / reserveA) && InU64(amountB * totalLp / reserveB) ==>
              r == Min(amountA * totalLp / reserveA, amountB * totalLp / reserveB)
  {
    U64ProductFits(amountA, totalLp);
    U64ProductFits(amountB, totalLp);
    var quotientA: nat := amountA * totalLp / reserveA;
    var quotientB: nat := amountB * totalLp / reserveB;
    CastBelow(quotientA);
    CastBelow(quotientB);
    var lpFromA := AsU64(quotientA);
    var lpFromB := AsU64(quotientB);
    if lpFromA < lpFromB then lpFromA else lpFromB
  }

  /** The proportional branch with the casts checked: a quotient that does
      not fit in a `u64` is `CalculationOverflow`. The minted amount is then
      the largest that takes no more than the deposit's share of either
      reserve. */
  function ProportionalLp(amountA: U64, amountB: U64, reserveA: U64, reserveB: U64, totalLp: U64): (r: Result<U64>)
    requires reserveA > 0 && reserveB > 0
    ensures r.Ok? <==> InU64(amountA * totalLp / reserveA) && InU64(amountB * totalLp / reserveB)
    ensures r.Err? ==> r.error == CalculationOverflow
    ensures r.Ok? ==> r.value * reserveA <= amountA * totalLp && r.value * reserveB <= amountB * totalLp
    ensures r.Ok? ==>
              (r.value + 1) * reserveA > amountA * totalLp || (r.value + 1) * reserveB > amountB * totalLp
  {
    var lpFromA :- CheckedU64(amountA * totalLp / reserveA);
    var lpFromB :- CheckedU64(amountB * totalLp / reserveB);
    ProportionalBracket(amountA * totalLp, reserveA, lpFromA, lpFromB);
    ProportionalBracket(amountB * totalLp, reserveB, lpFromB, lpFromA);
    Ok(if lpFromA < lpFromB then lpFromA else lpFromB)
  }

  /** The smaller of two amounts, one of which is the floor of x / c, takes
      no more than x / c; if it is that floor, one more exceeds it. */
  lemma ProportionalBracket(x: nat, c: nat, q: nat, other: nat)
    requires c > 0 && q == x / c
    ensures Min(q, other) * c <= x
    ensures Min(q, other) == q ==> (Min(q, other) + 1) * c > x
  {
    assert x == q * c + x % c;
    MulLe(Min(q, other), q, c);
  }

  /** `calculate_lp_tokens_for_add_liquidity`, with the casts checked. */
  method LpTokensForAdd(amountA: U64, amountB: U64, reserveA: U64, reserveB: U64, totalLp: U64)
    returns (r: Result<U64>)
    ensures amountA == 0 || amountB == 0 ==> r == Err(InvalidAmount)
    ensures amountA > 0 && amountB > 0 && totalLp == 0 ==> r.Ok? && IsSqrt(r.value, amountA * amountB)
    ensures amountA > 0 && amountB > 0 && totalLp > 0 && (reserveA == 0 || reserveB == 0) ==>
              r == Err(InsufficientLiquidity)
    ensures amountA > 0 && amountB > 0 && totalLp > 0 && reserveA > 0 && reserveB > 0 ==>
              r == ProportionalLp(amountA, amountB, reserveA, reserveB, totalLp)
  {
    if amountA == 0 || amountB == 0 {
      return Err(InvalidAmount);
    }
    if totalLp == 0 {
      r := CalculateLpTokens(amountA, amountB);
      return;
    }
    if reserveA == 0 || reserveB == 0 {
      return Err(InsufficientLiquidity);
    }
    r := ProportionalLp(amountA, amountB, reserveA, reserveB, totalLp);
  }

  /** Against a pool holding one unit of each token and two LP tokens, a
      deposit of 2^63 of each is worth 2^64 LP tokens: the cast as written
      mints none, the checked cast rejects the deposit. */
  lemma ProportionalLpAsWrittenCounterexample()
    ensures 0x8000_0000_0000_0000 * 2 / 1 == U64_LIMIT
    ensures ProportionalLpAsWritten(0x8000_0000_0000_0000, 0x8000_0000_0000_0000, 1, 1, 2) == 0
    ensures ProportionalLp(0x8000_0000_0000_0000, 0x8000_0000_0000_0000, 1, 1, 2) == Err(CalculationOverflow)
  {}

  /** `calculate_remove_liquidity_amounts`: each side pays out the burnt
      fraction of its reserve, rounded down, cast with `as u64`. */
  function RemoveLiquidityAmounts(lpBurn: U64, totalLp: U64, reserveA: U64, reserveB: U64): (r: Result<(U64, U64)>)
    ensures lpBurn == 0 ==> r == Err(InvalidAmount)
    ensures lpBurn > 0 && totalLp == 0 ==> r == Err(InsufficientLiquidity)
    ensures lpBurn > 0 && totalLp > 0 ==> r.Ok?
    ensures r.Ok? && lpBurn <= totalLp ==>
              r.value.0 <= reserveA && r.value.0 * totalLp <= lpBurn * reserveA < (r.value.0 + 1) * totalLp
    ensures r.Ok? && lpBurn <= totalLp ==>
              r.value.1 <= reserveB && r.value.1 * totalLp <= lpBurn * reserveB < (r.value.1 + 1) * totalLp
    ensures r.Ok? && lpBurn == totalLp ==> r.value == (reserveA, reserveB)
  {
    if lpBurn == 0 then Err(InvalidAmount)
    else if totalLp == 0 then Err(InsufficientLiquidity)
    else
      ShareOfReserve(lpBurn, totalLp, reserveA);
      ShareOfReserve(lpBurn, totalLp, reserveB);
      var shareA: nat := lpBurn * reserveA / totalLp;
      var shareB: nat := lpBurn * reserveB / totalLp;
      CastBelow(shareA);
      CastBelow(shareB);
      Ok((AsU64(shareA), AsU64(shareB)))
  }

  /** The burnt share of a reserve is the floor of the proportional amount;
      for a burn within the supply it is at most the reserve, and for the
      whole supply it is the whole reserve. */
  lemma ShareOfReserve(lp: nat, total: nat, reserve: nat)
    requires total > 0
    ensures 0 <= lp * reserve / total
    ensures (lp * reserve / total) * total <= lp * reserve < (lp * reserve / total + 1) * total
    ensures lp <= total ==> lp * reserve / total <= reserve
    ensures lp == total ==> lp * reserve / total == reserve
  {
    MulLe(0, lp, reserve);
    var p := lp * reserve;
    var q := p / total;
    assert p == q * total + p % total;
    DivUnique(total * reserve, total, reserve, 0);
    if lp <= total {
      MulLe(lp, total, reserve);
      DivMonotone(p, total * reserve, total);
    }
  }

  // ---------------------------------------------------------------------
  // Deposit ratio check
  // ---------------------------------------------------------------------

  /** `validate_ratio_imbalance`: the deposit's ratio b / a and the pool's
      ratio Rb / Ra, each in basis points rounded down, may differ by at
      most 100. A zero reserve A or zero amount A divides by zero, which
      the checked division reports as `CalculationOverflow`. */
  function ValidateRatioImbalance(amountA: U64, amountB: U64, reserveA: U64, reserveB: U64): (r: Result<()>)
    ensures reserveA == 0 || amountA == 0 ==> r == Err(CalculationOverflow)
    ensures reserveA > 0 && amountA > 0 ==>
              (r.Ok? <==> Abs(reserveB * RATIO_SCALE / reserveA - amountB * RATIO_SCALE / amountA) <= RATIO_TOLERANCE)
    ensures reserveA > 0 && amountA > 0 && r.Err? ==> r.error == RatioImbalance
  {
    if reserveA == 0 then Err(CalculationOverflow)
    else if amountA == 0 then Err(CalculationOverflow)
    else
      var expected := reserveB * RATIO_SCALE / reserveA;
      var provided := amountB * RATIO_SCALE / amountA;
      var diff := if expected > provided then expected - provided else provided - expected;
      if diff <= RATIO_TOLERANCE then Ok(()) else Err(RatioImbalance)
  }

  /** A deposit in exactly the pool's proportions always passes the check. */
  lemma ProportionalDepositPasses(amountA: U64, amountB: U64, reserveA: U64, reserveB: U64)
    requires amountA > 0 && reserveA > 0
    requires amountB * reserveA == amountA * reserveB
    ensures ValidateRatioImbalance(amountA, amountB, reserveA, reserveB).Ok?
  {
    assert (reserveB * RATIO_SCALE) * amountA == (amountB * RATIO_SCALE) * reserveA;
    CrossDiv(reserveB * RATIO_SCALE, reserveA, amountB * RATIO_SCALE, amountA);
  }

  // ---------------------------------------------------------------------
  // Swap output
  // ---------------------------------------------------------------------

  /** `calculate_output_amount`: the constant-product output for an input
      after a fee of N / D, rounded down. `D - N` is an unchecked `u64`
      subtraction, so N > D panics; D = 0 divides by zero. */
  function CalculateOutputAmount(amountIn: U64, reserveIn: U64, reserveOut: U64, feeNum: U64, feeDen: U64): (r: Result<U64>)
    ensures amountIn == 0 ==> r == Err(InvalidAmount)
    ensures amountIn > 0 && (reserveIn == 0 || reserveOut == 0) ==> r == Err(InsufficientLiquidity)
    ensures amountIn > 0 && reserveIn > 0 && reserveOut > 0 && feeNum > feeDen ==> r == Err(Panic)
    ensures amountIn > 0 && reserveIn > 0 && reserveOut > 0 && feeNum <= feeDen && feeDen == 0 ==>
              r == Err(CalculationOverflow)
    ensures r.Ok? <==>
              amountIn > 0 && reserveIn > 0 && reserveOut > 0 && feeNum <= feeDen && feeDen > 0 &&
              InU128(amountIn * (feeDen - feeNum) * reserveOut) &&
              InU128(reserveIn * feeDen + amountIn * (feeDen - feeNum)) &&
              amountIn * (feeDen - feeNum) * reserveOut >= reserveIn * feeDen + amountIn * (feeDen - feeNum)
    ensures r.Ok? ==> 0 < r.value < reserveOut
    ensures r.Ok? ==>
              r.value * (reserveIn * feeDen + amountIn * (feeDen - feeNum)) <= amountIn * (feeDen - feeNum) * reserveOut <
              (r.value + 1) * (reserveIn * feeDen + amountIn * (feeDen - feeNum))
  {
    if amountIn == 0 then Err(InvalidAmount)
    else if reserveIn == 0 || reserveOut == 0 then Err(InsufficientLiquidity)
    else if feeNum > feeDen then Err(Panic)
    else
      // A product of two `u64` values: this `checked_mul` cannot fail.
      var withFee := amountIn * (feeDen - feeNum);
      var numerator :- CheckedU128(withFee * reserveOut);
      var denominator :- CheckedU128(reserveIn * feeDen + withFee);
      if denominator == 0 then Err(CalculationOverflow)
      else
        var out := numerator / denominator;
        OutputBelowReserve(withFee, reserveIn * feeDen, reserveOut, out);
        if out == 0 then Err(InsufficientLiquidity) else Ok(out)
  }

  /** The floor of g * Ro / (A + g) with A > 0 is below Ro, and is positive
      exactly when g * Ro reaches A + g. */
  lemma OutputBelowReserve(g: nat, a: nat, ro: nat, out: nat)
    requires a + g > 0 && out == (g * ro) / (a + g)
    ensures out * (a + g) <= g * ro < (out + 1) * (a + g)
    ensures a > 0 && ro > 0 ==> out < ro
    ensures out > 0 <==> g * ro >= a + g
  {
    var s, p := a + g, g * ro;
    var m := p % s;
    assert p == out * s + m && m < s;
    assert (out + 1) * s == out * s + s;
    if out >= 1 {
      MulLe(1, out, s);
    }
    if a > 0 && ro > 0 && out >= ro {
      MulLe(ro, out, s);
      MulLt(g, s, ro);
      assert false;
    }
  }

  /** Cancelling a positive factor from a two-factor inequality on each side. */
  lemma CancelFactor(x: nat, y: nat, u: nat, v: nat, c: nat)
    requires c > 0 && x == u * c && y == v * c && x <= y
    ensures u <= v
  {
    MulCancelLe(u, v, c);
  }

  /** With the fee taken, the scaled output bound out * (A + G) <= G * Ro
      implies the unscaled one out * (A + H) <= H * Ro whenever G <= H. */
  lemma FeeBoundScales(out: nat, a: nat, g: nat, h: nat, ro: nat)
    requires a + g > 0 && g <= h
    requires out * (a + g) <= g * ro
    ensures out * (a + h) <= h * ro
  {
    MulLe(g, h, a);
    assert (a + h) * g <= h * (a + g);
    MulLe(out * (a + g), g * ro, a + h);
    MulLe((a + h) * g, h * (a + g), ro);
    assert (out * (a + h)) * (a + g) == out * (a + g) * (a + h);
    assert (a + h) * g * ro == g * ro * (a + h);
    assert (h * ro) * (a + g) == h * (a + g) * ro;
    CancelFactor((out * (a + h)) * (a + g), (h * ro) * (a + g), out * (a + h), h * ro, a + g);
  }

  /** Dividing the scaled bound out * (Ri * D + in * D) <= in * D * Ro by D. */
  lemma UnscaleBound(out: nat, ri: nat, inp: nat, ro: nat, d: nat)
    requires d > 0 && out * (ri * d + inp * d) <= inp * d * ro
    ensures out * (ri + inp) <= inp * ro
  {
    assert out * (ri * d + inp * d) == (out * (ri + inp)) * d;
    assert inp * d * ro == (inp * ro) * d;
    MulCancelLe(out * (ri + inp), inp * ro, d);
  }

  /** From out * (Ri + in) <= in * Ro, the product of the reserves after the
      swap is at least the product before. */
  lemma ProductAfterSwap(out: nat, ri: nat, inp: nat, ro: nat)
    requires out * (ri + inp) <= inp * ro
    ensures (ri + inp) * (ro - out) >= ri * ro
  {
    assert (ri + inp) * (ro - out) == ri * ro + inp * ro - out * (ri + inp);
  }

  /** A swap never lowers the product of the reserves: after taking `out`
      for `amountIn`, (Ri + in) * (Ro - out) >= Ri * Ro. */
  lemma SwapKeepsConstantProduct(amountIn: U64, reserveIn: U64, reserveOut: U64, feeNum: U64, feeDen: U64)
    requires CalculateOutputAmount(amountIn, reserveIn, reserveOut, feeNum, feeDen).Ok?
    ensures var out := CalculateOutputAmount(amountIn, reserveIn, reserveOut, feeNum, feeDen).value;
            (reserveIn + amountIn) * (reserveOut - out) >= reserveIn * reserveOut
  {
    var out: nat := CalculateOutputAmount(amountIn, reserveIn, reserveOut, feeNum, feeDen).value;
    var g: nat := amountIn * (feeDen - feeNum);
    var h: nat := amountIn * feeDen;
    var a: nat := reserveIn * feeDen;
    assert out * (a + g) <= g * reserveOut;
    MulLe(feeDen - feeNum, feeDen, amountIn);
    FeeBoundScales(out, a, g, h, reserveOut);
    UnscaleBound(out, reserveIn, amountIn, reserveOut, feeDen);
    ProductAfterSwap(out, reserveIn, amountIn, reserveOut);
  }

  // ---------------------------------------------------------------------
  // Pool price and limit-order trigger
  // ---------------------------------------------------------------------

  /** `calculate_pool_price` as written: the price of A in B with six
      decimals, rounded down, then cast with `as u64`. */
  function PoolPriceAsWritten(reserveA: U64, reserveB: U64): (r: Result<U64>)
    ensures reserveA == 0 <==> r == Err(InsufficientLiquidity)
    ensures r.Ok? ==> r.value <= reserveB * PRICE_PRECISION / reserveA
    ensures r.Ok? && InU64(reserveB * PRICE_PRECISION / reserveA) ==> r.value == reserveB * PRICE_PRECISION / reserveA
  {
    if reserveA == 0 then Err(InsufficientLiquidity)
    else
      var price: nat := reserveB * PRICE_PRECISION / reserveA;
      CastBelow(price);
      Ok(AsU64(price))
  }

  /** `calculate_pool_price` with the cast checked: a price that does not
      fit in a `u64` is `CalculationOverflow`. */
  function PoolPrice(reserveA: U64, reserveB: U64): (r: Result<U64>)
    ensures reserveA == 0 ==> r == Err(InsufficientLiquidity)
    ensures reserveA > 0 ==> (r.Ok? <==> reserveB * PRICE_PRECISION < U64_LIMIT * reserveA)
    ensures reserveA > 0 && r.Err? ==> r.error == CalculationOverflow
    ensures r.Ok? ==> r.value * reserveA <= reserveB * PRICE_PRECISION < (r.value + 1) * reserveA
  {
    if reserveA == 0 then Err(InsufficientLiquidity)
    else
      PriceFits(reserveB * PRICE_PRECISION, reserveA);
      CheckedU64(reserveB * PRICE_PRECISION / reserveA)
  }

  /** The floor of x / c fits in a `u64` exactly when x < 2^64 * c. */
  lemma PriceFits(x: nat, c: nat)
    requires c > 0
    ensures x / c * c <= x < (x / c + 1) * c
    ensures InU64(x / c) <==> x < U64_LIMIT * c
  {
    var q := x / c;
    assert x == q * c + x % c;
    if q >= U64_LIMIT {
      MulLe(U64_LIMIT, q, c);
    } else {
      MulLe(q + 1, U64_LIMIT, c);
    }
  }

  /** More of B per unit of A never lowers the price. */
  lemma PoolPriceMonotone(reserveA: U64, reserveB: U64, reserveB': U64)
    requires reserveB <= reserveB'
    requires PoolPrice(reserveA, reserveB).Ok? && PoolPrice(reserveA, reserveB').Ok?
    ensures PoolPrice(reserveA, reserveB).value <= PoolPrice(reserveA, reserveB').value
  {
    MulLe(reserveB, reserveB', PRICE_PRECISION);
    DivMonotone(reserveB * PRICE_PRECISION, reserveB' * PRICE_PRECISION, reserveA);
  }

  /** With one unit of A, adding one unit of B to a pool of 18_446_744_073_709
      B wraps the price as written from about 1.8e19 down to 448_384, so the
      price as written is not monotonic; the checked price rejects it. */
  lemma PoolPriceAsWrittenCounterexample()
    ensures PoolPriceAsWritten(1, 18_446_744_073_709) == Ok(18_446_744_073_709_000_000)
    ensures PoolPriceAsWritten(1, 18_446_744_073_710) == Ok(448_384)
    ensures PoolPrice(1, 18_446_744_073_709) == Ok(18_446_744_073_709_000_000)
    ensures PoolPrice(1, 18_446_744_073_710) == Err(CalculationOverflow)
  {}

  /** `check_price_condition`: a sell order triggers at or above its target,
      a buy order at or below it. */
  predicate CheckPriceCondition(poolPrice: U64, targetPrice: U64, isSell: bool)
  {
    if isSell then poolPrice >= targetPrice else poolPrice <= targetPrice
  }

  /** Both sides trigger at the target itself; away from it exactly one
      side triggers; and a triggered order stays triggered as the price
      moves further in its favour. */
  lemma PriceConditionProperties(poolPrice: U64, targetPrice: U64, better: U64)
    ensures poolPrice == targetPrice ==>
              CheckPriceCondition(poolPrice, targetPrice, true) && CheckPriceCondition(poolPrice, targetPrice, false)
    ensures poolPrice != targetPrice ==>
              CheckPriceCondition(poolPrice, targetPrice, true) != CheckPriceCondition(poolPrice, targetPrice, false)
    ensures CheckPriceCondition(poolPrice, targetPrice, true) && better >= poolPrice ==>
              CheckPriceCondition(better, targetPrice, true)
    ensures CheckPriceCondition(poolPrice, targetPrice, false) && better <= poolPrice ==>
              CheckPriceCondition(better, targetPrice, false)
  {}
}
