/**
 * The fixed-point kernel of the perpetuals engine: scaled multiply-divide
 * with a 256-bit intermediate, and signed floor/ceiling division.
 *
 * `wide_div_u256` is a bit-by-bit long division whose running remainder is
 * a `u128`; `remainder << 1` silently drops the remainder's top bit when the
 * divisor is 2^127 or more. `WideDivU256AsWritten` models the loop as it is
 * written and `WideDivAsWrittenCounterexample` exhibits an input where its
 * quotient is wrong; `WideDivU256` keeps the shifted-out bit (a 129-bit
 * remainder) and is the division the rest of the kernel uses.
 */
module FixedPoint {
  import opened Machine

  /** One US dollar in the fixed-point representation (USDC's 6 decimals). */
  const PRICE_SCALE: int := 1_000_000

  // ---------------------------------------------------------------------
  // 128 x 128 -> 256-bit multiplication
  // ---------------------------------------------------------------------

  /** The polynomial identity behind schoolbook multiplication on half
      words: the partial products, split at the half-word base `B` and with
      the middle column's carry propagated, recombine to the full product. */
  lemma WordsRecombine(B: int, aLo: int, aHi: int, bLo: int, bHi: int,
                       llH: int, llL: int, lhH: int, lhL: int, hlH: int, hlL: int, mH: int, mL: int)
    requires aLo * bLo == llH * B + llL
    requires aLo * bHi == lhH * B + lhL
    requires aHi * bLo == hlH * B + hlL
    requires llH + lhL + hlL == mH * B + mL
    ensures (aHi * bHi + lhH + hlH + mH) * (B * B) + (llL + mL * B) == (aHi * B + aLo) * (bHi * B + bLo)
  {
    calc {
      (aHi * B + aLo) * (bHi * B + bLo);
      aHi * bHi * (B * B) + (aLo * bHi) * B + (aHi * bLo) * B + aLo * bLo;
      aHi * bHi * (B * B) + (lhH * B + lhL) * B + (hlH * B + hlL) * B + llH * B + llL;
      aHi * bHi * (B * B) + lhH * (B * B) + hlH * (B * B) + (llH + lhL + hlL) * B + llL;
      aHi * bHi * (B * B) + lhH * (B * B) + hlH * (B * B) + (mH * B + mL) * B + llL;
      (aHi * bHi + lhH + hlH + mH) * (B * B) + (llL + mL * B);
    }
  }

  lemma DivMod(x: int, B: int)
    requires B > 0
    ensures x == (x / B) * B + x % B && 0 <= x % B < B
    ensures x >= 0 ==> x / B >= 0
  {}

  /** The low word of the schoolbook product: the low half of the lowest
      partial product and the low half of the middle column. */
  lemma LowWordBound(llL: int, mL: int, B: int)
    requires 0 <= llL < B && 0 <= mL < B
    ensures 0 <= llL + mL * B < B * B
  {
    MulLe(mL, B - 1, B);
    MulLe(0, mL, B);
  }

  /** Schoolbook multiplication on 64-bit half words:
      the high and low words recombine to the full product and each fits
      in two half words. */
  lemma {:induction false} HalfWordProduct(aLo: nat, aHi: nat, bLo: nat, bHi: nat)
    requires aLo < U64_LIMIT && aHi < U64_LIMIT && bLo < U64_LIMIT && bHi < U64_LIMIT
    ensures var ll := aLo * bLo;
            var lh := aLo * bHi;
            var hl := aHi * bLo;
            var hh := aHi * bHi;
            var midSum := ll / U64_LIMIT + lh % U64_LIMIT + hl % U64_LIMIT;
            var lo := ll % U64_LIMIT + (midSum % U64_LIMIT) * U64_LIMIT;
            var hi := hh + lh / U64_LIMIT + hl / U64_LIMIT + midSum / U64_LIMIT;
            hi * (U64_LIMIT * U64_LIMIT) + lo == (aHi * U64_LIMIT + aLo) * (bHi * U64_LIMIT + bLo) &&
            0 <= lo < U64_LIMIT * U64_LIMIT && 0 <= hi < U64_LIMIT * U64_LIMIT
  {
    var ll := aLo * bLo;
    var lh := aLo * bHi;
    var hl := aHi * bLo;
    var hh := aHi * bHi;
    MulLe(0, aHi, bHi);
    MulLe(0, aLo, bLo);
    MulLe(0, aLo, bHi);
    MulLe(0, aHi, bLo);
    DivMod(ll, U64_LIMIT);
    DivMod(lh, U64_LIMIT);
    DivMod(hl, U64_LIMIT);
    var midSum := ll / U64_LIMIT + lh % U64_LIMIT + hl % U64_LIMIT;
    DivMod(midSum, U64_LIMIT);
    var lo := ll % U64_LIMIT + (midSum % U64_LIMIT) * U64_LIMIT;
    var hi := hh + lh / U64_LIMIT + hl / U64_LIMIT + midSum / U64_LIMIT;
    var a, b := aHi * U64_LIMIT + aLo, bHi * U64_LIMIT + bLo;
    WordsRecombine(U64_LIMIT, aLo, aHi, bLo, bHi, ll / U64_LIMIT, ll % U64_LIMIT, lh / U64_LIMIT, lh % U64_LIMIT, hl / U64_LIMIT, hl % U64_LIMIT, midSum / U64_LIMIT, midSum % U64_LIMIT);
    LowWordBound(ll % U64_LIMIT, midSum % U64_LIMIT, U64_LIMIT);
    TwoDigitBound(aHi, aLo, U64_LIMIT);
    TwoDigitBound(bHi, bLo, U64_LIMIT);
    ProductBelowSquare(a, b, U64_LIMIT * U64_LIMIT);
    HighWordBound(hi, lo, U64_LIMIT * U64_LIMIT, a * b);
  }

  /** A two-digit number in base `B` is below `B * B`. */
  lemma TwoDigitBound(x: nat, y: nat, B: nat)
    requires x < B && y < B
    ensures x * B + y < B * B
  {
    MulLe(x, B - 1, B);
  }

  lemma ProductBelowSquare(a: nat, b: nat, S: nat)
    requires a < S && b < S
    ensures a * b < S * S
  {
    MulLe(a, S - 1, b);
    MulLe(b, S - 1, S - 1);
  }

  lemma HighWordBound(hi: int, lo: int, S: nat, p: int)
    requires lo >= 0 && hi * S + lo == p && p < S * S
    ensures hi < S
  {
    if hi >= S {
      MulLe(S, hi, S);
    }
  }

  /** `full_mul_u128`: the 256-bit product of two `u128`s as (high, low)
      128-bit words. The source's `|` joins bit ranges that do not overlap,
      so it is an addition here. */
  function FullMulU128(a: U128, b: U128): (r: (U128, U128))
    ensures r.0 * U128_LIMIT + r.1 == a * b
  {
    var aLo := a % U64_LIMIT;
    var aHi := a / U64_LIMIT;
    var bLo := b % U64_LIMIT;
    var bHi := b / U64_LIMIT;
    var ll := aLo * bLo;
    var lh := aLo * bHi;
    var hl := aHi * bLo;
    var hh := aHi * bHi;
    var midSum := ll / U64_LIMIT + lh % U64_LIMIT + hl % U64_LIMIT;
    var lo := ll % U64_LIMIT + (midSum % U64_LIMIT) * U64_LIMIT;
    var hi := hh + lh / U64_LIMIT + hl / U64_LIMIT + midSum / U64_LIMIT;
    HalfWordProduct(aLo, aHi, bLo, bHi);
    assert U64_LIMIT * U64_LIMIT == U128_LIMIT;
    (hi, lo)
  }

  // ---------------------------------------------------------------------
  // 256 / 128-bit long division
  // ---------------------------------------------------------------------

  /** The quotient of (hi * 2^128 + lo) / d fits in 128 bits exactly when
      the high word is below the divisor. */
  lemma {:induction false} QuotientFits(hi: nat, lo: nat, d: nat)
    requires lo < U128_LIMIT && d > 0
    ensures (hi * U128_LIMIT + lo) / d < U128_LIMIT <==> hi < d
  {
    var n := hi * U128_LIMIT + lo;
    if hi < d {
      MulLe(hi, d - 1, U128_LIMIT);
      assert n < d * U128_LIMIT;
      if n / d >= U128_LIMIT {
        MulLe(U128_LIMIT, n / d, d);
      }
    } else {
      MulLe(d, hi, U128_LIMIT);
      if n / d < U128_LIMIT {
        MulLe(n / d + 1, U128_LIMIT, d);
      }
    }
  }

  /** The part of the dividend hi * 2^128 + lo that binary long division
      has brought in when `i` bits of `lo` remain: `hi` followed by the
      top 128 - i bits of `lo`. */
  ghost function Consumed(hi: nat, lo: nat, i: nat): int
    requires i <= 128
  {
    hi * Pow2(128 - i) + lo / Pow2(i)
  }

  lemma ConsumedEnds(hi: nat, lo: nat)
    requires lo < U128_LIMIT
    ensures Consumed(hi, lo, 128) == hi
    ensures Consumed(hi, lo, 0) == hi * U128_LIMIT + lo
  {
    Pow2Values();
  }

  /** Bringing in one more bit doubles what has been consumed and adds the bit. */
  lemma {:induction false} ConsumedStep(hi: nat, lo: nat, k: nat)
    requires k < 128
    ensures Consumed(hi, lo, k) == 2 * Consumed(hi, lo, k + 1) + Bit(lo, k)
  {
    var p := Pow2(128 - (k + 1));
    assert Pow2(128 - k) == 2 * p;
    assert hi * (2 * p) == 2 * (hi * p);
    ShiftBit(lo, k);
  }

  lemma DoubleStep(q: int, d: int, r: int, v: int, bit: int)
    requires q * d + r == v
    ensures (2 * q) * d + (2 * r + bit) == 2 * v + bit
    ensures (2 * q + 1) * d + (2 * r + bit - d) == 2 * v + bit
  {
    assert (2 * q) * d == 2 * (q * d);
    assert (2 * q + 1) * d == 2 * (q * d) + d;
  }

  /** One step of binary long division: doubling the partial quotient and
      bringing bit `k` of the low word into the remainder keeps the
      decomposition of the bits consumed so far. */
  lemma {:induction false} LongDivStep(hi: nat, lo: nat, d: nat, k: nat, quo: nat, rem: nat)
    requires k < 128
    requires quo * d + rem == Consumed(hi, lo, k + 1)
    requires rem < d && quo < Pow2(128 - (k + 1))
    ensures (2 * quo) * d + (2 * rem + Bit(lo, k)) == Consumed(hi, lo, k)
    ensures (2 * quo + 1) * d + (2 * rem + Bit(lo, k) - d) == Consumed(hi, lo, k)
    ensures 2 * rem + Bit(lo, k) < 2 * d
    ensures 2 * quo + 1 < Pow2(128 - k)
  {
    ConsumedStep(hi, lo, k);
    DoubleStep(quo, d, rem, Consumed(hi, lo, k + 1), Bit(lo, k));
    assert Pow2(128 - k) == 2 * Pow2(128 - (k + 1));
  }

  /** `wide_div_u256` with the remainder kept to 129 bits: after the shift
      the bit that leaves the `u128` still counts towards the comparison
      with `d`. Quotient and remainder are those of (hi * 2^128 + lo) / d;
      a high word at or above the divisor is `CalculationOverflow`. */
  method WideDivU256(hi: U128, lo: U128, d: U128) returns (r: Result<(U128, U128)>)
    ensures hi >= d ==> r == Err(CalculationOverflow)
    ensures hi < d ==> r == Ok(((hi * U128_LIMIT + lo) / d, (hi * U128_LIMIT + lo) % d))
  {
    if hi >= d {
      return Err(CalculationOverflow);
    }
    ConsumedEnds(hi, lo);
    var remainder: int := hi;
    var quotient: int := 0;
    for i := 128 downto 0
      invariant quotient * d + remainder == Consumed(hi, lo, i)
      invariant 0 <= remainder < d
      invariant 0 <= quotient < Pow2(128 - i)
    {
      LongDivStep(hi, lo, d, i, quotient, remainder);
      remainder := 2 * remainder + Bit(lo, i);
      quotient := 2 * quotient;
      if remainder >= d {
        remainder := remainder - d;
        quotient := quotient + 1;
      }
    }
    assert quotient < U128_LIMIT by {
      Pow2Values();
    }
    DivUnique(hi * U128_LIMIT + lo, d, quotient, remainder);
    return Ok((quotient, remainder));
  }

  /** `(x << 1) | bit` on a `u128`: the bit shifted out at the top is lost,
      that is 2^128 is dropped when 2 * x + bit reaches it. */
  function ShiftInBit(x: U128, bit: nat): U128
    requires bit < 2
  {
    var shifted := 2 * x + bit;
    if shifted < U128_LIMIT then shifted else shifted - U128_LIMIT
  }

  lemma ShiftInBitNoLoss(x: U128, bit: nat)
    requires bit < 2 && 2 * x + bit < U128_LIMIT
    ensures ShiftInBit(x, bit) == 2 * x + bit
  {}

  /** Shifting a bit in at most doubles the width of a value. */
  lemma ShiftInBitBound(x: U128, bit: nat, j: nat)
    requires bit < 2 && x < Pow2(j)
    ensures ShiftInBit(x, bit) < Pow2(j + 1)
  {
    assert Pow2(j + 1) == 2 * Pow2(j);
  }

  /** A bit shifted out at the top costs 2^128. */
  lemma ShiftInBitWraps(x: U128, bit: nat)
    requires bit < 2 && 2 * x + bit >= U128_LIMIT
    ensures ShiftInBit(x, bit) == 2 * x + bit - U128_LIMIT
  {}

  /** One iteration of the source's long-division loop on (quotient,
      remainder), bringing in `bit` of the low word. */
  function DivStepAsWritten(quo: U128, rem: U128, bit: nat, d: U128): (U128, U128)
    requires bit < 2
  {
    var shifted := ShiftInBit(rem, bit);
    if shifted >= d then (ShiftInBit(quo, 1), shifted - d) else (ShiftInBit(quo, 0), shifted)
  }

  /** The source's loop from a given (quotient, remainder) with `i` bits of
      `lo` (bits i-1 down to 0) still to bring in. */
  function DivLoopAsWritten(quo: U128, rem: U128, lo: U128, d: U128, i: nat): (U128, U128)
    requires i <= 128
    decreases i
  {
    if i == 0 then (quo, rem)
    else
      var next := DivStepAsWritten(quo, rem, Bit(lo, i - 1), d);
      DivLoopAsWritten(next.0, next.1, lo, d, i - 1)
  }

  /** One more bit to bring in is one more step of the loop. */
  lemma DivLoopUnfold(quo: U128, rem: U128, lo: U128, d: U128, i: nat, next: (U128, U128))
    requires i < 128 && next == DivStepAsWritten(quo, rem, Bit(lo, i), d)
    ensures DivLoopAsWritten(quo, rem, lo, d, i + 1) == DivLoopAsWritten(next.0, next.1, lo, d, i)
  {}

  /** `wide_div_u256` as written: 128 iterations on `u128` registers. */
  method WideDivU256AsWritten(hi: U128, lo: U128, d: U128) returns (r: Result<(U128, U128)>)
    ensures hi >= d ==> r == Err(CalculationOverflow)
    ensures hi < d ==> r == Ok(DivLoopAsWritten(0, hi, lo, d, 128))
  {
    if hi >= d {
      return Err(CalculationOverflow);
    }
    var remainder: U128 := hi;
    var quotient: U128 := 0;
    ghost var result := DivLoopAsWritten(0, hi, lo, d, 128);
    for i := 128 downto 0
      invariant DivLoopAsWritten(quotient, remainder, lo, d, i) == result
    {
      var bit := Bit(lo, i);
      ghost var next := DivStepAsWritten(quotient, remainder, bit, d);
      DivLoopUnfold(quotient, remainder, lo, d, i, next);
      var shifted: U128 := ShiftInBit(remainder, bit);
      if shifted >= d {
        remainder, quotient := shifted - d, ShiftInBit(quotient, 1);
      } else {
        remainder, quotient := shifted, ShiftInBit(quotient, 0);
      }
      assert (quotient, remainder) == next;
    }
    return Ok((quotient, remainder));
  }

  /** While twice the divisor fits in 2^128, one step of the loop as
      written loses no bit and is a step of exact long division. */
  lemma StepExactBelowHalf(quo: U128, rem: U128, hi: nat, lo: U128, d: U128, k: nat)
    requires k < 128 && 0 < d && 2 * d <= U128_LIMIT
    requires rem < d && quo < Pow2(128 - (k + 1))
    requires quo * d + rem == Consumed(hi, lo, k + 1)
    ensures var next := DivStepAsWritten(quo, rem, Bit(lo, k), d);
            next.0 * d + next.1 == Consumed(hi, lo, k) && next.1 < d && next.0 < Pow2(128 - k)
  {
    LongDivStep(hi, lo, d, k, quo, rem);
    var bit := Bit(lo, k);
    assert 2 * quo + 1 < U128_LIMIT by {
      Pow2Le(128 - k, 128);
      Pow2Values();
    }
    ShiftInBitNoLoss(rem, bit);
    ShiftInBitNoLoss(quo, 0);
    ShiftInBitNoLoss(quo, 1);
  }

  /** While the divisor is at most 2^127 no bit is lost, and the loop as
      written keeps the decomposition of the consumed bits to the end. */
  lemma {:induction false} AsWrittenExactBelowHalf(quo: U128, rem: U128, hi: nat, lo: U128, d: U128, i: nat)
    requires i <= 128 && 0 < d && 2 * d <= U128_LIMIT
    requires rem < d && quo < Pow2(128 - i)
    requires quo * d + rem == Consumed(hi, lo, i)
    ensures var r := DivLoopAsWritten(quo, rem, lo, d, i);
            r.0 * d + r.1 == Consumed(hi, lo, 0) && r.1 < d
    decreases i
  {
    if i > 0 {
      StepExactBelowHalf(quo, rem, hi, lo, d, i - 1);
      var next := DivStepAsWritten(quo, rem, Bit(lo, i - 1), d);
      AsWrittenExactBelowHalf(next.0, next.1, hi, lo, d, i - 1);
    }
  }

  /** The loop as written never produces more quotient bits than it has
      iterations left after a quotient of `j` bits. */
  lemma {:induction false} AsWrittenQuotientBound(quo: U128, rem: U128, lo: U128, d: U128, i: nat, j: nat)
    requires i <= 128 && quo < Pow2(j)
    ensures DivLoopAsWritten(quo, rem, lo, d, i).0 < Pow2(j + i)
    decreases i
  {
    if i > 0 {
      var next := DivStepAsWritten(quo, rem, Bit(lo, i - 1), d);
      ShiftInBitBound(quo, 0, j);
      ShiftInBitBound(quo, 1, j);
      AsWrittenQuotientBound(next.0, next.1, lo, d, i - 1, j + 1);
      assert j + 1 + (i - 1) == j + i;
    }
  }

  /** u128::MAX squared is (2^128 - 2) * 2^128 + 1, and its quotient by
      u128::MAX is u128::MAX. */
  lemma MaxSquareWords()
    ensures U128_MAX * U128_MAX >= U128_LIMIT
    ensures FullMulU128(U128_MAX, U128_MAX) == (U128_MAX - 1, 1)
    ensures ((U128_MAX - 1) * U128_LIMIT + 1) / U128_MAX == U128_MAX
  {
    var hl := FullMulU128(U128_MAX, U128_MAX);
    assert U128_MAX * U128_MAX == (U128_MAX - 1) * U128_LIMIT + 1;
    DivUnique(U128_MAX * U128_MAX, U128_LIMIT, hl.0, hl.1);
    DivUnique(U128_MAX * U128_MAX, U128_LIMIT, U128_MAX - 1, 1);
    DivUnique(U128_MAX * U128_MAX, U128_MAX, U128_MAX, 0);
  }

  /** The first step on remainder 2^128 - 2 shifts its top bit out: the
      remainder becomes 2^128 - 4, below the divisor, and no quotient bit
      is set. */
  lemma AsWrittenFirstStepLoses()
    ensures DivStepAsWritten(0, U128_MAX - 1, Bit(1, 127), U128_MAX) == (0, U128_MAX - 3)
  {
    Pow2Values();
    BitAboveValue(1, 127);
    ShiftInBitWraps(U128_MAX - 1, 0);
    ShiftInBitNoLoss(0, 0);
  }

  /** When the first of `i` remaining steps sets no quotient bit, the
      quotient the loop as written returns is below 2^(i-1). */
  lemma AsWrittenBoundAfterZeroBit(quo: U128, rem: U128, lo: U128, d: U128, i: nat)
    requires 0 < i <= 128 && DivStepAsWritten(quo, rem, Bit(lo, i - 1), d).0 == 0
    ensures DivLoopAsWritten(quo, rem, lo, d, i).0 < Pow2(i - 1)
  {
    var next := DivStepAsWritten(quo, rem, Bit(lo, i - 1), d);
    AsWrittenQuotientBound(next.0, next.1, lo, d, i - 1, 0);
  }

  /** mul_div(u128::MAX, u128::MAX, u128::MAX) takes the 256-bit path
      with (hi, lo) = (2^128 - 2, 1). The true quotient is u128::MAX, but the
      first shift drops the remainder's top bit, so the loop as written
      returns a quotient below 2^127 and no error. */
  lemma WideDivAsWrittenCounterexample()
    ensures U128_MAX * U128_MAX >= U128_LIMIT
    ensures FullMulU128(U128_MAX, U128_MAX) == (U128_MAX - 1, 1)
    ensures ((U128_MAX - 1) * U128_LIMIT + 1) / U128_MAX == U128_MAX
    ensures U128_MAX - 1 < U128_MAX
    ensures DivLoopAsWritten(0, U128_MAX - 1, 1, U128_MAX, 128).0 < Pow2(127) < U128_MAX
  {
    MaxSquareWords();
    AsWrittenFirstStepLoses();
    AsWrittenBoundAfterZeroBit(0, U128_MAX - 1, 1, U128_MAX, 128);
    Pow2Values();
  }

  /** A quotient and remainder pair that recombines to the 256-bit value
      hi * 2^128 + lo is that value's division. */
  lemma QuotientPair(r: (U128, U128), hi: U128, lo: U128, d: nat)
    requires d > 0 && r.0 * d + r.1 == hi * U128_LIMIT + lo && r.1 < d
    ensures r == ((hi * U128_LIMIT + lo) / d, (hi * U128_LIMIT + lo) % d)
  {
    DivUnique(hi * U128_LIMIT + lo, d, r.0, r.1);
  }

  /** Below a divisor of 2^127 the loop as written recombines to the
      dividend with a remainder below the divisor. */
  lemma AsWrittenRecombinesBelowHalf(hi: U128, lo: U128, d: U128)
    requires hi < d <= Pow2(127)
    ensures DivLoopAsWritten(0, hi, lo, d, 128).0 * d + DivLoopAsWritten(0, hi, lo, d, 128).1 == hi * U128_LIMIT + lo
    ensures DivLoopAsWritten(0, hi, lo, d, 128).1 < d
  {
    Pow2Values();
    ConsumedEnds(hi, lo);
    AsWrittenExactBelowHalf(0, hi, hi, lo, d, 128);
  }

  /** Below a divisor of 2^127 the loop as written agrees with the exact
      long division. */
  lemma WideDivAsWrittenExactBelowHalf(hi: U128, lo: U128, d: U128)
    requires hi < d <= Pow2(127)
    ensures DivLoopAsWritten(0, hi, lo, d, 128) == ((hi * U128_LIMIT + lo) / d, (hi * U128_LIMIT + lo) % d)
  {
    AsWrittenRecombinesBelowHalf(hi, lo, d);
    QuotientPair(DivLoopAsWritten(0, hi, lo, d, 128), hi, lo, d);
  }

  /** The signed multiply-divides divide by |denom| of an `i128`, which is
      at most 2^127, so for them the loop as written is exact. */
  lemma SignedDivisorExact(denom: I128, hi: U128, lo: U128)
    requires denom != 0 && hi < Abs(denom)
    ensures Abs(denom) <= Pow2(127)
    ensures DivLoopAsWritten(0, hi, lo, Abs(denom), 128) ==
            ((hi * U128_LIMIT + lo) / Abs(denom), (hi * U128_LIMIT + lo) % Abs(denom))
  {
    Pow2Values();
    WideDivAsWrittenExactBelowHalf(hi, lo, Abs(denom));
  }

  // ---------------------------------------------------------------------
  // Unsigned multiply-divide
  // ---------------------------------------------------------------------

  lemma DivLeDividend(x: nat, d: nat)
    requires d > 0
    ensures x / d <= x
  {
    MulLe(1, d, x / d);
  }

  /** `wide_mul_div_with_rem_u128`: quotient and remainder of a * b / d,
      through the direct product when it fits in a `u128` and through the
      256-bit product otherwise. Fails when d = 0 or the quotient does not
      fit in a `u128`. */
  method WideMulDivWithRem(a: U128, b: U128, d: U128) returns (r: Result<(U128, U128)>)
    ensures d == 0 ==> r == Err(CalculationOverflow)
    ensures d > 0 && a * b / d < U128_LIMIT ==> r == Ok((a * b / d, a * b % d))
    ensures d > 0 && a * b / d >= U128_LIMIT ==> r == Err(CalculationOverflow)
  {
    if d == 0 {
      return Err(CalculationOverflow);
    }
    if a == 0 || b == 0 {
      return Ok((0, 0));
    }
    if a * b < U128_LIMIT {
      var product := a * b;
      DivLeDividend(product, d);
      return Ok((product / d, product % d));
    }
    var words := FullMulU128(a, b);
    QuotientFits(words.0, words.1, d);
    r := WideDivU256(words.0, words.1, d);
  }

  /** `wide_mul_div_u128`: the quotient alone. */
  method WideMulDiv(a: U128, b: U128, d: U128) returns (r: Result<U128>)
    ensures d == 0 ==> r == Err(CalculationOverflow)
    ensures d > 0 && a * b / d < U128_LIMIT ==> r == Ok(a * b / d)
    ensures d > 0 && a * b / d >= U128_LIMIT ==> r == Err(CalculationOverflow)
  {
    var qr := WideMulDivWithRem(a, b, d);
    if qr.Err? {
      return Err(qr.error);
    }
    return Ok(qr.value.0);
  }

  /** `mul_div`: the exact truncated quotient a * b / denom, also when the
      product exceeds 128 bits; `CalculationOverflow` when denom = 0 or the
      quotient does not fit in a `u128`. */
  method MulDiv(a: U128, b: U128, denom: U128) returns (r: Result<U128>)
    ensures r.Ok? <==> denom > 0 && a * b / denom < U128_LIMIT
    ensures r.Ok? ==> denom > 0 && r.value == a * b / denom
    ensures r.Err? ==> r.error == CalculationOverflow
  {
    if denom == 0 {
      return Err(CalculationOverflow);
    }
    r := WideMulDiv(a, b, denom);
  }

  // ---------------------------------------------------------------------
  // Signed rounding
  // ---------------------------------------------------------------------

  /** The floor of p / d from the quotient and remainder of the magnitudes:
      a negative result with a remainder rounds away from zero. */
  lemma {:induction false} FloorFromMagnitudes(p: int, d: int)
    requires d != 0 && p != 0
    ensures var neg := (p < 0) != (d < 0);
            var q := Abs(p) / Abs(d);
            var rem := Abs(p) % Abs(d);
            MathFloor(p, d) == (if neg && rem != 0 then -(q + 1) else if neg then -q else q)
  {
    var neg := (p < 0) != (d < 0);
    var m: int, n: int := Abs(p), Abs(d);
    assert n > 0;
    var q, rem := m / n, m % n;
    assert m == q * n + rem;
    assert MathFloor(p, d) == (if neg then (-m) / n else m / n);
    if neg {
      if rem != 0 {
        assert -m == -(q + 1) * n + (n - rem);
        DivUnique(-m, n, -(q + 1), n - rem);
      } else {
        assert -m == (-q) * n;
        DivUnique(-m, n, -q, 0);
      }
    }
  }

  /** How the source's signed multiply-divides recover the truncated, floor
      and ceiling quotients from the magnitudes and the sign parity of the
      three operands. */
  lemma {:induction false} SignedDivisions(a: int, b: int, denom: int)
    requires denom != 0
    ensures var neg := ((a < 0) != (b < 0)) != (denom < 0);
            var q := Abs(a) * Abs(b) / Abs(denom);
            var rem := Abs(a) * Abs(b) % Abs(denom);
            TDiv(a * b, denom) == (if neg then -q else q) &&
            MathFloor(a * b, denom) == (if neg && rem != 0 then -(q + 1) else if neg then -q else q) &&
            MathCeil(a * b, denom) == (if !neg && rem != 0 then q + 1 else if neg then -q else q)
  {
    var p := a * b;
    AbsMul(a, b);
    if p == 0 {
      assert Abs(a) * Abs(b) == 0;
      assert MathFloor(0, denom) == 0;
    } else {
      FloorFromMagnitudes(p, denom);
      FloorFromMagnitudes(-p, denom);
      assert Abs(-p) == Abs(p);
    }
  }

  /** `signed_mul_div`: a * b / denom truncated toward zero, its sign the
      parity of the negative operands. Fails with `CalculationOverflow` when
      denom = 0 or the magnitude of the quotient exceeds `i128::MAX`. */
  method SignedMulDiv(a: I128, b: I128, denom: I128) returns (r: Result<I128>)
    ensures denom == 0 ==> r == Err(CalculationOverflow)
    ensures denom != 0 ==> (r.Ok? <==> Abs(TDiv(a * b, denom)) <= I128_MAX)
    ensures r.Ok? ==> denom != 0 && r.value == TDiv(a * b, denom)
    ensures r.Err? ==> r.error == CalculationOverflow
  {
    if denom == 0 {
      return Err(CalculationOverflow);
    }
    var neg := ((a < 0) != (b < 0)) != (denom < 0);
    var absResult := WideMulDiv(Abs(a), Abs(b), Abs(denom));
    SignedDivisions(a, b, denom);
    if absResult.Err? {
      return Err(absResult.error);
    }
    if absResult.value > I128_MAX {
      return Err(CalculationOverflow);
    }
    var result := absResult.value;
    return Ok(if neg then -result else result);
  }

  /** `signed_mul_div_floor`: the floor of a * b / denom. It fails when the
      floor lies outside [-i128::MAX, i128::MAX]: `CalculationOverflow` from
      the division, or a panic on `q + 1` when the floor is `i128::MIN`. */
  method SignedMulDivFloor(a: I128, b: I128, denom: I128) returns (r: Result<I128>)
    ensures denom == 0 ==> r == Err(CalculationOverflow)
    ensures denom != 0 ==> (r.Ok? <==> -I128_MAX <= MathFloor(a * b, denom) <= I128_MAX)
    ensures r.Ok? ==> denom != 0 && r.value == MathFloor(a * b, denom)
    ensures r == Err(Panic) ==> denom != 0 && MathFloor(a * b, denom) == I128_MIN
    ensures r.Err? ==> r.error == CalculationOverflow || r.error == Panic
  {
    if denom == 0 {
      return Err(CalculationOverflow);
    }
    var neg := ((a < 0) != (b < 0)) != (denom < 0);
    var qr := WideMulDivWithRem(Abs(a), Abs(b), Abs(denom));
    SignedDivisions(a, b, denom);
    if qr.Err? {
      return Err(qr.error);
    }
    var quotient, remainder := qr.value.0, qr.value.1;
    if quotient > I128_MAX {
      return Err(CalculationOverflow);
    }
    if neg {
      if remainder != 0 {
        if quotient + 1 > I128_MAX {
          return Err(Panic);
        }
        return Ok(-(quotient + 1));
      }
      return Ok(-quotient);
    }
    return Ok(quotient);
  }

  /** `signed_mul_div_ceil`: the ceiling of a * b / denom. It fails when the
      ceiling lies outside [-i128::MAX, i128::MAX]: `CalculationOverflow`
      from the division, or a panic on `q + 1` when the ceiling is 2^127. */
  method SignedMulDivCeil(a: I128, b: I128, denom: I128) returns (r: Result<I128>)
    ensures denom == 0 ==> r == Err(CalculationOverflow)
    ensures denom != 0 ==> (r.Ok? <==> -I128_MAX <= MathCeil(a * b, denom) <= I128_MAX)
    ensures r.Ok? ==> denom != 0 && r.value == MathCeil(a * b, denom)
    ensures r == Err(Panic) ==> denom != 0 && MathCeil(a * b, denom) == I128_MAX + 1
    ensures r.Err? ==> r.error == CalculationOverflow || r.error == Panic
  {
    if denom == 0 {
      return Err(CalculationOverflow);
    }
    var neg := ((a < 0) != (b < 0)) != (denom < 0);
    var qr := WideMulDivWithRem(Abs(a), Abs(b), Abs(denom));
    SignedDivisions(a, b, denom);
    if qr.Err? {
      return Err(qr.error);
    }
    var quotient, remainder := qr.value.0, qr.value.1;
    if quotient > I128_MAX {
      return Err(CalculationOverflow);
    }
    if neg {
      return Ok(-quotient);
    }
    if remainder != 0 {
      if quotient + 1 > I128_MAX {
        return Err(Panic);
      }
      return Ok(quotient + 1);
    }
    return Ok(quotient);
  }

  /** Rust's `i128` quotient is in range except for i128::MIN / -1, and it
      is strictly inside the range when there is a remainder. */
  lemma {:induction false} TruncatedInRange(a: I128, b: I128)
    requires b != 0 && !(a == I128_MIN && b == -1)
    ensures InI128(TDiv(a, b))
    ensures TRem(a, b) != 0 ==> Abs(TDiv(a, b)) < I128_MAX
  {
    var t := TDiv(a, b);
    TDivRem(a, b);
    TDivAbsLe(a, b);
    var q := Abs(a) / Abs(b);
    assert q * Abs(b) <= Abs(a);
    if Abs(b) >= 2 {
      MulLe(2, Abs(b), q);
    } else {
      assert Abs(b) == 1;
      assert TRem(a, b) == 0;
    }
  }

  /** From Rust's truncated quotient and remainder to the floor and the
      ceiling: step down (up) by one when there is a remainder whose sign
      differs from (matches) the divisor's. */
  lemma {:induction false} TruncatedToRounded(a: int, b: int)
    requires b != 0
    ensures var t := TDiv(a, b);
            var rem := TRem(a, b);
            MathFloor(a, b) == (if rem != 0 && (rem < 0) != (b < 0) then t - 1 else t) &&
            MathCeil(a, b) == (if rem != 0 && (rem < 0) == (b < 0) then t + 1 else t)
  {
    var t, rem := TDiv(a, b), TRem(a, b);
    TDivRem(a, b);
    assert (t - 1) * b == t * b - b;
    assert (t + 1) * b == t * b + b;
    if rem == 0 {
      FloorUnique(a, b, t);
      CeilUnique(a, b, t);
    } else if (rem < 0) != (b < 0) {
      FloorUnique(a, b, t - 1);
      CeilUnique(a, b, t);
    } else {
      FloorUnique(a, b, t);
      CeilUnique(a, b, t + 1);
    }
  }

  /** `floor_div`: a / b rounded toward negative infinity. The source's
      `(r ^ b) < 0` tests that r and b have different signs. */
  function FloorDiv(a: I128, b: I128): (r: Result<I128>)
    ensures b == 0 ==> r == Err(CalculationOverflow)
    ensures b != 0 && a == I128_MIN && b == -1 ==> r == Err(Panic)
    ensures b != 0 && !(a == I128_MIN && b == -1) ==> r == Ok(MathFloor(a, b))
  {
    if b == 0 then Err(CalculationOverflow)
    else if a == I128_MIN && b == -1 then Err(Panic)
    else
      var d := TDiv(a, b);
      var rem := TRem(a, b);
      TruncatedInRange(a, b);
      TruncatedToRounded(a, b);
      if rem != 0 && (rem < 0) != (b < 0) then Ok(d - 1) else Ok(d)
  }

  /** `ceil_div`: a / b rounded toward positive infinity. */
  function CeilDiv(a: I128, b: I128): (r: Result<I128>)
    ensures b == 0 ==> r == Err(CalculationOverflow)
    ensures b != 0 && a == I128_MIN && b == -1 ==> r == Err(Panic)
    ensures b != 0 && !(a == I128_MIN && b == -1) ==> r == Ok(MathCeil(a, b))
  {
    if b == 0 then Err(CalculationOverflow)
    else if a == I128_MIN && b == -1 then Err(Panic)
    else
      var d := TDiv(a, b);
      var rem := TRem(a, b);
      TruncatedInRange(a, b);
      TruncatedToRounded(a, b);
      if rem != 0 && (rem < 0) == (b < 0) then Ok(d + 1) else Ok(d)
  }

  /** Floor and ceiling bracket the rational a / b, differ by at most one,
      and coincide exactly when b divides a. */
  lemma {:induction false} FloorCeilBracket(a: I128, b: I128)
    requires b != 0 && !(a == I128_MIN && b == -1)
    ensures FloorDiv(a, b).Ok? && CeilDiv(a, b).Ok?
    ensures var f, c := FloorDiv(a, b).value, CeilDiv(a, b).value;
            (b > 0 ==> f * b <= a <= c * b) &&
            (b < 0 ==> f * b >= a >= c * b) &&
            f <= c <= f + 1 &&
            (f == c <==> f * b == a)
  {
    var f := MathFloor(a, b);
    FloorBracket(a, b);
    assert (f + 1) * b == f * b + b;
    assert (f - 1) * b == f * b - b;
    if f * b == a {
      CeilUnique(a, b, f);
    } else {
      CeilUnique(a, b, f + 1);
    }
  }
}
