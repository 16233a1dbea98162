/**
 * Machine integers of the on-chain program, Rust's integer operators, and
 * the error codes that the modelled functions return.
 *
 * Every Rust integer width used by the program is a subset type of `int`.
 * Rust's `/` and `%` on signed integers truncate toward zero, which is not
 * what Dafny's Euclidean `/` and `%` do, so they are written out as `TDiv`
 * and `TRem`. The `as` casts that truncate are written out as well.
 *
 * The program is built with Rust's overflow checks on (the Anchor default):
 * unchecked arithmetic that overflows panics and aborts the transaction.
 * Where the source returns a `Result`, that panic is the error `Panic`.
 */
module Machine {

  const U8_LIMIT: int := 0x100
  const U16_LIMIT: int := 0x1_0000
  const U64_LIMIT: int := 0x1_0000_0000_0000_0000
  const U64_MAX: int := 0xFFFF_FFFF_FFFF_FFFF
  const I64_MIN: int := -0x8000_0000_0000_0000
  const I64_MAX: int := 0x7FFF_FFFF_FFFF_FFFF
  const U128_LIMIT: int := 0x1_0000_0000_0000_0000_0000_0000_0000_0000
  const U128_MAX: int := 0xFFFF_FFFF_FFFF_FFFF_FFFF_FFFF_FFFF_FFFF
  const I128_MIN: int := -0x8000_0000_0000_0000_0000_0000_0000_0000
  const I128_MAX: int := 0x7FFF_FFFF_FFFF_FFFF_FFFF_FFFF_FFFF_FFFF

  type U8 = x: int | 0 <= x < 0x100
  type U16 = x: int | 0 <= x < 0x1_0000
  type U64 = x: int | 0 <= x < 0x1_0000_0000_0000_0000
  type I64 = x: int | -0x8000_0000_0000_0000 <= x < 0x8000_0000_0000_0000
  type U128 = x: int | 0 <= x < 0x1_0000_0000_0000_0000_0000_0000_0000_0000
  type I128 = x: int | -0x8000_0000_0000_0000_0000_0000_0000_0000 <= x < 0x8000_0000_0000_0000_0000_0000_0000_0000

  predicate InU64(x: int) { 0 <= x < U64_LIMIT }
  predicate InI64(x: int) { I64_MIN <= x <= I64_MAX }
  predicate InU128(x: int) { 0 <= x < U128_LIMIT }
  predicate InI128(x: int) { I128_MIN <= x <= I128_MAX }

  /** The error codes (`CustomError`) the modelled code returns, plus `Panic`. */
  datatype Error =
    | CalculationOverflow
    | InvalidLeverage
    | InvalidAmount
    | InsufficientLiquidity
    | RatioImbalance
    | InsufficientCollateral
    | PerpsPaused
    | OrderTypeNotSupported
    | NoOpenPosition
    | FundingTooSoon
    | OraclePriceUnavailable
    | NotLiquidatable
    | SelfLiquidation
      /** Rust panicked: an unchecked operation overflowed. */
    | Panic

  /** Anchor's `Result`: `:-` propagates an error like Rust's `?`. */
  datatype Result<+T> = Ok(value: T) | Err(error: Error)
  {
    predicate IsFailure() { Err? }

    function PropagateFailure<U>(): Result<U>
      requires Err?
    {
      Err(error)
    }

    function Extract(): T
      requires Ok?
    {
      value
    }
  }

  function Abs(x: int): nat { if x < 0 then -x else x }

  function Min(x: int, y: int): int { if x <= y then x else y }

  function Max(x: int, y: int): int { if x >= y then x else y }

  /** Rust's signed `/`: the quotient rounded toward zero. */
  function TDiv(a: int, b: int): int
    requires b != 0
  {
    if (a < 0) == (b < 0) then Abs(a) / Abs(b) else -(Abs(a) / Abs(b))
  }

  /** Rust's signed `%`: the remainder that goes with `TDiv`. */
  function TRem(a: int, b: int): int
    requires b != 0
  {
    a - b * TDiv(a, b)
  }

  /** `x as u64` for any integer source: keeps the low 64 bits. */
  function AsU64(x: int): U64 { x % U64_LIMIT }

  /** `x as u128` for an `i64` source: sign-extends, then keeps 128 bits,
      so a negative value becomes x + 2^128. */
  function I64AsU128(x: I64): U128 { if x >= 0 then x else x + U128_LIMIT }

  /** `x as i64` for a `u64` source: reinterprets the 64 bits as signed. */
  function U64AsI64(x: U64): I64 { if x <= I64_MAX then x else x - U64_LIMIT }

  /** A `checked_*` result in `i128`: the value, or `CalculationOverflow`. */
  function CheckedI128(x: int): Result<I128>
  {
    if InI128(x) then Ok(x) else Err(CalculationOverflow)
  }

  /** A `checked_*` result in `u128`. */
  function CheckedU128(x: int): Result<U128>
  {
    if InU128(x) then Ok(x) else Err(CalculationOverflow)
  }

  /** A `checked_*` result in `u64`. */
  function CheckedU64(x: int): Result<U64>
  {
    if InU64(x) then Ok(x) else Err(CalculationOverflow)
  }

  /** A `checked_*` result in `u8`. */
  function CheckedU8(x: int): Result<U8>
  {
    if 0 <= x < U8_LIMIT then Ok(x) else Err(CalculationOverflow)
  }

  /** An `i64::try_from` conversion that fails with `CalculationOverflow`. */
  function CheckedI64(x: int): Result<I64>
  {
    if InI64(x) then Ok(x) else Err(CalculationOverflow)
  }

  function Pow2(n: nat): (p: nat)
    ensures p >= 1
  {
    if n == 0 then 1 else 2 * Pow2(n - 1)
  }

  /** The floor of the rational a / b. */
  function MathFloor(a: int, b: int): int
    requires b != 0
  {
    if b > 0 then a / b else (-a) / (-b)
  }

  /** The ceiling of the rational a / b. */
  function MathCeil(a: int, b: int): int
    requires b != 0
  {
    -MathFloor(-a, b)
  }

  // ---------------------------------------------------------------------
  // Arithmetic facts used across the model
  // ---------------------------------------------------------------------

  lemma MulLe(a: nat, b: nat, c: nat)
    requires a <= b
    ensures a * c <= b * c
  {}

  lemma MulLt(a: nat, b: nat, c: nat)
    requires a < b && c > 0
    ensures a * c < b * c
  {}

  /** A non-strict inequality between multiples of a positive number holds
      between the multiplied numbers. */
  lemma MulCancelLt(x: nat, y: nat, c: nat)
    requires x * c < y * c
    ensures x < y
  {
    if y <= x {
      MulLe(y, x, c);
    }
  }

  lemma MulCancelLe(x: nat, y: nat, c: nat)
    requires c > 0 && x * c <= y * c
    ensures x <= y
  {
    if y < x {
      MulLt(y, x, c);
      assert false;
    }
  }

  /** Division by a positive number is monotonic. */
  lemma DivMonotone(x: nat, y: nat, c: nat)
    requires c > 0 && x <= y
    ensures x / c <= y / c
  {
    var qx, qy := x / c, y / c;
    assert qx * c <= x && y < (qy + 1) * c;
    if qy < qx {
      MulLe(qy + 1, qx, c);
      assert false;
    }
  }

  /** Euclidean division is determined by a decomposition with a remainder in range. */
  lemma {:induction false} DivUnique(a: int, b: int, q: int, r: int)
    requires b > 0 && a == q * b + r && 0 <= r < b
    ensures a / b == q && a % b == r
  {
    var q0, r0 := a / b, a % b;
    assert a == q0 * b + r0 && 0 <= r0 < b;
    if q0 < q {
      MulLe(1, q - q0, b);
    } else if q < q0 {
      MulLe(1, q0 - q, b);
    }
  }

  /** Dividing twice by positive numbers is dividing once by their product. */
  lemma {:induction false} DivDiv(x: int, b: int, c: int)
    requires b > 0 && c > 0
    ensures x / b / c == x / (b * c)
  {
    var q1, r1 := x / b, x % b;
    var q2, r2 := q1 / c, q1 % c;
    assert x == q2 * (b * c) + (r2 * b + r1) by {
      assert x == q1 * b + r1;
      assert q1 == q2 * c + r2;
      assert q1 * b == q2 * c * b + r2 * b;
    }
    assert r2 * b + r1 < b * c by {
      MulLe(r2, c - 1, b);
      assert (c - 1) * b == c * b - b;
    }
    DivUnique(x, b * c, q2, r2 * b + r1);
  }

  /** `MathFloor` is the floor: the unique q with q <= a / b < q + 1. */
  lemma {:induction false} FloorBracket(a: int, b: int)
    requires b != 0
    ensures b > 0 ==> MathFloor(a, b) * b <= a < (MathFloor(a, b) + 1) * b
    ensures b < 0 ==> MathFloor(a, b) * b >= a > (MathFloor(a, b) + 1) * b
  {
    if b < 0 {
      var q := (-a) / (-b);
      assert q * (-b) <= -a < (q + 1) * (-b);
      assert q * (-b) == -(q * b);
      assert (q + 1) * (-b) == -((q + 1) * b);
    }
  }

  /** Any q satisfying the floor bracket is `MathFloor`. */
  lemma {:induction false} FloorUnique(a: int, b: int, q: int)
    requires b != 0
    requires b > 0 ==> q * b <= a < (q + 1) * b
    requires b < 0 ==> q * b >= a > (q + 1) * b
    ensures MathFloor(a, b) == q
  {
    if b > 0 {
      assert (q + 1) * b == q * b + b;
      DivUnique(a, b, q, a - q * b);
    } else {
      assert q * (-b) == -(q * b);
      assert (q + 1) * b == q * b + b;
      DivUnique(-a, -b, q, -a - q * (-b));
    }
  }

  /** `MathCeil` is the ceiling: the unique q with q - 1 < a / b <= q. */
  lemma {:induction false} CeilBracket(a: int, b: int)
    requires b != 0
    ensures b > 0 ==> (MathCeil(a, b) - 1) * b < a <= MathCeil(a, b) * b
    ensures b < 0 ==> (MathCeil(a, b) - 1) * b > a >= MathCeil(a, b) * b
  {
    var f := MathFloor(-a, b);
    FloorBracket(-a, b);
    assert MathCeil(a, b) == -f;
    assert (-f) * b == -(f * b);
    assert (-f - 1) * b == -((f + 1) * b);
  }

  /** Any q satisfying the ceiling bracket is `MathCeil`. */
  lemma {:induction false} CeilUnique(a: int, b: int, q: int)
    requires b != 0
    requires b > 0 ==> (q - 1) * b < a <= q * b
    requires b < 0 ==> (q - 1) * b > a >= q * b
    ensures MathCeil(a, b) == q
  {
    assert (-q) * b == -(q * b);
    assert (-q + 1) * b == -((q - 1) * b);
    FloorUnique(-a, b, -q);
  }

  /** Rust's remainder is the Euclidean remainder of the magnitudes, with
      the dividend's sign. */
  lemma {:induction false} TRemValue(a: int, b: int)
    requires b != 0
    ensures TRem(a, b) == (if a < 0 then -(Abs(a) % Abs(b)) else Abs(a) % Abs(b))
  {
    var q := Abs(a) / Abs(b);
    var m := Abs(a) % Abs(b);
    assert Abs(a) == q * Abs(b) + m;
    var t := TDiv(a, b);
    if a >= 0 && b > 0 {
      assert t == q;
    } else if a >= 0 && b < 0 {
      assert t == -q;
      assert b * (-q) == (-b) * q;
    } else if a < 0 && b > 0 {
      assert t == -q;
      assert b * (-q) == -(b * q);
    } else {
      assert t == q;
      assert b * q == -((-b) * q);
    }
  }

  /** Rust's quotient and remainder decompose the dividend; the remainder is
      smaller than the divisor and carries the dividend's sign. */
  lemma TDivRem(a: int, b: int)
    requires b != 0
    ensures a == b * TDiv(a, b) + TRem(a, b)
    ensures Abs(TRem(a, b)) < Abs(b)
    ensures a >= 0 ==> TRem(a, b) >= 0
    ensures a < 0 ==> TRem(a, b) <= 0
  {
    TRemValue(a, b);
  }

  /** For a non-negative dividend and a positive divisor, Rust's and
      Dafny's division agree. */
  lemma TDivNonNeg(a: int, b: int)
    requires a >= 0 && b > 0
    ensures TDiv(a, b) == a / b
  {}

  /** Rust's quotient never has a larger magnitude than the dividend. */
  lemma {:induction false} TDivAbsLe(a: int, b: int)
    requires b != 0
    ensures Abs(TDiv(a, b)) <= Abs(a)
    ensures Abs(TDiv(a, b)) == Abs(a) / Abs(b)
  {
    var q := Abs(a) / Abs(b);
    assert q * Abs(b) <= Abs(a);
    MulLe(1, Abs(b), q);
  }

  /** The magnitude of a product is the product of the magnitudes, and the
      product is negative exactly when one factor is negative and neither is 0. */
  lemma AbsMul(a: int, b: int)
    ensures Abs(a * b) == Abs(a) * Abs(b)
    ensures a * b < 0 <==> (a != 0 && b != 0 && (a < 0) != (b < 0))
  {
    if a < 0 && b >= 0 {
      assert a * b == -((-a) * b);
    } else if a >= 0 && b < 0 {
      assert a * b == -(a * (-b));
    } else if a < 0 && b < 0 {
      assert a * b == (-a) * (-b);
    }
  }

  /** Bit `k` of a non-negative number, `(x >> k) & 1`: shift right one
      place `k` times, then keep the lowest bit. */
  function Bit(x: nat, k: nat): (b: nat)
    ensures b < 2
  {
    if k == 0 then x % 2 else Bit(x / 2, k - 1)
  }

  /** Shifting right by `k` places divides by 2^k. */
  lemma {:induction false} BitOfQuotient(x: nat, k: nat)
    ensures Bit(x, k) == (x / Pow2(k)) % 2
    decreases k
  {
    if k > 0 {
      BitOfQuotient(x / 2, k - 1);
      DivDiv(x, 2, Pow2(k - 1));
    }
  }

  /** Bits at or above a value's width are zero. */
  lemma BitAboveValue(x: nat, k: nat)
    requires x < Pow2(k)
    ensures Bit(x, k) == 0
  {
    BitOfQuotient(x, k);
    DivUnique(x, Pow2(k), 0, x);
  }

  /** Shifting right by one more bit drops the lowest remaining bit. */
  lemma {:induction false} ShiftBit(x: nat, k: nat)
    ensures x / Pow2(k) == 2 * (x / Pow2(k + 1)) + Bit(x, k)
  {
    BitOfQuotient(x, k);
    assert Pow2(k + 1) == Pow2(k) * 2;
    DivDiv(x, Pow2(k), 2);
  }

  lemma {:induction false} Pow2Add(m: nat, n: nat)
    ensures Pow2(m + n) == Pow2(m) * Pow2(n)
    decreases m
  {
    if m > 0 {
      Pow2Add(m - 1, n);
      assert Pow2(m + n) == 2 * Pow2(m - 1 + n);
    }
  }

  lemma {:induction false} Pow2Le(m: nat, n: nat)
    requires m <= n
    ensures Pow2(m) <= Pow2(n)
    decreases n
  {
    if m < n {
      Pow2Le(m, n - 1);
    }
  }

  lemma Pow2Of16()
    ensures Pow2(16) == U16_LIMIT
  {
    Pow2Add(8, 8);
    assert Pow2(8) == 256;
  }

  lemma Pow2Of64()
    ensures Pow2(64) == U64_LIMIT
  {
    Pow2Of16();
    Pow2Add(16, 16);
    assert Pow2(32) == 0x1_0000_0000;
    Pow2Add(32, 32);
  }

  lemma Pow2Values()
    ensures Pow2(64) == U64_LIMIT
    ensures Pow2(127) == I128_MAX + 1
    ensures Pow2(128) == U128_LIMIT
  {
    Pow2Of64();
    Pow2Add(64, 64);
    assert Pow2(128) == 2 * Pow2(127);
  }
}
