/** The fixed-width integers of the contract, and the nonlinear facts the proofs lean on. */
module Numeric {

  const I128_MAX: int := 0x7FFF_FFFF_FFFF_FFFF_FFFF_FFFF_FFFF_FFFF
  const U64_MAX: int := 0xFFFF_FFFF_FFFF_FFFF
  const U32_MAX: int := 0xFFFF_FFFF

  type I128 = x: int | -0x8000_0000_0000_0000_0000_0000_0000_0000 <= x <= 0x7FFF_FFFF_FFFF_FFFF_FFFF_FFFF_FFFF_FFFF
  type U64 = x: int | 0 <= x <= 0xFFFF_FFFF_FFFF_FFFF
  type U32 = x: int | 0 <= x <= 0xFFFF_FFFF

  /** Basis points in one whole. */
  const BPS: int := 10_000

  /** True when a checked 128-bit operation with the exact result `x` succeeds. */
  predicate Fits(x: int) {
    -I128_MAX - 1 <= x <= I128_MAX
  }

  function Min(a: int, b: int): int {
    if a <= b then a else b
  }

  function Max(a: int, b: int): int {
    if a <= b then b else a
  }

  /** `checked_mul(..).unwrap_or(i128::MAX)`. */
  function MulOrMax(a: I128, b: I128): I128 {
    if Fits(a * b) then a * b else I128_MAX
  }

  /** `saturating_add` on i128. */
  function SaturatingAdd(a: I128, b: I128): I128 {
    if a + b > I128_MAX then I128_MAX else if a + b < -I128_MAX - 1 then -I128_MAX - 1 else a + b
  }

  /** `saturating_add` on u64. */
  function SaturatingAddU64(a: U64, b: U64): U64 {
    Min(a + b, U64_MAX)
  }

  /** `saturating_sub` on unsigned integers. */
  function SaturatingSub(a: nat, b: nat): nat {
    if a < b then 0 else a - b
  }

  /** Division that truncates toward zero, as Rust's `/` does. */
  function TruncDiv(a: int, b: int): int
    requires b != 0
  {
    if b < 0 then (if a < 0 then -a / -b else -(a / -b))
    else if a < 0 then -(-a / b)
    else a / b
  }

  function Pow(b: nat, n: nat): nat {
    if n == 0 then 1 else b * Pow(b, n - 1)
  }

  lemma MulMono(a: int, b: int, c: int)
    requires 0 <= a && b <= c
    ensures a * b <= a * c
  {
  }

  /** The two-sided meaning of a floor division. */
  lemma FloorBounds(a: int, b: int)
    requires 0 < b
    ensures b * (a / b) <= a < b * (a / b) + b
  {
  }

  /** A floor quotient is below `q` exactly when the exact quotient is. */
  lemma FloorBelow(a: int, b: int, q: int)
    requires 0 < b
    ensures a / b < q <==> a < q * b
  {
    FloorBounds(a, b);
    if a / b < q {
      MulMono(b, a / b + 1, q);
    } else {
      MulMono(b, q, a / b);
    }
  }

  lemma FloorMono(a: int, c: int, b: int)
    requires 0 < b && a <= c
    ensures a / b <= c / b
  {
    FloorBelow(c, b, a / b);
    FloorBounds(a, b);
  }

  /** Dividing one amount by a larger divisor cannot give more. */
  lemma FloorAntitone(a: int, b: int, c: int)
    requires 0 <= a && 0 < b <= c
    ensures a / c <= a / b
  {
    FloorBounds(a, c);
    assert 0 <= a / c;
    MulMono(a / c, b, c);
    FloorBelow(a, b, a / c);
  }

  /** A floor quotient is the unique q with b*q <= a < b*(q+1). */
  lemma FloorIs(a: int, b: int, q: int)
    requires 0 < b && b * q <= a < b * q + b
    ensures a / b == q
  {
    FloorBelow(a, b, q);
    FloorBelow(a, b, q + 1);
  }

  /** Scaling numerator and denominator alike does not move a floor quotient. */
  lemma ScaledAway(n: int, d: int)
    requires 0 <= n && 0 < d
    ensures n * BPS / (d * BPS) == n / d
  {
    var q := n / d;
    FloorBounds(n, d);
    assert d * BPS * q == d * q * BPS;
    FloorIs(n * BPS, d * BPS, q);
  }

  /**
   * The interest product is built by two multiplications that each fall back to the maximum.
   * For a nonempty time span the chain is one exact product capped once.
   */
  lemma ChainIsOneCap(a: I128, b: I128, c: I128)
    requires 0 <= a && 0 <= b && 1 <= c
    ensures 0 <= a * b * c
    ensures MulOrMax(MulOrMax(a, b), c) == Min(a * b * c, I128_MAX)
  {
    assert 0 <= a * b;
    assert a * b <= a * b * c by { MulMono(a * b, 1, c); }
    if a * b > I128_MAX {
      MulMono(I128_MAX, 1, c);
    }
  }
}
