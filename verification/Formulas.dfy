/** Arithmetic the repository states more than once: what the copies agree on, and where they part. */
module Formulas {
  import opened Numeric
  import opened Wrappers
  import opened Protocol
  import Lending
  import Lifecycle
  import Liquidation

  // -- health factor -----------------------------------------------------------------------

  /** The fuzz target's copy: divide first, scale afterwards, no result outside its checked domain. */
  function FuzzFactor(collateral: I128, outstanding: I128, thr: U32): Option<int> {
    if collateral < 0 || outstanding < 0 then None
    else if outstanding == 0 then Some(I128_MAX)
    else if !Fits(collateral * thr) || !Fits(outstanding * BPS) then None
    else Some(TruncDiv(collateral * thr, outstanding * BPS) * BPS)
  }

  /** The backend's threshold is fixed. */
  const BACKEND_THR: U32 := 8000

  /** The health job's copy, on exact reals. */
  function BackendFactor(collateral: int, outstanding: int): Option<real> {
    if outstanding <= 0 || collateral <= 0 then None
    else Some((collateral * BACKEND_THR) as real / (outstanding * BPS) as real * BPS as real)
  }

  predicate AtRisk(factor: Option<real>) {
    factor.Some? && factor.value < BPS as real
  }

  /** A loan as the contract sees it, free of interest. */
  function LoanOf(collateral: I128, outstanding: I128): LoanRecord {
    LoanRecord(1, Contract, [], collateral, outstanding, outstanding, 0, 0, Active, None, [])
  }

  lemma NestedFloor(a: int, b: int, c: int)
    requires 0 <= a && 0 < b && 0 < c
    ensures a / (b * c) == a / b / c
  {
    var q := a / b / c;
    FloorBounds(a, b);
    FloorBounds(a / b, c);
    calc {
      b * c * q;
      b * (c * q);
    <= { MulMono(b, c * q, a / b); }
      b * (a / b);
    <=
      a;
    }
    calc {
      a;
    <
      b * (a / b) + b;
      b * (a / b + 1);
    <= { MulMono(b, a / b + 1, c * q + c); }
      b * (c * q + c);
      b * c * q + b * c;
    }
    FloorIs(a, b * c, q);
  }

  /** The contract rounds the exact ratio down; the fuzz copy rounds that down to whole multiples of 10 000. */
  lemma FactorsCompared(collateral: I128, outstanding: I128, thr: U32)
    requires 0 <= collateral && 0 < outstanding
    requires Lending.HealthFactor(LoanOf(collateral, outstanding), thr).Done?
    ensures Lending.HealthFactor(LoanOf(collateral, outstanding), thr).value == collateral * thr / outstanding
    ensures FuzzFactor(collateral, outstanding, thr)
            == Some(Lending.HealthFactor(LoanOf(collateral, outstanding), thr).value / BPS * BPS)
  {
    var n := collateral * thr;
    MulMono(collateral, 0, thr);
    ScaledAway(n, outstanding);
    NestedFloor(n, outstanding, BPS);
  }

  /** All three copies give the same verdict: at risk exactly when weighted collateral is below what is owed. */
  lemma FactorsAgree(collateral: I128, outstanding: I128, thr: U32)
    requires 0 <= collateral && 0 < outstanding
    ensures var owed := BPS * outstanding;
      && (Lending.HealthFactor(LoanOf(collateral, outstanding), thr).Done?
          ==> (Lending.HealthFactor(LoanOf(collateral, outstanding), thr).value < BPS <==> collateral * thr < owed))
      && (FuzzFactor(collateral, outstanding, thr).Some?
          ==> (FuzzFactor(collateral, outstanding, thr).value < BPS <==> collateral * thr < owed))
      && (0 < collateral ==> (AtRisk(BackendFactor(collateral, outstanding)) <==> collateral * BACKEND_THR < owed))
  {
    MulMono(collateral, 0, thr);
    if Lending.HealthFactor(LoanOf(collateral, outstanding), thr).Done? {
      Liquidation.FactorDecides(LoanOf(collateral, outstanding), thr);
    }
    FloorBelow(collateral * thr, outstanding * BPS, 1);
    FloorBelow(collateral * thr, outstanding * BPS, 0);
    if 0 < collateral {
      BackendDecides(collateral, outstanding);
    }
  }

  /** The health job flags a loan exactly when weighted collateral is below the scaled amount. */
  lemma BackendDecides(collateral: int, outstanding: int)
    requires 0 < collateral && 0 < outstanding
    ensures AtRisk(BackendFactor(collateral, outstanding)) <==> collateral * BACKEND_THR < BPS * outstanding
  {
    RealRatio((collateral * BACKEND_THR) as real, (outstanding * BPS) as real, BPS as real);
  }

  /** The factor times the amount is 8000 times the value. */
  lemma FactorIsRatio(collateral: int, outstanding: int)
    requires 0 < collateral && 0 < outstanding
    ensures BackendFactor(collateral, outstanding).Some?
    ensures BackendFactor(collateral, outstanding).value * outstanding as real == (collateral * 8000) as real
  {
    ScaledQuotient((collateral * BACKEND_THR) as real, outstanding as real);
    assert (outstanding * BPS) as real == outstanding as real * 10_000.0;
  }

  lemma ScaledQuotient(n: real, d: real)
    requires 0.0 < d
    ensures n / (d * 10_000.0) * 10_000.0 * d == n
  {
    var q := n / (d * 10_000.0);
    assert q * (d * 10_000.0) == n;
  }

  lemma RealRatio(n: real, d: real, scale: real)
    requires 0.0 < d && 0.0 < scale
    ensures n / d * scale < scale <==> n < d
  {
    var x := n / d;
    assert n == x * d;
    if x < 1.0 {
      assert x * scale < scale && x * d < d;
    } else {
      assert x * scale >= scale && x * d >= d;
    }
  }

  /**
   * The fuzz copy answers on strictly more inputs than the contract: the contract also needs the
   * scaled numerator to fit, and traps where it does not.
   */
  lemma FactorDomains(collateral: I128, outstanding: I128, thr: U32)
    requires 0 <= collateral && 0 < outstanding
    ensures Lending.HealthFactor(LoanOf(collateral, outstanding), thr).Done?
            <==> FuzzFactor(collateral, outstanding, thr).Some? && Fits(collateral * thr * BPS)
    ensures Lending.HealthFactor(LoanOf(collateral, outstanding), thr) == Trap
            <==> FuzzFactor(collateral, outstanding, thr).Some? && !Fits(collateral * thr * BPS)
  {
    var n := collateral * thr;
    MulMono(collateral, 0, thr);
    if Fits(n * BPS) && Fits(outstanding * BPS) {
      FloorAntitone(n * BPS, 1, outstanding * BPS);
      FloorBounds(n * BPS, outstanding * BPS);
    }
  }

  /** An input the fuzz copy calls healthy and the contract traps on. */
  lemma FuzzAcceptsWhatTraps()
    ensures FuzzFactor(0x7FFF_FFFF_FFFF_FFFF_FFFF_FFFF_FFFF_FFFF, 1, 1).Some?
    ensures Lending.HealthFactor(LoanOf(0x7FFF_FFFF_FFFF_FFFF_FFFF_FFFF_FFFF_FFFF, 1), 1) == Trap
  {
    FactorDomains(I128_MAX, 1, 1);
  }

  // -- loan request ------------------------------------------------------------------------

  datatype FuzzOutcome = BadAmount | TooLittleCollateral | Approved(principal: int, disbursement: int, fee: int)

  /** The fuzz target's copy of the amount and fee arithmetic; None where it declines to answer. */
  function FuzzRequest(total: I128, amount: I128, ltv: U32, origFee: U32): Option<FuzzOutcome> {
    if total < 0 then None
    else if amount <= 0 then Some(BadAmount)
    else if !Fits(total * ltv) then None
    else if amount > TruncDiv(total * ltv, BPS) then Some(TooLittleCollateral)
    else if !Fits(amount * origFee) || !Fits(amount - TruncDiv(amount * origFee, BPS)) then None
    else Some(Approved(amount, amount - TruncDiv(amount * origFee, BPS), TruncDiv(amount * origFee, BPS)))
  }

  /** On positive amounts the copies accept, refuse and fail alike; what is approved obeys the cap and adds up. */
  lemma RequestsAgree(total: I128, amount: I128, ltv: U32, origFee: U32)
    requires 0 < total && 0 < amount
    ensures var contract := Lending.Approve(total, amount, ltv, origFee);
      var fuzz := FuzzRequest(total, amount, ltv, origFee);
      && (contract.Done? <==> fuzz.Some? && fuzz.value.Approved?)
      && (contract == Err(InsufficientCollateral) <==> fuzz == Some(TooLittleCollateral))
      && (contract == Err(InvalidAmount) <==> fuzz.None?)
      && (contract.Done? ==>
            && contract.value == Lending.Terms(fuzz.value.fee, fuzz.value.disbursement)
            && fuzz.value.fee + fuzz.value.disbursement == amount
            && amount * BPS <= total * ltv)
  {
    if Lending.Approve(total, amount, ltv, origFee).Done? {
      Lifecycle.RequestWithinLtv(total, amount, ltv, origFee);
    }
  }

  // -- interest rate curve -----------------------------------------------------------------

  datatype RateModel = RateModel(base: U32, slope1: U32, slope2: U32, kink: U32)

  /** A u32 truncating cast. */
  function AsU32(x: nat): U32 {
    x % 0x1_0000_0000
  }

  function CheckedAddU32(a: U32, b: U32): Option<U32> {
    if a + b <= U32_MAX then Some(a + b) else None
  }

  /** The contract's curve, also the fuzz target's: 64-bit products, truncating casts, saturating sum. */
  function ContractRate(util: U32, m: RateModel): U32 {
    if util <= m.kink then
      var sum := CheckedAddU32(m.base, AsU32(m.slope1 * util / BPS));
      if sum.Some? then sum.value else U32_MAX
    else
      var low := CheckedAddU32(m.base, AsU32(m.slope1 * m.kink / BPS));
      var sum := if low.Some? then CheckedAddU32(low.value, AsU32(m.slope2 * (util - m.kink) / BPS)) else None;
      if sum.Some? then sum.value else U32_MAX
  }

  /** The jump-rate curve on exact integers. */
  function Curve(util: int, m: RateModel): int {
    if util <= m.kink then m.base + m.slope1 * util / BPS
    else m.base + m.slope1 * m.kink / BPS + m.slope2 * (util - m.kink) / BPS
  }

  /** The backend's curve; None stands for its range error. */
  function BackendRate(util: int, m: RateModel): Option<int> {
    if util < 0 || util > BPS then None else Some(Curve(util, m))
  }

  /** The part of the rate below the kink, and the part above it. */
  function LowShare(util: U32, m: RateModel): nat {
    m.slope1 * Min(util, m.kink) / BPS
  }

  function HighShare(util: U32, m: RateModel): nat {
    m.slope2 * SaturatingSub(util, m.kink) / BPS
  }

  /** The contract's rate is the sum of the base rate and the two wrapped shares, capped once. */
  lemma ContractRateIsCappedSum(util: U32, m: RateModel)
    ensures ContractRate(util, m) == Min(m.base + AsU32(LowShare(util, m)) + AsU32(HighShare(util, m)), U32_MAX)
  {
  }

  /**
   * For every utilization, in range or not, the contract's rate is the exact curve capped at the
   * largest u32 exactly when no share wraps, or what is left of the wrapped ones still reaches the cap.
   */
  lemma RatesAgreeExactly(util: U32, m: RateModel)
    ensures var low, high := LowShare(util, m), HighShare(util, m);
      ContractRate(util, m) == Min(Curve(util, m), U32_MAX)
      <==> (low <= U32_MAX && high <= U32_MAX) || m.base + AsU32(low) + AsU32(high) >= U32_MAX
  {
    var low, high := LowShare(util, m), HighShare(util, m);
    ContractRateIsCappedSum(util, m);
    SharesSum(util, m);
    hide LowShare, HighShare, ContractRate, Curve;
    if low > U32_MAX || high > U32_MAX {
      assert Curve(util, m) > U32_MAX;
    }
  }

  lemma SharesSum(util: U32, m: RateModel)
    ensures Curve(util, m) == m.base + LowShare(util, m) + HighShare(util, m)
  {
  }

  lemma SlopeShare(slope: U32, share: int)
    requires 0 <= share <= BPS
    ensures 0 <= slope * share / BPS <= slope
    ensures AsU32(slope * share / BPS) == slope * share / BPS
  {
    MulMono(slope, 0, share);
    MulMono(slope, share, BPS);
  }

  /** For ratios in range the contract's rate is the backend's, capped at the largest u32. */
  lemma RatesAgree(util: U32, m: RateModel)
    requires util <= BPS
    ensures BackendRate(util, m).Some? && ContractRate(util, m) == Min(BackendRate(util, m).value, U32_MAX)
  {
    if util <= m.kink {
      SlopeShare(m.slope1, util);
      CappedSums(m.base, m.slope1 * util / BPS, 0);
    } else {
      SlopeShare(m.slope1, m.kink);
      SlopeShare(m.slope2, util - m.kink);
      CappedSums(m.base, m.slope1 * m.kink / BPS, m.slope2 * (util - m.kink) / BPS);
    }
  }

  /** Two checked additions that fall back to the maximum are one capped sum. */
  lemma CappedSums(a: U32, b: U32, c: U32)
    ensures CheckedAddU32(a, b).Some? && CheckedAddU32(a + b, c).Some? <==> a + b + c <= U32_MAX
  {
  }

  /** The rate itself, up to 100 %: base, the first slope's share up to the kink, the second's beyond it. */
  lemma RateIs(util: U32, m: RateModel)
    requires util <= 10_000
    ensures var low, high := Min(util, m.kink), Max(util - m.kink, 0);
      ContractRate(util, m) == Min(m.base + m.slope1 * low / 10_000 + m.slope2 * high / 10_000, U32_MAX)
  {
    SlopeShare(m.slope1, Min(util, m.kink));
    SlopeShare(m.slope2, Max(util - m.kink, 0));
    ContractRateIsCappedSum(util, m);
  }

  /** Within the base rate and the base rate plus both slopes; the base rate itself at zero utilization. */
  lemma RateBounds(util: U32, m: RateModel)
    requires util <= BPS
    ensures m.base <= ContractRate(util, m) <= m.base + m.slope1 + m.slope2
    ensures ContractRate(0, m) == m.base
  {
    RatesAgree(util, m);
    if util <= m.kink {
      SlopeShare(m.slope1, util);
    } else {
      SlopeShare(m.slope1, m.kink);
      SlopeShare(m.slope2, util - m.kink);
    }
  }

  /** More utilization never means a lower rate, across the kink included. */
  lemma RateMonotone(u: U32, v: U32, m: RateModel)
    requires u <= v <= BPS
    ensures ContractRate(u, m) <= ContractRate(v, m)
  {
    RatesAgree(u, m);
    RatesAgree(v, m);
    if v <= m.kink {
      MulMono(m.slope1, u, v);
      FloorMono(m.slope1 * u, m.slope1 * v, BPS);
    } else if u <= m.kink {
      MulMono(m.slope1, u, m.kink);
      FloorMono(m.slope1 * u, m.slope1 * m.kink, BPS);
      SlopeShare(m.slope2, v - m.kink);
    } else {
      MulMono(m.slope2, u - m.kink, v - m.kink);
      FloorMono(m.slope2 * (u - m.kink), m.slope2 * (v - m.kink), BPS);
    }
  }

  /** Past the range the copies part: the backend refuses, while the contract's cast wraps twice the slope below it. */
  lemma RatesPartOutOfRange()
    ensures ContractRate(20_000, RateModel(0, 0xFFFF_FFFF, 0, 20_000)) == 0xFFFF_FFFE
    ensures BackendRate(20_000, RateModel(0, 0xFFFF_FFFF, 0, 20_000)) == None
  {
  }

  /** The contract's utilization: checked product, truncating division, cap, cast. */
  function ContractUtilization(borrowed: I128, liquidity: I128): Outcome<U32> {
    if liquidity <= 0 then Done(0)
    else
      :- Need(Fits(borrowed * BPS), InvalidAmount);
      Done(Min(TruncDiv(borrowed * BPS, liquidity), BPS) % 0x1_0000_0000)
  }

  function BackendUtilization(borrowed: int, liquidity: int): int {
    if liquidity <= 0 then 0 else Min(borrowed * BPS / liquidity, BPS)
  }

  /** For amounts that are not negative the two utilizations are equal and in range. */
  lemma UtilizationsAgree(borrowed: I128, liquidity: I128)
    requires 0 <= borrowed && ContractUtilization(borrowed, liquidity).Done?
    ensures ContractUtilization(borrowed, liquidity).value == BackendUtilization(borrowed, liquidity)
    ensures ContractUtilization(borrowed, liquidity).value <= BPS
  {
    if liquidity > 0 {
      FloorBelow(borrowed * BPS, liquidity, 0);
    }
  }

  /** The utilization itself: 0 without liquidity, 100 % from all of it on, else the exact ratio rounded down. */
  lemma UtilizationIs(borrowed: I128, liquidity: I128)
    requires 0 <= borrowed
    ensures var o := ContractUtilization(borrowed, liquidity);
      && (o.Done? <==> liquidity <= 0 || Fits(borrowed * 10_000))
      && (liquidity <= 0 ==> o == Done(0))
      && (0 < liquidity && o.Done? ==>
            if liquidity <= borrowed then o.value == 10_000
            else o.value * liquidity <= borrowed * 10_000 < o.value * liquidity + liquidity)
  {
    if 0 < liquidity && Fits(borrowed * 10_000) {
      var q := borrowed * 10_000 / liquidity;
      FloorBelow(borrowed * 10_000, liquidity, 0);
      FloorBelow(borrowed * 10_000, liquidity, 10_000);
      FloorBounds(borrowed * 10_000, liquidity);
    }
  }

  /** The rate a pool pays, from its two amounts. */
  function PoolRate(borrowed: I128, liquidity: I128, m: RateModel): U32
    requires ContractUtilization(borrowed, liquidity).Done?
  {
    ContractRate(ContractUtilization(borrowed, liquidity).value, m)
  }

  /** Borrowing more, or holding less liquidity, never lowers the rate. */
  lemma PoolRateMonotone(borrowed: I128, more: I128, liquidity: I128, less: I128, m: RateModel)
    requires 0 <= borrowed <= more && 0 < less <= liquidity
    requires ContractUtilization(borrowed, liquidity).Done? && ContractUtilization(more, less).Done?
    ensures PoolRate(borrowed, liquidity, m) <= PoolRate(more, less, m)
  {
    UtilizationsAgree(borrowed, liquidity);
    UtilizationsAgree(more, less);
    FloorMono(borrowed * BPS, more * BPS, liquidity);
    FloorAntitone(more * BPS, less, liquidity);
    RateMonotone(ContractUtilization(borrowed, liquidity).value, ContractUtilization(more, less).value, m);
  }
}
