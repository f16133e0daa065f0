/** When a loan can be liquidated, and how far liquidation alone can take it. */
module Liquidation {
  import opened Numeric
  import opened Wrappers
  import opened Protocol
  import opened Machine
  import opened Invariant
  import opened Lifecycle
  import opened LoanLife
  import opened Frames
  import Lending
  import Governance

  function LtvOf(): Config -> int {
    (cfg: Config) => cfg.ltv
  }

  function CloseFactorOf(): Config -> int {
    (cfg: Config) => cfg.closeFactor
  }

  // -- the decision ------------------------------------------------------------------------

  /** A completed health factor is below one exactly when threshold-weighted collateral is below what is owed. */
  lemma FactorDecides(loan: LoanRecord, thr: U32)
    requires 0 < loan.outstanding && 0 <= loan.interestAccrued && 0 <= loan.totalCollateralValue
    requires Lending.HealthFactor(loan, thr).Done?
    ensures Lending.HealthFactor(loan, thr).value < BPS <==> loan.totalCollateralValue * thr < BPS * loan.outstanding
    ensures 0 <= Lending.HealthFactor(loan, thr).value
  {
    MulMono(loan.totalCollateralValue, 0, thr);
    ScaledRatio(loan.totalCollateralValue * thr, loan.outstanding);
  }

  /** Scaling both sides alike does not move the decision. */
  lemma ScaledRatio(n: int, owed: int)
    requires 0 <= n && 0 < owed
    ensures 0 <= n * BPS / (owed * BPS)
    ensures n * BPS / (owed * BPS) < BPS <==> n < BPS * owed
  {
    FloorBelow(n * BPS, owed * BPS, BPS);
    FloorBelow(n * BPS, owed * BPS, 0);
  }

  /** The health factor is computed for an active loan exactly when three products fit; it never divides by zero. */
  lemma FactorDefined(loan: LoanRecord, id: nat, thr: U32, now: U64)
    requires LoanOk(loan, id, now) && loan.status == Active
    ensures Lending.HealthFactor(loan, thr).Done? <==>
            && Fits(loan.outstanding + loan.interestAccrued)
            && Fits(loan.outstanding * BPS)
            && Fits(loan.totalCollateralValue * thr * BPS)
    ensures Lending.HealthFactor(loan, thr) == Trap <==>
            && Fits(loan.outstanding + loan.interestAccrued)
            && Fits(loan.outstanding * BPS)
            && Fits(loan.totalCollateralValue * thr) && !Fits(loan.totalCollateralValue * thr * BPS)
  {
    var n := loan.totalCollateralValue * thr;
    MulMono(loan.totalCollateralValue, 0, thr);
    if Fits(n * BPS) && Fits(loan.outstanding * BPS) {
      FloorAntitone(n * BPS, 1, loan.outstanding * BPS);
      FloorBounds(n * BPS, loan.outstanding * BPS);
    }
  }

  /**
   * Exactly when a liquidation goes through: live contract, signed and admitted liquidator, active
   * and under-collateralised loan, a positive amount within the close factor, sums that fit, and
   * tokens that can move.
   */
  lemma LiquidatesExactlyWhen(s: State, tx: Tx)
    requires Inv(s) && tx.call.Liquidate?
    ensures Step(s, tx).Done? <==>
      && Initialized(s) && !Paused(s.cfg, s.now)
      && Signed(tx.call.liquidator, tx.signers)
      && (s.whitelist.entries == {} || tx.call.liquidator in s.whitelist.entries)
      && tx.call.loanId in s.book.loans
      && var loan := s.book.loans[tx.call.loanId];
         && loan.status == Active
         && loan.totalCollateralValue * s.cfg.liqThr < BPS * loan.outstanding
         && 0 < tx.call.amount && tx.call.amount * BPS <= loan.outstanding * s.cfg.closeFactor
         && Fits(loan.outstanding + loan.interestAccrued) && Fits(loan.outstanding * BPS)
         && Fits(loan.totalCollateralValue * s.cfg.liqThr * BPS)
         && tx.call.amount <= Balance(s.balances, tx.call.liquidator)
         && Balance(s.balances, Contract) + tx.call.amount <= I128_MAX
  {
    GateIsMembership(s.whitelist, tx.call.liquidator);
    if Initialized(s) && tx.call.loanId in s.book.loans && s.book.loans[tx.call.loanId].status == Active {
      var loan := s.book.loans[tx.call.loanId];
      CapDecides(loan, tx.call.loanId, s.cfg.closeFactor, tx.call.amount, s.now);
      FactorDefined(loan, tx.call.loanId, s.cfg.liqThr, s.now);
      if Lending.HealthFactor(loan, s.cfg.liqThr).Done? {
        FactorDecides(loan, s.cfg.liqThr);
      }
    }
  }

  /** The counter-based gate means: the set is empty, or the address is in it. */
  lemma GateIsMembership(w: Whitelist, a: Address)
    requires WhitelistOk(w)
    ensures Lending.MayLiquidate(w, a) <==> w.entries == {} || a in w.entries
  {
  }

  lemma CapDecides(loan: LoanRecord, id: nat, closeFactor: U32, amount: I128, now: U64)
    requires LoanOk(loan, id, now) && closeFactor <= 10_000
    ensures Fits(loan.outstanding * BPS) ==> Fits(loan.outstanding * closeFactor)
    ensures amount <= TruncDiv(loan.outstanding * closeFactor, BPS) <==> amount * BPS <= loan.outstanding * closeFactor
    ensures amount * BPS <= loan.outstanding * closeFactor ==> amount <= loan.outstanding
  {
    MulMono(loan.outstanding, 0, closeFactor);
    MulMono(loan.outstanding, closeFactor, 10_000);
    FloorBelow(loan.outstanding * closeFactor, BPS, amount);
  }

  /**
   * The products matter only for very large loans. While outstanding times 10^8 fits, being
   * under-collateralised makes the scaled numerator fit too, so neither overflow nor the unchecked
   * scaling stands in the way of a due liquidation.
   */
  lemma DueLiquidationGoesThrough(s: State, tx: Tx)
    requires Inv(s) && tx.call.Liquidate? && tx.call.loanId in s.book.loans
    requires var loan := s.book.loans[tx.call.loanId];
      loan.outstanding * BPS * BPS <= I128_MAX && Fits(loan.outstanding + loan.interestAccrued)
    ensures var loan := s.book.loans[tx.call.loanId];
      Step(s, tx).Done? <==>
      && !Paused(s.cfg, s.now) && Signed(tx.call.liquidator, tx.signers)
      && (s.whitelist.entries == {} || tx.call.liquidator in s.whitelist.entries)
      && loan.status == Active && loan.totalCollateralValue * s.cfg.liqThr < BPS * loan.outstanding
      && 0 < tx.call.amount && tx.call.amount * BPS <= loan.outstanding * s.cfg.closeFactor
      && tx.call.amount <= Balance(s.balances, tx.call.liquidator)
      && Balance(s.balances, Contract) + tx.call.amount <= I128_MAX
  {
    LiquidatesExactlyWhen(s, tx);
    LoansOk(s, tx.call.loanId);
    assert Initialized(s);
    hide Step, Inv;
    var loan := s.book.loans[tx.call.loanId];
    SmallEnough(loan.totalCollateralValue, s.cfg.liqThr, loan.outstanding);
  }

  lemma SmallEnough(value: int, thr: U32, owed: int)
    requires 0 <= value && 0 <= owed && owed * BPS * BPS <= I128_MAX
    ensures Fits(owed * BPS)
    ensures value * thr < BPS * owed ==> Fits(value * thr * BPS)
  {
    MulMono(value, 0, thr);
    if value * thr < BPS * owed {
      MulMono(BPS, value * thr, BPS * owed);
      MulMono(BPS, 0, value * thr);
    }
  }

  // -- what a liquidation does not look at -------------------------------------------------

  /**
   * Neither the price feed nor the deadline enters the decision: two states that differ only there
   * answer a liquidation alike. The deadline shows in `health_factor` alone, which then reports 0.
   */
  lemma LiquidationIgnoresFeedAndDeadline(s: State, tx: Tx, feed: Feed, due: Option<U64>)
    requires tx.call.Liquidate? && tx.call.loanId in s.book.loans
    ensures var loan := s.book.loans[tx.call.loanId];
      var other := s.(feed := feed, book := s.book.(loans := s.book.loans[tx.call.loanId := loan.(dueLedger := due)]));
      && (Step(s, tx).Done? <==> Step(other, tx).Done?)
      && (Step(s, tx).Err? ==> Step(other, tx) == Step(s, tx))
      && (Step(s, tx).Done? ==> Apply(other, tx).balances == Apply(s, tx).balances
                                && Apply(other, tx).log == Apply(s, tx).log)
  {
    var loan := s.book.loans[tx.call.loanId];
    assert Lending.HealthFactor(loan.(dueLedger := due), s.cfg.liqThr) == Lending.HealthFactor(loan, s.cfg.liqThr);
  }

  /**
   * Nor do the collateral records: states that differ only in them, appraised values included, answer
   * a liquidation alike. A drop in value after origination never makes a loan liquidatable.
   */
  lemma LiquidationIgnoresAppraisals(s: State, tx: Tx, collaterals: map<nat, CollateralRecord>)
    requires tx.call.Liquidate?
    ensures var other := s.(book := s.book.(collaterals := collaterals));
      && (Step(s, tx).Done? <==> Step(other, tx).Done?)
      && (Step(s, tx).Err? ==> Step(other, tx) == Step(s, tx))
      && (Step(s, tx).Done? ==>
            Apply(other, tx) == Apply(s, tx).(book := Apply(s, tx).book.(collaterals := collaterals)))
  {
    hide Lending.HealthFactor, Transfer;
  }

  /**
   * A past-due loan that is still well backed: `health_factor` answers 0, while `liquidate` never
   * succeeds, and refuses the loan as safe whoever is admitted to try on a live contract.
   */
  lemma PastDueIsNotLiquidatable(s: State, tx: Tx)
    requires Inv(s) && tx.call.Liquidate? && tx.call.loanId in s.book.loans
    requires Lending.PastDue(s.book.loans[tx.call.loanId], s.now)
    requires SaturatingSub(s.now, s.feed.lastPriceTime) <= s.cfg.staleThr
    requires BPS * s.book.loans[tx.call.loanId].outstanding
             <= s.book.loans[tx.call.loanId].totalCollateralValue * s.cfg.liqThr
    ensures Lending.QueryHealthFactor(s, tx.call.loanId) == Done(Commit(s, Factor(0)))
    ensures !Step(s, tx).Done?
    ensures var loan := s.book.loans[tx.call.loanId];
      && !Paused(s.cfg, s.now) && 0 < tx.call.amount && Signed(tx.call.liquidator, tx.signers)
      && Lending.MayLiquidate(s.whitelist, tx.call.liquidator)
      && loan.status == Active && Lending.HealthFactor(loan, s.cfg.liqThr).Done?
      ==> Step(s, tx) == Err(HealthFactorSafe)
  {
    LiquidatesExactlyWhen(s, tx);
    var loan := s.book.loans[tx.call.loanId];
    if loan.status == Active && Lending.HealthFactor(loan, s.cfg.liqThr).Done? {
      FactorDecides(loan, s.cfg.liqThr);
    }
  }

  // -- safety of issued loans --------------------------------------------------------------

  /** Every loan was issued within the loan-to-value ratio `top`. */
  ghost predicate IssuedWithin(b: Book, top: int) {
    forall id :: id in b.loans ==> b.loans[id].principal * BPS <= b.loans[id].totalCollateralValue * top
  }

  lemma IssueStep(s: State, tx: Tx, top: int)
    requires Inv(s) && IssuedWithin(s.book, top) && s.cfg.ltv <= top
    ensures IssuedWithin(Apply(s, tx).book, top)
  {
    var after := Apply(s, tx);
    forall id | id in after.book.loans
      ensures after.book.loans[id].principal * BPS <= after.book.loans[id].totalCollateralValue * top
    {
      if id in s.book.loans {
        LoanStep(s, tx, id);
      } else {
        NewLoanWithin(s, tx, id, top);
      }
    }
  }

  lemma NewLoanWithin(s: State, tx: Tx, id: nat, top: int)
    requires Inv(s) && s.cfg.ltv <= top && id in Apply(s, tx).book.loans && id !in s.book.loans
    ensures Apply(s, tx).book.loans[id].principal * BPS <= Apply(s, tx).book.loans[id].totalCollateralValue * top
  {
    hide Lending.Pledge, Lending.Approve, Lending.PayOut, Lending.Linked, Lending.FeeEvents, Inv;
    if tx.call.RequestLoan? && Step(s, tx).Done? {
      var total, terms := RequestParts(s, tx.signers, tx.call.borrower, tx.call.ids, tx.call.amount, tx.call.duration);
      TermsWithin(s, tx.call.borrower, tx.call.ids, tx.call.amount, total, terms, top);
    } else {
      hide Step;
      SameTable(s, tx);
    }
  }

  lemma TermsWithin(s: State, borrower: Address, ids: seq<nat>, amount: I128, total: I128, terms: Lending.Terms,
                    top: int)
    requires Inv(s) && s.cfg.ltv <= top && 0 < amount && |ids| > 0
    requires Lending.Pledge(s.book.collaterals, ids, borrower) == Done(total)
    requires Lending.Approve(total, amount, s.cfg.ltv, s.cfg.origFee) == Done(terms)
    ensures amount * BPS <= total * top
  {
    PledgeIsTotal(s.book.collaterals, ids, borrower);
    RequestWithinLtv(total, amount, s.cfg.ltv, s.cfg.origFee);
    MulMono(total, s.cfg.ltv, top);
  }

  lemma {:induction false} IssuedOverRun(s: State, txs: seq<Tx>, top: int)
    requires Inv(s) && IssuedWithin(s.book, top) && Peak(s, txs, LtvOf()) <= top
    ensures IssuedWithin(Run(s, txs).book, top)
    decreases |txs|
  {
    hide Step;
    if |txs| > 0 {
      assert LtvOf()(s.cfg) == s.cfg.ltv;
      assert LtvOf()(Apply(s, txs[0]).cfg) == Apply(s, txs[0]).cfg.ltv;
      IssueStep(s, txs[0], top);
      StepKeeps(s, txs[0]);
      IssuedOverRun(Apply(s, txs[0]), txs[1..], top);
    }
  }

  /** A loan whose principal the threshold-weighted collateral covers cannot be liquidated. */
  lemma BackedLoanIsSafe(s: State, tx: Tx)
    requires Inv(s) && tx.call.Liquidate? && tx.call.loanId in s.book.loans
    requires var loan := s.book.loans[tx.call.loanId]; loan.principal * BPS <= loan.totalCollateralValue * s.cfg.liqThr
    ensures !Step(s, tx).Done?
    ensures var loan := s.book.loans[tx.call.loanId];
      loan.status == Active && Lending.HealthFactor(loan, s.cfg.liqThr).Done?
      ==> Lending.HealthFactor(loan, s.cfg.liqThr).value >= BPS
  {
    LiquidatesExactlyWhen(s, tx);
    var loan := s.book.loans[tx.call.loanId];
    if loan.status == Active && Lending.HealthFactor(loan, s.cfg.liqThr).Done? {
      FactorDecides(loan, s.cfg.liqThr);
    }
  }

  /**
   * Whatever happens after a loan is issued, while the threshold is not below the loan-to-value
   * ratio of its origination its health factor stays at least one and nobody can liquidate it.
   */
  lemma IssuedLoanIsSafe(s: State, tx: Tx, txs: seq<Tx>, hit: Tx)
    requires Inv(s) && tx.call.RequestLoan? && Step(s, tx).Done?
    requires hit.call.Liquidate? && hit.call.loanId == s.book.loanCounter + 1
    requires s.cfg.ltv <= Run(Apply(s, tx), txs).cfg.liqThr
    ensures var end := Run(Apply(s, tx), txs);
      && !Step(end, hit).Done? && hit.call.loanId in end.book.loans
      && var loan := end.book.loans[hit.call.loanId];
         loan.status == Active && Lending.HealthFactor(loan, end.cfg.liqThr).Done?
         ==> Lending.HealthFactor(loan, end.cfg.liqThr).value >= BPS
  {
    var id := s.book.loanCounter + 1;
    RequestAddsNext(s, tx);
    hide Step, Inv;
    NewLoanWithin(s, tx, id, Run(Apply(s, tx), txs).cfg.liqThr);
    StepKeeps(s, tx);
    LoanRun(Apply(s, tx), txs, id);
    RunKeeps(Apply(s, tx), txs);
    BackedLoanIsSafe(Run(Apply(s, tx), txs), hit);
  }

  lemma RequestAddsNext(s: State, tx: Tx)
    requires Inv(s) && tx.call.RequestLoan? && Step(s, tx).Done?
    ensures s.book.loanCounter + 1 in Apply(s, tx).book.loans && s.book.loanCounter + 1 !in s.book.loans
  {
    var total, terms := RequestParts(s, tx.signers, tx.call.borrower, tx.call.ids, tx.call.amount, tx.call.duration);
  }

  lemma BackedBookIsSafe(s: State, tx: Tx, top: int)
    requires Inv(s) && IssuedWithin(s.book, top) && tx.call.Liquidate? && top <= s.cfg.liqThr
    ensures !Step(s, tx).Done?
  {
    if tx.call.loanId in s.book.loans {
      var loan := s.book.loans[tx.call.loanId];
      assert LoanOk(loan, tx.call.loanId, s.now);
      MulMono(loan.totalCollateralValue, top, s.cfg.liqThr);
      BackedLoanIsSafe(s, tx);
    }
  }

  /**
   * Over all runs from deployment: a liquidation succeeds only if the threshold has come to be
   * below some loan-to-value ratio that was in force before.
   */
  lemma LiquidationNeedsLoweredThreshold(deployed: State, txs: seq<Tx>, tx: Tx)
    requires Deployed(deployed) && tx.call.Liquidate? && Step(Run(deployed, txs), tx).Done?
    ensures Run(deployed, txs).cfg.liqThr < Peak(deployed, txs, LtvOf())
  {
    DeployedOk(deployed);
    var top := Peak(deployed, txs, LtvOf());
    IssuedOverRun(deployed, txs, top);
    RunKeeps(deployed, txs);
    if top <= Run(deployed, txs).cfg.liqThr {
      BackedBookIsSafe(Run(deployed, txs), tx, top);
    }
  }

  /** A committed change of the loan-to-value ratio or the threshold after initialisation. */
  ghost predicate Reconfigures(s: State, tx: Tx) {
    && tx.call.Configure? && (tx.call.setting.LoanToValue? || tx.call.setting.LiquidationThreshold?)
    && Step(s, tx).Done?
  }

  ghost function Reconfigurations(): (State, Tx) -> int {
    (s: State, tx: Tx) => if Reconfigures(s, tx) then 1 else 0
  }

  /** Until someone reconfigures, the ratio in force is within the threshold, and before `initialize` it is 0. */
  ghost predicate Quiet(s: State) {
    s.cfg.ltv <= s.cfg.liqThr && (!Initialized(s) ==> s.cfg.ltv == 0)
  }

  lemma QuietStepKeeps(s: State, tx: Tx)
    requires Inv(s) && Quiet(s) && !Reconfigures(s, tx)
    ensures Quiet(Apply(s, tx))
    ensures Initialized(s) ==> Apply(s, tx).cfg.ltv == s.cfg.ltv && Apply(s, tx).cfg.liqThr == s.cfg.liqThr
                               && Initialized(Apply(s, tx))
  {
    hide Inv;
    if Governs(tx.call) {
      GovernanceKeepsQuiet(s, tx);
    } else {
      hide Step;
      Frame(s, tx);
    }
  }

  lemma GovernanceKeepsQuiet(s: State, tx: Tx)
    requires Quiet(s) && Governs(tx.call) && !Reconfigures(s, tx)
    ensures Quiet(Apply(s, tx))
    ensures Initialized(s) ==> Apply(s, tx).cfg.ltv == s.cfg.ltv && Apply(s, tx).cfg.liqThr == s.cfg.liqThr
                               && Initialized(Apply(s, tx))
  {
    if tx.call.Configure? && !tx.call.setting.LoanToValue? && !tx.call.setting.LiquidationThreshold? {
      SettingKeepsRatios(s.cfg, tx.call.setting);
    }
    hide Governance.Applied;
  }

  lemma SettingKeepsRatios(cfg: Config, setting: Governance.Setting)
    requires !setting.LoanToValue? && !setting.LiquidationThreshold?
    ensures var o := Governance.Applied(cfg, setting);
      o.Done? ==> o.value.admin == cfg.admin && o.value.ltv == cfg.ltv && o.value.liqThr == cfg.liqThr
  {
  }

  lemma {:induction false} QuietRunKeeps(s: State, txs: seq<Tx>)
    requires Inv(s) && Quiet(s) && IssuedWithin(s.book, s.cfg.liqThr)
    requires Tally(s, txs, Reconfigurations()) == 0
    ensures Inv(Run(s, txs)) && Quiet(Run(s, txs)) && IssuedWithin(Run(s, txs).book, Run(s, txs).cfg.liqThr)
    decreases |txs|
  {
    hide Step;
    if |txs| > 0 {
      var next := Apply(s, txs[0]);
      TallyNonNegative(next, txs[1..], Reconfigurations());
      assert Reconfigurations()(s, txs[0]) >= 0;
      StepKeeps(s, txs[0]);
      QuietStepKeeps(s, txs[0]);
      if Initialized(s) {
        IssueStep(s, txs[0], s.cfg.liqThr);
      } else {
        NothingIssued(s, txs[0]);
      }
      QuietRunKeeps(next, txs[1..]);
    }
  }

  lemma NothingIssued(s: State, tx: Tx)
    requires Inv(s) && !Initialized(s)
    ensures Apply(s, tx).book == s.book && s.book.loans == map[]
  {
  }

  /** In a run that never touches the two ratios after `initialize`, no liquidation ever succeeds. */
  lemma NoLiquidationWithoutReconfiguring(deployed: State, txs: seq<Tx>, tx: Tx)
    requires Deployed(deployed) && tx.call.Liquidate?
    requires Tally(deployed, txs, Reconfigurations()) == 0
    ensures !Step(Run(deployed, txs), tx).Done?
  {
    DeployedOk(deployed);
    QuietRunKeeps(deployed, txs);
    BackedBookIsSafe(Run(deployed, txs), tx, Run(deployed, txs).cfg.liqThr);
  }

  // -- the factor never falls --------------------------------------------------------------

  /** With no less collateral, a threshold not below and no more owed, a completed factor is no lower. */
  lemma FactorMono(l: LoanRecord, after: LoanRecord, thr: U32, later: U32)
    requires 0 < after.outstanding <= l.outstanding && 0 <= l.totalCollateralValue == after.totalCollateralValue
    requires 0 <= l.interestAccrued && 0 <= after.interestAccrued && thr <= later
    requires Lending.HealthFactor(l, thr).Done? && Lending.HealthFactor(after, later).Done?
    ensures Lending.HealthFactor(l, thr).value <= Lending.HealthFactor(after, later).value
  {
    var n, m := l.totalCollateralValue * thr, l.totalCollateralValue * later;
    MulMono(l.totalCollateralValue, 0, thr);
    MulMono(l.totalCollateralValue, thr, later);
    FloorMono(n * BPS, m * BPS, l.outstanding * BPS);
    FloorAntitone(m * BPS, after.outstanding * BPS, l.outstanding * BPS);
  }

  /** A liquidation that leaves the loan active leaves a factor that completes and is no lower. */
  lemma HitNeverLowersFactor(s: State, tx: Tx, id: nat)
    requires Inv(s) && id in s.book.loans && Hits(s, tx, id)
    ensures id in Apply(s, tx).book.loans && Lending.HealthFactor(s.book.loans[id], s.cfg.liqThr).Done?
    ensures var before := Lending.HealthFactor(s.book.loans[id], s.cfg.liqThr);
      var after := Lending.HealthFactor(Apply(s, tx).book.loans[id], s.cfg.liqThr);
      Apply(s, tx).book.loans[id].status == Active ==> after.Done? && before.value <= after.value
  {
    LiquidatesExactlyWhen(s, tx);
    HitStep(s, tx, id);
    StepKeeps(s, tx);
    hide Step, Inv, Lending.HealthFactor;
    var l, after := s.book.loans[id], Apply(s, tx).book.loans[id];
    assert LoanOk(l, id, s.now) && LoanOk(after, id, s.now) by { LoansOk(s, id); LoansOk(Apply(s, tx), id); }
    FactorDefined(l, id, s.cfg.liqThr, s.now);
    if after.status == Active {
      FactorDefined(after, id, s.cfg.liqThr, s.now);
      FactorMono(l, after, s.cfg.liqThr, s.cfg.liqThr);
    }
  }

  lemma LoansOk(s: State, id: nat)
    requires Inv(s) && id in s.book.loans
    ensures LoanOk(s.book.loans[id], id, s.now)
  {
  }

  /**
   * Whatever happens in a run, appraisals included, a loan that is still active has no lower factor
   * than before unless the threshold is lower, whenever both computations complete.
   */
  lemma FactorNeverFalls(s: State, txs: seq<Tx>, id: nat)
    requires Inv(s) && id in s.book.loans && s.cfg.liqThr <= Run(s, txs).cfg.liqThr
    ensures id in Run(s, txs).book.loans
    ensures var l, after := s.book.loans[id], Run(s, txs).book.loans[id];
      var thr, later := s.cfg.liqThr, Run(s, txs).cfg.liqThr;
      after.status == Active && Lending.HealthFactor(l, thr).Done? && Lending.HealthFactor(after, later).Done?
      ==> Lending.HealthFactor(l, thr).value <= Lending.HealthFactor(after, later).value
  {
    hide Step, Inv, Lending.HealthFactor;
    LoanRun(s, txs, id);
    RunKeeps(s, txs);
    LoansOk(s, id);
    LoansOk(Run(s, txs), id);
    var l, after := s.book.loans[id], Run(s, txs).book.loans[id];
    if after.status == Active && Lending.HealthFactor(l, s.cfg.liqThr).Done?
       && Lending.HealthFactor(after, Run(s, txs).cfg.liqThr).Done? {
      FactorMono(l, after, s.cfg.liqThr, Run(s, txs).cfg.liqThr);
    }
  }

  // -- close-factor decay ------------------------------------------------------------------

  ghost function HitsOn(id: nat): (State, Tx) -> int {
    (s: State, tx: Tx) => if Hits(s, tx, id) then 1 else 0
  }

  /** One hit leaves at least the share of the debt that the close factor protects. */
  lemma HitDecay(s: State, tx: Tx, id: nat, cf: int)
    requires Inv(s) && id in s.book.loans && Hits(s, tx, id) && s.cfg.closeFactor <= cf
    ensures id in Apply(s, tx).book.loans
    ensures Apply(s, tx).book.loans[id].outstanding * BPS >= s.book.loans[id].outstanding * (BPS - cf)
    ensures Apply(s, tx).book.loans[id].outstanding < s.book.loans[id].outstanding
    ensures Apply(s, tx).book.loans[id].status == Liquidated <==> tx.call.amount == s.book.loans[id].outstanding
    ensures Apply(s, tx).book.loans[id].status == Liquidated ==> s.cfg.closeFactor == 10_000
  {
    HitStep(s, tx, id);
    var owed := s.book.loans[id].outstanding;
    MulMono(owed, s.cfg.closeFactor, cf);
    if tx.call.amount == owed && s.cfg.closeFactor < 10_000 {
      MulMono(owed, s.cfg.closeFactor, 9_999);
    }
  }

  /** After n liquidations at close factors up to cf, at least ((10000 - cf) / 10000)^n of `first` is left. */
  ghost predicate Decayed(first: int, last: int, cf: nat, n: int) {
    0 <= n && cf <= BPS && first * Pow(BPS - cf, n) <= last * Pow(BPS, n)
  }

  lemma Reordered(a: int, b: int, c: int)
    ensures a * (b * c) == (a * c) * b == (a * b) * c
  {
  }

  lemma DecayJoins(first: nat, mid: nat, last: nat, cf: nat, n: nat)
    requires Decayed(mid, last, cf, n) && first * (BPS - cf) <= mid * BPS
    ensures Decayed(first, last, cf, n + 1)
  {
    var keep := BPS - cf;
    var left, whole := Pow(keep, n), Pow(BPS, n);
    Reordered(last, BPS, whole);
    MulMono(BPS, mid * left, last * whole);
    Reordered(mid, BPS, left);
    MulMono(left, first * keep, mid * BPS);
    Reordered(first, keep, left);
  }

  /**
   * Over any run in which the loan is not repaid, n liquidations at close factors up to cf leave at
   * least ((10000 - cf) / 10000)^n of the debt, whatever else happens in between.
   */
  lemma {:induction false} CloseFactorDecay(s: State, txs: seq<Tx>, id: nat, cf: nat)
    requires Inv(s) && id in s.book.loans && cf <= 10_000
    requires Peak(s, txs, CloseFactorOf()) <= cf && Tally(s, txs, RepaymentsOf(id)) == 0
    ensures id in Run(s, txs).book.loans
    ensures Decayed(s.book.loans[id].outstanding, Run(s, txs).book.loans[id].outstanding, cf, Tally(s, txs, HitsOn(id)))
    decreases |txs|
  {
    hide Step;
    if |txs| > 0 {
      var tx, next, rest := txs[0], Apply(s, txs[0]), txs[1..];
      TallyNonNegative(next, rest, RepaymentsOf(id));
      assert RepaymentsOf(id)(s, tx) >= 0 && CloseFactorOf()(s.cfg) == s.cfg.closeFactor;
      StepKeeps(s, tx);
      LoanStep(s, tx, id);
      CloseFactorDecay(next, rest, id, cf);
      RunKeeps(next, rest);
      DecayStep(s, tx, id, cf, Run(next, rest).book.loans[id].outstanding, Tally(next, rest, HitsOn(id)));
      assert Tally(s, txs, HitsOn(id)) == HitsOn(id)(s, tx) + Tally(next, rest, HitsOn(id));
    }
  }

  lemma DecayStep(s: State, tx: Tx, id: nat, cf: nat, last: int, n: nat)
    requires Inv(s) && id in s.book.loans && !Repays(s, tx, id) && s.cfg.closeFactor <= cf && 0 <= last
    requires id in Apply(s, tx).book.loans && Decayed(Apply(s, tx).book.loans[id].outstanding, last, cf, n)
    ensures Decayed(s.book.loans[id].outstanding, last, cf, n + HitsOn(id)(s, tx))
  {
    hide Step;
    StepKeeps(s, tx);
    if Hits(s, tx, id) {
      HitDecay(s, tx, id, cf);
      DecayJoins(s.book.loans[id].outstanding, Apply(s, tx).book.loans[id].outstanding, last, cf, n);
    } else {
      OtherStepSameDebt(s, tx, id);
    }
  }

  lemma PowPositive(b: nat, n: nat)
    requires 0 < b
    ensures 0 < Pow(b, n)
  {
  }

  /** Close factors below 100 % never finish a loan off: without repayments an active loan stays active. */
  lemma PartialLiquidationsNeverFinish(s: State, txs: seq<Tx>, id: nat)
    requires Inv(s) && id in s.book.loans && s.book.loans[id].status == Active
    requires Peak(s, txs, CloseFactorOf()) < 10_000 && Tally(s, txs, RepaymentsOf(id)) == 0
    ensures id in Run(s, txs).book.loans && Run(s, txs).book.loans[id].status == Active
  {
    hide Step;
    var n := Tally(s, txs, HitsOn(id));
    CloseFactorDecay(s, txs, id, 9_999);
    RunKeeps(s, txs);
    PowPositive(1, n);
    MulMono(s.book.loans[id].outstanding, 1, Pow(1, n));
  }
}
