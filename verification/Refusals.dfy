/** Which refusal a caller gets, call by call: each error exactly when its check is the first to fail. */
module Refusals {
  import opened Numeric
  import opened Wrappers
  import opened Protocol
  import opened Machine
  import opened Invariant
  import opened Lifecycle
  import opened LoanLife
  import Lending
  import Governance
  import Oracles
  import Entries
  import Liquidation

  // -- request_loan ------------------------------------------------------------------------

  /** The entries before `i` are all the borrower's and their sum fits. */
  ghost predicate GoodUpTo(collaterals: map<nat, CollateralRecord>, ids: seq<nat>, borrower: Address, i: nat)
    requires i <= |ids|
  {
    AllOwned(collaterals, ids[..i], borrower) && Fits(Total(collaterals, ids[..i]))
  }

  /** The first entry that keeps the list from being accepted is a collateral that does not exist. */
  ghost predicate FirstMissing(collaterals: map<nat, CollateralRecord>, ids: seq<nat>, borrower: Address) {
    exists i: nat :: i < |ids| && GoodUpTo(collaterals, ids, borrower, i) && ids[i] !in collaterals
  }

  /** It is a collateral of someone else. */
  ghost predicate FirstForeign(collaterals: map<nat, CollateralRecord>, ids: seq<nat>, borrower: Address) {
    exists i: nat :: i < |ids| && GoodUpTo(collaterals, ids, borrower, i)
      && ids[i] in collaterals && collaterals[ids[i]].owner != borrower
  }

  lemma GoodAlike(collaterals: map<nat, CollateralRecord>, ids: seq<nat>, borrower: Address)
    requires |ids| > 0
    ensures var n := |ids| - 1;
      forall i: nat :: i <= n ==>
        (GoodUpTo(collaterals, ids, borrower, i) <==> GoodUpTo(collaterals, ids[..n], borrower, i))
  {
    var n := |ids| - 1;
    forall i: nat | i <= n
      ensures GoodUpTo(collaterals, ids, borrower, i) <==> GoodUpTo(collaterals, ids[..n], borrower, i)
    {
      assert ids[..n][..i] == ids[..i];
    }
  }

  lemma MissingOfFront(collaterals: map<nat, CollateralRecord>, ids: seq<nat>, borrower: Address)
    requires |ids| > 0
    ensures var n := |ids| - 1;
      FirstMissing(collaterals, ids, borrower) <==>
      FirstMissing(collaterals, ids[..n], borrower)
      || (GoodUpTo(collaterals, ids, borrower, n) && ids[n] !in collaterals)
  {
    var n := |ids| - 1;
    GoodAlike(collaterals, ids, borrower);
    hide GoodUpTo;
    if FirstMissing(collaterals, ids[..n], borrower) {
      var i: nat :| i < n && GoodUpTo(collaterals, ids[..n], borrower, i) && ids[..n][i] !in collaterals;
      assert ids[i] == ids[..n][i];
    }
  }

  lemma ForeignOfFront(collaterals: map<nat, CollateralRecord>, ids: seq<nat>, borrower: Address)
    requires |ids| > 0
    ensures var n := |ids| - 1;
      FirstForeign(collaterals, ids, borrower) <==>
      FirstForeign(collaterals, ids[..n], borrower)
      || (GoodUpTo(collaterals, ids, borrower, n) && ids[n] in collaterals && collaterals[ids[n]].owner != borrower)
  {
    var n := |ids| - 1;
    GoodAlike(collaterals, ids, borrower);
    hide GoodUpTo;
    if FirstForeign(collaterals, ids[..n], borrower) {
      var i: nat :| i < n && GoodUpTo(collaterals, ids[..n], borrower, i)
        && ids[..n][i] in collaterals && collaterals[ids[..n][i]].owner != borrower;
      assert ids[i] == ids[..n][i];
    }
  }

  /** The list is refused for its first bad entry. */
  lemma {:induction false} PledgeRefused(collaterals: map<nat, CollateralRecord>, ids: seq<nat>, borrower: Address)
    requires AllValued(collaterals)
    ensures var o := Lending.Pledge(collaterals, ids, borrower);
      && !o.Trap? && (o.Done? <==> GoodUpTo(collaterals, ids, borrower, |ids|))
      && (o == Err(CollateralNotFound) <==> FirstMissing(collaterals, ids, borrower))
      && (o == Err(Unauthorized) <==> FirstForeign(collaterals, ids, borrower))
      && (o.Err? ==> o.error == CollateralNotFound || o.error == Unauthorized || o.error == InvalidAmount)
  {
    assert ids[..|ids|] == ids;
    PledgeIsTotal(collaterals, ids, borrower);
    if |ids| > 0 {
      var n := |ids| - 1;
      PledgeRefused(collaterals, ids[..n], borrower);
      PledgeIsTotal(collaterals, ids[..n], borrower);
      assert GoodUpTo(collaterals, ids, borrower, n) <==> Lending.Pledge(collaterals, ids[..n], borrower).Done?;
      MissingOfFront(collaterals, ids, borrower);
      ForeignOfFront(collaterals, ids, borrower);
      if GoodUpTo(collaterals, ids, borrower, n) {
        NoneBadBefore(collaterals, ids[..n], borrower);
      }
      hide GoodUpTo, FirstMissing, FirstForeign, AllOwned, Total;
    }
  }

  lemma NoneBadBefore(collaterals: map<nat, CollateralRecord>, ids: seq<nat>, borrower: Address)
    requires AllOwned(collaterals, ids, borrower)
    ensures !FirstMissing(collaterals, ids, borrower) && !FirstForeign(collaterals, ids, borrower)
  {
    forall i: nat | i < |ids| ensures ids[i] in collaterals && collaterals[ids[i]].owner == borrower {
      assert ids[i] in ids;
    }
  }

  /** Everything `request_loan` checks before the collateral. */
  predicate RequestOpen(s: State, tx: Tx)
    requires tx.call.RequestLoan?
  {
    && Initialized(s) && !Paused(s.cfg, s.now) && s.cfg.minLoan <= tx.call.amount <= s.cfg.maxLoan
    && tx.call.ids != [] && Signed(tx.call.borrower, tx.signers)
  }

  /** What a request is refused for before its collateral is looked at. */
  lemma RequestClosed(s: State, tx: Tx)
    requires ConfigOk(s.cfg) && tx.call.RequestLoan? && !RequestOpen(s, tx)
    ensures var o := Step(s, tx);
      if !Initialized(s) then o == Err(NotInitialized)
      else if Paused(s.cfg, s.now) then o == Err(ContractPaused)
      else if !(s.cfg.minLoan <= tx.call.amount <= s.cfg.maxLoan) then o == Err(InvalidAmount)
      else if tx.call.ids == [] then o == Err(CollateralNotFound)
      else o == Trap
  {
    hide Lending.Pledge, Lending.Approve, Lending.PayOut, Lending.Originated;
  }

  /** Which of its listed collateral it is refused for. */
  lemma RequestRefused(s: State, tx: Tx)
    requires Inv(s) && tx.call.RequestLoan? && RequestOpen(s, tx)
    ensures var call, cs := tx.call, s.book.collaterals;
      && (Step(s, tx) == Err(CollateralNotFound) <==> FirstMissing(cs, call.ids, call.borrower))
      && (Step(s, tx) == Err(Unauthorized) <==> FirstForeign(cs, call.ids, call.borrower))
  {
    ValuesPositive(s);
    assert 0 < s.cfg.minLoan;
    PledgeRefused(s.book.collaterals, tx.call.ids, tx.call.borrower);
    hide Inv, GoodUpTo, FirstMissing, FirstForeign, Lending.Pledge, Lending.Approve, Lending.PayOut, Lending.Originated;
    ApproveErrors(s, tx);
  }

  lemma ValuesPositive(s: State)
    requires Inv(s)
    ensures AllValued(s.book.collaterals)
  {
    forall c | c in s.book.collaterals ensures 0 < s.book.collaterals[c].appraisedValue {
      assert CollateralOk(s.book.collaterals[c]);
    }
  }

  /** After the collateral is accepted neither of its errors comes any more. */
  lemma ApproveErrors(s: State, tx: Tx)
    requires tx.call.RequestLoan?
    ensures var pledge := Lending.Pledge(s.book.collaterals, tx.call.ids, tx.call.borrower);
      pledge.Done? ==>
        var o := Lending.Approve(pledge.value, tx.call.amount, s.cfg.ltv, s.cfg.origFee);
        && !o.Trap? && (o.Err? ==> o.error == InvalidAmount || o.error == InsufficientCollateral)
        && (o.Done? ==> !Lending.PayOut(s.balances, s.cfg.treasury, tx.call.borrower, o.value).Err?)
  {
    hide Lending.Pledge;
  }

  /** With good collateral: too little of it, or no id left, or a sum that does not fit, or a transfer that fails. */
  lemma PricedRefused(s: State, tx: Tx)
    requires Inv(s) && tx.call.RequestLoan? && RequestOpen(s, tx)
    requires AllOwned(s.book.collaterals, tx.call.ids, tx.call.borrower)
    ensures var call, o := tx.call, Step(s, tx);
      var total := Total(s.book.collaterals, call.ids);
      var fits := Fits(total) && Fits(total * s.cfg.ltv);
      && (o == Err(InsufficientCollateral) <==> fits && total * s.cfg.ltv < call.amount * BPS)
      && (o == Err(ArithmeticOverflow) <==>
          && fits && call.amount * BPS <= total * s.cfg.ltv && Fits(call.amount * s.cfg.origFee)
          && s.book.loanCounter == U64_MAX)
      && (o == Err(InvalidAmount) <==>
          !fits || (call.amount * BPS <= total * s.cfg.ltv && !Fits(call.amount * s.cfg.origFee)))
      && (o.Done? || o == Trap || o == Err(InsufficientCollateral) || o == Err(ArithmeticOverflow)
          || o == Err(InvalidAmount))
  {
    var call := tx.call;
    ValuesPositive(s);
    assert ConfigOk(s.cfg);
    PledgeIsTotal(s.book.collaterals, call.ids, call.borrower);
    PledgeRefused(s.book.collaterals, call.ids, call.borrower);
    NoneBadBefore(s.book.collaterals, call.ids, call.borrower);
    hide Inv, AllOwned, GoodUpTo, FirstMissing, FirstForeign, Total;
    hide Lending.Pledge, Lending.Approve, Lending.PayOut, Lending.Originated;
    ApproveErrors(s, tx);
    var pledge := Lending.Pledge(s.book.collaterals, call.ids, call.borrower);
    if pledge.Done? {
      ApproveRefused(pledge.value, call.amount, s.cfg.ltv, s.cfg.origFee);
    }
  }

  lemma ApproveRefused(total: I128, amount: I128, ltv: U32, origFee: U32)
    requires 0 < total && 0 < amount && origFee <= 500
    ensures var o := Lending.Approve(total, amount, ltv, origFee);
      && (o == Err(InsufficientCollateral) <==> Fits(total * ltv) && total * ltv < amount * BPS)
      && (o == Err(InvalidAmount) <==>
          !Fits(total * ltv) || (amount * BPS <= total * ltv && !Fits(amount * origFee)))
      && (o.Done? <==> Fits(total * ltv) && amount * BPS <= total * ltv && Fits(amount * origFee))
  {
    MulMono(total, 0, ltv);
    MulMono(amount, 0, origFee);
    MulMono(amount, origFee, 500);
    FloorBelow(total * ltv, BPS, amount);
    FloorBounds(amount * origFee, BPS);
  }

  // -- health_factor, repay_loan and liquidate ---------------------------------------------

  /** Without a loan; `Effects.QueryAnswersExactly` has the answers when there is one. */
  lemma QueryRefused(s: State, tx: Tx)
    requires tx.call.QueryHealthFactor? && tx.call.loanId !in s.book.loans
    ensures Step(s, tx) == Err(LoanNotFound)
  {
  }

  lemma RepaymentRefused(s: State, tx: Tx)
    requires Inv(s) && tx.call.RepayLoan?
    ensures var call, o := tx.call, Step(s, tx);
      && (!Initialized(s) ==> o == Err(NotInitialized))
      && (Initialized(s) ==>
            if call.amount <= 0 then o == Err(InvalidAmount)
            else if !Signed(call.borrower, tx.signers) then o == Trap
            else if call.loanId !in s.book.loans then o == Err(LoanNotFound)
            else if s.book.loans[call.loanId].borrower != call.borrower then o == Err(Unauthorized)
            else if s.book.loans[call.loanId].status != Active then o == Err(LoanAlreadyClosed)
            else o.Done? || o == Trap || o == Err(InvalidAmount))
  {
    hide Inv, Lending.Accrued, Lending.SplitPayment, Lending.Collect, Lending.FeeEvents;
    if tx.call.loanId in s.book.loans {
      LateErrors(s, tx);
    }
  }

  lemma LateErrors(s: State, tx: Tx)
    requires tx.call.RepayLoan? && tx.call.loanId in s.book.loans
    ensures var loan := Lending.Accrued(s.book.loans[tx.call.loanId], s.cfg.intFee, s.now);
      var o := Lending.SplitPayment(loan, s.cfg.intFee, tx.call.amount);
      && !o.Trap? && (o.Err? ==> o.error == InvalidAmount)
      && (o.Done? ==> !Lending.Collect(s.balances, s.cfg.treasury, tx.call.borrower, o.value).Err?)
  {
    hide Lending.Accrued;
  }

  lemma LiquidationRefused(s: State, tx: Tx)
    requires Inv(s) && tx.call.Liquidate?
    ensures var call, o, w := tx.call, Step(s, tx), s.whitelist.entries;
      && (!Initialized(s) ==> o == Err(NotInitialized))
      && (Initialized(s) ==>
            if Paused(s.cfg, s.now) then o == Err(ContractPaused)
            else if call.amount <= 0 then o == Err(InvalidAmount)
            else if !Signed(call.liquidator, tx.signers) then o == Trap
            else if w != {} && call.liquidator !in w then o == Err(LiquidatorNotWhitelisted)
            else if call.loanId !in s.book.loans then o == Err(LoanNotFound)
            else if s.book.loans[call.loanId].status != Active then o == Err(LoanAlreadyClosed)
            else LiquidationVerdict(s, tx, o))
  {
    Liquidation.GateIsMembership(s.whitelist, tx.call.liquidator);
    if tx.call.loanId in s.book.loans && s.book.loans[tx.call.loanId].status == Active {
      var loan := s.book.loans[tx.call.loanId];
      assert LoanOk(loan, tx.call.loanId, s.now);
      assert Initialized(s) && s.cfg.closeFactor <= 10_000;
      Liquidation.CapDecides(loan, tx.call.loanId, s.cfg.closeFactor, tx.call.amount, s.now);
      Liquidation.FactorDefined(loan, tx.call.loanId, s.cfg.liqThr, s.now);
      MulMono(loan.totalCollateralValue, 0, s.cfg.liqThr);
      FactorError(loan, s.cfg.liqThr);
      if Lending.HealthFactor(loan, s.cfg.liqThr).Done? {
        Liquidation.FactorDecides(loan, s.cfg.liqThr);
      }
      hide Inv, Lending.HealthFactor, Lending.MayLiquidate;
    }
  }

  lemma FactorError(loan: LoanRecord, thr: U32)
    ensures Lending.HealthFactor(loan, thr).Err? ==> Lending.HealthFactor(loan, thr) == Err(InvalidAmount)
  {
  }

  /** On an active loan: not computable, safe, above the close factor, or a transfer that fails. */
  predicate LiquidationVerdict(s: State, tx: Tx, o: Outcome<Commit>)
    requires tx.call.Liquidate? && tx.call.loanId in s.book.loans
  {
    var loan := s.book.loans[tx.call.loanId];
    var weighted := loan.totalCollateralValue * s.cfg.liqThr;
    if !Fits(loan.outstanding + loan.interestAccrued) || !Fits(weighted) || !Fits(loan.outstanding * BPS)
    then o == Err(InvalidAmount)
    else if !Fits(weighted * BPS) then o == Trap
    else if BPS * loan.outstanding <= weighted then o == Err(HealthFactorSafe)
    else if loan.outstanding * s.cfg.closeFactor < tx.call.amount * BPS then o == Err(ExceedsCloseFactor)
    else o.Done? || o == Trap
  }

  // -- livestock and prices ----------------------------------------------------------------

  lemma RegistrationRefused(s: State, tx: Tx)
    requires tx.call.RegisterLivestock?
    ensures var call, o := tx.call, Step(s, tx);
      if !Initialized(s) then o == Err(NotInitialized)
      else if Paused(s.cfg, s.now) then o == Err(ContractPaused)
      else if call.value <= 0 || call.count == 0
              || (call.animalType in s.cfg.animalCaps && s.cfg.animalCaps[call.animalType] < call.value)
      then o == Err(InvalidAmount)
      else if !Signed(call.owner, tx.signers) then o == Trap
      else if s.book.collateralCounter == U64_MAX then o == Err(ArithmeticOverflow)
      else o.Done?
  {
  }

  lemma AppraisalRefused(s: State, tx: Tx)
    requires tx.call.UpdateAppraisal?
    ensures var call, o := tx.call, Step(s, tx);
      if !Initialized(s) then o == Err(NotInitialized)
      else if Paused(s.cfg, s.now) then o == Err(ContractPaused)
      else if call.value <= 0 then o == Err(InvalidAmount)
      else if !Signed(call.owner, tx.signers) then o == Trap
      else if call.collateralId !in s.book.collaterals then o == Err(CollateralNotFound)
      else if s.book.collaterals[call.collateralId].owner != call.owner then o == Err(Unauthorized)
      else o.Done?
  {
  }

  lemma SubmissionRefused(s: State, tx: Tx)
    requires Inv(s) && tx.call.SubmitOraclePrices?
    ensures var prices, o := tx.call.prices, Step(s, tx);
      if !Initialized(s) then o == Err(NotInitialized)
      else if !Signed(tx.call.submitter, tx.signers) then o == Trap
      else if |prices| != |Oracles.Registered(s)| then o == Err(InvalidPrice)
      else if exists k :: 0 <= k < |prices| && !(0 < prices[k] < 1_000_000_000_000_000_000) then o == Err(InvalidPrice)
      else if |prices| < s.cfg.minQuorum then o == Err(InsufficientOracleQuorum)
      else if prices == [] then o == Trap
      else o.Done?
  {
    hide Oracles.AcceptedMedian, Oracles.Flagged, Oracles.Registered;
    assert |Oracles.Registered(s)| <= 5;
  }

  lemma QuoteRefused(s: State, tx: Tx)
    requires tx.call.SubmitPrice?
    ensures var o := Step(s, tx);
      if !Initialized(s) then o == Err(NotInitialized)
      else if !Signed(tx.call.oracle, tx.signers) then o == Trap
      else if tx.call.oracle != s.cfg.oracle then o == Err(Unauthorized)
      else if tx.call.price <= 0 then o == Err(InvalidPrice)
      else o.Done?
  {
  }

  // -- administration ----------------------------------------------------------------------

  /** What the admin's own signed calls are refused for. */
  lemma AdminRefused(s: State, tx: Tx)
    requires Inv(s) && Initialized(s)
    ensures var call, o := tx.call, Step(s, tx);
      && (call.Pause? && Entries.ByAdmin(s, call.admin, tx.signers) ==>
            if Paused(s.cfg, s.now) then o == Err(AlreadyPaused)
            else if U64_MAX < s.now + s.cfg.pauseDur then o == Err(ArithmeticOverflow)
            else o.Done?)
      && (call.Unpause? && Entries.ByAdmin(s, call.admin, tx.signers) && !Paused(s.cfg, s.now) ==> o == Err(NotPaused))
      && (call.EmergencyWithdraw? && Entries.ByAdmin(s, call.admin, tx.signers) && !Paused(s.cfg, s.now) ==>
            o == Err(NotPaused))
      && (call.CancelUpgrade? && Entries.ByAdmin(s, call.admin, tx.signers) && s.upgrade.pendingWasm.None? ==>
            o == Err(NoUpgradePending))
      && (call.AcceptAdmin? && s.cfg.pendingAdmin != Some(call.admin) ==> o == Err(Unauthorized))
      && (call.Initialize? ==> o == Err(AlreadyInitialized))
  {
    hide Inv, Governance.Applied;
  }

  lemma RegistryRefused(s: State, tx: Tx)
    requires Inv(s) && Initialized(s) && (tx.call.AddOracle? || tx.call.RemoveOracle?)
    requires Entries.ByAdmin(s, tx.call.admin, tx.signers)
    ensures var call, o, list := tx.call, Step(s, tx), Oracles.Registered(s);
      && (call.AddOracle? ==>
            if Paused(s.cfg, s.now) then o == Err(ContractPaused)
            else if call.oracle in list then o == Err(OracleAlreadyRegistered)
            else if |list| == 5 then o == Err(OracleLimitReached)
            else o.Done?)
      && (call.RemoveOracle? ==>
            if call.oracle !in list then o == Err(OracleNotFound)
            else o.Done? || o == Err(OracleRequired))
  {
    assert |Oracles.Registered(s)| <= 5;
    hide Inv, Oracles.Registered, Oracles.AnyActive, Oracles.FirstIndex;
  }
}
