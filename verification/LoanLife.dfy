/** One loan followed through a whole run. */
module LoanLife {
  import opened Numeric
  import opened Protocol
  import opened Machine
  import opened Invariant
  import opened Lifecycle
  import opened Frames
  import Lending

  predicate SameTerms(l: LoanRecord, after: LoanRecord) {
    && after.id == l.id && after.borrower == l.borrower && after.collateralIds == l.collateralIds
    && after.totalCollateralValue == l.totalCollateralValue && after.principal == l.principal
    && after.dueLedger == l.dueLedger
  }

  predicate SameDebt(l: LoanRecord, after: LoanRecord) {
    && after.outstanding == l.outstanding && after.interestAccrued == l.interestAccrued
    && after.lastInterestTime == l.lastInterestTime && after.status == l.status
  }

  /** A committed repayment or liquidation of this loan. */
  ghost predicate Repays(s: State, tx: Tx, id: nat) {
    tx.call.RepayLoan? && tx.call.loanId == id && Step(s, tx).Done?
  }

  ghost function RepaymentsOf(id: nat): (State, Tx) -> int {
    (s: State, tx: Tx) => if Repays(s, tx, id) then 1 else 0
  }

  ghost predicate Hits(s: State, tx: Tx, id: nat) {
    tx.call.Liquidate? && tx.call.loanId == id && Step(s, tx).Done?
  }

  /** Nothing but its own repayments and liquidations touches a loan's debt, and nothing touches its terms. */
  lemma OtherStepSameDebt(s: State, tx: Tx, id: nat)
    requires id <= s.book.loanCounter && id in s.book.loans && !Repays(s, tx, id) && !Hits(s, tx, id)
    ensures id in Apply(s, tx).book.loans
    ensures SameTerms(s.book.loans[id], Apply(s, tx).book.loans[id])
    ensures SameDebt(s.book.loans[id], Apply(s, tx).book.loans[id])
  {
    hide Lending.Pledge, Lending.Approve, Lending.PayOut, Lending.Linked, Lending.Collect, Lending.HealthFactor;
    if tx.call.RequestLoan? {
      if Step(s, tx).Done? {
        var total, terms :=
          RequestParts(s, tx.signers, tx.call.borrower, tx.call.ids, tx.call.amount, tx.call.duration);
      }
    } else if !TouchesLoans(tx.call) {
      hide Step;
      Frame(s, tx);
    }
  }

  /** Only a granted request adds a loan, and none disappears. */
  lemma SameTable(s: State, tx: Tx)
    requires Inv(s) && !(tx.call.RequestLoan? && Step(s, tx).Done?)
    ensures forall id :: id in Apply(s, tx).book.loans <==> id in s.book.loans
  {
    hide Step;
    StepKeeps(s, tx);
    Frame(s, tx);
    assert BookOk(Apply(s, tx).book, Apply(s, tx).now);
  }

  /** The record before and after a committed repayment. */
  lemma RepayStep(s: State, tx: Tx, id: nat) returns (loan: LoanRecord, split: Lending.Split)
    requires Inv(s) && id in s.book.loans && Repays(s, tx, id)
    ensures s.book.loans[id].status == Active && Signed(tx.call.borrower, tx.signers)
    ensures loan == Lending.Accrued(s.book.loans[id], s.cfg.intFee, s.now) && LoanOk(loan, id, s.now)
    ensures Lending.SplitPayment(loan, s.cfg.intFee, tx.call.amount) == Done(split)
    ensures var debt := loan.outstanding + loan.interestAccrued;
      && Fits(debt) && split.interest + split.principal == Min(tx.call.amount, debt)
      && 0 <= split.interest <= loan.interestAccrued && 0 <= split.principal <= loan.outstanding
    ensures var after := Apply(s, tx);
      && after.book == s.book.(loans := s.book.loans[id := Lending.Settled(loan, split)])
      && after.log == Lending.FeeEvents(s.log, id, Interest, split.fee, s.cfg.treasury)
                      + [LoanRepaid(tx.call.borrower, id, split.principal, split.interest,
                                    loan.outstanding - split.principal)]
      && after.cfg == s.cfg && after.now == s.now
  {
    var record := s.book.loans[id];
    assert LoanOk(record, id, s.now) && s.cfg.intFee <= 1000;
    hide Inv, Lending.Accrued, Lending.SplitPayment, Lending.Collect, Lending.FeeEvents;
    loan := Lending.Accrued(record, s.cfg.intFee, s.now);
    AccruedOk(record, id, s.cfg.intFee, s.now);
    split := Lending.SplitPayment(loan, s.cfg.intFee, tx.call.amount).value;
    PaymentMeaning(loan, id, s.cfg.intFee, tx.call.amount, s.now);
    PaidDebtFits(loan, s.cfg.intFee, tx.call.amount);
  }

  lemma AccruedOk(record: LoanRecord, id: nat, bps: U32, now: U64)
    requires LoanOk(record, id, now)
    ensures LoanOk(Lending.Accrued(record, bps, now), id, now)
    ensures Lending.Accrued(record, bps, now).status == record.status
  {
    AccrualIsCappedProduct(record, bps, now);
    hide Lending.Accrual;
  }

  lemma PaidDebtFits(loan: LoanRecord, bps: U32, amount: I128)
    requires Lending.SplitPayment(loan, bps, amount).Done?
    ensures Fits(loan.outstanding + loan.interestAccrued)
  {
  }

  /** The record before and after a committed liquidation. */
  lemma HitStep(s: State, tx: Tx, id: nat)
    requires Inv(s) && id in s.book.loans && Hits(s, tx, id)
    ensures var loan, after := s.book.loans[id], Apply(s, tx);
      var left := loan.outstanding - tx.call.amount;
      && loan.status == Active && 0 < tx.call.amount && 0 <= left
      && tx.call.amount * BPS <= loan.outstanding * s.cfg.closeFactor
      && after.book == s.book.(loans := s.book.loans[id := loan.(
           outstanding := left, status := if left == 0 then Liquidated else Active)])
      && after.cfg == s.cfg && after.now == s.now
      && after.log == s.log + [LoanLiquidated(id, tx.call.liquidator, tx.call.amount, left,
                                              if left == 0 then Liquidated else Active)]
  {
    var loan := s.book.loans[id];
    MulMono(loan.outstanding, 0, s.cfg.closeFactor);
    MulMono(loan.outstanding, s.cfg.closeFactor, 10_000);
    FloorBounds(loan.outstanding * s.cfg.closeFactor, BPS);
  }

  /** Terms are fixed at origination, principal owed never rises, the accrual clock never goes back. */
  lemma LoanStep(s: State, tx: Tx, id: nat)
    requires Inv(s) && id in s.book.loans
    ensures id in Apply(s, tx).book.loans
    ensures var l, after := s.book.loans[id], Apply(s, tx).book.loans[id];
      && SameTerms(l, after) && after.outstanding <= l.outstanding && l.lastInterestTime <= after.lastInterestTime
      && (l.status != Active ==> SameDebt(l, after))
  {
    if Repays(s, tx, id) {
      var loan, split := RepayStep(s, tx, id);
    } else if Hits(s, tx, id) {
      HitStep(s, tx, id);
    } else {
      OtherStepSameDebt(s, tx, id);
    }
  }

  /**
   * Through any run a loan keeps its terms, its principal owed only falls, and once Repaid or
   * Liquidated its debt and status never change again.
   */
  lemma {:induction false} LoanRun(s: State, txs: seq<Tx>, id: nat)
    requires Inv(s) && id in s.book.loans
    ensures id in Run(s, txs).book.loans
    ensures var l, after := s.book.loans[id], Run(s, txs).book.loans[id];
      && SameTerms(l, after) && after.outstanding <= l.outstanding && l.lastInterestTime <= after.lastInterestTime
      && (l.status != Active ==> SameDebt(l, after))
    decreases |txs|
  {
    if |txs| > 0 {
      LoanStep(s, txs[0], id);
      StepKeeps(s, txs[0]);
      LoanRun(Apply(s, txs[0]), txs[1..], id);
    }
  }

  /** The contract holds what fee and payout take from it, and the receivers have room for their parts. */
  predicate Payable(b: Balances, treasury: Address, borrower: Address, fee: int, payout: int) {
    && (if treasury == Contract then Max(fee, payout) else fee + payout) <= Balance(b, Contract)
    && (treasury != Contract ==> Balance(b, treasury) + fee <= I128_MAX)
    && Balance(b, borrower) + payout + (if treasury == borrower then fee else 0) <= I128_MAX
  }

  /** When the two legs of a payout go through. */
  lemma PayOutWorks(b: Balances, treasury: Address, borrower: Address, terms: Lending.Terms)
    requires FundsOk(b) && borrower != Contract && 0 <= terms.fee && 0 <= terms.disbursement
    ensures Lending.PayOut(b, treasury, borrower, terms).Done?
            <==> Payable(b, treasury, borrower, terms.fee, terms.disbursement)
  {
    if terms.fee > 0 && Transfer(b, Contract, treasury, terms.fee).Done? {
      TransferMoves(b, Contract, treasury, terms.fee);
    }
  }

  /** When the price arithmetic approves, without a division. */
  lemma ApprovedExactly(total: I128, amount: I128, ltv: U32, origFee: U32)
    requires 0 < amount && 0 < total && origFee <= 500
    ensures Lending.Approve(total, amount, ltv, origFee).Done?
            <==> Fits(total * ltv) && amount * BPS <= total * ltv && Fits(amount * origFee)
    ensures Lending.Approve(total, amount, ltv, origFee).Done? ==>
      var fee := amount * origFee / BPS;
      0 <= fee <= amount && Lending.Approve(total, amount, ltv, origFee).value == Lending.Terms(fee, amount - fee)
  {
    MulMono(total, 0, ltv);
    MulMono(amount, 0, origFee);
    MulMono(amount, origFee, 500);
    FloorBelow(total * ltv, BPS, amount);
    FloorBounds(amount * origFee, BPS);
  }

  /**
   * Exactly when a request is granted: a live contract, an amount within the limits and the
   * loan-to-value ratio of all that is listed, everything listed the borrower's own and the borrower
   * signing, products that fit, and tokens to pay out.
   */
  lemma RequestGrantedExactly(s: State, tx: Tx)
    requires Inv(s) && tx.call.RequestLoan?
    ensures Step(s, tx).Done? <==>
      && Initialized(s) && !Paused(s.cfg, s.now) && Signed(tx.call.borrower, tx.signers)
      && s.cfg.minLoan <= tx.call.amount <= s.cfg.maxLoan
      && tx.call.ids != [] && AllOwned(s.book.collaterals, tx.call.ids, tx.call.borrower)
      && s.book.loanCounter < U64_MAX
      && var total := Total(s.book.collaterals, tx.call.ids);
         var fee := tx.call.amount * s.cfg.origFee / BPS;
         && Fits(total) && Fits(total * s.cfg.ltv) && Fits(tx.call.amount * s.cfg.origFee)
         && tx.call.amount * BPS <= total * s.cfg.ltv
         && Payable(s.balances, s.cfg.treasury, tx.call.borrower, fee, tx.call.amount - fee)
  {
    var ids, borrower, amount := tx.call.ids, tx.call.borrower, tx.call.amount;
    forall c | c in s.book.collaterals ensures 0 < s.book.collaterals[c].appraisedValue {
      assert CollateralOk(s.book.collaterals[c]);
    }
    hide BookOk, Lending.Pledge, Lending.Approve, Lending.PayOut, Payable, Total, Lending.Originated;
    PledgeIsTotal(s.book.collaterals, ids, borrower);
    var pledge := Lending.Pledge(s.book.collaterals, ids, borrower);
    if Lending.RequestGuard(s, tx.signers, borrower, ids, amount).Pass? && pledge.Done? {
      ApprovedExactly(pledge.value, amount, s.cfg.ltv, s.cfg.origFee);
      var approved := Lending.Approve(pledge.value, amount, s.cfg.ltv, s.cfg.origFee);
      if approved.Done? {
        PayOutWorks(s.balances, s.cfg.treasury, borrower, approved.value);
      }
    }
  }

  /** When the division of a payment completes, and what it gives. */
  lemma SplitExactly(loan: LoanRecord, bps: U32, amount: I128)
    requires 0 <= loan.outstanding && 0 <= loan.interestAccrued && 0 < amount && bps <= 1000
    ensures var debt := loan.outstanding + loan.interestAccrued;
      var interest := Min(loan.interestAccrued, Min(amount, debt));
      var o := Lending.SplitPayment(loan, bps, amount);
      && (o.Done? <==> Fits(debt) && Fits(interest * bps))
      && (o.Done? ==> o.value == Lending.Split(interest, Min(amount, debt) - interest, interest * bps / BPS)
                      && 0 <= o.value.fee <= interest)
  {
    var interest := Min(loan.interestAccrued, Min(amount, loan.outstanding + loan.interestAccrued));
    MulMono(interest, 0, bps);
    MulMono(interest, bps, 1000);
  }

  /**
   * Exactly when a repayment of any size goes through, paused or not: signed by the borrower of an
   * active loan, sums that fit, and tokens and room for the payment and the treasury's cut.
   */
  lemma RepaysExactly(s: State, tx: Tx)
    requires Inv(s) && tx.call.RepayLoan?
    ensures Step(s, tx).Done? <==>
      && 0 < tx.call.amount && Signed(tx.call.borrower, tx.signers) && tx.call.loanId in s.book.loans
      && s.book.loans[tx.call.loanId].borrower == tx.call.borrower && s.book.loans[tx.call.loanId].status == Active
      && var loan := Lending.Accrued(s.book.loans[tx.call.loanId], s.cfg.intFee, s.now);
         var debt := loan.outstanding + loan.interestAccrued;
         var paid := Min(tx.call.amount, debt);
         var interest := Min(loan.interestAccrued, paid);
         && Fits(debt) && Fits(interest * s.cfg.intFee)
         && paid <= Balance(s.balances, tx.call.borrower)
         && Balance(s.balances, Contract) + paid <= I128_MAX
         && (interest * s.cfg.intFee / BPS > 0 && s.cfg.treasury != Contract && s.cfg.treasury != tx.call.borrower
             ==> Balance(s.balances, s.cfg.treasury) + interest * s.cfg.intFee / BPS <= I128_MAX)
  {
    hide Lending.Accrued, Lending.SplitPayment, Lending.Collect, Lending.FeeEvents;
    if tx.call.loanId in s.book.loans && s.book.loans[tx.call.loanId].status == Active && 0 < tx.call.amount {
      var record := s.book.loans[tx.call.loanId];
      assert LoanOk(record, tx.call.loanId, s.now) && s.cfg.intFee <= 1000;
      AccruedDebt(record, tx.call.loanId, s.cfg.intFee, s.now);
      var loan := Lending.Accrued(record, s.cfg.intFee, s.now);
      SplitExactly(loan, s.cfg.intFee, tx.call.amount);
      var split := Lending.SplitPayment(loan, s.cfg.intFee, tx.call.amount);
      if split.Done? && Signed(tx.call.borrower, tx.signers) {
        CollectWorks(s.balances, s.cfg.treasury, tx.call.borrower, split.value);
      }
    }
  }

  lemma AccruedDebt(record: LoanRecord, id: nat, bps: U32, now: U64)
    requires LoanOk(record, id, now)
    ensures var loan := Lending.Accrued(record, bps, now);
      0 <= loan.interestAccrued && loan.outstanding == record.outstanding && loan.borrower == record.borrower
  {
    AccrualIsCappedProduct(record, bps, now);
  }

  /**
   * One payment that covers the debt closes an active loan, paused or not, exactly when the sums
   * fit, the borrower has the tokens and the receivers have room for them.
   */
  lemma OnePaymentCloses(s: State, signers: set<Address>, id: nat, amount: I128)
    requires Inv(s) && id in s.book.loans && s.book.loans[id].status == Active
    requires Signed(s.book.loans[id].borrower, signers) && 0 < amount
    requires var loan := Lending.Accrued(s.book.loans[id], s.cfg.intFee, s.now);
      loan.outstanding + loan.interestAccrued <= amount
    ensures var loan := Lending.Accrued(s.book.loans[id], s.cfg.intFee, s.now);
      var debt := loan.outstanding + loan.interestAccrued;
      var fee := loan.interestAccrued * s.cfg.intFee / BPS;
      var o := Lending.RepayLoan(s, signers, loan.borrower, id, amount);
      && (o.Done? ==> o.value.state.book.loans[id].status == Repaid
                      && o.value.state.book.loans[id].outstanding == 0
                      && o.value.state.book.loans[id].interestAccrued == 0)
      && (o.Done? <==>
          && Fits(loan.interestAccrued * s.cfg.intFee)
          && debt <= Balance(s.balances, loan.borrower)
          && Balance(s.balances, Contract) + debt <= I128_MAX
          && (fee > 0 && s.cfg.treasury != Contract && s.cfg.treasury != loan.borrower
              ==> Balance(s.balances, s.cfg.treasury) + fee <= I128_MAX))
  {
    var loan := Lending.Accrued(s.book.loans[id], s.cfg.intFee, s.now);
    var tx := Tx(signers, RepayLoan(loan.borrower, id, amount));
    assert Step(s, tx) == Lending.RepayLoan(s, signers, loan.borrower, id, amount);
    hide Step, Lending.RepayLoan;
    AccruedDebt(s.book.loans[id], id, s.cfg.intFee, s.now);
    RepaysExactly(s, tx);
    if Step(s, tx).Done? {
      var accrued, split := RepayStep(s, tx, id);
      PaymentMeaning(loan, id, s.cfg.intFee, amount, s.now);
    }
  }

  /** When the two legs of a collection go through. */
  lemma CollectWorks(b: Balances, treasury: Address, borrower: Address, split: Lending.Split)
    requires FundsOk(b) && borrower != Contract && 0 <= split.interest && 0 <= split.principal
    requires 0 <= split.fee <= split.interest && Fits(split.interest + split.principal)
    ensures Lending.Collect(b, treasury, borrower, split).Done? <==>
            && split.interest + split.principal <= Balance(b, borrower)
            && Balance(b, Contract) + split.interest + split.principal <= I128_MAX
            && (split.fee > 0 && treasury != Contract && treasury != borrower
                ==> Balance(b, treasury) + split.fee <= I128_MAX)
  {
    var first := Transfer(b, borrower, Contract, split.interest + split.principal);
    if first.Done? {
      TransferMoves(b, borrower, Contract, split.interest + split.principal);
      assert Balance(first.value, Contract) >= split.fee;
    }
  }
}
