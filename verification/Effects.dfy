/**
 * What a committed call replies and writes, in the terms of the caller: stored records, balances and
 * events, without the functions that the calls are defined by.
 */
module Effects {
  import opened Numeric
  import opened Wrappers
  import opened Protocol
  import opened Machine
  import opened Invariant
  import opened Lifecycle
  import opened Frames
  import opened LoanLife
  import opened Conservation
  import Lending
  import Governance
  import Oracles
  import Median

  /** A fee event when there is a fee. */
  function WithFee(log: seq<Event>, id: nat, kind: FeeKind, fee: int, to: Address): seq<Event>
    requires Fits(fee)
  {
    if fee > 0 then log + [FeeCollected(id, kind, fee, to)] else log
  }

  // -- register_livestock and update_appraisal ---------------------------------------------

  /** When a registration succeeds: live contract, signing owner, some animals, a value within the cap of their kind. */
  lemma RegistersExactly(s: State, tx: Tx)
    requires tx.call.RegisterLivestock?
    ensures var call := tx.call;
      Step(s, tx).Done? <==>
      && Initialized(s) && !Paused(s.cfg, s.now) && Signed(call.owner, tx.signers)
      && 0 < call.value && call.count > 0
      && (forall kind :: kind in s.cfg.animalCaps && kind == call.animalType ==> call.value <= s.cfg.animalCaps[kind])
      && s.book.collateralCounter < U64_MAX
    ensures Step(s, tx).Done? ==>
      var id := s.book.collateralCounter + 1;
      var call := tx.call;
      var record := CollateralRecord(call.owner, call.animalType, call.count, call.value, 0, [call.value]);
      && Step(s, tx).value.reply == Id(id)
      && Apply(s, tx) == s.(book := s.book.(collaterals := s.book.collaterals[id := record], collateralCounter := id))
  {
  }

  /**
   * When an appraisal succeeds: a live contract and a positive value, signed by the owner of an
   * existing collateral. It replaces the value and keeps the newest three of the history.
   */
  lemma AppraisesExactly(s: State, tx: Tx)
    requires Inv(s) && tx.call.UpdateAppraisal?
    ensures var call := tx.call;
      Step(s, tx).Done? <==>
      && Initialized(s) && !Paused(s.cfg, s.now) && Signed(call.owner, tx.signers) && 0 < call.value
      && call.collateralId in s.book.collaterals && s.book.collaterals[call.collateralId].owner == call.owner
    ensures Step(s, tx).Done? ==>
      var id, value := tx.call.collateralId, tx.call.value;
      var c := s.book.collaterals[id];
      var h := c.appraisalHistory;
      var history := if |h| < 3 then h + [value] else [h[|h| - 2], h[|h| - 1], value];
      && Step(s, tx).value.reply == Unit
      && Apply(s, tx) == s.(book := s.book.(collaterals := s.book.collaterals[
           id := c.(appraisedValue := value, appraisalHistory := history)]))
  {
    if Step(s, tx).Done? {
      var c := s.book.collaterals[tx.call.collateralId];
      AppraisalRolls(s, tx.call.collateralId, tx.call.value);
    }
  }

  lemma AppraisalRolls(s: State, id: nat, value: I128)
    requires Inv(s) && id in s.book.collaterals
    ensures var h := s.book.collaterals[id].appraisalHistory;
      Lending.Rolled(3, h, value) == if |h| < 3 then h + [value] else [h[|h| - 2], h[|h| - 1], value]
  {
    assert CollateralOk(s.book.collaterals[id]);
  }

  // -- request_loan ------------------------------------------------------------------------

  /**
   * What a granted request replies and stores: the next id, and under it the borrower's loan on the
   * listed total, all of it owed, due after the duration if there is one, with no interest yet and the
   * accrual clock at now; every listed collateral points to it, and nothing else in the tables changes.
   */
  lemma RequestRecords(s: State, tx: Tx)
    requires Inv(s) && tx.call.RequestLoan? && Step(s, tx).Done?
    ensures var id, call := s.book.loanCounter + 1, tx.call;
      var after := Apply(s, tx).book;
      var due := if call.duration.Some? then Some(Min(s.now + call.duration.value, U64_MAX)) else None;
      && Step(s, tx).value.reply == Id(id) && after.loanCounter == id && id !in s.book.loans
      && Fits(Total(s.book.collaterals, call.ids))
      && after.loans == s.book.loans[id := LoanRecord(
           id, call.borrower, call.ids, Total(s.book.collaterals, call.ids), call.amount, call.amount, 0, s.now,
           Active, due, [])]
      && after.collaterals.Keys == s.book.collaterals.Keys
      && forall c :: c in s.book.collaterals ==>
           after.collaterals[c] == if c in call.ids then s.book.collaterals[c].(loanId := id) else s.book.collaterals[c]
  {
    forall c | c in s.book.collaterals ensures 0 < s.book.collaterals[c].appraisedValue {
      assert CollateralOk(s.book.collaterals[c]);
    }
    hide Lending.Pledge, Lending.Approve, Lending.PayOut, Lending.FeeEvents;
    PledgeIsTotal(s.book.collaterals, tx.call.ids, tx.call.borrower);
    var total, terms := RequestParts(s, tx.signers, tx.call.borrower, tx.call.ids, tx.call.amount, tx.call.duration);
  }

  /** What it pays: the fee to the treasury and the rest to the borrower, both from the contract. */
  lemma RequestPays(s: State, tx: Tx)
    requires Inv(s) && tx.call.RequestLoan? && Step(s, tx).Done?
    ensures var amount := tx.call.amount;
      var fee := amount * s.cfg.origFee / 10_000;
      && 0 <= fee <= amount
      && forall a ::
           Balance(Apply(s, tx).balances, a)
           == Balance(s.balances, a) + Flow(Contract, s.cfg.treasury, fee, a)
              + Flow(Contract, tx.call.borrower, amount - fee, a)
  {
    var total, terms := RequestTerms(s, tx);
    hide Step, Requested;
    PayOutMoves(s.balances, s.cfg.treasury, tx.call.borrower, terms);
  }

  lemma RequestTerms(s: State, tx: Tx) returns (total: I128, terms: Lending.Terms)
    requires Inv(s) && tx.call.RequestLoan? && Step(s, tx).Done?
    ensures var amount := tx.call.amount;
      var fee := amount * s.cfg.origFee / 10_000;
      && total == Total(s.book.collaterals, tx.call.ids) && 0 <= fee <= amount
      && terms.fee == fee && terms.disbursement == amount - fee
    ensures Lending.PayOut(s.balances, s.cfg.treasury, tx.call.borrower, terms) == Done(Apply(s, tx).balances)
    ensures tx.call.borrower != Contract
    ensures Apply(s, tx).log == Lending.FeeEvents(s.log, s.book.loanCounter + 1, Origination, terms.fee, s.cfg.treasury)
      + [LoanRequested(s.book.loanCounter + 1, tx.call.borrower, tx.call.amount, terms.disbursement, total)]
  {
    forall c | c in s.book.collaterals ensures 0 < s.book.collaterals[c].appraisedValue {
      assert CollateralOk(s.book.collaterals[c]);
    }
    assert ConfigOk(s.cfg);
    hide Inv, Lending.Pledge, Lending.Approve, Lending.PayOut, Lending.Linked, Lending.FeeEvents, Lending.NewLoan;
    PledgeIsTotal(s.book.collaterals, tx.call.ids, tx.call.borrower);
    total, terms := RequestParts(s, tx.signers, tx.call.borrower, tx.call.ids, tx.call.amount, tx.call.duration);
    ApprovedExactly(total, tx.call.amount, s.cfg.ltv, s.cfg.origFee);
  }

  /** What it publishes: the fee, if there is one, and the request. */
  lemma RequestPublishes(s: State, tx: Tx)
    requires Inv(s) && tx.call.RequestLoan? && Step(s, tx).Done?
    ensures var id, amount := s.book.loanCounter + 1, tx.call.amount;
      var fee := amount * s.cfg.origFee / 10_000;
      && 0 <= fee <= amount && Fits(Total(s.book.collaterals, tx.call.ids))
      && Apply(s, tx).log == WithFee(s.log, id, Origination, fee, s.cfg.treasury)
           + [LoanRequested(id, tx.call.borrower, amount, amount - fee, Total(s.book.collaterals, tx.call.ids))]
  {
    var total, terms := RequestTerms(s, tx);
    hide Step;
    FeeEventsAre(s.log, s.book.loanCounter + 1, Origination, terms.fee, s.cfg.treasury);
  }

  lemma FeeEventsAre(log: seq<Event>, id: nat, kind: FeeKind, fee: I128, to: Address)
    ensures Lending.FeeEvents(log, id, kind, fee, to) == WithFee(log, id, kind, fee, to)
  {
  }

  // -- repay_loan --------------------------------------------------------------------------

  /** The amounts of one payment: interest owed at the time, and what goes to interest, principal and treasury. */
  datatype Payment = Payment(owed: int, interest: int, principal: int, fee: int)

  /**
   * Interest accrues on the principal since the last accrual, at `rate` basis points a year of
   * 31 536 000 seconds; the payment, at most the debt, pays interest before principal; the treasury
   * gets `rate` basis points of the interest.
   */
  function PaymentOf(l: LoanRecord, rate: U32, now: U64, amount: int): Payment {
    var exact := l.outstanding * rate * (now - l.lastInterestTime);
    var owed := Min(l.interestAccrued + Min(exact, I128_MAX) / (10_000 * 31_536_000), I128_MAX);
    var paid := Min(amount, l.outstanding + owed);
    var interest := Min(owed, paid);
    Payment(owed, interest, paid - interest, interest * rate / 10_000)
  }

  lemma PaymentAmounts(l: LoanRecord, id: nat, rate: U32, now: U64, amount: I128)
    requires LoanOk(l, id, now) && rate <= 1000 && l.status == Active && 0 < amount
    requires Lending.SplitPayment(Lending.Accrued(l, rate, now), rate, amount).Done?
    ensures var loan := Lending.Accrued(l, rate, now);
      var p, split := PaymentOf(l, rate, now, amount), Lending.SplitPayment(loan, rate, amount).value;
      && split.interest == p.interest && split.principal == p.principal && split.fee == p.fee
      && 0 <= p.interest <= p.owed && 0 <= p.principal <= l.outstanding && 0 <= p.fee <= p.interest
      && (p.interest == p.owed && p.principal == l.outstanding <==> l.outstanding + p.owed <= amount)
      && loan.interestAccrued == p.owed && loan == l.(interestAccrued := loan.interestAccrued, lastInterestTime := now)
  {
    AccrualIs(l, id, rate, now);
    AccruedDebt(l, id, rate, now);
    var loan := Lending.Accrued(l, rate, now);
    hide Lending.Accrued, Lending.SplitPayment;
    SplitExactly(loan, rate, amount);
  }

  lemma AccrualIs(l: LoanRecord, id: nat, rate: U32, now: U64)
    requires LoanOk(l, id, now)
    ensures var exact := l.outstanding * rate * (now - l.lastInterestTime);
      var owed := Min(l.interestAccrued + Min(exact, I128_MAX) / (10_000 * 31_536_000), I128_MAX);
      0 <= owed && Lending.Accrued(l, rate, now) == l.(interestAccrued := owed, lastInterestTime := now)
  {
    AccrualIsCappedProduct(l, rate, now);
    assert SaturatingSub(now, l.lastInterestTime) == now - l.lastInterestTime;
    hide Lending.Accrual;
  }

  /** What a committed repayment writes; the loan is Repaid exactly when the debt is covered. */
  lemma RepaymentRecords(s: State, tx: Tx)
    requires Inv(s) && tx.call.RepayLoan? && Step(s, tx).Done?
    ensures tx.call.loanId in s.book.loans
    ensures var id := tx.call.loanId;
      var l := s.book.loans[id];
      var p := PaymentOf(l, s.cfg.intFee, s.now, tx.call.amount);
      && 0 <= p.interest <= p.owed <= I128_MAX && 0 <= p.principal <= l.outstanding && 0 <= p.fee <= p.interest
      && Step(s, tx).value.reply == Unit
      && Apply(s, tx).book == s.book.(loans := s.book.loans[id := l.(
           interestAccrued := p.owed - p.interest, outstanding := l.outstanding - p.principal,
           lastInterestTime := s.now,
           status := if l.outstanding + p.owed <= tx.call.amount then Repaid else Active)])
  {
    var l := s.book.loans[tx.call.loanId];
    assert LoanOk(l, tx.call.loanId, s.now) && s.cfg.intFee <= 1000 && 0 < tx.call.amount;
    var loan, split := RepayStep(s, tx, tx.call.loanId);
    RepliesUnit(s, tx);
    hide Step, Inv, PaymentOf, Lending.SplitPayment, Lending.Accrued, Lending.FeeEvents;
    PaymentAmounts(l, tx.call.loanId, s.cfg.intFee, s.now, tx.call.amount);
  }

  lemma RepliesUnit(s: State, tx: Tx)
    requires (tx.call.RepayLoan? || tx.call.Liquidate?) && Step(s, tx).Done?
    ensures Step(s, tx).value.reply == Unit
  {
    hide Lending.Accrued, Lending.SplitPayment, Lending.Collect, Lending.Settled, Lending.FeeEvents;
    hide Lending.HealthFactor;
  }

  lemma RepaymentTerms(s: State, tx: Tx) returns (split: Lending.Split)
    requires Inv(s) && tx.call.RepayLoan? && Step(s, tx).Done?
    ensures tx.call.loanId in s.book.loans && tx.call.borrower != Contract
    ensures var p := PaymentOf(s.book.loans[tx.call.loanId], s.cfg.intFee, s.now, tx.call.amount);
      && split.interest == p.interest && split.principal == p.principal && split.fee == p.fee
      && 0 <= p.interest <= p.owed && 0 <= p.principal <= s.book.loans[tx.call.loanId].outstanding
      && 0 <= p.fee <= p.interest
    ensures Lending.Collect(s.balances, s.cfg.treasury, tx.call.borrower, split) == Done(Apply(s, tx).balances)
    ensures var left := s.book.loans[tx.call.loanId].outstanding - split.principal;
      && Fits(left)
      && Apply(s, tx).log == Lending.FeeEvents(s.log, tx.call.loanId, Interest, split.fee, s.cfg.treasury)
           + [LoanRepaid(tx.call.borrower, tx.call.loanId, split.principal, split.interest, left)]
  {
    var id := tx.call.loanId;
    var l := s.book.loans[id];
    assert LoanOk(l, id, s.now) && s.cfg.intFee <= 1000 && 0 < tx.call.amount && l.status == Active;
    hide Inv, PaymentOf, Lending.Accrued, Lending.SplitPayment, Lending.Collect, Lending.FeeEvents;
    split := Lending.SplitPayment(Lending.Accrued(l, s.cfg.intFee, s.now), s.cfg.intFee, tx.call.amount).value;
    PaymentAmounts(l, id, s.cfg.intFee, s.now, tx.call.amount);
  }

  /** What it pays: the payment to the contract, and from that the treasury's cut. */
  lemma RepaymentPays(s: State, tx: Tx)
    requires Inv(s) && tx.call.RepayLoan? && Step(s, tx).Done?
    ensures tx.call.loanId in s.book.loans
    ensures var p := PaymentOf(s.book.loans[tx.call.loanId], s.cfg.intFee, s.now, tx.call.amount);
      forall a ::
        Balance(Apply(s, tx).balances, a)
        == Balance(s.balances, a) + Flow(tx.call.borrower, Contract, p.interest + p.principal, a)
           + Flow(Contract, s.cfg.treasury, p.fee, a)
  {
    var split := RepaymentTerms(s, tx);
    hide Step, PaymentOf;
    CollectMoves(s.balances, s.cfg.treasury, tx.call.borrower, split);
  }

  /** What it publishes: the cut, if there is one, and the repayment. */
  lemma RepaymentPublishes(s: State, tx: Tx)
    requires Inv(s) && tx.call.RepayLoan? && Step(s, tx).Done?
    ensures tx.call.loanId in s.book.loans
    ensures var id := tx.call.loanId;
      var l := s.book.loans[id];
      var p := PaymentOf(l, s.cfg.intFee, s.now, tx.call.amount);
      && 0 <= p.interest <= I128_MAX && 0 <= p.principal <= l.outstanding && 0 <= p.fee <= p.interest
      && Apply(s, tx).log == WithFee(s.log, id, Interest, p.fee, s.cfg.treasury)
           + [LoanRepaid(tx.call.borrower, id, p.principal, p.interest, l.outstanding - p.principal)]
  {
    var split := RepaymentTerms(s, tx);
    hide Step, PaymentOf;
    FeeEventsAre(s.log, tx.call.loanId, Interest, split.fee, s.cfg.treasury);
  }

  // -- liquidate ---------------------------------------------------------------------------

  /** What a committed liquidation does: the amount comes off the principal, and nothing accrues. */
  lemma LiquidationRecords(s: State, tx: Tx)
    requires Inv(s) && tx.call.Liquidate? && Step(s, tx).Done?
    ensures tx.call.loanId in s.book.loans
    ensures var id, call, after := tx.call.loanId, tx.call, Apply(s, tx);
      var l := s.book.loans[id];
      var left, status := l.outstanding - call.amount, if call.amount == l.outstanding then Liquidated else Active;
      && 0 < call.amount <= l.outstanding && Step(s, tx).value.reply == Unit
      && after.book == s.book.(loans := s.book.loans[id := l.(outstanding := left, status := status)])
      && (forall a :: Balance(after.balances, a)
           == Balance(s.balances, a) + Flow(call.liquidator, Contract, call.amount, a))
      && after.log == s.log + [LoanLiquidated(id, call.liquidator, call.amount, left, status)]
  {
    HitStep(s, tx, tx.call.loanId);
    LiquidationPays(s, tx);
    RepliesUnit(s, tx);
    hide Step, Inv;
  }

  lemma LiquidationPays(s: State, tx: Tx)
    requires tx.call.Liquidate? && Step(s, tx).Done?
    ensures forall a ::
      Balance(Apply(s, tx).balances, a)
      == Balance(s.balances, a) + Flow(tx.call.liquidator, Contract, tx.call.amount, a)
  {
    hide Lending.HealthFactor;
    TransferMoves(s.balances, tx.call.liquidator, Contract, tx.call.amount);
  }

  // -- health_factor -----------------------------------------------------------------------

  /** The price in use is older than the staleness threshold. */
  predicate PriceStale(s: State) {
    s.feed.lastPriceTime + s.cfg.staleThr < s.now
  }

  predicate DeadlinePassed(l: LoanRecord, now: U64) {
    match l.dueLedger
    case Some(due) => due < now
    case None => false
  }

  /** The maximum when nothing is owed, else weighted collateral over principal, if the products fit. */
  function FactorAt(l: LoanRecord, thr: U32): Option<I128>
    requires 0 <= l.totalCollateralValue && 0 <= l.outstanding && 0 <= l.interestAccrued
  {
    var weighted := l.totalCollateralValue * thr;
    if !Fits(l.outstanding + l.interestAccrued) then None
    else if l.outstanding + l.interestAccrued == 0 then Some(I128_MAX)
    else if l.outstanding == 0 || !Fits(l.outstanding * 10_000) || !Fits(weighted * 10_000) then None
    else
      MulMono(l.totalCollateralValue, 0, thr);
      QuotientFits(weighted, l.outstanding);
      Some(weighted / l.outstanding)
  }

  lemma QuotientFits(n: int, owed: int)
    requires 0 <= n && 0 < owed && Fits(n * 10_000)
    ensures Fits(n) && Fits(n / owed)
  {
    FloorAntitone(n, 1, owed);
    FloorBelow(n, owed, 0);
  }

  lemma FactorIsFactorAt(l: LoanRecord, id: nat, thr: U32, now: U64)
    requires LoanOk(l, id, now)
    ensures Lending.HealthFactor(l, thr).Done? <==> FactorAt(l, thr).Some?
    ensures FactorAt(l, thr).Some? ==> Lending.HealthFactor(l, thr) == Done(FactorAt(l, thr).value)
    ensures l.outstanding > 0 && Lending.HealthFactor(l, thr) == Trap <==>
      && l.outstanding > 0 && Fits(l.outstanding + l.interestAccrued) && Fits(l.outstanding * 10_000)
      && Fits(l.totalCollateralValue * thr) && !Fits(l.totalCollateralValue * thr * 10_000)
    ensures Lending.HealthFactor(l, thr).Err? ==> Lending.HealthFactor(l, thr) == Err(InvalidAmount)
  {
    var n := l.totalCollateralValue * thr;
    MulMono(l.totalCollateralValue, 0, thr);
    if l.outstanding > 0 {
      ScaledAway(n, l.outstanding);
      if Fits(n * 10_000) { QuotientFits(n, l.outstanding); }
    }
  }

  /**
   * The exact answer of `health_factor` in every reachable state: refused while the price is stale;
   * 0, with nothing written, past the deadline; else the factor of the loan at the current threshold,
   * which is also appended to its newest five; and when it cannot be computed, an error, or a trap
   * just when only the unchecked scaling of an active loan overflows.
   */
  lemma QueryAnswersExactly(s: State, tx: Tx)
    requires Inv(s) && tx.call.QueryHealthFactor? && tx.call.loanId in s.book.loans
    ensures var id := tx.call.loanId;
      var l, thr := s.book.loans[id], s.cfg.liqThr;
      var h := l.hfHistory;
      && 0 <= l.totalCollateralValue && 0 <= l.outstanding && 0 <= l.interestAccrued
      && (PriceStale(s) ==> Step(s, tx) == Err(InvalidPrice))
      && (!PriceStale(s) && DeadlinePassed(l, s.now) ==> Step(s, tx) == Done(Commit(s, Factor(0))))
      && (!PriceStale(s) && !DeadlinePassed(l, s.now) ==>
            match FactorAt(l, thr)
            case Some(factor) =>
              var history := if |h| < 5 then h + [factor] else h[|h| - 4..] + [factor];
              Step(s, tx) == Done(Commit(
                s.(book := s.book.(loans := s.book.loans[id := l.(hfHistory := history)])), Factor(factor)))
            case None =>
              && (Step(s, tx) == Err(InvalidAmount) || Step(s, tx) == Trap)
              && (l.outstanding > 0 ==>
                    (Step(s, tx) == Trap <==>
                     && Fits(l.outstanding + l.interestAccrued) && Fits(l.outstanding * 10_000)
                     && Fits(l.totalCollateralValue * thr))))
  {
    var id := tx.call.loanId;
    var l := s.book.loans[id];
    assert LoanOk(l, id, s.now);
    QueryCases(s, tx);
    hide Step, Inv, Lending.HealthFactor, FactorAt;
    FactorIsFactorAt(l, id, s.cfg.liqThr, s.now);
    if l.outstanding > 0 { FactorNone(l, s.cfg.liqThr); }
  }

  lemma QueryCases(s: State, tx: Tx)
    requires tx.call.QueryHealthFactor? && tx.call.loanId in s.book.loans
    ensures var id := tx.call.loanId;
      var l := s.book.loans[id];
      var h, o := l.hfHistory, Lending.HealthFactor(l, s.cfg.liqThr);
      && (PriceStale(s) ==> Step(s, tx) == Err(InvalidPrice))
      && (!PriceStale(s) && DeadlinePassed(l, s.now) ==> Step(s, tx) == Done(Commit(s, Factor(0))))
      && (!PriceStale(s) && !DeadlinePassed(l, s.now) ==>
            && (o.Trap? ==> Step(s, tx) == Trap) && (o.Err? ==> Step(s, tx) == Err(o.error))
            && (o.Done? && |h| <= 5 ==>
                  var history := if |h| < 5 then h + [o.value] else h[|h| - 4..] + [o.value];
                  Step(s, tx) == Done(Commit(
                    s.(book := s.book.(loans := s.book.loans[id := l.(hfHistory := history)])), Factor(o.value)))))
  {
    hide Lending.HealthFactor, Lending.Rolled;
    var l := s.book.loans[tx.call.loanId];
    var o := Lending.HealthFactor(l, s.cfg.liqThr);
    if o.Done? && |l.hfHistory| <= 5 {
      RollsFive(l.hfHistory, o.value);
    }
  }

  lemma RollsFive(h: seq<I128>, value: I128)
    requires |h| <= 5
    ensures Lending.Rolled(5, h, value) == if |h| < 5 then h + [value] else h[|h| - 4..] + [value]
  {
  }

  lemma FactorNone(l: LoanRecord, thr: U32)
    requires 0 <= l.totalCollateralValue && 0 < l.outstanding && 0 <= l.interestAccrued
    ensures FactorAt(l, thr).None? <==>
            !Fits(l.outstanding + l.interestAccrued) || !Fits(l.outstanding * 10_000)
            || !Fits(l.totalCollateralValue * thr * 10_000)
  {
  }

  /**
   * The deadline over a loan's life. After any run since it was granted, while the price is fresh, the
   * query answers past due, 0 with nothing written, exactly when the clock is beyond the duration's
   * end; before it, and forever without a duration, it answers the factor, whenever that is computed.
   */
  lemma DeadlineDecides(s: State, tx: Tx, txs: seq<Tx>, query: Tx)
    requires Inv(s) && tx.call.RequestLoan? && Step(s, tx).Done?
    requires query.call == QueryHealthFactor(s.book.loanCounter + 1) && !PriceStale(Run(Apply(s, tx), txs))
    ensures var id, end := s.book.loanCounter + 1, Run(Apply(s, tx), txs);
      var d := tx.call.duration;
      var passed := d.Some? && Min(s.now + d.value, U64_MAX) < end.now;
      && id in end.book.loans
      && var l := end.book.loans[id];
         && 0 <= l.totalCollateralValue && 0 <= l.outstanding && 0 <= l.interestAccrued
         && (DeadlinePassed(l, end.now) <==> passed)
         && (passed ==> Step(end, query) == Done(Commit(end, Factor(0))))
         && (!passed && FactorAt(l, end.cfg.liqThr).Some? ==>
               Step(end, query).Done?
               && Step(end, query).value.reply == Factor(FactorAt(l, end.cfg.liqThr).value))
  {
    RequestRecords(s, tx);
    StepKeeps(s, tx);
    hide Step, Inv, FactorAt;
    LoanRun(Apply(s, tx), txs, s.book.loanCounter + 1);
    RunKeeps(Apply(s, tx), txs);
    QueryAnswersExactly(Run(Apply(s, tx), txs), query);
  }
}
