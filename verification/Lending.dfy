/** What each lending entry point does to the whole storage: the specification of the contract's methods. */
module Lending {
  import opened Numeric
  import opened Wrappers
  import opened Protocol

  /** One year of seconds times basis points: the divisor of the accrual formula. */
  const YEAR_BPS: int := 315_360_000_000

  const FACTOR_LOG_CAP: nat := 5
  const APPRAISAL_LOG_CAP: nat := 3

  /** Appending to a rolling log keeps the newest `cap` entries. */
  function Rolled(cap: nat, history: seq<I128>, value: I128): seq<I128> {
    LastN(cap, history + [value])
  }

  // -- register_livestock and update_appraisal ---------------------------------------------

  function RegisterLivestock(s: State, signers: set<Address>, owner: Address, animalType: Symbol,
                             count: U32, value: I128): Outcome<Commit> {
    if !Initialized(s) then Err(NotInitialized) else
    :- Need(!Paused(s.cfg, s.now), ContractPaused);
    :- Need(0 < value && count != 0, InvalidAmount);
    :- Need(animalType in s.cfg.animalCaps ==> value <= s.cfg.animalCaps[animalType], InvalidAmount);
    :- OrTrap(Signed(owner, signers));
    :- Need(s.book.collateralCounter < U64_MAX, ArithmeticOverflow);
    var id := s.book.collateralCounter + 1;
    var record := CollateralRecord(owner, animalType, count, value, 0, [value]);
    var book := s.book.(collaterals := s.book.collaterals[id := record], collateralCounter := id);
    Done(Commit(s.(book := book), Id(id)))
  }

  function UpdateAppraisal(s: State, signers: set<Address>, owner: Address, id: nat, value: I128): Outcome<Commit> {
    if !Initialized(s) then Err(NotInitialized) else
    :- Need(!Paused(s.cfg, s.now), ContractPaused);
    :- Need(0 < value, InvalidAmount);
    :- OrTrap(Signed(owner, signers));
    :- Need(id in s.book.collaterals, CollateralNotFound);
    var record := s.book.collaterals[id];
    :- Need(record.owner == owner, Unauthorized);
    var history := Rolled(APPRAISAL_LOG_CAP, record.appraisalHistory, value);
    var updated := record.(appraisedValue := value, appraisalHistory := history);
    Done(Commit(s.(book := s.book.(collaterals := s.book.collaterals[id := updated])), Unit))
  }

  // -- request_loan ------------------------------------------------------------------------

  /** The running total over a list of collateral ids, or the first refusal met. */
  function Pledge(collaterals: map<nat, CollateralRecord>, ids: seq<nat>, borrower: Address): Outcome<I128> {
    if |ids| == 0 then Done(0)
    else
      var front :- Pledge(collaterals, ids[..|ids| - 1], borrower);
      var last := ids[|ids| - 1];
      :- Need(last in collaterals, CollateralNotFound);
      :- Need(collaterals[last].owner == borrower, Unauthorized);
      :- Need(Fits(front + collaterals[last].appraisedValue), InvalidAmount);
      Done(front + collaterals[last].appraisedValue)
  }

  /** Every listed collateral now points to the loan; the others are as they were. */
  function Linked(collaterals: map<nat, CollateralRecord>, ids: seq<nat>, loanId: nat): map<nat, CollateralRecord> {
    map c | c in collaterals :: if c in ids then collaterals[c].(loanId := loanId) else collaterals[c]
  }

  /** Principal, fee and payout of an approved request. */
  datatype Terms = Terms(fee: I128, disbursement: I128)

  function Approve(total: I128, amount: I128, ltv: U32, origFee: U32): Outcome<Terms> {
    var scaled := total * ltv;
    :- Need(Fits(scaled), InvalidAmount);
    :- Need(amount <= TruncDiv(scaled, BPS), InsufficientCollateral);
    :- Need(Fits(amount * origFee), InvalidAmount);
    var fee := TruncDiv(amount * origFee, BPS);
    :- Need(Fits(amount - fee), InvalidAmount);
    Done(Terms(fee, amount - fee))
  }

  /** The fee leg, when there is a fee, then the payout leg. */
  function PayOut(b: Balances, treasury: Address, borrower: Address, terms: Terms): Outcome<Balances> {
    var b1 :- if terms.fee > 0 then Transfer(b, Contract, treasury, terms.fee) else Done(b);
    Transfer(b1, Contract, borrower, terms.disbursement)
  }

  function FeeEvents(log: seq<Event>, loanId: nat, kind: FeeKind, fee: I128, to: Address): seq<Event> {
    if fee > 0 then log + [FeeCollected(loanId, kind, fee, to)] else log
  }

  function NewLoan(id: nat, borrower: Address, ids: seq<nat>, total: I128, amount: I128, now: U64,
                   duration: Option<U64>): LoanRecord {
    var due := if duration.Some? then Some(SaturatingAddU64(now, duration.value)) else None;
    LoanRecord(id, borrower, ids, total, amount, amount, 0, now, Active, due, [])
  }

  /** The checks of `request_loan` before it looks at any collateral, in their order. */
  function RequestGuard(s: State, signers: set<Address>, borrower: Address, ids: seq<nat>, amount: I128): Guard {
    if !Initialized(s) then Reject(NotInitialized)
    else if Paused(s.cfg, s.now) then Reject(ContractPaused)
    else if amount <= 0 || amount < s.cfg.minLoan || amount > s.cfg.maxLoan then Reject(InvalidAmount)
    else if |ids| == 0 then Reject(CollateralNotFound)
    else OrTrap(Signed(borrower, signers))
  }

  /** What an approved and paid-out request writes. */
  function Originated(s: State, borrower: Address, ids: seq<nat>, amount: I128, duration: Option<U64>,
                      total: I128, terms: Terms, balances: Balances): State
    requires s.book.loanCounter < U64_MAX
  {
    var id := s.book.loanCounter + 1;
    var loan := NewLoan(id, borrower, ids, total, amount, s.now, duration);
    var book := s.book.(
      loans := s.book.loans[id := loan],
      loanCounter := id,
      collaterals := Linked(s.book.collaterals, ids, id));
    var log := FeeEvents(s.log, id, Origination, terms.fee, s.cfg.treasury)
               + [LoanRequested(id, borrower, amount, terms.disbursement, total)];
    s.(book := book, balances := balances, log := log)
  }

  function RequestLoan(s: State, signers: set<Address>, borrower: Address, ids: seq<nat>, amount: I128,
                       duration: Option<U64>): Outcome<Commit> {
    var admitted := RequestGuard(s, signers, borrower, ids, amount);
    :- admitted;
    var total :- Pledge(s.book.collaterals, ids, borrower);
    var terms :- Approve(total, amount, s.cfg.ltv, s.cfg.origFee);
    :- Need(s.book.loanCounter < U64_MAX, ArithmeticOverflow);
    var id := s.book.loanCounter + 1;
    var balances :- PayOut(s.balances, s.cfg.treasury, borrower, terms);
    Done(Commit(Originated(s, borrower, ids, amount, duration, total, terms, balances), Id(id)))
  }

  // -- repay_loan --------------------------------------------------------------------------

  /** Interest earned since the last accrual, every product capped at the largest i128. */
  function Accrual(loan: LoanRecord, bps: U32, now: U64): I128 {
    var elapsed := SaturatingSub(now, loan.lastInterestTime);
    if elapsed > 0 && loan.outstanding > 0
    then TruncDiv(MulOrMax(MulOrMax(loan.outstanding, bps), elapsed), YEAR_BPS)
    else 0
  }

  function Accrued(loan: LoanRecord, bps: U32, now: U64): LoanRecord {
    loan.(interestAccrued := SaturatingAdd(loan.interestAccrued, Accrual(loan, bps, now)), lastInterestTime := now)
  }

  /** How one payment splits: interest first, then principal, and the treasury's cut of the interest. */
  datatype Split = Split(interest: I128, principal: I128, fee: I128)

  function SplitPayment(loan: LoanRecord, bps: U32, amount: I128): Outcome<Split> {
    var debt := loan.outstanding + loan.interestAccrued;
    :- Need(Fits(debt), InvalidAmount);
    var paid := Min(amount, debt);
    var interest := Min(loan.interestAccrued, paid);
    :- Need(Fits(loan.interestAccrued - interest), InvalidAmount);
    :- Need(Fits(paid - interest), InvalidAmount);
    :- Need(Fits(loan.outstanding - (paid - interest)), InvalidAmount);
    :- Need(Fits(interest * bps), InvalidAmount);
    Done(Split(interest, paid - interest, TruncDiv(interest * bps, BPS)))
  }

  /** The payment leg, then the treasury's cut when there is one. */
  function Collect(b: Balances, treasury: Address, borrower: Address, split: Split): Outcome<Balances> {
    var paid := split.interest + split.principal;
    :- OrTrap(Fits(paid));
    var b1 :- Transfer(b, borrower, Contract, paid);
    if split.fee > 0 then Transfer(b1, Contract, treasury, split.fee) else Done(b1)
  }

  /** The loan after a payment that its balances cover. */
  function Settled(loan: LoanRecord, split: Split): LoanRecord
    requires Fits(loan.interestAccrued - split.interest) && Fits(loan.outstanding - split.principal)
  {
    var paid := loan.(
      interestAccrued := loan.interestAccrued - split.interest,
      outstanding := loan.outstanding - split.principal);
    if paid.outstanding == 0 && paid.interestAccrued == 0 then paid.(status := Repaid) else paid
  }

  function RepayLoan(s: State, signers: set<Address>, borrower: Address, id: nat, amount: I128): Outcome<Commit> {
    if !Initialized(s) then Err(NotInitialized) else
    :- Need(0 < amount, InvalidAmount);
    :- OrTrap(Signed(borrower, signers));
    :- Need(id in s.book.loans, LoanNotFound);
    :- Need(s.book.loans[id].borrower == borrower, Unauthorized);
    :- Need(s.book.loans[id].status == Active, LoanAlreadyClosed);
    var loan := Accrued(s.book.loans[id], s.cfg.intFee, s.now);
    var split :- SplitPayment(loan, s.cfg.intFee, amount);
    var balances :- Collect(s.balances, s.cfg.treasury, borrower, split);
    var settled := Settled(loan, split);
    var log := FeeEvents(s.log, id, Interest, split.fee, s.cfg.treasury)
               + [LoanRepaid(borrower, id, split.principal, split.interest, settled.outstanding)];
    var book := s.book.(loans := s.book.loans[id := settled]);
    Done(Commit(s.(book := book, balances := balances, log := log), Unit))
  }

  // -- liquidate and health_factor ---------------------------------------------------------

  /**
   * Collateral value times threshold over outstanding, scaled by 10 000. Three products are
   * checked; the scaling of the numerator is not, and neither is the divisor.
   */
  function HealthFactor(loan: LoanRecord, thr: U32): Outcome<I128> {
    var debt := loan.outstanding + loan.interestAccrued;
    :- Need(Fits(debt), InvalidAmount);
    if debt == 0 then Done(I128_MAX)
    else
      var numerator := loan.totalCollateralValue * thr;
      :- Need(Fits(numerator), InvalidAmount);
      var denominator := loan.outstanding * BPS;
      :- Need(Fits(denominator), InvalidAmount);
      :- OrTrap(Fits(numerator * BPS) && denominator != 0 && Fits(TruncDiv(numerator * BPS, denominator)));
      Done(TruncDiv(numerator * BPS, denominator))
  }

  /** The whitelist gate of `liquidate`. */
  predicate MayLiquidate(w: Whitelist, liquidator: Address) {
    w.count > 0 ==> liquidator in w.entries
  }

  function Liquidate(s: State, signers: set<Address>, liquidator: Address, id: nat, repay: I128): Outcome<Commit> {
    if !Initialized(s) then Err(NotInitialized) else
    :- Need(!Paused(s.cfg, s.now), ContractPaused);
    :- Need(0 < repay, InvalidAmount);
    :- OrTrap(Signed(liquidator, signers));
    :- Need(MayLiquidate(s.whitelist, liquidator), LiquidatorNotWhitelisted);
    :- Need(id in s.book.loans, LoanNotFound);
    var loan := s.book.loans[id];
    :- Need(loan.status == Active, LoanAlreadyClosed);
    var factor :- HealthFactor(loan, s.cfg.liqThr);
    :- Need(factor < BPS, HealthFactorSafe);
    :- Need(Fits(loan.outstanding * s.cfg.closeFactor), InvalidAmount);
    :- Need(repay <= TruncDiv(loan.outstanding * s.cfg.closeFactor, BPS), ExceedsCloseFactor);
    var balances :- Transfer(s.balances, liquidator, Contract, repay);
    :- Need(Fits(loan.outstanding - repay), InvalidAmount);
    var reduced := loan.(outstanding := loan.outstanding - repay);
    var after := if reduced.outstanding == 0 then reduced.(status := Liquidated) else reduced;
    var book := s.book.(loans := s.book.loans[id := after]);
    var log := s.log + [LoanLiquidated(id, liquidator, repay, after.outstanding, after.status)];
    Done(Commit(s.(book := book, balances := balances, log := log), Unit))
  }

  predicate PastDue(loan: LoanRecord, now: U64) {
    loan.dueLedger.Some? && loan.dueLedger.value < now
  }

  function QueryHealthFactor(s: State, id: nat): Outcome<Commit> {
    if id !in s.book.loans then Err(LoanNotFound) else
    var loan := s.book.loans[id];
    :- Need(SaturatingSub(s.now, s.feed.lastPriceTime) <= s.cfg.staleThr, InvalidPrice);
    if PastDue(loan, s.now) then Done(Commit(s, Factor(0)))
    else
      var factor :- HealthFactor(loan, s.cfg.liqThr);
      var logged := loan.(hfHistory := Rolled(FACTOR_LOG_CAP, loan.hfHistory, factor));
      Done(Commit(s.(book := s.book.(loans := s.book.loans[id := logged])), Factor(factor)))
  }

  // -- emergency_withdraw ------------------------------------------------------------------

  function EmergencyWithdraw(s: State, signers: set<Address>, admin: Address, recipient: Address): Outcome<Commit> {
    var admitted := AdminOnly(s, admin, signers);
    :- admitted;
    :- Need(Paused(s.cfg, s.now), NotPaused);
    var held := Balance(s.balances, Contract);
    var balances :- if held > 0 then Transfer(s.balances, Contract, recipient, held) else Done(s.balances);
    Done(Commit(s.(balances := balances, log := s.log + [EmergencyWithdrawn(recipient, held)]), Unit))
  }
}
