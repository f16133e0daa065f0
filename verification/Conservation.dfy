/** Where the money is: token holdings, loans and the published events always add up. */
module Conservation {
  import opened Numeric
  import opened Wrappers
  import opened Protocol
  import opened Machine
  import opened Invariant
  import opened Lifecycle
  import opened Frames
  import Lending

  /** Principal still owed on the loans with ids 1 to n. */
  ghost function Owed(loans: map<nat, LoanRecord>, n: nat): int {
    if n == 0 then 0 else Owed(loans, n - 1) + if n in loans then loans[n].outstanding else 0
  }

  ghost function Holdings(s: State): int {
    Balance(s.balances, Contract) + Owed(s.book.loans, s.book.loanCounter)
  }

  /**
   * What an event adds to the holdings: interest comes in, fees and withdrawals go out unless they
   * go to the contract itself, deposits come in; principal only changes place.
   */
  function NetOf(e: Event): int {
    match e
    case FeeCollected(_, Origination, fee, to) => if to == Contract then fee else 0
    case FeeCollected(_, Interest, fee, to) => if to == Contract then 0 else 0 - fee
    case LoanRepaid(_, _, _, interestPaid, _) => interestPaid
    case EmergencyWithdrawn(recipient, balance) => if recipient == Contract then 0 else 0 - balance
    case TokensMoved(_, to, amount) => if to == Contract then amount else 0
    case _ => 0
  }

  function InterestIn(e: Event): int {
    if e.LoanRepaid? then e.interestPaid else 0
  }

  function InterestFeeOut(e: Event): int {
    if e.FeeCollected? && e.kind == Interest then e.fee else 0
  }

  /** How much an event reduces the principal owed on one loan. */
  function ReductionOf(id: nat): Event -> int {
    (e: Event) =>
      if e.LoanRepaid? && e.loanId == id then e.principalPaid
      else if e.LoanLiquidated? && e.loanId == id then e.repaid
      else 0
  }

  ghost function Reduced(log: seq<Event>, id: nat): int {
    Sum(log, ReductionOf(id))
  }

  // -- sums over loans ---------------------------------------------------------------------

  lemma {:induction false} OwedReplaced(loans: map<nat, LoanRecord>, n: nat, id: nat, loan: LoanRecord)
    requires id in loans && 1 <= id
    ensures Owed(loans[id := loan], n)
            == Owed(loans, n) + if id <= n then loan.outstanding - loans[id].outstanding else 0
  {
    if n > 0 {
      OwedReplaced(loans, n - 1, id, loan);
    }
  }

  lemma {:induction false} OwedBelow(loans: map<nat, LoanRecord>, n: nat, id: nat, loan: LoanRecord)
    requires n < id
    ensures Owed(loans[id := loan], n) == Owed(loans, n)
  {
    if n > 0 {
      OwedBelow(loans, n - 1, id, loan);
    }
  }

  // -- each money-moving step balances -----------------------------------------------------

  ghost predicate Balanced(s: State, after: State) {
    Holdings(after) - Sum(after.log, NetOf) == Holdings(s) - Sum(s.log, NetOf)
  }

  lemma FeeEventsSum(log: seq<Event>, id: nat, kind: FeeKind, fee: I128, to: Address, e: Event, weight: Event -> int)
    ensures Sum(Lending.FeeEvents(log, id, kind, fee, to) + [e], weight)
            == Sum(log, weight) + weight(e) + if fee > 0 then weight(FeeCollected(id, kind, fee, to)) else 0
  {
    SumAppend(Lending.FeeEvents(log, id, kind, fee, to), e, weight);
    SumAppend(log, FeeCollected(id, kind, fee, to), weight);
  }

  /** What a transfer of `amount` adds to the balance of `a`; nothing when sender and receiver are the same. */
  function Flow(sender: Address, to: Address, amount: int, a: Address): int {
    (if a == to then amount else 0) - (if a == sender then amount else 0)
  }

  /** Fee to the treasury, payout to the borrower, both from the contract; nobody else's balance changes. */
  lemma PayOutMoves(b: Balances, treasury: Address, borrower: Address, terms: Lending.Terms)
    requires borrower != Contract && Lending.PayOut(b, treasury, borrower, terms).Done?
    ensures var fee := if terms.fee > 0 then terms.fee else 0;
      forall a :: Balance(Lending.PayOut(b, treasury, borrower, terms).value, a)
                  == Balance(b, a) + Flow(Contract, treasury, fee, a) + Flow(Contract, borrower, terms.disbursement, a)
  {
    var paid := if terms.fee > 0 then Transfer(b, Contract, treasury, terms.fee).value else b;
    if terms.fee > 0 { TransferMoves(b, Contract, treasury, terms.fee); }
    TransferMoves(paid, Contract, borrower, terms.disbursement);
  }

  lemma OwedAdded(loans: map<nat, LoanRecord>, n: nat, loan: LoanRecord)
    ensures Owed(loans[n + 1 := loan], n + 1) == Owed(loans, n) + loan.outstanding
  {
    OwedBelow(loans, n, n + 1, loan);
  }

  lemma RequestBalances(s: State, after: State, borrower: Address, ids: seq<nat>, amount: I128,
                        duration: Option<U64>, total: I128, terms: Lending.Terms)
    requires Requested(s, after, borrower, ids, amount, duration, total, terms)
    ensures Balanced(s, after)
  {
    var id := s.book.loanCounter + 1;
    var loan := after.book.loans[id];
    MulMono(amount, 0, s.cfg.origFee);
    assert 0 <= terms.fee && terms.fee + terms.disbursement == amount == loan.outstanding;
    hide Sum, Owed, Lending.FeeEvents, Lending.Pledge, Lending.Approve, Lending.PayOut, Lending.Linked;
    assert after.book.loans == s.book.loans[id := loan] && after.book.loanCounter == id;
    assert after.balances == Lending.PayOut(s.balances, s.cfg.treasury, borrower, terms).value;
    var e := LoanRequested(id, borrower, amount, terms.disbursement, total);
    assert after.log == Lending.FeeEvents(s.log, id, Origination, terms.fee, s.cfg.treasury) + [e];
    PayOutMoves(s.balances, s.cfg.treasury, borrower, terms);
    hide Requested, Lending.Originated;
    OwedAdded(s.book.loans, s.book.loanCounter, loan);
    FeeEventsSum(s.log, id, Origination, terms.fee, s.cfg.treasury, e, NetOf);
  }

  /** Interest and principal from the borrower, the treasury's cut from the contract; nobody else's balance changes. */
  lemma CollectMoves(b: Balances, treasury: Address, borrower: Address, split: Lending.Split)
    requires borrower != Contract && Lending.Collect(b, treasury, borrower, split).Done?
    ensures var fee := if split.fee > 0 then split.fee else 0;
      forall a :: Balance(Lending.Collect(b, treasury, borrower, split).value, a)
                  == Balance(b, a) + Flow(borrower, Contract, split.interest + split.principal, a)
                     + Flow(Contract, treasury, fee, a)
  {
    TransferMoves(b, borrower, Contract, split.interest + split.principal);
    var paid := Transfer(b, borrower, Contract, split.interest + split.principal).value;
    if split.fee > 0 { TransferMoves(paid, Contract, treasury, split.fee); }
  }

  lemma RepayBalances(s: State, signers: set<Address>, borrower: Address, id: nat, amount: I128)
    requires Inv(s) && Lending.RepayLoan(s, signers, borrower, id, amount).Done?
    ensures Balanced(s, Lending.RepayLoan(s, signers, borrower, id, amount).value.state)
  {
    var after := Lending.RepayLoan(s, signers, borrower, id, amount).value.state;
    var loan := Lending.Accrued(s.book.loans[id], s.cfg.intFee, s.now);
    var split := Lending.SplitPayment(loan, s.cfg.intFee, amount).value;
    CollectMoves(s.balances, s.cfg.treasury, borrower, split);
    OwedReplaced(s.book.loans, s.book.loanCounter, id, after.book.loans[id]);
    FeeEventsSum(s.log, id, Interest, split.fee, s.cfg.treasury,
                 LoanRepaid(borrower, id, split.principal, split.interest, after.book.loans[id].outstanding), NetOf);
  }

  lemma LiquidateBalances(s: State, signers: set<Address>, liquidator: Address, id: nat, repay: I128)
    requires Inv(s) && Lending.Liquidate(s, signers, liquidator, id, repay).Done?
    ensures Balanced(s, Lending.Liquidate(s, signers, liquidator, id, repay).value.state)
  {
    var after := Lending.Liquidate(s, signers, liquidator, id, repay).value.state;
    TransferMoves(s.balances, liquidator, Contract, repay);
    OwedReplaced(s.book.loans, s.book.loanCounter, id, after.book.loans[id]);
    SumAppend(s.log, after.log[|s.log|], NetOf);
  }

  lemma WithdrawBalances(s: State, signers: set<Address>, admin: Address, recipient: Address)
    requires FundsOk(s.balances) && Lending.EmergencyWithdraw(s, signers, admin, recipient).Done?
    ensures Balanced(s, Lending.EmergencyWithdraw(s, signers, admin, recipient).value.state)
  {
    var held := Balance(s.balances, Contract);
    SumAppend(s.log, EmergencyWithdrawn(recipient, held), NetOf);
    if held > 0 { TransferMoves(s.balances, Contract, recipient, held); }
  }

  lemma DepositBalances(s: State, signers: set<Address>, sender: Address, to: Address, amount: I128)
    requires Moved(s, signers, sender, to, amount).Done?
    ensures Balanced(s, Moved(s, signers, sender, to, amount).value.state)
  {
    SumAppend(s.log, TokensMoved(sender, to, amount), NetOf);
    TransferMoves(s.balances, sender, to, amount);
  }

  predicate MovesMoney(call: Call) {
    call.RequestLoan? || call.RepayLoan? || call.Liquidate? || call.EmergencyWithdraw? || call.MoveTokens?
  }

  predicate IsUpgradeEvent(e: Event) {
    e.UpgradeProposed? || e.UpgradeExecuted? || e.UpgradeCanceled?
  }

  ghost predicate SameDebts(b: Book, after: Book) {
    && b.loanCounter == after.loanCounter && b.loans.Keys == after.loans.Keys
    && forall id :: id in b.loans ==> after.loans[id].outstanding == b.loans[id].outstanding
                                      && after.loans[id].principal == b.loans[id].principal
  }

  /** The other steps move no tokens, change no debt and publish nothing but upgrade events. */
  lemma QuietStep(s: State, tx: Tx)
    requires !MovesMoney(tx.call)
    ensures var after := Apply(s, tx);
      && after.balances == s.balances && SameDebts(s.book, after.book)
      && (after.log == s.log
          || (|after.log| == |s.log| + 1 && after.log == s.log + [after.log[|s.log|]]
              && IsUpgradeEvent(after.log[|s.log|])))
  {
    hide Step;
    QuietDebts(s, tx);
    QuietLog(s, tx);
  }

  lemma QuietDebts(s: State, tx: Tx)
    requires !MovesMoney(tx.call)
    ensures Apply(s, tx).balances == s.balances && SameDebts(s.book, Apply(s, tx).book)
  {
    hide Step;
    Frame(s, tx);
    if tx.call.QueryHealthFactor? {
      QueryDebts(s, tx);
    }
  }

  lemma QueryDebts(s: State, tx: Tx)
    requires tx.call.QueryHealthFactor?
    ensures SameDebts(s.book, Apply(s, tx).book)
  {
    hide Lending.HealthFactor, Lending.Rolled;
  }

  lemma QuietLog(s: State, tx: Tx)
    requires !MovesMoney(tx.call)
    ensures var after := Apply(s, tx);
      after.log == s.log
      || (|after.log| == |s.log| + 1 && after.log == s.log + [after.log[|s.log|]]
          && IsUpgradeEvent(after.log[|s.log|]))
  {
    if !UsesSlot(tx.call) {
      hide Step;
      Frame(s, tx);
    }
  }

  /** Liquidations, withdrawals and outside transfers publish one event, and no fee or repayment. */
  lemma SingleEvent(s: State, tx: Tx)
    requires MovesMoney(tx.call) && !tx.call.RequestLoan? && !tx.call.RepayLoan?
    ensures var after := Apply(s, tx);
      after.log == s.log
      || (|after.log| == |s.log| + 1 && after.log == s.log + [after.log[|s.log|]]
          && !after.log[|s.log|].LoanRepaid? && !after.log[|s.log|].FeeCollected?
          && !IsUpgradeEvent(after.log[|s.log|]))
  {
  }

  lemma {:induction false} OwedSame(b: Book, after: Book, n: nat)
    requires SameDebts(b, after)
    ensures Owed(b.loans, n) == Owed(after.loans, n)
  {
    if n > 0 {
      assert n in b.loans <==> n in after.loans;
      OwedSame(b, after, n - 1);
    }
  }

  lemma QuietStepBalances(s: State, tx: Tx)
    requires !MovesMoney(tx.call)
    ensures Balanced(s, Apply(s, tx))
  {
    var after := Apply(s, tx);
    QuietStep(s, tx);
    OwedSame(s.book, after.book, s.book.loanCounter);
    if after.log != s.log {
      SumAppend(s.log, after.log[|s.log|], NetOf);
    }
  }

  lemma StepBalances(s: State, tx: Tx)
    requires Inv(s)
    ensures Balanced(s, Apply(s, tx))
  {
    if Step(s, tx).Done? {
      match tx.call
      case RequestLoan(borrower, ids, amount, duration) =>
        var total, terms := RequestParts(s, tx.signers, borrower, ids, amount, duration);
        RequestBalances(s, Apply(s, tx), borrower, ids, amount, duration, total, terms);
      case RepayLoan(borrower, id, amount) => RepayBalances(s, tx.signers, borrower, id, amount);
      case Liquidate(liquidator, id, amount) => LiquidateBalances(s, tx.signers, liquidator, id, amount);
      case EmergencyWithdraw(admin, recipient) => WithdrawBalances(s, tx.signers, admin, recipient);
      case MoveTokens(sender, to, amount) => DepositBalances(s, tx.signers, sender, to, amount);
      case _ => QuietStepBalances(s, tx);
    }
  }

  lemma {:induction false} RunBalances(s: State, txs: seq<Tx>)
    requires Inv(s)
    ensures Balanced(s, Run(s, txs))
    decreases |txs|
  {
    if |txs| > 0 {
      StepBalances(s, txs[0]);
      StepKeeps(s, txs[0]);
      RunBalances(Apply(s, txs[0]), txs[1..]);
    }
  }

  /**
   * Conservation. After any run from deployment, tokens held plus principal owed is the opening
   * balance plus what the published events account for.
   */
  lemma Conserved(deployed: State, txs: seq<Tx>)
    requires Deployed(deployed)
    ensures var s := Run(deployed, txs);
      Balance(s.balances, Contract) + Owed(s.book.loans, s.book.loanCounter)
      == Balance(deployed.balances, Contract) + Sum(s.log, NetOf)
  {
    DeployedOk(deployed);
    RunBalances(deployed, txs);
  }

  // -- the log replays every loan ----------------------------------------------------------

  /** Principal paid and liquidated in the log is what is missing from each loan; ids not issued have none. */
  ghost predicate LogMatches(book: Book, log: seq<Event>) {
    && (forall id :: id in book.loans ==>
          Reduced(log, id) == book.loans[id].principal - book.loans[id].outstanding)
    && (forall id :: id !in book.loans ==> Reduced(log, id) == 0)
    && 10 * Sum(log, InterestFeeOut) <= Sum(log, InterestIn)
  }

  lemma RequestLogged(s: State, after: State, borrower: Address, ids: seq<nat>, amount: I128,
                      duration: Option<U64>, total: I128, terms: Lending.Terms)
    requires LogMatches(s.book, s.log) && s.book.loanCounter + 1 !in s.book.loans
    requires Requested(s, after, borrower, ids, amount, duration, total, terms)
    ensures LogMatches(after.book, after.log)
  {
    hide Sum, Lending.FeeEvents, Lending.Pledge, Lending.Approve, Lending.PayOut;
    var id := s.book.loanCounter + 1;
    var e := LoanRequested(id, borrower, amount, terms.disbursement, total);
    forall k: nat ensures Reduced(after.log, k) == Reduced(s.log, k) {
      FeeEventsSum(s.log, id, Origination, terms.fee, s.cfg.treasury, e, ReductionOf(k));
    }
    FeeEventsSum(s.log, id, Origination, terms.fee, s.cfg.treasury, e, InterestIn);
    FeeEventsSum(s.log, id, Origination, terms.fee, s.cfg.treasury, e, InterestFeeOut);
  }

  lemma RepayLogged(s: State, signers: set<Address>, borrower: Address, id: nat, amount: I128)
    requires Inv(s) && LogMatches(s.book, s.log)
    requires Lending.RepayLoan(s, signers, borrower, id, amount).Done?
    ensures var after := Lending.RepayLoan(s, signers, borrower, id, amount).value.state;
      LogMatches(after.book, after.log)
  {
    hide Sum, Lending.FeeEvents, Lending.Collect;
    var after := Lending.RepayLoan(s, signers, borrower, id, amount).value.state;
    var loan := Lending.Accrued(s.book.loans[id], s.cfg.intFee, s.now);
    var split := Lending.SplitPayment(loan, s.cfg.intFee, amount).value;
    AccrualIsCappedProduct(s.book.loans[id], s.cfg.intFee, s.now);
    PaymentMeaning(loan, id, s.cfg.intFee, amount, s.now);
    PaymentLogged(s.book, s.log, borrower, id, Lending.Settled(loan, split), split, s.cfg.treasury);
  }

  /** The fee event and the repayment event, and the principal owed reduced by what they say. */
  lemma PaymentLogged(b: Book, log: seq<Event>, borrower: Address, id: nat, loan: LoanRecord, split: Lending.Split,
                      treasury: Address)
    requires LogMatches(b, log) && id in b.loans && 10 * split.fee <= split.interest && 0 <= split.interest
    requires loan.principal - loan.outstanding
             == b.loans[id].principal - b.loans[id].outstanding + split.principal
    ensures LogMatches(b.(loans := b.loans[id := loan]),
                       Lending.FeeEvents(log, id, Interest, split.fee, treasury)
                       + [LoanRepaid(borrower, id, split.principal, split.interest, loan.outstanding)])
  {
    hide Sum, Lending.FeeEvents;
    var e := LoanRepaid(borrower, id, split.principal, split.interest, loan.outstanding);
    var after := Lending.FeeEvents(log, id, Interest, split.fee, treasury) + [e];
    forall k: nat ensures Reduced(after, k) == Reduced(log, k) + if k == id then split.principal else 0 {
      FeeEventsSum(log, id, Interest, split.fee, treasury, e, ReductionOf(k));
    }
    FeeEventsSum(log, id, Interest, split.fee, treasury, e, InterestIn);
    FeeEventsSum(log, id, Interest, split.fee, treasury, e, InterestFeeOut);
  }

  /** One event appended, and the principal owed on its loan reduced by what the event says. */
  lemma OneEventLogged(b: Book, log: seq<Event>, after: Book, e: Event)
    requires LogMatches(b, log) && b.loans.Keys == after.loans.Keys
    requires !e.LoanRepaid? && !e.FeeCollected?
    requires forall id :: id in b.loans ==>
      after.loans[id].principal - after.loans[id].outstanding
      == b.loans[id].principal - b.loans[id].outstanding + ReductionOf(id)(e)
    requires e.LoanLiquidated? ==> e.loanId in b.loans
    ensures LogMatches(after, log + [e])
  {
    hide Sum;
    forall k: nat ensures Reduced(log + [e], k) == Reduced(log, k) + ReductionOf(k)(e) {
      SumAppend(log, e, ReductionOf(k));
    }
    SumAppend(log, e, InterestIn);
    SumAppend(log, e, InterestFeeOut);
  }

  lemma LiquidateLogged(s: State, signers: set<Address>, liquidator: Address, id: nat, repay: I128)
    requires LogMatches(s.book, s.log) && Lending.Liquidate(s, signers, liquidator, id, repay).Done?
    ensures var after := Lending.Liquidate(s, signers, liquidator, id, repay).value.state;
      LogMatches(after.book, after.log)
  {
    var after := Lending.Liquidate(s, signers, liquidator, id, repay).value.state;
    var loan := after.book.loans[id];
    OneEventLogged(s.book, s.log, after.book, LoanLiquidated(id, liquidator, repay, loan.outstanding, loan.status));
  }

  lemma DepositLogged(s: State, tx: Tx)
    requires LogMatches(s.book, s.log) && Step(s, tx).Done?
    requires tx.call.EmergencyWithdraw? || tx.call.MoveTokens?
    ensures LogMatches(Apply(s, tx).book, Apply(s, tx).log)
  {
    SingleEvent(s, tx);
    assert Apply(s, tx).book == s.book;
    hide Step;
    OneEventLogged(s.book, s.log, s.book, Apply(s, tx).log[|s.log|]);
  }

  lemma QuietStepLogged(s: State, tx: Tx)
    requires LogMatches(s.book, s.log) && !MovesMoney(tx.call)
    ensures LogMatches(Apply(s, tx).book, Apply(s, tx).log)
  {
    var after := Apply(s, tx);
    QuietStep(s, tx);
    assert forall id :: id in s.book.loans <==> id in after.book.loans;
    if after.log != s.log {
      OneEventLogged(s.book, s.log, after.book, after.log[|s.log|]);
    }
  }

  lemma {:induction false} RunLogged(s: State, txs: seq<Tx>)
    requires Inv(s) && LogMatches(s.book, s.log)
    ensures LogMatches(Run(s, txs).book, Run(s, txs).log)
    decreases |txs|
  {
    if |txs| > 0 {
      var tx := txs[0];
      if Step(s, tx).Done? {
        match tx.call
        case RequestLoan(borrower, ids, amount, duration) =>
          var total, terms := RequestParts(s, tx.signers, borrower, ids, amount, duration);
          RequestLogged(s, Apply(s, tx), borrower, ids, amount, duration, total, terms);
        case RepayLoan(borrower, id, amount) => RepayLogged(s, tx.signers, borrower, id, amount);
        case Liquidate(liquidator, id, amount) => LiquidateLogged(s, tx.signers, liquidator, id, amount);
        case EmergencyWithdraw(_, _) => DepositLogged(s, tx);
        case MoveTokens(_, _, _) => DepositLogged(s, tx);
        case _ => QuietStepLogged(s, tx);
      }
      StepKeeps(s, tx);
      RunLogged(Apply(s, tx), txs[1..]);
    }
  }

  /**
   * A reader of the event log alone knows what every loan still owes, and the treasury never gets
   * more than a tenth of the interest paid.
   */
  lemma LogReplaysLoans(deployed: State, txs: seq<Tx>)
    requires Deployed(deployed)
    ensures LogMatches(Run(deployed, txs).book, Run(deployed, txs).log)
  {
    DeployedOk(deployed);
    RunLogged(deployed, txs);
  }
}
