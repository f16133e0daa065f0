/** Every step keeps the invariant, so every run from deployment does; and closed loans never change. */
module Lifecycle {
  import opened Numeric
  import opened Wrappers
  import opened Protocol
  import opened Machine
  import opened Invariant
  import opened Frames
  import Lending
  import Governance
  import Oracles

  // -- one payment -------------------------------------------------------------------------

  /** Interest is one exact product over the elapsed time, capped once and divided once. */
  lemma AccrualIsCappedProduct(loan: LoanRecord, bps: U32, now: U64)
    requires 0 <= loan.outstanding
    ensures var exact := loan.outstanding * bps * SaturatingSub(now, loan.lastInterestTime);
      0 <= exact && Lending.Accrual(loan, bps, now) == Min(exact, I128_MAX) / (10_000 * 31_536_000)
  {
    var elapsed := SaturatingSub(now, loan.lastInterestTime);
    if elapsed > 0 && loan.outstanding > 0 {
      ChainIsOneCap(loan.outstanding, bps, elapsed);
    } else if elapsed == 0 {
      assert loan.outstanding * bps * elapsed == 0;
    } else {
      assert loan.outstanding * bps == 0;
    }
  }

  /**
   * A payment pays interest first, never more than is owed, and leaves the loan Repaid exactly
   * when it covers the whole debt.
   */
  lemma PaymentMeaning(loan: LoanRecord, id: nat, bps: U32, amount: I128, now: U64)
    requires LoanOk(loan, id, now) && loan.status == Active && 0 < amount && bps <= 1000
    requires Lending.SplitPayment(loan, bps, amount).Done?
    ensures var split := Lending.SplitPayment(loan, bps, amount).value;
      var settled := Lending.Settled(loan, split);
      var debt := loan.outstanding + loan.interestAccrued;
      && split.interest + split.principal == Min(amount, debt)
      && 0 <= split.interest <= loan.interestAccrued && 0 <= split.principal <= loan.outstanding
      && (0 < split.principal ==> split.interest == loan.interestAccrued)
      && 0 <= split.fee && 10 * split.fee <= split.interest
      && LoanOk(settled, id, now)
      && (settled.status == Repaid <==> debt <= amount)
  {
    var split := Lending.SplitPayment(loan, bps, amount).value;
    MulMono(split.interest, 0, bps);
    MulMono(split.interest, bps, 1000);
  }

  lemma PayOutKeepsFunds(b: Balances, treasury: Address, borrower: Address, terms: Lending.Terms)
    requires FundsOk(b) && Lending.PayOut(b, treasury, borrower, terms).Done?
    ensures FundsOk(Lending.PayOut(b, treasury, borrower, terms).value)
  {
    var paid := if terms.fee > 0 then Transfer(b, Contract, treasury, terms.fee).value else b;
    if terms.fee > 0 { TransferMoves(b, Contract, treasury, terms.fee); }
    TransferMoves(paid, Contract, borrower, terms.disbursement);
  }

  lemma CollectKeepsFunds(b: Balances, treasury: Address, borrower: Address, split: Lending.Split)
    requires FundsOk(b) && Lending.Collect(b, treasury, borrower, split).Done?
    ensures FundsOk(Lending.Collect(b, treasury, borrower, split).value)
  {
    TransferMoves(b, borrower, Contract, split.interest + split.principal);
    var paid := Transfer(b, borrower, Contract, split.interest + split.principal).value;
    if split.fee > 0 { TransferMoves(paid, Contract, treasury, split.fee); }
  }

  lemma NewLoanOk(b: Book, now: U64, cfg: Config, borrower: Address, ids: seq<nat>, amount: I128, duration: Option<U64>)
    requires BookOk(b, now) && ConfigOk(cfg) && cfg.admin.Some? && b.loanCounter < U64_MAX
    requires 0 < amount && |ids| > 0 && Lending.Pledge(b.collaterals, ids, borrower).Done?
    requires Lending.Approve(Lending.Pledge(b.collaterals, ids, borrower).value, amount, cfg.ltv, cfg.origFee).Done?
    ensures var total := Lending.Pledge(b.collaterals, ids, borrower).value;
      var loan := Lending.NewLoan(b.loanCounter + 1, borrower, ids, total, amount, now, duration);
      LoanOk(loan, b.loanCounter + 1, now) && ListsOwned(b, loan)
  {
    PledgeIsTotal(b.collaterals, ids, borrower);
    var total := Total(b.collaterals, ids);
    RequestWithinLtv(total, amount, cfg.ltv, cfg.origFee);
    MulMono(total, cfg.ltv, 9000);
  }

  /** What a committed `request_loan` did, in pieces. */
  ghost predicate Requested(s: State, after: State, borrower: Address, ids: seq<nat>, amount: I128,
                            duration: Option<U64>, total: I128, terms: Lending.Terms) {
    && Initialized(s) && borrower != Contract && 0 < amount && |ids| > 0 && s.book.loanCounter < U64_MAX
    && Lending.Pledge(s.book.collaterals, ids, borrower) == Done(total)
    && Lending.Approve(total, amount, s.cfg.ltv, s.cfg.origFee) == Done(terms)
    && Lending.PayOut(s.balances, s.cfg.treasury, borrower, terms) == Done(after.balances)
    && after == Lending.Originated(s, borrower, ids, amount, duration, total, terms, after.balances)
  }

  lemma RequestParts(s: State, signers: set<Address>, borrower: Address, ids: seq<nat>, amount: I128,
                     duration: Option<U64>) returns (total: I128, terms: Lending.Terms)
    requires Lending.RequestLoan(s, signers, borrower, ids, amount, duration).Done?
    ensures Requested(s, Lending.RequestLoan(s, signers, borrower, ids, amount, duration).value.state,
                      borrower, ids, amount, duration, total, terms)
  {
    total := Lending.Pledge(s.book.collaterals, ids, borrower).value;
    terms := Lending.Approve(total, amount, s.cfg.ltv, s.cfg.origFee).value;
  }

  lemma RequestKeeps(s: State, after: State, borrower: Address, ids: seq<nat>, amount: I128,
                     duration: Option<U64>, total: I128, terms: Lending.Terms)
    requires Inv(s) && Requested(s, after, borrower, ids, amount, duration, total, terms)
    ensures Inv(after)
  {
    hide Lending.Pledge, Lending.Approve, Lending.PayOut, Lending.Linked, BookOk, FundsOk;
    PayOutKeepsFunds(s.balances, s.cfg.treasury, borrower, terms);
    NewLoanOk(s.book, s.now, s.cfg, borrower, ids, amount, duration);
    AddLoan(s.book, s.now, Lending.NewLoan(s.book.loanCounter + 1, borrower, ids, total, amount, s.now, duration));
    Rebuilt(s, after.book, after.balances, s.whitelist, s.upgrade, after.log);
  }

  /** An approved amount is within the loan-to-value cap, and fee and payout add up to it. */
  lemma RequestWithinLtv(total: I128, amount: I128, ltv: U32, origFee: U32)
    requires 0 < amount && 0 < total && Lending.Approve(total, amount, ltv, origFee).Done?
    ensures var terms := Lending.Approve(total, amount, ltv, origFee).value;
      && amount * BPS <= total * ltv
      && terms.fee + terms.disbursement == amount
      && terms.fee * BPS <= amount * origFee < terms.fee * BPS + BPS
      && (origFee <= 10_000 ==> 0 <= terms.disbursement)
  {
    MulMono(total, 0, ltv);
    MulMono(amount, 0, origFee);
    if origFee <= 10_000 { MulMono(amount, origFee, 10_000); }
  }

  lemma RepayKeeps(s: State, signers: set<Address>, borrower: Address, id: nat, amount: I128)
    requires Inv(s) && Lending.RepayLoan(s, signers, borrower, id, amount).Done?
    ensures Inv(Lending.RepayLoan(s, signers, borrower, id, amount).value.state)
  {
    var loan := Lending.Accrued(s.book.loans[id], s.cfg.intFee, s.now);
    AccrualIsCappedProduct(s.book.loans[id], s.cfg.intFee, s.now);
    PaymentMeaning(loan, id, s.cfg.intFee, amount, s.now);
    var split := Lending.SplitPayment(loan, s.cfg.intFee, amount).value;
    CollectKeepsFunds(s.balances, s.cfg.treasury, borrower, split);
    ReplaceLoan(s.book, s.now, id, Lending.Settled(loan, split));
  }

  lemma LiquidateKeeps(s: State, signers: set<Address>, liquidator: Address, id: nat, repay: I128)
    requires Inv(s) && Lending.Liquidate(s, signers, liquidator, id, repay).Done?
    ensures Inv(Lending.Liquidate(s, signers, liquidator, id, repay).value.state)
  {
    var after := Lending.Liquidate(s, signers, liquidator, id, repay).value.state;
    MulMono(s.book.loans[id].outstanding, s.cfg.closeFactor, 10_000);
    TransferMoves(s.balances, liquidator, Contract, repay);
    ReplaceLoan(s.book, s.now, id, after.book.loans[id]);
  }

  lemma RegisterKeeps(s: State, tx: Tx)
    requires Inv(s) && tx.call.RegisterLivestock? && Step(s, tx).Done?
    ensures Inv(Apply(s, tx))
  {
    hide BookOk;
    var id := s.book.collateralCounter + 1;
    var record := CollateralRecord(tx.call.owner, tx.call.animalType, tx.call.count, tx.call.value, 0, [tx.call.value]);
    var book := s.book.(collaterals := s.book.collaterals[id := record], collateralCounter := id);
    assert Apply(s, tx) == s.(book := book) && CollateralOk(record) && Initialized(s);
    hide Step;
    AddCollateral(s.book, s.now, record);
    Rebuilt(s, book, s.balances, s.whitelist, s.upgrade, s.log);
  }

  lemma AppraisalKeeps(s: State, tx: Tx)
    requires Inv(s) && tx.call.UpdateAppraisal? && Step(s, tx).Done?
    ensures Inv(Apply(s, tx))
  {
    var after := Apply(s, tx);
    ReplaceCollateral(s.book, s.now, tx.call.collateralId, after.book.collaterals[tx.call.collateralId]);
    Rebuilt(s, after.book, s.balances, s.whitelist, s.upgrade, s.log);
  }

  lemma QueryKeeps(s: State, tx: Tx)
    requires Inv(s) && tx.call.QueryHealthFactor? && Step(s, tx).Done?
    ensures Inv(Apply(s, tx))
  {
    var after := Apply(s, tx);
    if after.book != s.book {
      ReplaceLoan(s.book, s.now, tx.call.loanId, after.book.loans[tx.call.loanId]);
      Rebuilt(s, after.book, s.balances, s.whitelist, s.upgrade, s.log);
    }
  }

  lemma SettingKeeps(cfg: Config, setting: Governance.Setting)
    requires ConfigOk(cfg) && cfg.admin.Some? && Governance.Applied(cfg, setting).Done?
    ensures ConfigOk(Governance.Applied(cfg, setting).value)
    ensures Governance.Applied(cfg, setting).value.admin == cfg.admin
  {
  }

  lemma ConfigStepKeeps(s: State, tx: Tx)
    requires Inv(s) && Step(s, tx).Done?
    requires tx.call.Initialize? || tx.call.Configure? || tx.call.AcceptAdmin? || tx.call.Pause? || tx.call.Unpause?
    ensures Inv(Apply(s, tx))
  {
    var after := Apply(s, tx);
    assert after.book == s.book && after.oracles == s.oracles && after.balances == s.balances;
    match tx.call
    case Configure(admin, setting) => SettingKeeps(s.cfg, setting);
    case _ =>
  }

  lemma WhitelistStepKeeps(s: State, tx: Tx)
    requires Inv(s) && Step(s, tx).Done? && (tx.call.AddLiquidator? || tx.call.RemoveLiquidator?)
    ensures Inv(Apply(s, tx))
  {
    var after := Apply(s, tx);
    assert after == s.(whitelist := after.whitelist) && WhitelistOk(after.whitelist);
    hide Step;
    Rebuilt(s, s.book, s.balances, after.whitelist, s.upgrade, s.log);
  }

  lemma SlotStepKeeps(s: State, tx: Tx)
    requires Inv(s) && Step(s, tx).Done?
    requires tx.call.ProposeUpgrade? || tx.call.ExecuteUpgrade? || tx.call.CancelUpgrade?
    ensures Inv(Apply(s, tx))
  {
    var after := Apply(s, tx);
    assert after == s.(upgrade := after.upgrade, log := after.log) && SlotOk(after.upgrade) && Initialized(s);
    hide Step;
    Rebuilt(s, s.book, s.balances, s.whitelist, after.upgrade, after.log);
  }

  /** The invariant of a state whose book, balances, whitelist, slot and log were replaced. */
  lemma Rebuilt(s: State, book: Book, balances: Balances, whitelist: Whitelist, upgrade: UpgradeSlot, log: seq<Event>)
    requires Inv(s) && (Initialized(s) || (book == s.book && upgrade == s.upgrade))
    requires BookOk(book, s.now) && FundsOk(balances) && WhitelistOk(whitelist) && SlotOk(upgrade)
    ensures Inv(s.(book := book, balances := balances, whitelist := whitelist, upgrade := upgrade, log := log))
  {
    var after := s.(book := book, balances := balances, whitelist := whitelist, upgrade := upgrade, log := log);
    assert Oracles.Registered(after) == Oracles.Registered(s);
  }

  lemma RemovalKeeps(list: seq<Address>, i: nat)
    requires RegistryOk(list) && i < |list|
    ensures RegistryOk(Without(list, i))
  {
  }

  lemma RegistryStepKeeps(s: State, tx: Tx)
    requires Inv(s) && Step(s, tx).Done? && (tx.call.AddOracle? || tx.call.RemoveOracle?)
    ensures Inv(Apply(s, tx))
  {
    hide BookOk, ConfigOk, FundsOk, Oracles.AnyActive;
    var list := Oracles.Registered(s);
    var after := Apply(s, tx);
    assert after == s.(oracles := after.oracles) && Initialized(s);
    if tx.call.AddOracle? {
      assert Oracles.Registered(after) == list + [tx.call.oracle];
    } else {
      RemovalKeeps(list, Oracles.FirstIndex(list, tx.call.oracle));
    }
  }

  lemma PriceStepKeeps(s: State, tx: Tx)
    requires Inv(s) && Step(s, tx).Done? && Prices(tx.call)
    ensures Inv(Apply(s, tx))
  {
    assert Initialized(s);
    hide Step, BookOk, ConfigOk, FundsOk, RegistryOk;
    Frame(s, tx);
    assert Oracles.Registered(Apply(s, tx)) == Oracles.Registered(s);
  }

  lemma MoneyStepKeeps(s: State, tx: Tx)
    requires Inv(s) && Step(s, tx).Done?
    requires tx.call.EmergencyWithdraw? || tx.call.MoveTokens?
    ensures Inv(Apply(s, tx))
  {
    match tx.call
    case EmergencyWithdraw(admin, recipient) =>
      var held := Balance(s.balances, Contract);
      if held > 0 { TransferMoves(s.balances, Contract, recipient, held); }
    case MoveTokens(sender, to, amount) =>
      TransferMoves(s.balances, sender, to, amount);
    case _ =>
  }

  /** Every committed step keeps the invariant. */
  lemma StepKeeps(s: State, tx: Tx)
    requires Inv(s)
    ensures Inv(Apply(s, tx))
  {
    if Step(s, tx).Done? {
      match tx.call
      case RequestLoan(borrower, ids, amount, duration) =>
        var total, terms := RequestParts(s, tx.signers, borrower, ids, amount, duration);
        RequestKeeps(s, Apply(s, tx), borrower, ids, amount, duration, total, terms);
      case RepayLoan(borrower, id, amount) => RepayKeeps(s, tx.signers, borrower, id, amount);
      case Liquidate(liquidator, id, amount) => LiquidateKeeps(s, tx.signers, liquidator, id, amount);
      case RegisterLivestock(_, _, _, _) => RegisterKeeps(s, tx);
      case UpdateAppraisal(_, _, _) => AppraisalKeeps(s, tx);
      case QueryHealthFactor(_) => QueryKeeps(s, tx);
      case EmergencyWithdraw(_, _) => MoneyStepKeeps(s, tx);
      case MoveTokens(_, _, _) => MoneyStepKeeps(s, tx);
      case AddOracle(_, _) => RegistryStepKeeps(s, tx);
      case RemoveOracle(_, _) => RegistryStepKeeps(s, tx);
      case SubmitOraclePrices(_, _) => PriceStepKeeps(s, tx);
      case SubmitPrice(_, _) => PriceStepKeeps(s, tx);
      case AddLiquidator(_, _) => WhitelistStepKeeps(s, tx);
      case RemoveLiquidator(_, _) => WhitelistStepKeeps(s, tx);
      case ProposeUpgrade(_, _) => SlotStepKeeps(s, tx);
      case ExecuteUpgrade => SlotStepKeeps(s, tx);
      case CancelUpgrade(_) => SlotStepKeeps(s, tx);
      case Tick(now) => BookLater(s.book, s.now, Max(s.now, now));
      case _ => ConfigStepKeeps(s, tx);
    }
  }

  /** Every state of every run satisfies the invariant. */
  lemma {:induction false} RunKeeps(s: State, txs: seq<Tx>)
    requires Inv(s)
    ensures Inv(Run(s, txs))
    decreases |txs|
  {
    if |txs| > 0 {
      StepKeeps(s, txs[0]);
      RunKeeps(Apply(s, txs[0]), txs[1..]);
    }
  }

  lemma DeployedOk(s: State)
    requires Deployed(s)
    ensures Inv(s)
  {
  }
}
