/** The published events account for every token balance, not only the contract's. */
module Ledger {
  import opened Numeric
  import opened Wrappers
  import opened Protocol
  import opened Machine
  import opened Invariant
  import opened Lifecycle
  import opened Conservation
  import Lending

  /** What the transfer behind an event adds to the balance of `a`. */
  function FlowOf(a: Address): Event -> int {
    (e: Event) =>
      match e
      case FeeCollected(_, _, fee, to) => Flow(Contract, to, fee, a)
      case LoanRequested(_, borrower, _, disbursement, _) => Flow(Contract, borrower, disbursement, a)
      case LoanRepaid(borrower, _, principalPaid, interestPaid, _) =>
        Flow(borrower, Contract, interestPaid + principalPaid, a)
      case LoanLiquidated(_, liquidator, repaid, _, _) => Flow(liquidator, Contract, repaid, a)
      case EmergencyWithdrawn(recipient, balance) => Flow(Contract, recipient, balance, a)
      case TokensMoved(sender, to, amount) => Flow(sender, to, amount, a)
      case _ => 0
  }

  /** Every balance changed by just what the new events say. */
  ghost predicate Accounted(s: State, after: State) {
    forall a :: Balance(after.balances, a) - Sum(after.log, FlowOf(a)) == Balance(s.balances, a) - Sum(s.log, FlowOf(a))
  }

  lemma RequestAccounted(s: State, after: State, borrower: Address, ids: seq<nat>, amount: I128,
                         duration: Option<U64>, total: I128, terms: Lending.Terms)
    requires Requested(s, after, borrower, ids, amount, duration, total, terms)
    ensures Accounted(s, after)
  {
    var id := s.book.loanCounter + 1;
    var e := LoanRequested(id, borrower, amount, terms.disbursement, total);
    hide Sum, Lending.FeeEvents, Lending.Pledge, Lending.Approve, Lending.PayOut, Lending.Linked;
    assert after.balances == Lending.PayOut(s.balances, s.cfg.treasury, borrower, terms).value;
    assert after.log == Lending.FeeEvents(s.log, id, Origination, terms.fee, s.cfg.treasury) + [e];
    PayOutMoves(s.balances, s.cfg.treasury, borrower, terms);
    hide Requested, Lending.Originated;
    forall a {
      FeeEventsSum(s.log, id, Origination, terms.fee, s.cfg.treasury, e, FlowOf(a));
    }
  }

  lemma RepayAccounted(s: State, signers: set<Address>, borrower: Address, id: nat, amount: I128)
    requires Lending.RepayLoan(s, signers, borrower, id, amount).Done?
    ensures Accounted(s, Lending.RepayLoan(s, signers, borrower, id, amount).value.state)
  {
    var after := Lending.RepayLoan(s, signers, borrower, id, amount).value.state;
    var loan := Lending.Accrued(s.book.loans[id], s.cfg.intFee, s.now);
    var split := Lending.SplitPayment(loan, s.cfg.intFee, amount).value;
    var e := LoanRepaid(borrower, id, split.principal, split.interest, after.book.loans[id].outstanding);
    hide Sum, Lending.FeeEvents, Lending.Accrued, Lending.SplitPayment, Lending.Collect;
    assert after.balances == Lending.Collect(s.balances, s.cfg.treasury, borrower, split).value;
    assert after.log == Lending.FeeEvents(s.log, id, Interest, split.fee, s.cfg.treasury) + [e];
    CollectMoves(s.balances, s.cfg.treasury, borrower, split);
    hide Lending.RepayLoan;
    forall a {
      FeeEventsSum(s.log, id, Interest, split.fee, s.cfg.treasury, e, FlowOf(a));
    }
  }

  /** One transfer and one event that describes it. */
  lemma TransferAccounted(s: State, after: State, sender: Address, to: Address, amount: I128, e: Event)
    requires Transfer(s.balances, sender, to, amount) == Done(after.balances) && after.log == s.log + [e]
    requires forall a :: FlowOf(a)(e) == Flow(sender, to, amount, a)
    ensures Accounted(s, after)
  {
    hide Sum;
    TransferMoves(s.balances, sender, to, amount);
    forall a {
      SumAppend(s.log, e, FlowOf(a));
    }
  }

  lemma WithdrawAccounted(s: State, signers: set<Address>, admin: Address, recipient: Address)
    requires FundsOk(s.balances) && Lending.EmergencyWithdraw(s, signers, admin, recipient).Done?
    ensures Accounted(s, Lending.EmergencyWithdraw(s, signers, admin, recipient).value.state)
  {
    var held := Balance(s.balances, Contract);
    var after := Lending.EmergencyWithdraw(s, signers, admin, recipient).value.state;
    var e := EmergencyWithdrawn(recipient, held);
    hide Sum;
    assert after.log == s.log + [e] && 0 <= held;
    if held > 0 {
      TransferAccounted(s, after, Contract, recipient, held, e);
    } else {
      assert after.balances == s.balances;
      hide Lending.EmergencyWithdraw;
      forall a {
        SumAppend(s.log, e, FlowOf(a));
      }
    }
  }

  lemma QuietAccounted(s: State, tx: Tx)
    requires !MovesMoney(tx.call)
    ensures Accounted(s, Apply(s, tx))
  {
    hide Step, Sum;
    QuietStep(s, tx);
    var after := Apply(s, tx);
    if after.log != s.log {
      forall a {
        SumAppend(s.log, after.log[|s.log|], FlowOf(a));
      }
    }
  }

  lemma StepAccounted(s: State, tx: Tx)
    requires FundsOk(s.balances)
    ensures Accounted(s, Apply(s, tx))
  {
    if Step(s, tx).Done? {
      match tx.call
      case RequestLoan(borrower, ids, amount, duration) =>
        var total, terms := RequestParts(s, tx.signers, borrower, ids, amount, duration);
        RequestAccounted(s, Apply(s, tx), borrower, ids, amount, duration, total, terms);
      case RepayLoan(borrower, id, amount) => RepayAccounted(s, tx.signers, borrower, id, amount);
      case Liquidate(liquidator, id, amount) =>
        TransferAccounted(s, Apply(s, tx), liquidator, Contract, amount, Apply(s, tx).log[|s.log|]);
      case EmergencyWithdraw(admin, recipient) => WithdrawAccounted(s, tx.signers, admin, recipient);
      case MoveTokens(sender, to, amount) =>
        TransferAccounted(s, Apply(s, tx), sender, to, amount, TokensMoved(sender, to, amount));
      case _ => QuietAccounted(s, tx);
    }
  }

  lemma {:induction false} RunAccounted(s: State, txs: seq<Tx>)
    requires Inv(s)
    ensures Accounted(s, Run(s, txs))
    decreases |txs|
  {
    hide Step;
    if |txs| > 0 {
      StepAccounted(s, txs[0]);
      StepKeeps(s, txs[0]);
      RunAccounted(Apply(s, txs[0]), txs[1..]);
    }
  }

  /**
   * After any run from deployment, every address holds what it held at the start plus what the
   * published events moved to it less what they moved away: no call moves tokens unseen, and none
   * publishes a movement that did not happen.
   */
  lemma LogReplaysBalances(deployed: State, txs: seq<Tx>, a: Address)
    requires Deployed(deployed)
    ensures Balance(Run(deployed, txs).balances, a)
            == Balance(deployed.balances, a) + Sum(Run(deployed, txs).log, FlowOf(a))
  {
    DeployedOk(deployed);
    RunAccounted(deployed, txs);
  }
}
