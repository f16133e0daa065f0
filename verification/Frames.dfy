/** What each kind of call may write; everything else in storage stays as it was. */
module Frames {
  import opened Numeric
  import opened Wrappers
  import opened Protocol
  import opened Machine
  import Lending
  import Governance
  import Oracles

  predicate Governs(call: Call) {
    call.Initialize? || call.Configure? || call.AcceptAdmin? || call.Pause? || call.Unpause?
  }

  predicate Registers(call: Call) {
    call.AddOracle? || call.RemoveOracle?
  }

  predicate Prices(call: Call) {
    call.SubmitOraclePrices? || call.SubmitPrice?
  }

  predicate Lists(call: Call) {
    call.AddLiquidator? || call.RemoveLiquidator?
  }

  predicate UsesSlot(call: Call) {
    call.ProposeUpgrade? || call.ExecuteUpgrade? || call.CancelUpgrade?
  }

  predicate Appraises(call: Call) {
    call.RegisterLivestock? || call.UpdateAppraisal?
  }

  predicate TouchesLoans(call: Call) {
    call.RequestLoan? || call.RepayLoan? || call.Liquidate? || call.QueryHealthFactor?
  }

  predicate MovesTokens(call: Call) {
    call.EmergencyWithdraw? || call.MoveTokens?
  }

  /** `after` differs from `s` only in what such a call may write. */
  ghost predicate Framed(s: State, after: State, call: Call) {
    && (Governs(call) ==> after == s.(cfg := after.cfg, feed := after.feed)
                          && (!call.Initialize? ==> after.feed == s.feed))
    && (Registers(call) ==> after == s.(oracles := after.oracles))
    && (Prices(call) ==> after == s.(feed := after.feed))
    && (Lists(call) ==> after == s.(whitelist := after.whitelist))
    && (UsesSlot(call) ==> after == s.(upgrade := after.upgrade, log := after.log))
    && (Appraises(call) ==> after == s.(book := s.book.(
          collaterals := after.book.collaterals, collateralCounter := after.book.collateralCounter)))
    && (TouchesLoans(call) ==>
          && after == s.(book := after.book, balances := after.balances, log := after.log)
          && after.book.collateralCounter == s.book.collateralCounter
          && (!call.RequestLoan? ==> after.book == s.book.(loans := after.book.loans))
          && (call.QueryHealthFactor? ==> after.balances == s.balances && after.log == s.log))
    && (MovesTokens(call) ==> after == s.(balances := after.balances, log := after.log))
    && (call.Tick? ==> after == s.(now := Max(s.now, call.now)))
  }

  lemma GovernanceFrame(s: State, tx: Tx)
    requires Governs(tx.call)
    ensures Framed(s, Apply(s, tx), tx.call)
  {
    hide Governance.Applied;
  }

  lemma RegistryFrame(s: State, tx: Tx)
    requires Registers(tx.call) || Lists(tx.call)
    ensures Framed(s, Apply(s, tx), tx.call)
  {
    hide Oracles.Registered, Oracles.AnyActive, Oracles.FirstIndex;
  }

  lemma PriceFrame(s: State, tx: Tx)
    requires Prices(tx.call)
    ensures Framed(s, Apply(s, tx), tx.call)
  {
    hide Oracles.Registered, Oracles.AcceptedMedian, Oracles.Flagged, Oracles.Averaged;
  }

  lemma SlotFrame(s: State, tx: Tx)
    requires UsesSlot(tx.call)
    ensures Framed(s, Apply(s, tx), tx.call)
  {
  }

  lemma AppraisalFrame(s: State, tx: Tx)
    requires Appraises(tx.call)
    ensures Framed(s, Apply(s, tx), tx.call)
  {
    hide Lending.Rolled;
  }

  lemma RequestFrame(s: State, tx: Tx)
    requires tx.call.RequestLoan?
    ensures Framed(s, Apply(s, tx), tx.call)
  {
    hide Lending.Pledge, Lending.Approve, Lending.PayOut, Lending.Linked, Lending.FeeEvents, Lending.NewLoan;
  }

  lemma LoanFrame(s: State, tx: Tx)
    requires TouchesLoans(tx.call) && !tx.call.RequestLoan?
    ensures Framed(s, Apply(s, tx), tx.call)
  {
    hide Lending.Accrued, Lending.SplitPayment, Lending.Collect, Lending.Settled, Lending.FeeEvents;
    hide Lending.HealthFactor, Lending.Rolled;
  }

  lemma TokenFrame(s: State, tx: Tx)
    requires MovesTokens(tx.call) || tx.call.Tick?
    ensures Framed(s, Apply(s, tx), tx.call)
  {
    hide Transfer;
  }

  /** Every call, committed or not, writes only what its kind may write. */
  lemma Frame(s: State, tx: Tx)
    ensures Framed(s, Apply(s, tx), tx.call)
  {
    hide Step, Framed;
    if Governs(tx.call) {
      GovernanceFrame(s, tx);
    } else if Registers(tx.call) || Lists(tx.call) {
      RegistryFrame(s, tx);
    } else if Prices(tx.call) {
      PriceFrame(s, tx);
    } else if UsesSlot(tx.call) {
      SlotFrame(s, tx);
    } else if Appraises(tx.call) {
      AppraisalFrame(s, tx);
    } else if tx.call.RequestLoan? {
      RequestFrame(s, tx);
    } else if TouchesLoans(tx.call) {
      LoanFrame(s, tx);
    } else {
      TokenFrame(s, tx);
    }
  }
}
