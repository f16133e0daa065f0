/** Counters and rolling logs against the plain sequences they stand for. */
module Histories {
  import opened Numeric
  import opened Protocol
  import opened Machine
  import opened Invariant
  import opened Lifecycle
  import opened LoanLife
  import opened Frames
  import Lending
  import Effects

  // -- rolling logs ------------------------------------------------------------------------

  /** Cutting a log before or after more entries arrive gives the same newest entries. */
  lemma LastNAbsorbs<T>(n: nat, xs: seq<T>, ys: seq<T>)
    ensures LastN(n, LastN(n, xs) + ys) == LastN(n, xs + ys)
  {
    if |xs| > n && |ys| <= n {
      assert (xs[|xs| - n..] + ys)[|ys|..] == (xs + ys)[|xs| + |ys| - n..];
    } else if |ys| > n {
      assert (LastN(n, xs) + ys)[|LastN(n, xs)| + |ys| - n..] == ys[|ys| - n..] == (xs + ys)[|xs| + |ys| - n..];
    }
  }

  lemma LogExtends(n: nat, kept: seq<I128>, first: seq<I128>, rest: seq<I128>)
    ensures LastN(n, LastN(n, kept + first) + rest) == LastN(n, kept + (first + rest))
  {
    LastNAbsorbs(n, kept + first, rest);
    assert kept + first + rest == kept + (first + rest);
  }

  /** The factors that queries on one loan add: one if the price is fresh, the deadline ahead and the products fit. */
  ghost function FactorsOn(id: nat): (State, Tx) -> seq<I128> {
    (s: State, tx: Tx) =>
      if tx.call.QueryHealthFactor? && tx.call.loanId == id && id in s.book.loans then FactorNow(s, s.book.loans[id])
      else []
  }

  function FactorNow(s: State, l: LoanRecord): seq<I128> {
    if Effects.PriceStale(s) || Effects.DeadlinePassed(l, s.now)
       || l.totalCollateralValue < 0 || l.outstanding < 0 || l.interestAccrued < 0
    then []
    else
      var factor := Effects.FactorAt(l, s.cfg.liqThr);
      if factor.Some? then [factor.value] else []
  }

  /** The values that committed appraisals give one collateral. */
  ghost function AppraisalsOf(id: nat): (State, Tx) -> seq<I128> {
    (s: State, tx: Tx) =>
      if tx.call.UpdateAppraisal? && tx.call.collateralId == id && Step(s, tx).Done? then [tx.call.value] else []
  }

  /** Only a health query writes to a history. */
  lemma HistoryUntouched(s: State, tx: Tx, id: nat)
    requires id <= s.book.loanCounter && id in s.book.loans && !tx.call.QueryHealthFactor?
    ensures id in Apply(s, tx).book.loans
    ensures Apply(s, tx).book.loans[id].hfHistory == s.book.loans[id].hfHistory
  {
    hide Lending.SplitPayment, Lending.Collect, Lending.FeeEvents, Lending.HealthFactor, Lending.Linked;
    if tx.call.RequestLoan? {
      if Step(s, tx).Done? {
        var total, terms :=
          RequestParts(s, tx.signers, tx.call.borrower, tx.call.ids, tx.call.amount, tx.call.duration);
      }
    } else if !TouchesLoans(tx.call) {
      hide Step;
      Frame(s, tx);
    }
  }

  lemma QueryLogs(s: State, tx: Tx, id: nat)
    requires Inv(s) && id in s.book.loans && tx.call.QueryHealthFactor?
    ensures id in Apply(s, tx).book.loans
    ensures Apply(s, tx).book.loans[id].hfHistory == LastN(5, s.book.loans[id].hfHistory + FactorsOn(id)(s, tx))
  {
    var h := s.book.loans[id].hfHistory;
    assert LoanOk(s.book.loans[id], id, s.now);
    assert LastN(5, h + []) == h;
    if tx.call.loanId in s.book.loans {
      Effects.QueryAnswersExactly(s, tx);
      hide Step, Inv;
    }
  }

  lemma FactorStep(s: State, tx: Tx, id: nat)
    requires Inv(s) && id in s.book.loans
    ensures id in Apply(s, tx).book.loans
    ensures Apply(s, tx).book.loans[id].hfHistory
            == LastN(5, s.book.loans[id].hfHistory + FactorsOn(id)(s, tx))
  {
    hide Step;
    assert LoanOk(s.book.loans[id], id, s.now);
    if tx.call.QueryHealthFactor? {
      QueryLogs(s, tx, id);
    } else {
      HistoryUntouched(s, tx, id);
      assert s.book.loans[id].hfHistory + [] == s.book.loans[id].hfHistory;
    }
  }

  /** After any run, a loan's history is the newest five of the old entries and all factors appended since. */
  lemma {:induction false} FactorHistory(s: State, txs: seq<Tx>, id: nat)
    requires Inv(s) && id in s.book.loans
    ensures id in Run(s, txs).book.loans
    ensures Run(s, txs).book.loans[id].hfHistory
            == LastN(5, s.book.loans[id].hfHistory + Gathered(s, txs, FactorsOn(id)))
    decreases |txs|
  {
    var h := s.book.loans[id].hfHistory;
    assert LoanOk(s.book.loans[id], id, s.now);
    if |txs| > 0 {
      hide Step, Inv, LastN;
      var next := Apply(s, txs[0]);
      var first, rest := FactorsOn(id)(s, txs[0]), Gathered(next, txs[1..], FactorsOn(id));
      FactorStep(s, txs[0], id);
      StepKeeps(s, txs[0]);
      FactorHistory(next, txs[1..], id);
      LogExtends(5, h, first, rest);
    } else {
      assert h + [] == h;
    }
  }

  /** Linking and registering leave every recorded appraisal alone. */
  lemma AppraisalsUntouched(s: State, tx: Tx, id: nat)
    requires id <= s.book.collateralCounter && id in s.book.collaterals && !tx.call.UpdateAppraisal?
    ensures id in Apply(s, tx).book.collaterals
    ensures Apply(s, tx).book.collaterals[id].appraisalHistory == s.book.collaterals[id].appraisalHistory
  {
    if tx.call.RequestLoan? {
      if Step(s, tx).Done? {
        var total, terms :=
          RequestParts(s, tx.signers, tx.call.borrower, tx.call.ids, tx.call.amount, tx.call.duration);
      }
    } else if !tx.call.RegisterLivestock? {
      hide Step;
      Frame(s, tx);
    }
  }

  lemma AppraisalLogs(s: State, tx: Tx, id: nat)
    requires id in s.book.collaterals && tx.call.UpdateAppraisal?
    requires |s.book.collaterals[id].appraisalHistory| <= Lending.APPRAISAL_LOG_CAP
    ensures id in Apply(s, tx).book.collaterals
    ensures Apply(s, tx).book.collaterals[id].appraisalHistory
            == LastN(3, s.book.collaterals[id].appraisalHistory + AppraisalsOf(id)(s, tx))
  {
  }

  lemma AppraisalStep(s: State, tx: Tx, id: nat)
    requires Inv(s) && id in s.book.collaterals
    ensures id in Apply(s, tx).book.collaterals
    ensures Apply(s, tx).book.collaterals[id].appraisalHistory
            == LastN(3, s.book.collaterals[id].appraisalHistory + AppraisalsOf(id)(s, tx))
  {
    hide Step;
    assert CollateralOk(s.book.collaterals[id]);
    if tx.call.UpdateAppraisal? {
      AppraisalLogs(s, tx, id);
    } else {
      AppraisalsUntouched(s, tx, id);
      assert s.book.collaterals[id].appraisalHistory + [] == s.book.collaterals[id].appraisalHistory;
    }
  }

  /** After any run, a collateral's history is the newest three of the old entries and all appraisals since. */
  lemma {:induction false} AppraisalHistory(s: State, txs: seq<Tx>, id: nat)
    requires Inv(s) && id in s.book.collaterals
    ensures id in Run(s, txs).book.collaterals
    ensures Run(s, txs).book.collaterals[id].appraisalHistory
            == LastN(3,
                     s.book.collaterals[id].appraisalHistory + Gathered(s, txs, AppraisalsOf(id)))
    decreases |txs|
  {
    var h := s.book.collaterals[id].appraisalHistory;
    if |txs| > 0 {
      hide Step, Inv, LastN;
      var next := Apply(s, txs[0]);
      var first, rest := AppraisalsOf(id)(s, txs[0]), Gathered(next, txs[1..], AppraisalsOf(id));
      AppraisalStep(s, txs[0], id);
      StepKeeps(s, txs[0]);
      AppraisalHistory(next, txs[1..], id);
      LogExtends(3, h, first, rest);
    } else {
      assert CollateralOk(s.book.collaterals[id]);
      assert h + [] == h;
    }
  }

  /** The newest entry of the history is the collateral's current value. */
  lemma NewestAppraisalIsValue(s: State, txs: seq<Tx>, id: nat)
    requires Inv(s) && id in Run(s, txs).book.collaterals
    ensures var c := Run(s, txs).book.collaterals[id];
      |c.appraisalHistory| > 0 && c.appraisedValue == c.appraisalHistory[|c.appraisalHistory| - 1]
  {
    hide Step;
    RunKeeps(s, txs);
    assert CollateralOk(Run(s, txs).book.collaterals[id]);
  }

  // -- what a registration fixes -----------------------------------------------------------

  predicate SameAnimals(c: CollateralRecord, after: CollateralRecord) {
    after.owner == c.owner && after.animalType == c.animalType && after.count == c.count
  }

  lemma CollateralStep(s: State, tx: Tx, id: nat)
    requires id <= s.book.collateralCounter && id in s.book.collaterals
    ensures id in Apply(s, tx).book.collaterals
    ensures SameAnimals(s.book.collaterals[id], Apply(s, tx).book.collaterals[id])
  {
    if tx.call.RequestLoan? {
      if Step(s, tx).Done? {
        var total, terms :=
          RequestParts(s, tx.signers, tx.call.borrower, tx.call.ids, tx.call.amount, tx.call.duration);
      }
    } else if !Appraises(tx.call) {
      hide Step;
      Frame(s, tx);
    }
  }

  lemma {:induction false} CollateralRun(s: State, txs: seq<Tx>, id: nat)
    requires Inv(s) && id in s.book.collaterals
    ensures id in Run(s, txs).book.collaterals
    ensures SameAnimals(s.book.collaterals[id], Run(s, txs).book.collaterals[id])
    decreases |txs|
  {
    hide Step;
    if |txs| > 0 {
      CollateralStep(s, txs[0], id);
      StepKeeps(s, txs[0]);
      CollateralRun(Apply(s, txs[0]), txs[1..], id);
    }
  }

  /** A registration that goes through appends one record under the next id. */
  lemma RegisterAdds(s: State, tx: Tx)
    requires tx.call.RegisterLivestock? && Step(s, tx).Done?
    ensures var id := s.book.collateralCounter + 1;
      var call := tx.call;
      Apply(s, tx).book.collaterals
      == s.book.collaterals[
           id := CollateralRecord(call.owner, call.animalType, call.count, call.value, 0, [call.value])]
  {
  }

  /**
   * After a registration and any run, the record is still there under the id it was given, with its
   * owner, kind and count, and its history is the newest three of the registered value and all
   * appraisals since, the last of which is its value.
   */
  lemma RegisteredForGood(s: State, tx: Tx, txs: seq<Tx>)
    requires Inv(s) && tx.call.RegisterLivestock? && Step(s, tx).Done?
    ensures var id := s.book.collateralCounter + 1;
      var end := Run(Apply(s, tx), txs).book.collaterals;
      && Step(s, tx).value.reply == Id(id) && id !in s.book.collaterals && id in end
      && end[id].owner == tx.call.owner && end[id].animalType == tx.call.animalType && end[id].count == tx.call.count
      && var history := [tx.call.value] + Gathered(Apply(s, tx), txs, AppraisalsOf(id));
         end[id].appraisalHistory == LastN(3, history)
         && end[id].appraisedValue == history[|history| - 1]
  {
    var id := s.book.collateralCounter + 1;
    var next := Apply(s, tx);
    RegisterAdds(s, tx);
    assert Step(s, tx).value.reply == Id(id);
    hide Step;
    StepKeeps(s, tx);
    CollateralRun(next, txs, id);
    AppraisalHistory(next, txs, id);
    NewestAppraisalIsValue(next, txs, id);
  }
}
