/** Interest over a whole run: what is charged, against what simple interest would be. */
module Interest {
  import opened Numeric
  import opened Protocol
  import opened Machine
  import opened Invariant
  import opened Lifecycle
  import opened LoanLife
  import Lending
  import Conservation

  function IntFeeOf(): Config -> int {
    (cfg: Config) => cfg.intFee
  }

  function InterestPaidOn(id: nat): Event -> int {
    (e: Event) => if e.LoanRepaid? && e.loanId == id then e.interestPaid else 0
  }

  /** Interest charged on a loan so far: what the log says was paid, plus what stands accrued. */
  ghost function Charged(s: State, id: nat): int
    requires id in s.book.loans
  {
    s.book.loans[id].interestAccrued + Sum(s.log, InterestPaidOn(id))
  }

  /** Simple interest, times 10 000 basis points and the 31 536 000 seconds of a year. */
  function Simple(owed: int, rate: int, span: int): int {
    owed * rate * span
  }

  /** outstanding * rate * elapsed, capped at the largest i128, for each committed repayment of the loan. */
  ghost function ExactOn(id: nat): (State, Tx) -> int {
    (s: State, tx: Tx) =>
      if Repays(s, tx, id) && id in s.book.loans
      then Min(Simple(s.book.loans[id].outstanding, s.cfg.intFee,
                      SaturatingSub(s.now, s.book.loans[id].lastInterestTime)), I128_MAX)
      else 0
  }

  /** One repayment charges the floor of its exact product, and adding it never saturates. */
  lemma ChargedStep(s: State, tx: Tx, id: nat)
    requires Inv(s) && id in s.book.loans
    ensures id in Apply(s, tx).book.loans
    ensures var charged := Charged(Apply(s, tx), id) - Charged(s, id);
      if Repays(s, tx, id) then charged == ExactOn(id)(s, tx) / (10_000 * 31_536_000) else charged == 0
  {
    var after := Apply(s, tx);
    if Repays(s, tx, id) {
      var loan, split := RepayStep(s, tx, id);
      AccrualIsCappedProduct(s.book.loans[id], s.cfg.intFee, s.now);
      var e := after.log[|after.log| - 1];
      Conservation.FeeEventsSum(s.log, id, Interest, split.fee, s.cfg.treasury, e, InterestPaidOn(id));
    } else {
      if Hits(s, tx, id) {
        HitStep(s, tx, id);
      } else {
        OtherStepSameDebt(s, tx, id);
      }
      PaidElsewhere(s, tx, id);
    }
  }

  /** No other call publishes an interest payment on this loan. */
  lemma PaidElsewhere(s: State, tx: Tx, id: nat)
    requires Inv(s) && !Repays(s, tx, id)
    ensures Sum(Apply(s, tx).log, InterestPaidOn(id)) == Sum(s.log, InterestPaidOn(id))
  {
    if Step(s, tx).Done? {
      if tx.call.RequestLoan? {
        RequestPaysNone(s, tx, id);
      } else if tx.call.RepayLoan? {
        var loan, split := RepayStep(s, tx, tx.call.loanId);
        Conservation.FeeEventsSum(s.log, tx.call.loanId, Interest, split.fee, s.cfg.treasury,
                                  Apply(s, tx).log[|Apply(s, tx).log| - 1], InterestPaidOn(id));
      } else {
        OneEventPaysNone(s, tx, id);
      }
    }
  }

  lemma RequestPaysNone(s: State, tx: Tx, id: nat)
    requires tx.call.RequestLoan? && Step(s, tx).Done?
    ensures Sum(Apply(s, tx).log, InterestPaidOn(id)) == Sum(s.log, InterestPaidOn(id))
  {
    var total, terms := RequestParts(s, tx.signers, tx.call.borrower, tx.call.ids, tx.call.amount, tx.call.duration);
    Conservation.FeeEventsSum(s.log, s.book.loanCounter + 1, Origination, terms.fee, s.cfg.treasury,
                              Apply(s, tx).log[|Apply(s, tx).log| - 1], InterestPaidOn(id));
  }

  lemma OneEventPaysNone(s: State, tx: Tx, id: nat)
    requires !tx.call.RequestLoan? && !tx.call.RepayLoan?
    ensures Sum(Apply(s, tx).log, InterestPaidOn(id)) == Sum(s.log, InterestPaidOn(id))
  {
    var after := Apply(s, tx);
    if Conservation.MovesMoney(tx.call) {
      Conservation.SingleEvent(s, tx);
    } else {
      Conservation.QuietStep(s, tx);
    }
    if after.log != s.log {
      SumAppend(s.log, after.log[|s.log|], InterestPaidOn(id));
    }
  }

  /**
   * Over any run, rounding loses less than one unit per repayment: the interest charged times
   * 10 000 * 31 536 000 is at most the sum of the exact products and falls short of it by less than
   * that factor for each repayment.
   */
  lemma {:induction false} ChargedOverRun(s: State, txs: seq<Tx>, id: nat)
    requires Inv(s) && id in s.book.loans
    ensures id in Run(s, txs).book.loans
    ensures var charged := Charged(Run(s, txs), id) - Charged(s, id);
      var year := 10_000 * 31_536_000;
      && year * charged <= Tally(s, txs, ExactOn(id))
      && Tally(s, txs, ExactOn(id)) <= year * charged + (year - 1) * Tally(s, txs, RepaymentsOf(id))
    decreases |txs|
  {
    hide Step, Inv;
    if |txs| > 0 {
      ChargedStep(s, txs[0], id);
      StepKeeps(s, txs[0]);
      ChargedOverRun(Apply(s, txs[0]), txs[1..], id);
      if Repays(s, txs[0], id) {
        FloorBounds(ExactOn(id)(s, txs[0]), 10_000 * 31_536_000);
      }
    }
  }

  /** The highest rate of a run bounds the rate of its first state and the highest rate of the rest. */
  lemma PeakUnfolds(s: State, txs: seq<Tx>)
    requires |txs| > 0
    ensures s.cfg.intFee <= Peak(s, txs, IntFeeOf())
    ensures Peak(Apply(s, txs[0]), txs[1..], IntFeeOf()) <= Peak(s, txs, IntFeeOf())
    ensures 0 <= Peak(Apply(s, txs[0]), txs[1..], IntFeeOf())
  {
    var next := Apply(s, txs[0]);
    assert IntFeeOf()(s.cfg) == s.cfg.intFee && IntFeeOf()(next.cfg) == next.cfg.intFee;
  }

  /** The exact products add up to no more than simple interest at the highest rate on what was first owed. */
  lemma {:induction false} ExactBelowSimple(s: State, txs: seq<Tx>, id: nat, peak: int)
    requires Inv(s) && id in s.book.loans && Peak(s, txs, IntFeeOf()) <= peak
    ensures id in Run(s, txs).book.loans
    ensures Tally(s, txs, ExactOn(id)) <= Simple(s.book.loans[id].outstanding, peak,
      Run(s, txs).book.loans[id].lastInterestTime - s.book.loans[id].lastInterestTime)
    decreases |txs|
  {
    hide Step;
    if |txs| > 0 {
      var next, rest := Apply(s, txs[0]), txs[1..];
      StepKeeps(s, txs[0]);
      LoanStep(s, txs[0], id);
      PeakUnfolds(s, txs);
      LoanRun(next, rest, id);
      ExactBelowSimple(next, rest, id, peak);
      ClockAdvances(s, txs[0], id);
      SpansAdd(ExactOn(id)(s, txs[0]), Tally(next, rest, ExactOn(id)), s.book.loans[id].outstanding,
               next.book.loans[id].outstanding, s.cfg.intFee, peak,
               next.book.loans[id].lastInterestTime - s.book.loans[id].lastInterestTime,
               Run(next, rest).book.loans[id].lastInterestTime - next.book.loans[id].lastInterestTime);
    }
  }

  /** A repayment moves the accrual clock to now; no other step moves it. */
  lemma ClockAdvances(s: State, tx: Tx, id: nat)
    requires Inv(s) && id in s.book.loans
    ensures id in Apply(s, tx).book.loans
    ensures ExactOn(id)(s, tx) <= Simple(s.book.loans[id].outstanding, s.cfg.intFee,
      Apply(s, tx).book.loans[id].lastInterestTime - s.book.loans[id].lastInterestTime)
  {
    hide Step, Simple;
    assert s.book.loans[id].lastInterestTime <= s.now;
    if Repays(s, tx, id) {
      var loan, split := RepayStep(s, tx, id);
    } else {
      NoSpan(s.book.loans[id].outstanding, s.cfg.intFee);
      if Hits(s, tx, id) {
        HitStep(s, tx, id);
      } else {
        OtherStepSameDebt(s, tx, id);
      }
    }
  }

  lemma NoSpan(owed: int, rate: int)
    ensures Simple(owed, rate, 0) == 0
  {
  }

  lemma SpansAdd(first: int, tail: int, owed: int, later: int, rate: int, peak: int, span: int, rest: int)
    requires 0 <= later <= owed && 0 <= rate <= peak && 0 <= span && 0 <= rest
    requires first <= Simple(owed, rate, span) && tail <= Simple(later, peak, rest)
    ensures first + tail <= Simple(owed, peak, span + rest)
  {
    SimpleMono(owed, owed, rate, peak, span);
    SimpleMono(later, owed, peak, peak, rest);
    SpanSplit(owed * peak, span, rest);
  }

  lemma SimpleMono(a: int, b: int, rate: int, peak: int, span: int)
    requires 0 <= a <= b && 0 <= rate <= peak && 0 <= span
    ensures Simple(a, rate, span) <= Simple(b, peak, span)
  {
    MulMono(a, rate, peak);
    MulMono(peak, a, b);
    MulMono(span, a * rate, b * peak);
  }

  lemma SpanSplit(x: int, span: int, rest: int)
    ensures x * (span + rest) == x * span + x * rest
  {
  }

  /**
   * Whatever happens in a run, the interest charged on a loan is at most simple interest on the
   * principal owed at its start, at the highest rate in force, over the time accrued.
   */
  lemma ChargedBelowSimple(s: State, txs: seq<Tx>, id: nat)
    requires Inv(s) && id in s.book.loans
    ensures id in Run(s, txs).book.loans
    ensures var l, after := s.book.loans[id], Run(s, txs).book.loans[id];
      10_000 * 31_536_000 * (Charged(Run(s, txs), id) - Charged(s, id))
      <= Simple(l.outstanding, Peak(s, txs, IntFeeOf()), after.lastInterestTime - l.lastInterestTime)
  {
    ChargedOverRun(s, txs, id);
    ExactBelowSimple(s, txs, id, Peak(s, txs, IntFeeOf()));
  }
}
