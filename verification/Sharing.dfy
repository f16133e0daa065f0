/** What backs a loan: collateral shared between loans, and collateral listed twice. */
module Sharing {
  import opened Numeric
  import opened Wrappers
  import opened Protocol
  import opened Machine
  import opened Invariant
  import opened Lifecycle
  import opened Frames
  import opened LoanLife
  import Lending
  import Safeguards

  // -- one active loan for each collateral -------------------------------------------------

  predicate Backs(b: Book, c: nat, id: nat) {
    id in b.loans && b.loans[id].status == Active && c in b.loans[id].collateralIds
  }

  /** Each collateral is listed by at most one active loan. */
  ghost predicate Unshared(b: Book) {
    forall c, j, k :: Backs(b, c, j) && Backs(b, c, k) ==> j == k
  }

  /** A request that lists the collateral of some active loan. */
  ghost predicate ListsBacking(b: Book, ids: seq<nat>) {
    exists c, k :: c in ids && Backs(b, c, k)
  }

  /** Apart from a granted request, no step gives an active loan a new collateral. */
  lemma NoNewBacking(s: State, tx: Tx)
    requires Inv(s) && !(tx.call.RequestLoan? && Step(s, tx).Done?)
    ensures forall c, k :: Backs(Apply(s, tx).book, c, k) ==> Backs(s.book, c, k)
  {
    hide Step, Inv;
    forall c, k | Backs(Apply(s, tx).book, c, k) ensures Backs(s.book, c, k) {
      Safeguards.NoNewActive(s, tx, k);
      LoanStep(s, tx, k);
    }
  }

  /** A granted request adds the next loan, active and on what it lists, and changes no other. */
  lemma RequestBacks(s: State, tx: Tx)
    requires Inv(s) && tx.call.RequestLoan? && Step(s, tx).Done?
    ensures var id := s.book.loanCounter + 1;
      forall c, k :: Backs(Apply(s, tx).book, c, k) <==> (k == id && c in tx.call.ids) || Backs(s.book, c, k)
    ensures s.book.loanCounter + 1 !in s.book.loans
  {
    Safeguards.RequestedTotal(s, tx);
    hide Lending.Pledge, Lending.Approve, Lending.PayOut, Lending.Linked, Lending.FeeEvents;
    var total, terms := RequestParts(s, tx.signers, tx.call.borrower, tx.call.ids, tx.call.amount, tx.call.duration);
  }

  /**
   * Collateral is not locked to its loan: `request_loan` never reads the back-pointer. "At most one
   * active loan for each collateral" is kept by every step but a granted request that lists the
   * collateral of an active loan, and broken by each of those.
   */
  lemma UnsharedExactly(s: State, tx: Tx)
    requires Inv(s) && Unshared(s.book)
    ensures Unshared(Apply(s, tx).book) <==>
            !(tx.call.RequestLoan? && Step(s, tx).Done? && ListsBacking(s.book, tx.call.ids))
  {
    if tx.call.RequestLoan? && Step(s, tx).Done? {
      RequestBacks(s, tx);
      hide Step, Inv, Backs;
      var id, after := s.book.loanCounter + 1, Apply(s, tx).book;
      NotBacking(s.book, id);
      if ListsBacking(s.book, tx.call.ids) {
        var c, k :| c in tx.call.ids && Backs(s.book, c, k);
        assert Backs(after, c, k) && Backs(after, c, id);
      }
    } else {
      NoNewBacking(s, tx);
    }
  }

  lemma NotBacking(b: Book, id: nat)
    requires id !in b.loans
    ensures forall c :: !Backs(b, c, id)
  {
  }

  // -- each listed collateral once ---------------------------------------------------------

  /** The sum of the listed values, each collateral counted once. */
  function Once(collaterals: map<nat, CollateralRecord>, ids: seq<nat>): int {
    if |ids| == 0 then 0
    else
      var front, last := ids[..|ids| - 1], ids[|ids| - 1];
      Once(collaterals, front) + if last in collaterals && last !in front then collaterals[last].appraisedValue else 0
  }

  /** The contract's sum is that of the distinct collaterals exactly when nothing is listed twice; else it is larger. */
  lemma {:induction false} TotalCountsRepeats(collaterals: map<nat, CollateralRecord>, ids: seq<nat>)
    requires AllValued(collaterals) && forall c :: c in ids ==> c in collaterals
    ensures Once(collaterals, ids) <= Total(collaterals, ids)
    ensures Once(collaterals, ids) == Total(collaterals, ids) <==> Distinct(ids)
  {
    if |ids| > 0 {
      var front, last := ids[..|ids| - 1], ids[|ids| - 1];
      TotalCountsRepeats(collaterals, front);
      DistinctLast(ids);
      assert last in ids;
    }
  }

  lemma DistinctLast(ids: seq<nat>)
    requires |ids| > 0
    ensures Distinct(ids) <==> Distinct(ids[..|ids| - 1]) && ids[|ids| - 1] !in ids[..|ids| - 1]
  {
    var front, last := ids[..|ids| - 1], ids[|ids| - 1];
    if last in front {
      var i :| 0 <= i < |front| && front[i] == last;
      assert ids[i] == ids[|ids| - 1];
    }
  }

  /**
   * A granted request without repeats keeps its principal within the ratio of the collaterals it
   * lists, and the stored value is theirs; with a repeat the stored value is more than they are worth.
   */
  lemma RequestWithinDistinct(s: State, tx: Tx)
    requires Inv(s) && tx.call.RequestLoan? && Step(s, tx).Done?
    ensures var id := s.book.loanCounter + 1;
      var once := Once(s.book.collaterals, tx.call.ids);
      && id in Apply(s, tx).book.loans
      && (Distinct(tx.call.ids) ==> tx.call.amount * BPS <= once * s.cfg.ltv)
      && (Distinct(tx.call.ids) <==> Apply(s, tx).book.loans[id].totalCollateralValue == once)
      && once <= Apply(s, tx).book.loans[id].totalCollateralValue
  {
    Safeguards.RequestedTotal(s, tx);
    RequestGrantedExactly(s, tx);
    forall c | c in s.book.collaterals ensures 0 < s.book.collaterals[c].appraisedValue {
      assert CollateralOk(s.book.collaterals[c]);
    }
    hide Step, Inv;
    TotalCountsRepeats(s.book.collaterals, tx.call.ids);
  }
}
