/** What every reachable state of the contract satisfies. */
module Invariant {
  import opened Numeric
  import opened Wrappers
  import opened Protocol
  import opened Machine
  import Lending
  import Governance
  import Oracles

  // -- the parts ---------------------------------------------------------------------------

  /** Lifecycle of one loan: active exactly while principal is owed, and closed loans stay consistent. */
  predicate LoanOk(loan: LoanRecord, id: nat, now: U64) {
    && loan.id == id && |loan.collateralIds| > 0
    && 0 < loan.principal && 0 <= loan.outstanding <= loan.principal
    && 0 <= loan.interestAccrued
    && (loan.status == Active <==> loan.outstanding > 0)
    && (loan.status == Repaid ==> loan.interestAccrued == 0)
    && loan.lastInterestTime <= now
    && loan.principal * BPS <= loan.totalCollateralValue * 9000
    && |loan.hfHistory| <= Lending.FACTOR_LOG_CAP
  }

  predicate CollateralOk(c: CollateralRecord) {
    && 0 < c.appraisedValue
    && 0 < |c.appraisalHistory| <= Lending.APPRAISAL_LOG_CAP
    && c.appraisalHistory[|c.appraisalHistory| - 1] == c.appraisedValue
  }

  /** The back-pointer of a collateral is the newest loan that lists it, or 0 when none does. */
  ghost predicate PointsToNewest(b: Book, c: nat)
    requires c in b.collaterals
  {
    var id := b.collaterals[c].loanId;
    && (id != 0 ==> id in b.loans && c in b.loans[id].collateralIds)
    && forall k :: k in b.loans && c in b.loans[k].collateralIds ==> k <= id
  }

  ghost predicate ListsOwned(b: Book, loan: LoanRecord) {
    forall c :: c in loan.collateralIds ==> c in b.collaterals && b.collaterals[c].owner == loan.borrower
  }

  ghost predicate BookOk(b: Book, now: U64) {
    && (forall k :: k in b.loans <==> 1 <= k <= b.loanCounter)
    && (forall c :: c in b.collaterals <==> 1 <= c <= b.collateralCounter)
    && (forall k :: k in b.loans ==> LoanOk(b.loans[k], k, now) && ListsOwned(b, b.loans[k]))
    && (forall c :: c in b.collaterals ==> CollateralOk(b.collaterals[c]) && PointsToNewest(b, c))
  }

  predicate ConfigOk(cfg: Config) {
    cfg.admin.Some? ==>
      && 0 < cfg.ltv <= 9000 && 0 < cfg.liqThr
      && cfg.origFee <= 500 && cfg.intFee <= 1000
      && 0 < cfg.closeFactor <= 10_000
      && 0 < cfg.minLoan < cfg.maxLoan
      && cfg.pauseDur <= Governance.MAX_PAUSE_DURATION
  }

  /** No oracle twice, and never more than the five slots of the median array. */
  ghost predicate RegistryOk(oracles: seq<Address>) {
    && |oracles| <= Oracles.MAX_ORACLES
    && Distinct(oracles)
  }

  predicate WhitelistOk(w: Whitelist) {
    w.count == |w.entries|
  }

  predicate SlotOk(u: UpgradeSlot) {
    u.pendingWasm.Some? == u.upgradeTime.Some?
  }

  /** Before `initialize` only balances and the clock can have moved. */
  ghost predicate BlankOk(s: State) {
    !Initialized(s) ==>
      && s.cfg.pendingAdmin == None && s.cfg.ltv == 0 && s.cfg.intFee == 0
      && s.cfg.pauseDur <= Governance.MAX_PAUSE_DURATION
      && s.book == Book(map[], map[], 0, 0) && s.oracles == None
      && s.feed == Feed(0, 0, 0, 0, 0)
      && s.upgrade == UpgradeSlot(None, None)
  }

  ghost predicate Inv(s: State) {
    && BlankOk(s)
    && ConfigOk(s.cfg)
    && BookOk(s.book, s.now)
    && RegistryOk(Oracles.Registered(s))
    && WhitelistOk(s.whitelist)
    && SlotOk(s.upgrade)
    && FundsOk(s.balances)
  }

  // -- what a pledge means -----------------------------------------------------------------

  function Total(collaterals: map<nat, CollateralRecord>, ids: seq<nat>): int {
    if |ids| == 0 then 0
    else
      var last := ids[|ids| - 1];
      Total(collaterals, ids[..|ids| - 1]) + if last in collaterals then collaterals[last].appraisedValue else 0
  }

  ghost predicate AllOwned(collaterals: map<nat, CollateralRecord>, ids: seq<nat>, borrower: Address) {
    forall c :: c in ids ==> c in collaterals && collaterals[c].owner == borrower
  }

  ghost predicate AllValued(collaterals: map<nat, CollateralRecord>) {
    forall c :: c in collaterals ==> 0 < collaterals[c].appraisedValue
  }

  /**
   * The list is accepted exactly when every entry exists and is the borrower's and the values,
   * counted as often as they are listed, fit; the result is that sum.
   */
  lemma {:induction false} PledgeIsTotal(collaterals: map<nat, CollateralRecord>, ids: seq<nat>, borrower: Address)
    requires AllValued(collaterals)
    ensures |ids| <= Total(collaterals, ids) || !AllOwned(collaterals, ids, borrower)
    ensures Lending.Pledge(collaterals, ids, borrower).Done?
            <==> AllOwned(collaterals, ids, borrower) && Fits(Total(collaterals, ids))
    ensures Lending.Pledge(collaterals, ids, borrower).Done?
            ==> Lending.Pledge(collaterals, ids, borrower).value == Total(collaterals, ids)
  {
    if |ids| > 0 {
      var front, last := ids[..|ids| - 1], ids[|ids| - 1];
      PledgeIsTotal(collaterals, front, borrower);
      assert forall c :: c in ids <==> c in front || c == last;
      assert AllOwned(collaterals, ids, borrower)
        <==> AllOwned(collaterals, front, borrower) && last in collaterals && collaterals[last].owner == borrower;
    }
  }

  // -- how the book may change -------------------------------------------------------------

  lemma BookLater(b: Book, now: U64, later: U64)
    requires BookOk(b, now) && now <= later
    ensures BookOk(b, later)
  {
  }

  /** Replacing a loan by one with the same borrower and list keeps the book. */
  lemma ReplaceLoan(b: Book, now: U64, id: nat, loan: LoanRecord)
    requires BookOk(b, now) && id in b.loans && LoanOk(loan, id, now)
    requires loan.borrower == b.loans[id].borrower && loan.collateralIds == b.loans[id].collateralIds
    ensures BookOk(b.(loans := b.loans[id := loan]), now)
  {
    var after := b.(loans := b.loans[id := loan]);
    forall k | k in after.loans ensures LoanOk(after.loans[k], k, now) && ListsOwned(after, after.loans[k]) {
      assert ListsOwned(b, b.loans[k]);
    }
    forall c | c in after.collaterals ensures CollateralOk(after.collaterals[c]) && PointsToNewest(after, c) {
      assert PointsToNewest(b, c);
    }
  }

  /** A new loan gets the next id, and everything it lists now points to it. */
  lemma AddLoan(b: Book, now: U64, loan: LoanRecord)
    requires BookOk(b, now) && b.loanCounter < U64_MAX
    requires LoanOk(loan, b.loanCounter + 1, now) && ListsOwned(b, loan)
    ensures BookOk(b.(
      loans := b.loans[b.loanCounter + 1 := loan],
      loanCounter := b.loanCounter + 1,
      collaterals := Lending.Linked(b.collaterals, loan.collateralIds, b.loanCounter + 1)), now)
  {
    var id := b.loanCounter + 1;
    var after := b.(loans := b.loans[id := loan], loanCounter := id,
                    collaterals := Lending.Linked(b.collaterals, loan.collateralIds, id));
    forall k | k in after.loans ensures LoanOk(after.loans[k], k, now) && ListsOwned(after, after.loans[k]) {
      assert k != id ==> ListsOwned(b, b.loans[k]);
    }
    forall c | c in after.collaterals ensures CollateralOk(after.collaterals[c]) && PointsToNewest(after, c) {
      assert CollateralOk(b.collaterals[c]) && PointsToNewest(b, c);
    }
  }

  lemma AddCollateral(b: Book, now: U64, record: CollateralRecord)
    requires BookOk(b, now) && b.collateralCounter < U64_MAX && CollateralOk(record) && record.loanId == 0
    ensures BookOk(b.(
      collaterals := b.collaterals[b.collateralCounter + 1 := record],
      collateralCounter := b.collateralCounter + 1), now)
  {
    var id := b.collateralCounter + 1;
    var after := b.(collaterals := b.collaterals[id := record], collateralCounter := id);
    forall k | k in after.loans ensures LoanOk(after.loans[k], k, now) && ListsOwned(after, after.loans[k]) {
      assert ListsOwned(b, b.loans[k]);
    }
    forall c | c in after.collaterals ensures CollateralOk(after.collaterals[c]) && PointsToNewest(after, c) {
      if c == id {
        forall k | k in b.loans ensures id !in b.loans[k].collateralIds { assert ListsOwned(b, b.loans[k]); }
      } else {
        assert PointsToNewest(b, c);
      }
    }
  }

  lemma ReplaceCollateral(b: Book, now: U64, id: nat, record: CollateralRecord)
    requires BookOk(b, now) && id in b.collaterals && CollateralOk(record)
    requires record.owner == b.collaterals[id].owner && record.loanId == b.collaterals[id].loanId
    ensures BookOk(b.(collaterals := b.collaterals[id := record]), now)
  {
    var after := b.(collaterals := b.collaterals[id := record]);
    forall k | k in after.loans ensures LoanOk(after.loans[k], k, now) && ListsOwned(after, after.loans[k]) {
      assert ListsOwned(b, b.loans[k]);
    }
    forall c | c in after.collaterals ensures CollateralOk(after.collaterals[c]) && PointsToNewest(after, c) {
      assert PointsToNewest(b, c);
    }
  }
}
