/** The guarantees around lending: upgrade timelock, oracle registry, whitelist gate, pause and pledges. */
module Safeguards {
  import opened Numeric
  import opened Wrappers
  import opened Protocol
  import opened Machine
  import opened Invariant
  import opened Lifecycle
  import opened LoanLife
  import opened Frames
  import opened Administration
  import Lending
  import Governance
  import Oracles
  import Conservation

  // -- upgrade timelock --------------------------------------------------------------------

  function LastUpgrade(log: seq<Event>): Option<Event> {
    if |log| == 0 then None
    else if Conservation.IsUpgradeEvent(log[|log| - 1]) then Some(log[|log| - 1])
    else LastUpgrade(log[..|log| - 1])
  }

  /** Each execution follows, as the next upgrade event, the proposal of the same hash at least a day before. */
  ghost predicate Timelocked(log: seq<Event>) {
    |log| > 0 ==>
      var front, e := log[..|log| - 1], log[|log| - 1];
      && Timelocked(front)
      && (e.UpgradeExecuted? ==>
            && LastUpgrade(front).Some? && LastUpgrade(front).value.UpgradeProposed?
            && LastUpgrade(front).value.hash == e.hash
            && Min(LastUpgrade(front).value.at + 86_400, U64_MAX) <= e.at)
  }

  /** The slot holds exactly the proposal that is still the latest upgrade event. */
  ghost predicate SlotMatches(u: UpgradeSlot, log: seq<Event>) {
    && SlotOk(u)
    && (u.pendingWasm.Some? ==> LastUpgrade(log) == Some(UpgradeProposed(u.pendingWasm.value, u.upgradeTime.value)))
    && (u.pendingWasm.None? ==> LastUpgrade(log).None? || !LastUpgrade(log).value.UpgradeProposed?)
  }

  lemma Appended(log: seq<Event>, e: Event)
    ensures LastUpgrade(log + [e]) == if Conservation.IsUpgradeEvent(e) then Some(e) else LastUpgrade(log)
    ensures Timelocked(log) && !e.UpgradeExecuted? ==> Timelocked(log + [e])
    ensures Timelocked(log) && e.UpgradeExecuted? && LastUpgrade(log).Some? && LastUpgrade(log).value.UpgradeProposed?
            && LastUpgrade(log).value.hash == e.hash
            && Min(LastUpgrade(log).value.at + 86_400, U64_MAX) <= e.at
            ==> Timelocked(log + [e])
  {
    assert (log + [e])[..|log|] == log;
  }

  lemma SlotStep(s: State, tx: Tx)
    requires UsesSlot(tx.call) && SlotMatches(s.upgrade, s.log) && Timelocked(s.log)
    ensures SlotMatches(Apply(s, tx).upgrade, Apply(s, tx).log) && Timelocked(Apply(s, tx).log)
  {
    hide Timelocked, LastUpgrade;
    if Step(s, tx).Done? {
      match tx.call
      case ProposeUpgrade(_, hash) => Appended(s.log, UpgradeProposed(hash, s.now));
      case ExecuteUpgrade => Appended(s.log, UpgradeExecuted(s.upgrade.pendingWasm.value, s.now));
      case CancelUpgrade(_) => Appended(s.log, UpgradeCanceled(s.now));
      case _ =>
    }
  }

  lemma OtherEvents(s: State, tx: Tx)
    requires !UsesSlot(tx.call)
    ensures LastUpgrade(Apply(s, tx).log) == LastUpgrade(s.log)
    ensures Timelocked(s.log) ==> Timelocked(Apply(s, tx).log)
  {
    if tx.call.RequestLoan? || tx.call.RepayLoan? {
      TwoEvents(s, tx);
    } else if Conservation.MovesMoney(tx.call) {
      Conservation.SingleEvent(s, tx);
      if Apply(s, tx).log != s.log { Appended(s.log, Apply(s, tx).log[|s.log|]); }
    } else {
      hide Step;
      Frame(s, tx);
    }
  }

  /** A fee event, when there is one, and then the loan event. */
  lemma LoanEvents(s: State, tx: Tx) returns (id: nat, kind: FeeKind, fee: I128, e: Event)
    requires (tx.call.RequestLoan? || tx.call.RepayLoan?) && Step(s, tx).Done?
    ensures Apply(s, tx).log == Lending.FeeEvents(s.log, id, kind, fee, s.cfg.treasury) + [e]
    ensures e.LoanRequested? || e.LoanRepaid?
  {
    if tx.call.RequestLoan? {
      var total, terms := RequestParts(s, tx.signers, tx.call.borrower, tx.call.ids, tx.call.amount, tx.call.duration);
      id, kind, fee := s.book.loanCounter + 1, Origination, terms.fee;
    } else {
      var loan := Lending.Accrued(s.book.loans[tx.call.loanId], s.cfg.intFee, s.now);
      id, kind, fee := tx.call.loanId, Interest, Lending.SplitPayment(loan, s.cfg.intFee, tx.call.amount).value.fee;
    }
    e := Apply(s, tx).log[|Apply(s, tx).log| - 1];
  }

  lemma TwoEvents(s: State, tx: Tx)
    requires tx.call.RequestLoan? || tx.call.RepayLoan?
    ensures LastUpgrade(Apply(s, tx).log) == LastUpgrade(s.log)
    ensures Timelocked(s.log) ==> Timelocked(Apply(s, tx).log)
  {
    if Step(s, tx).Done? {
      var id, kind, fee, e := LoanEvents(s, tx);
      hide Step;
      Appended(s.log, FeeCollected(id, kind, fee, s.cfg.treasury));
      Appended(Lending.FeeEvents(s.log, id, kind, fee, s.cfg.treasury), e);
    }
  }

  lemma {:induction false} SlotOverRun(s: State, txs: seq<Tx>)
    requires SlotMatches(s.upgrade, s.log) && Timelocked(s.log)
    ensures SlotMatches(Run(s, txs).upgrade, Run(s, txs).log) && Timelocked(Run(s, txs).log)
    decreases |txs|
  {
    hide Step;
    if |txs| > 0 {
      if UsesSlot(txs[0].call) {
        SlotStep(s, txs[0]);
      } else {
        Frame(s, txs[0]);
        OtherEvents(s, txs[0]);
      }
      SlotOverRun(Apply(s, txs[0]), txs[1..]);
    }
  }

  lemma {:induction false} LatestProposal(log: seq<Event>, k: nat) returns (j: nat)
    requires Timelocked(log) && k < |log| && log[k].UpgradeExecuted?
    ensures j < k && log[j].UpgradeProposed? && log[j].hash == log[k].hash
    ensures Min(log[j].at + 86_400, U64_MAX) <= log[k].at
    ensures forall m :: j < m < k ==> !Conservation.IsUpgradeEvent(log[m])
    decreases |log|
  {
    var front := log[..|log| - 1];
    if k < |log| - 1 {
      j := LatestProposal(front, k);
    } else {
      j := LastUpgradeAt(front);
    }
  }

  lemma {:induction false} LastUpgradeAt(log: seq<Event>) returns (j: nat)
    requires LastUpgrade(log).Some?
    ensures j < |log| && LastUpgrade(log) == Some(log[j])
    ensures forall m :: j < m < |log| ==> !Conservation.IsUpgradeEvent(log[m])
  {
    if Conservation.IsUpgradeEvent(log[|log| - 1]) {
      j := |log| - 1;
    } else {
      j := LastUpgradeAt(log[..|log| - 1]);
    }
  }

  /**
   * In every run, an executed upgrade was proposed with that very hash at least 86 400 seconds
   * before (or the clock stands at its maximum), and nothing was proposed, cancelled or executed
   * in between.
   */
  lemma ExecutedWasProposed(deployed: State, txs: seq<Tx>, k: nat)
    requires Deployed(deployed) && k < |Run(deployed, txs).log| && Run(deployed, txs).log[k].UpgradeExecuted?
    ensures var log := Run(deployed, txs).log;
      exists j: nat :: j < k && log[j].UpgradeProposed? && log[j].hash == log[k].hash
        && Min(log[j].at + 86_400, U64_MAX) <= log[k].at
        && forall m :: j < m < k ==> !Conservation.IsUpgradeEvent(log[m])
  {
    SlotOverRun(deployed, txs);
    var j := LatestProposal(Run(deployed, txs).log, k);
  }

  // -- oracle registry ---------------------------------------------------------------------

  /** Emptying the registry succeeds only while no loan at all is active. */
  lemma LastOracleStaysForActiveLoans(s: State, tx: Tx)
    requires Inv(s) && tx.call.RemoveOracle? && Step(s, tx).Done? && Oracles.Registered(Apply(s, tx)) == []
    ensures forall id :: id in s.book.loans ==> s.book.loans[id].status != Active
  {
    forall id | id in s.book.loans ensures s.book.loans[id].status != Active {
      assert 1 <= id <= s.book.loanCounter;
    }
  }

  /** While the registry is empty no loan is active. */
  ghost predicate OracleBacked(s: State) {
    Oracles.Registered(s) == [] ==> forall id :: id in s.book.loans ==> s.book.loans[id].status != Active
  }

  lemma RegistryChanges(s: State, tx: Tx)
    ensures !Registers(tx.call) && !(tx.call.Initialize? && Step(s, tx).Done?) ==>
      (Oracles.Registered(Apply(s, tx)) == [] <==> Oracles.Registered(s) == [])
    ensures tx.call.AddOracle? && Step(s, tx).Done? ==> Oracles.Registered(Apply(s, tx)) != []
    ensures tx.call.Initialize? && Step(s, tx).Done? && s.oracles != Some([]) ==> Oracles.Registered(Apply(s, tx)) != []
  {
    AdminStays(s, tx);
    Frame(s, tx);
    if !tx.call.AddOracle? {
      hide Step;
    }
  }

  /** Apart from a granted request, no step makes a loan active. */
  lemma NoNewActive(s: State, tx: Tx, id: nat)
    requires Inv(s) && !(tx.call.RequestLoan? && Step(s, tx).Done?) && id in Apply(s, tx).book.loans
    ensures id in s.book.loans
    ensures Apply(s, tx).book.loans[id].status == Active ==> s.book.loans[id].status == Active
  {
    hide Step;
    SameTable(s, tx);
    LoanStep(s, tx, id);
  }

  /**
   * The guard of `remove_oracle` does not make "an active loan has a registered oracle" an
   * invariant: `request_loan` never looks at the registry. The one step that breaks it is a request
   * granted while the registry is empty, and every such request does.
   */
  lemma OracleBackedExactly(s: State, tx: Tx)
    requires Inv(s) && OracleBacked(s)
    ensures OracleBacked(Apply(s, tx)) <==>
            !(tx.call.RequestLoan? && Step(s, tx).Done? && Oracles.Registered(s) == [])
  {
    hide Step, Inv;
    RegistryChanges(s, tx);
    if tx.call.RequestLoan? && Step(s, tx).Done? {
      RequestedTotal(s, tx);
    } else if tx.call.RemoveOracle? && Step(s, tx).Done? && Oracles.Registered(Apply(s, tx)) == [] {
      LastOracleStaysForActiveLoans(s, tx);
      Frame(s, tx);
    } else {
      StillBacked(s, tx);
    }
  }

  lemma StillBacked(s: State, tx: Tx)
    requires Inv(s) && OracleBacked(s) && !(tx.call.RequestLoan? && Step(s, tx).Done?)
    requires tx.call.RemoveOracle? && Step(s, tx).Done? ==> Oracles.Registered(Apply(s, tx)) != []
    ensures OracleBacked(Apply(s, tx))
  {
    RegistryChanges(s, tx);
    if tx.call.Initialize? && Step(s, tx).Done? {
      AdminStays(s, tx);
    }
    hide Step;
    var after := Apply(s, tx);
    if Oracles.Registered(after) == [] {
      forall id | id in after.book.loans ensures after.book.loans[id].status != Active {
        NoNewActive(s, tx, id);
      }
    }
  }

  /**
   * Adding an oracle and removing it again gives back the registry; the removal succeeds unless the
   * registry was empty before and some loan is active.
   */
  lemma AddThenRemove(s: State, add: Tx, remove: Tx)
    requires add.call.AddOracle? && Step(s, add).Done?
    requires remove.call == RemoveOracle(add.call.admin, add.call.oracle) && Signed(add.call.admin, remove.signers)
    ensures Oracles.Registered(Apply(s, add)) == Oracles.Registered(s) + [add.call.oracle]
    ensures Step(Apply(s, add), remove).Done? <==> Oracles.Registered(s) != [] || !Oracles.AnyActive(s.book)
    ensures Step(Apply(s, add), remove).Done? ==>
      Oracles.Registered(Apply(Apply(s, add), remove)) == Oracles.Registered(s)
  {
    var list, oracle := Oracles.Registered(s), add.call.oracle;
    AddAppends(s, add);
    LastIsFirst(list, oracle);
    RemoveDrops(Apply(s, add), remove);
  }

  lemma AddAppends(s: State, tx: Tx)
    requires tx.call.AddOracle? && Step(s, tx).Done?
    ensures Initialized(s) && s.cfg.admin == Some(tx.call.admin) && tx.call.oracle !in Oracles.Registered(s)
    ensures Apply(s, tx) == s.(oracles := Some(Oracles.Registered(s) + [tx.call.oracle]))
  {
  }

  lemma RemoveDrops(s: State, tx: Tx)
    requires tx.call.RemoveOracle? && s.cfg.admin == Some(tx.call.admin) && Signed(tx.call.admin, tx.signers)
    requires s.oracles.Some? && tx.call.oracle in s.oracles.value
    ensures Step(s, tx).Done? <==> |s.oracles.value| != 1 || !Oracles.AnyActive(s.book)
    ensures Step(s, tx).Done? ==>
      Oracles.Registered(Apply(s, tx)) == Without(s.oracles.value, Oracles.FirstIndex(s.oracles.value, tx.call.oracle))
  {
    hide Oracles.AnyActive, Oracles.FirstIndex;
  }

  lemma LastIsFirst(list: seq<Address>, x: Address)
    requires x !in list
    ensures Oracles.FirstIndex(list + [x], x) == |list|
    ensures Without(list + [x], |list|) == list
  {
    assert (list + [x])[|list|] == x;
    assert (list + [x])[..Oracles.FirstIndex(list + [x], x)] <= list + [x];
  }

  /**
   * The five-slot array is never overrun: signed and well-formed prices trap in one case only, when
   * no oracle is registered and the quorum is zero.
   */
  lemma MedianTrapsOnlyWhenEmpty(s: State, tx: Tx)
    requires Inv(s) && Initialized(s) && tx.call.SubmitOraclePrices? && Signed(tx.call.submitter, tx.signers)
    ensures Step(s, tx) == Trap <==> tx.call.prices == [] && Oracles.Registered(s) == [] && s.cfg.minQuorum == 0
  {
  }

  // -- whitelist gate ----------------------------------------------------------------------

  /** `is_whitelisted` as the contract answers it. */
  function IsWhitelisted(w: Whitelist, a: Address): bool {
    w.count == 0 || a in w.entries
  }

  /** In every run the query, the gate of `liquidate` and "empty or member" agree, and the count is the size. */
  lemma GateAgrees(deployed: State, txs: seq<Tx>, a: Address)
    requires Deployed(deployed)
    ensures var w := Run(deployed, txs).whitelist;
      && w.count == |w.entries|
      && (IsWhitelisted(w, a) <==> w.entries == {} || a in w.entries)
      && (Lending.MayLiquidate(w, a) <==> IsWhitelisted(w, a))
  {
    hide Step;
    DeployedOk(deployed);
    RunKeeps(deployed, txs);
  }

  /** The saturating decrement never saturates: an address on the list means a positive count. */
  lemma DecrementNeverSaturates(s: State, tx: Tx)
    requires Inv(s) && tx.call.RemoveLiquidator? && Step(s, tx).Done? && tx.call.liquidator in s.whitelist.entries
    ensures Apply(s, tx).whitelist.count == s.whitelist.count - 1
    ensures Apply(s, tx).whitelist.entries == s.whitelist.entries - {tx.call.liquidator}
  {
  }

  // -- pause -------------------------------------------------------------------------------

  predicate SetsPause(call: Call) {
    call.Pause? || call.Unpause?
  }

  lemma PauseUntouched(s: State, tx: Tx)
    requires !SetsPause(tx.call)
    ensures Apply(s, tx).cfg.paused == s.cfg.paused && Apply(s, tx).cfg.pauseExp == s.cfg.pauseExp
    ensures s.now <= Apply(s, tx).now
  {
    hide Step;
    Frame(s, tx);
    if Governs(tx.call) {
      GovernanceLeavesPause(s, tx);
    }
  }

  lemma GovernanceLeavesPause(s: State, tx: Tx)
    requires Governs(tx.call) && !SetsPause(tx.call)
    ensures Apply(s, tx).cfg.paused == s.cfg.paused && Apply(s, tx).cfg.pauseExp == s.cfg.pauseExp
  {
    if tx.call.Configure? {
      SettingLeavesPause(s.cfg, tx.call.setting);
    }
    hide Governance.Applied;
  }

  lemma SettingLeavesPause(cfg: Config, setting: Governance.Setting)
    ensures var o := Governance.Applied(cfg, setting);
      o.Done? ==> o.value.paused == cfg.paused && o.value.pauseExp == cfg.pauseExp
  {
  }

  lemma {:induction false} PauseOverRun(s: State, txs: seq<Tx>)
    requires forall i :: 0 <= i < |txs| ==> !SetsPause(txs[i].call)
    ensures Run(s, txs).cfg.paused == s.cfg.paused && Run(s, txs).cfg.pauseExp == s.cfg.pauseExp
    ensures s.now <= Run(s, txs).now
    decreases |txs|
  {
    hide Step;
    if |txs| > 0 {
      PauseUntouched(s, txs[0]);
      PauseOverRun(Apply(s, txs[0]), txs[1..]);
    }
  }

  /**
   * A pause holds until its expiry and then lapses by itself, at most 518 400 seconds later; only
   * a zero-length pause at time 0 has no expiry.
   */
  lemma PauseLapses(s: State, tx: Tx, txs: seq<Tx>)
    requires Inv(s) && tx.call.Pause? && Step(s, tx).Done?
    requires forall i :: 0 <= i < |txs| ==> !SetsPause(txs[i].call)
    ensures var end := Run(Apply(s, tx), txs);
      && (Paused(end.cfg, end.now) <==> end.now < s.now + s.cfg.pauseDur || s.now + s.cfg.pauseDur == 0)
      && (0 < s.now + s.cfg.pauseDur && s.now + 518_400 <= end.now ==> !Paused(end.cfg, end.now))
  {
    PauseOverRun(Apply(s, tx), txs);
  }

  lemma {:induction false} UnpausedStays(s: State, txs: seq<Tx>)
    requires !Paused(s.cfg, s.now) && forall i :: 0 <= i < |txs| ==> !txs[i].call.Pause?
    ensures !Paused(Run(s, txs).cfg, Run(s, txs).now)
    decreases |txs|
  {
    hide Step;
    if |txs| > 0 {
      if txs[0].call.Unpause? {
        UnpauseClears(s, txs[0]);
      } else {
        PauseUntouched(s, txs[0]);
      }
      UnpausedStays(Apply(s, txs[0]), txs[1..]);
    }
  }

  lemma UnpauseClears(s: State, tx: Tx)
    requires tx.call.Unpause?
    ensures Step(s, tx).Done? ==> Paused(s.cfg, s.now) && !Paused(Apply(s, tx).cfg, Apply(s, tx).now)
    ensures s.cfg.admin == Some(tx.call.admin) && Signed(tx.call.admin, tx.signers) && Paused(s.cfg, s.now)
            ==> Step(s, tx).Done?
  {
  }

  /**
   * The admin's `unpause` succeeds exactly while the contract is paused, and after it, until the
   * next `pause`, the contract is not paused in any state of any run.
   */
  lemma UnpauseEnds(s: State, tx: Tx, txs: seq<Tx>)
    requires tx.call.Unpause? && s.cfg.admin == Some(tx.call.admin) && Signed(tx.call.admin, tx.signers)
    requires forall i :: 0 <= i < |txs| ==> !txs[i].call.Pause?
    ensures Step(s, tx).Done? <==> Paused(s.cfg, s.now)
    ensures !Paused(Run(Apply(s, tx), txs).cfg, Run(Apply(s, tx), txs).now)
  {
    hide Step;
    UnpauseClears(s, tx);
    UnpausedStays(Apply(s, tx), txs);
  }

  // -- pledges -----------------------------------------------------------------------------

  /**
   * A loan's stored collateral value is, for good, the sum over its id list of the values at
   * origination; at all later times every listed collateral exists, belongs to the borrower, and
   * points to this loan or to a newer one that lists it.
   */
  lemma PledgeOverRun(s: State, tx: Tx, txs: seq<Tx>)
    requires Inv(s) && tx.call.RequestLoan? && Step(s, tx).Done?
    ensures var id := s.book.loanCounter + 1;
      var end := Run(Apply(s, tx), txs).book;
      && id in end.loans
      && end.loans[id].collateralIds == tx.call.ids && end.loans[id].principal == tx.call.amount
      && end.loans[id].totalCollateralValue == Total(s.book.collaterals, tx.call.ids)
      && (forall c :: c in tx.call.ids ==>
            && c in end.collaterals && end.collaterals[c].owner == tx.call.borrower
            && id <= end.collaterals[c].loanId && end.collaterals[c].loanId in end.loans
            && c in end.loans[end.collaterals[c].loanId].collateralIds)
  {
    var id := s.book.loanCounter + 1;
    var next := Apply(s, tx);
    RequestedTotal(s, tx);
    hide Step;
    StepKeeps(s, tx);
    LoanRun(next, txs, id);
    RunKeeps(next, txs);
    var end := Run(next, txs).book;
    assert ListsOwned(end, end.loans[id]);
    forall c | c in tx.call.ids ensures PointsToNewest(end, c) {
    }
  }

  lemma RequestedTotal(s: State, tx: Tx)
    requires Inv(s) && tx.call.RequestLoan? && Step(s, tx).Done?
    ensures var id := s.book.loanCounter + 1;
      var loans := Apply(s, tx).book.loans;
      && id in loans && loans[id].collateralIds == tx.call.ids && loans[id].principal == tx.call.amount
      && loans[id].borrower == tx.call.borrower && loans[id].status == Active
      && loans[id].totalCollateralValue == Total(s.book.collaterals, tx.call.ids)
  {
    hide Lending.Pledge, Lending.Approve, Lending.PayOut, Lending.Linked, Lending.FeeEvents;
    var total, terms := RequestParts(s, tx.signers, tx.call.borrower, tx.call.ids, tx.call.amount, tx.call.duration);
    PledgeIsTotal(s.book.collaterals, tx.call.ids, tx.call.borrower);
  }
}
