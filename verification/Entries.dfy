/**
 * The administrative entry points, from the caller's side: exactly when each succeeds, and all that a
 * success stores, publishes and replies.
 */
module Entries {
  import opened Numeric
  import opened Wrappers
  import opened Protocol
  import opened Machine
  import opened Invariant
  import opened Frames
  import opened Conservation
  import Lending
  import Governance
  import Oracles

  /** In the name of the admin, and signed by it. */
  predicate ByAdmin(s: State, admin: Address, signers: set<Address>) {
    s.cfg.admin == Some(admin) && Signed(admin, signers)
  }

  /** A committed call without a result, and the state it leaves. */
  predicate Commits(o: Outcome<Commit>, after: State) {
    o == Done(Commit(after, Unit))
  }

  // -- initialisation and settings ---------------------------------------------------------

  /** `initialize` succeeds once, for a signing admin and ratios in order, and stores its arguments and the defaults. */
  lemma InitializesExactly(s: State, tx: Tx)
    requires tx.call.Initialize?
    ensures var call := tx.call;
      Step(s, tx).Done? <==>
      && s.cfg.admin == None && call.admin != Account(0) && Signed(call.admin, tx.signers)
      && 1 <= call.ltv <= 9000 && call.ltv <= call.thr
    ensures var call := tx.call;
      var cfg := s.cfg.(
        admin := Some(call.admin), oracle := call.oracle, treasury := call.treasury, ltv := call.ltv,
        liqThr := call.thr, minQuorum := call.minQuorum, origFee := 50, intFee := 1000, closeFactor := 5000,
        minLoan := 10_000_000, maxLoan := 1_000_000_000_000, staleThr := 3600, twapWindow := 3600);
      Step(s, tx).Done? ==> Commits(Step(s, tx), s.(cfg := cfg, feed := Feed(0, s.now, 0, 0, 0)))
  {
  }

  /** The range that each setter enforces. */
  predicate InRange(x: Governance.Setting) {
    match x
    case TwapWindow(window) => 1 <= window
    case PauseDuration(duration) => duration <= 518_400
    case OracleAddress(_, _) => true
    case AnimalCap(_, cap) => 1 <= cap
    case LiquidationThreshold(thr) => 1 <= thr <= 10_000
    case NextAdmin(_) => true
    case CloseFactor(closeFactor) => 1 <= closeFactor <= 10_000
    case StalenessThreshold(thr) => 1 <= thr
    case Fees(origFee, intFee) => origFee <= 500 && intFee <= 500
    case LoanLimits(minLoan, maxLoan) => 1 <= minLoan && minLoan < maxLoan
    case LoanToValue(ltv) => 1000 <= ltv <= 9000
  }

  /** `after` has the arguments of a setting in their places, a quorum of 0 keeping the old one. */
  predicate Holds(cfg: Config, x: Governance.Setting, after: Config) {
    match x
    case TwapWindow(window) => after == cfg.(twapWindow := window)
    case PauseDuration(duration) => after == cfg.(pauseDur := duration)
    case OracleAddress(oracle, quorum) =>
      after == cfg.(oracle := oracle, minQuorum := if quorum == 0 then cfg.minQuorum else quorum)
    case AnimalCap(kind, cap) => after == cfg.(animalCaps := cfg.animalCaps[kind := cap])
    case LiquidationThreshold(thr) => after == cfg.(liqThr := thr)
    case NextAdmin(admin) => after == cfg.(pendingAdmin := Some(admin))
    case CloseFactor(closeFactor) => after == cfg.(closeFactor := closeFactor)
    case StalenessThreshold(thr) => after == cfg.(staleThr := thr)
    case Fees(origFee, intFee) => after == cfg.(origFee := origFee, intFee := intFee)
    case LoanLimits(minLoan, maxLoan) => after == cfg.(minLoan := minLoan, maxLoan := maxLoan)
    case LoanToValue(ltv) => after == cfg.(ltv := ltv)
  }

  function RangeError(x: Governance.Setting): Error {
    if x.Fees? then InvalidFeeRate else if x.CloseFactor? then InvalidCloseFactor else InvalidAmount
  }

  lemma SettingInRange(cfg: Config, x: Governance.Setting)
    ensures Governance.Applied(cfg, x).Done? <==> InRange(x)
    ensures Governance.Applied(cfg, x).Done? ==> Holds(cfg, x, Governance.Applied(cfg, x).value)
    ensures !InRange(x) ==> Governance.Applied(cfg, x) == Err(RangeError(x))
  {
  }

  /**
   * A setter succeeds exactly for the signing admin and a value in its range, and while the contract
   * is not paused when it sets fees or staleness; it stores its arguments and nothing else.
   */
  lemma SettingsExactly(s: State, tx: Tx)
    requires tx.call.Configure?
    ensures var call := tx.call;
      Step(s, tx).Done? <==>
      && ByAdmin(s, call.admin, tx.signers) && InRange(call.setting)
      && (call.setting.Fees? || call.setting.StalenessThreshold? ==> !Paused(s.cfg, s.now))
    ensures Step(s, tx).Done? ==>
      && Commits(Step(s, tx), s.(cfg := Apply(s, tx).cfg))
      && Holds(s.cfg, tx.call.setting, Apply(s, tx).cfg)
    ensures ByAdmin(s, tx.call.admin, tx.signers) && !Paused(s.cfg, s.now) && !InRange(tx.call.setting) ==>
      Step(s, tx) == Err(RangeError(tx.call.setting))
  {
    SettingInRange(s.cfg, tx.call.setting);
    hide Governance.Applied, InRange, Holds;
  }

  /** `accept_admin_role` succeeds exactly for the signing proposed address. */
  lemma AcceptsExactly(s: State, tx: Tx)
    requires tx.call.AcceptAdmin?
    ensures Step(s, tx).Done? <==>
            Initialized(s) && s.cfg.pendingAdmin == Some(tx.call.admin) && Signed(tx.call.admin, tx.signers)
    ensures Step(s, tx).Done? ==>
      Commits(Step(s, tx), s.(cfg := s.cfg.(admin := Some(tx.call.admin), pendingAdmin := None)))
  {
  }

  /** `pause` succeeds exactly while not paused, if its end fits the clock. */
  lemma PausesExactly(s: State, tx: Tx)
    requires tx.call.Pause?
    ensures Step(s, tx).Done? <==>
            ByAdmin(s, tx.call.admin, tx.signers) && !Paused(s.cfg, s.now) && s.now + s.cfg.pauseDur <= U64_MAX
    ensures Step(s, tx).Done? ==>
      Commits(Step(s, tx), s.(cfg := s.cfg.(paused := true, pauseExp := s.now + s.cfg.pauseDur)))
  {
  }

  /** `unpause` succeeds exactly while paused. */
  lemma UnpausesExactly(s: State, tx: Tx)
    requires tx.call.Unpause?
    ensures Step(s, tx).Done? <==> ByAdmin(s, tx.call.admin, tx.signers) && Paused(s.cfg, s.now)
    ensures Step(s, tx).Done? ==> Commits(Step(s, tx), s.(cfg := s.cfg.(paused := false, pauseExp := 0)))
  {
  }

  // -- whitelist and registry --------------------------------------------------------------

  /** The admin's addition always succeeds below 2^32 - 1 entries; the address is then on the list, once. */
  lemma ListsExactly(s: State, tx: Tx)
    requires WhitelistOk(s.whitelist) && tx.call.AddLiquidator?
    ensures var entries, a := s.whitelist.entries, tx.call.liquidator;
      Step(s, tx).Done? <==> ByAdmin(s, tx.call.admin, tx.signers) && (a in entries || |entries| < U32_MAX)
    ensures Step(s, tx).Done? ==>
      && Commits(Step(s, tx), s.(whitelist := Apply(s, tx).whitelist))
      && Apply(s, tx).whitelist.entries == s.whitelist.entries + {tx.call.liquidator}
      && Apply(s, tx).whitelist.count == |Apply(s, tx).whitelist.entries|
  {
    if tx.call.liquidator in s.whitelist.entries {
      assert s.whitelist.entries + {tx.call.liquidator} == s.whitelist.entries;
    }
  }

  /** The admin's removal always succeeds, and the address is then not on the list. */
  lemma UnlistsExactly(s: State, tx: Tx)
    requires WhitelistOk(s.whitelist) && tx.call.RemoveLiquidator?
    ensures Step(s, tx).Done? <==> ByAdmin(s, tx.call.admin, tx.signers)
    ensures Step(s, tx).Done? ==>
      && Commits(Step(s, tx), s.(whitelist := Apply(s, tx).whitelist))
      && Apply(s, tx).whitelist.entries == s.whitelist.entries - {tx.call.liquidator}
      && Apply(s, tx).whitelist.count == |Apply(s, tx).whitelist.entries|
  {
    var entries, a := s.whitelist.entries, tx.call.liquidator;
    if a in entries {
      assert |entries - {a}| == |entries| - 1;
    } else {
      assert entries - {a} == entries;
    }
  }

  /** The oracles in force: the stored list, or the one configured at initialisation while none is stored. */
  function OraclesOf(s: State): seq<Address> {
    match s.oracles
    case Some(list) => list
    case None => if s.cfg.admin == None then [] else [s.cfg.oracle]
  }

  /** An oracle is added exactly by the admin of a live contract, when it is new and there is room. */
  lemma AddsExactly(s: State, tx: Tx)
    requires tx.call.AddOracle?
    ensures var call, list := tx.call, OraclesOf(s);
      && list == Oracles.Registered(s)
      && (Step(s, tx).Done? <==>
          ByAdmin(s, call.admin, tx.signers) && !Paused(s.cfg, s.now) && call.oracle !in list && |list| < 5)
      && (Step(s, tx).Done? ==> Commits(Step(s, tx), s.(oracles := Some(list + [call.oracle]))))
  {
  }

  /**
   * An oracle is removed exactly by the admin, when it is registered and is not the last one while a
   * loan is active; the others keep their order.
   */
  lemma RemovesExactly(s: State, tx: Tx)
    requires Inv(s) && tx.call.RemoveOracle?
    ensures var call, list := tx.call, OraclesOf(s);
      && list == Oracles.Registered(s)
      && (Step(s, tx).Done? <==>
          && ByAdmin(s, call.admin, tx.signers) && call.oracle in list
          && (|list| == 1 ==> forall id :: id in s.book.loans ==> s.book.loans[id].status != Active))
      && (Step(s, tx).Done? ==>
            exists i: nat :: i < |list| && list[i] == call.oracle
              && Commits(Step(s, tx), s.(oracles := Some(list[..i] + list[i + 1..]))))
  {
    var list := OraclesOf(s);
    assert list == Oracles.Registered(s);
    assert BookOk(s.book, s.now);
    ScanFindsActive(s.book, s.now);
    hide Inv, Oracles.AnyActive;
    RemovalParts(s, tx);
  }

  lemma RemovalParts(s: State, tx: Tx)
    requires tx.call.RemoveOracle?
    ensures var call, list := tx.call, Oracles.Registered(s);
      && (Step(s, tx).Done? <==>
          && ByAdmin(s, call.admin, tx.signers) && call.oracle in list
          && (|list| == 1 ==> !Oracles.AnyActive(s.book)))
      && (Step(s, tx).Done? ==>
            var i := Oracles.FirstIndex(list, call.oracle);
            i < |list| && list[i] == call.oracle
            && Commits(Step(s, tx), s.(oracles := Some(list[..i] + list[i + 1..]))))
  {
    hide Oracles.Registered, Oracles.AnyActive, Oracles.FirstIndex;
  }

  lemma ScanFindsActive(b: Book, now: U64)
    requires BookOk(b, now)
    ensures Oracles.AnyActive(b) <==> exists id :: id in b.loans && b.loans[id].status == Active
  {
    forall id | id in b.loans && b.loans[id].status == Active ensures Oracles.AnyActive(b) {
      assert 1 <= id <= b.loanCounter;
    }
  }

  // -- upgrades ----------------------------------------------------------------------------

  /** The admin can always propose; the newest proposal replaces the one before. */
  lemma ProposesExactly(s: State, tx: Tx)
    requires tx.call.ProposeUpgrade?
    ensures Step(s, tx).Done? <==> ByAdmin(s, tx.call.admin, tx.signers)
    ensures Step(s, tx).Done? ==> Commits(Step(s, tx), s.(
      upgrade := UpgradeSlot(Some(tx.call.hash), Some(s.now)), log := s.log + [UpgradeProposed(tx.call.hash, s.now)]))
  {
  }

  /** Anyone can execute a pending upgrade, exactly from 86 400 seconds after its proposal on. */
  lemma ExecutesExactly(s: State, tx: Tx)
    requires Inv(s) && tx.call == ExecuteUpgrade
    ensures var u := s.upgrade;
      Step(s, tx).Done? <==> u.pendingWasm.Some? && u.upgradeTime.Some?
                             && Min(u.upgradeTime.value + 86_400, U64_MAX) <= s.now
    ensures Step(s, tx).Done? ==> s.upgrade.pendingWasm.Some? && Commits(Step(s, tx), s.(
      upgrade := UpgradeSlot(None, None), log := s.log + [UpgradeExecuted(s.upgrade.pendingWasm.value, s.now)]))
    ensures !Step(s, tx).Done? ==>
      Step(s, tx) == Err(if s.upgrade.pendingWasm.None? then NoUpgradePending else TimelockNotElapsed)
  {
  }

  /** The admin can cancel exactly while an upgrade is pending. */
  lemma CancelsExactly(s: State, tx: Tx)
    requires tx.call.CancelUpgrade?
    ensures Step(s, tx).Done? <==> ByAdmin(s, tx.call.admin, tx.signers) && s.upgrade.pendingWasm.Some?
    ensures Step(s, tx).Done? ==>
      Commits(Step(s, tx), s.(upgrade := UpgradeSlot(None, None), log := s.log + [UpgradeCanceled(s.now)]))
  {
  }

  // -- withdrawal and the environment ------------------------------------------------------

  /** A withdrawal changes balances alone, and publishes recipient and amount. */
  lemma WithdrawalRecords(s: State, tx: Tx)
    requires tx.call.EmergencyWithdraw? && Step(s, tx).Done?
    ensures var held := Balance(s.balances, Contract);
      Commits(Step(s, tx), s.(
        balances := Apply(s, tx).balances, log := s.log + [EmergencyWithdrawn(tx.call.recipient, held)]))
  {
  }

  /** An outside transfer succeeds exactly when signed, covered and received, and moves just its amount. */
  lemma MovesExactly(s: State, tx: Tx)
    requires tx.call.MoveTokens? && FundsOk(s.balances)
    ensures var sender, to, amount := tx.call.sender, tx.call.to, tx.call.amount;
      && (Step(s, tx).Done? <==>
          && Signed(sender, tx.signers) && 0 <= amount <= Balance(s.balances, sender)
          && (to != sender ==> Balance(s.balances, to) + amount <= I128_MAX))
      && (Step(s, tx).Done? ==>
            && Commits(Step(s, tx), s.(
                 balances := Apply(s, tx).balances, log := s.log + [TokensMoved(sender, to, amount)]))
            && forall a ::
                 Balance(Apply(s, tx).balances, a) == Balance(s.balances, a) + Flow(sender, to, amount, a))
  {
  }
}
