/** Initialisation, settings, pausing, the liquidator whitelist and the upgrade slot. */
module Governance {
  import opened Numeric
  import opened Wrappers
  import opened Protocol

  const UPGRADE_TIMELOCK: nat := 86_400
  const MAX_PAUSE_DURATION: nat := 518_400
  const DEFAULT_PAUSE_DURATION: nat := 86_400

  function Initialize(s: State, signers: set<Address>, admin: Address, oracle: Address, treasury: Address,
                      ltv: U32, thr: U32, minQuorum: U32): Outcome<Commit> {
    if Initialized(s) then Err(AlreadyInitialized) else
    :- Need(admin != ZERO_ACCOUNT, Unauthorized);
    :- Need(0 < ltv <= 9000, InvalidAmount);
    :- Need(ltv <= thr, InvalidAmount);
    :- OrTrap(Signed(admin, signers));
    var cfg := s.cfg.(
      admin := Some(admin), oracle := oracle, treasury := treasury, ltv := ltv, liqThr := thr,
      minQuorum := minQuorum, origFee := 50, intFee := 1000, closeFactor := 5000,
      minLoan := 10_000_000, maxLoan := 1_000_000_000_000, staleThr := 3600, twapWindow := 3600);
    Done(Commit(s.(cfg := cfg, feed := Feed(0, s.now, 0, 0, 0)), Unit))
  }

  /** The admin's range-checked settings, one per setter. */
  datatype Setting =
    | TwapWindow(window: U64)
    | PauseDuration(duration: U64)
    | OracleAddress(oracle: Address, minQuorum: U32)
    | AnimalCap(animalType: Symbol, cap: I128)
    | LiquidationThreshold(thr: U32)
    | NextAdmin(admin: Address)
    | CloseFactor(closeFactor: U32)
    | StalenessThreshold(thrSeconds: U64)
    | Fees(origFee: U32, intFee: U32)
    | LoanLimits(minLoan: I128, maxLoan: I128)
    | LoanToValue(ltv: U32)

  function Applied(cfg: Config, setting: Setting): Outcome<Config> {
    match setting
    case TwapWindow(window) =>
      :- Need(window != 0, InvalidAmount); Done(cfg.(twapWindow := window))
    case PauseDuration(duration) =>
      :- Need(duration <= MAX_PAUSE_DURATION, InvalidAmount); Done(cfg.(pauseDur := duration))
    case OracleAddress(oracle, minQuorum) =>
      Done(cfg.(oracle := oracle, minQuorum := if minQuorum > 0 then minQuorum else cfg.minQuorum))
    case AnimalCap(animalType, cap) =>
      :- Need(0 < cap, InvalidAmount); Done(cfg.(animalCaps := cfg.animalCaps[animalType := cap]))
    case LiquidationThreshold(thr) =>
      :- Need(0 < thr <= 10_000, InvalidAmount); Done(cfg.(liqThr := thr))
    case NextAdmin(admin) =>
      Done(cfg.(pendingAdmin := Some(admin)))
    case CloseFactor(closeFactor) =>
      :- Need(0 < closeFactor <= 10_000, InvalidCloseFactor); Done(cfg.(closeFactor := closeFactor))
    case StalenessThreshold(thr) =>
      :- Need(thr != 0, InvalidAmount); Done(cfg.(staleThr := thr))
    case Fees(origFee, intFee) =>
      :- Need(origFee <= 500 && intFee <= 500, InvalidFeeRate); Done(cfg.(origFee := origFee, intFee := intFee))
    case LoanLimits(minLoan, maxLoan) =>
      :- Need(0 < minLoan < maxLoan, InvalidAmount); Done(cfg.(minLoan := minLoan, maxLoan := maxLoan))
    case LoanToValue(ltv) =>
      :- Need(1000 <= ltv <= 9000, InvalidAmount); Done(cfg.(ltv := ltv))
  }

  /** Two setters are blocked while the contract is paused. */
  predicate BlockedByPause(setting: Setting) {
    setting.StalenessThreshold? || setting.Fees?
  }

  function Configure(s: State, signers: set<Address>, admin: Address, setting: Setting): Outcome<Commit> {
    if !Initialized(s) then Err(NotInitialized) else
    :- Need(BlockedByPause(setting) ==> !Paused(s.cfg, s.now), ContractPaused);
    :- AdminOnly(s, admin, signers);
    var cfg :- Applied(s.cfg, setting);
    Done(Commit(s.(cfg := cfg), Unit))
  }

  function AcceptAdmin(s: State, signers: set<Address>, admin: Address): Outcome<Commit> {
    if !Initialized(s) then Err(NotInitialized) else
    :- Need(s.cfg.pendingAdmin == Some(admin), Unauthorized);
    :- OrTrap(Signed(admin, signers));
    Done(Commit(s.(cfg := s.cfg.(admin := Some(admin), pendingAdmin := None)), Unit))
  }

  function Pause(s: State, signers: set<Address>, admin: Address): Outcome<Commit> {
    var admitted := AdminOnly(s, admin, signers);
    :- admitted;
    :- Need(!Paused(s.cfg, s.now), AlreadyPaused);
    :- Need(s.now + s.cfg.pauseDur <= U64_MAX, ArithmeticOverflow);
    Done(Commit(s.(cfg := s.cfg.(paused := true, pauseExp := s.now + s.cfg.pauseDur)), Unit))
  }

  function Unpause(s: State, signers: set<Address>, admin: Address): Outcome<Commit> {
    var admitted := AdminOnly(s, admin, signers);
    :- admitted;
    :- Need(Paused(s.cfg, s.now), NotPaused);
    Done(Commit(s.(cfg := s.cfg.(paused := false, pauseExp := 0)), Unit))
  }

  // -- whitelist ---------------------------------------------------------------------------

  function AddLiquidator(s: State, signers: set<Address>, admin: Address, liquidator: Address): Outcome<Commit> {
    var admitted := AdminOnly(s, admin, signers);
    :- admitted;
    if liquidator in s.whitelist.entries then Done(Commit(s, Unit))
    else
      :- OrTrap(s.whitelist.count < U32_MAX);
      Done(Commit(s.(whitelist := Whitelist(s.whitelist.entries + {liquidator}, s.whitelist.count + 1)), Unit))
  }

  function RemoveLiquidator(s: State, signers: set<Address>, admin: Address, liquidator: Address): Outcome<Commit> {
    var admitted := AdminOnly(s, admin, signers);
    :- admitted;
    if liquidator !in s.whitelist.entries then Done(Commit(s, Unit))
    else
      var count := SaturatingSub(s.whitelist.count, 1);
      Done(Commit(s.(whitelist := Whitelist(s.whitelist.entries - {liquidator}, count)), Unit))
  }

  // -- upgrades ----------------------------------------------------------------------------

  function ProposeUpgrade(s: State, signers: set<Address>, admin: Address, hash: WasmHash): Outcome<Commit> {
    var admitted := AdminOnly(s, admin, signers);
    :- admitted;
    Done(Commit(s.(upgrade := UpgradeSlot(Some(hash), Some(s.now)), log := s.log + [UpgradeProposed(hash, s.now)]),
                Unit))
  }

  function ExecuteUpgrade(s: State): Outcome<Commit> {
    if s.upgrade.pendingWasm == None || s.upgrade.upgradeTime == None then Err(NoUpgradePending) else
    :- Need(SaturatingAddU64(s.upgrade.upgradeTime.value, UPGRADE_TIMELOCK) <= s.now, TimelockNotElapsed);
    var event := UpgradeExecuted(s.upgrade.pendingWasm.value, s.now);
    Done(Commit(s.(upgrade := UpgradeSlot(None, None), log := s.log + [event]), Unit))
  }

  function CancelUpgrade(s: State, signers: set<Address>, admin: Address): Outcome<Commit> {
    var admitted := AdminOnly(s, admin, signers);
    :- admitted;
    :- Need(s.upgrade.pendingWasm.Some?, NoUpgradePending);
    Done(Commit(s.(upgrade := UpgradeSlot(None, None), log := s.log + [UpgradeCanceled(s.now)]), Unit))
  }
}
