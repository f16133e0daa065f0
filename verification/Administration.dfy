/** Who may change the settings, how the admin hands over, and what a withdrawal means for lending. */
module Administration {
  import opened Numeric
  import opened Wrappers
  import opened Protocol
  import opened Machine
  import opened Invariant
  import opened Lifecycle
  import opened Frames
  import opened LoanLife
  import Lending
  import Governance
  import Oracles

  // -- initialisation ----------------------------------------------------------------------

  /** Only `initialize` makes a contract initialized, only a blank one, and nothing undoes it. */
  lemma AdminStays(s: State, tx: Tx)
    ensures Initialized(Apply(s, tx)) == (Initialized(s) || (tx.call.Initialize? && Step(s, tx).Done?))
    ensures tx.call.Initialize? && Step(s, tx).Done? ==> !Initialized(s)
  {
    if !Governs(tx.call) {
      hide Step;
      Frame(s, tx);
    }
  }

  /** The environment's own steps. */
  predicate FromOutside(call: Call) {
    call.Tick? || call.MoveTokens?
  }

  /** Before initialisation every entry point but `initialize` fails, with the error for it. */
  lemma NothingBeforeInitialize(s: State, tx: Tx)
    requires BlankOk(s) && !Initialized(s) && !tx.call.Initialize? && !FromOutside(tx.call)
    ensures Step(s, tx) == Err(
      if tx.call.QueryHealthFactor? then LoanNotFound
      else if tx.call.ExecuteUpgrade? then NoUpgradePending
      else NotInitialized)
  {
    if tx.call.RequestLoan? || tx.call.RepayLoan? {
      hide Lending.Pledge, Lending.Approve, Lending.PayOut, Lending.SplitPayment, Lending.Collect;
    }
  }

  ghost function Initializations(): (State, Tx) -> int {
    (s: State, tx: Tx) => if tx.call.Initialize? && Step(s, tx).Done? then 1 else 0
  }

  /**
   * In any run from a blank contract, `initialize` succeeds at most once, exactly when the contract
   * ends up initialized; and until then nothing but the clock, token balances and token events changes.
   */
  lemma {:induction false} InitializedOnce(s: State, txs: seq<Tx>)
    requires Inv(s)
    ensures var end := Run(s, txs);
      && Tally(s, txs, Initializations()) == (if Initialized(end) && !Initialized(s) then 1 else 0)
      && (Initialized(s) ==> Initialized(end))
      && (!Initialized(end) ==> end == s.(now := end.now, balances := end.balances, log := end.log))
    decreases |txs|
  {
    hide Step;
    if |txs| > 0 {
      AdminStays(s, txs[0]);
      StepKeeps(s, txs[0]);
      InitializedOnce(Apply(s, txs[0]), txs[1..]);
      Frame(s, txs[0]);
      if !Initialized(s) && !txs[0].call.Initialize? && !FromOutside(txs[0].call) {
        NothingBeforeInitialize(s, txs[0]);
      }
    }
  }

  // -- who may change settings -------------------------------------------------------------

  /** Signed by neither the admin nor the address proposed to become it. */
  predicate Outside(cfg: Config, signers: set<Address>) {
    && (cfg.admin.Some? ==> cfg.admin.value !in signers)
    && (cfg.pendingAdmin.Some? ==> cfg.pendingAdmin.value !in signers)
  }

  /** Settings, liquidators and oracles are the same, and no other upgrade is pending. */
  predicate SameAdministration(s: State, after: State) {
    && after.cfg == s.cfg && after.whitelist == s.whitelist && after.oracles == s.oracles
    && (after.upgrade == s.upgrade || after.upgrade == UpgradeSlot(None, None))
  }

  lemma OutsiderStep(s: State, tx: Tx)
    requires Initialized(s) && Outside(s.cfg, tx.signers)
    ensures SameAdministration(s, Apply(s, tx))
  {
    if Governs(tx.call) {
      OutsiderGoverns(s, tx);
    } else if Registers(tx.call) || Lists(tx.call) || UsesSlot(tx.call) {
      OutsiderLists(s, tx);
    } else {
      hide Step;
      Frame(s, tx);
    }
  }

  lemma OutsiderGoverns(s: State, tx: Tx)
    requires Initialized(s) && Outside(s.cfg, tx.signers) && Governs(tx.call)
    ensures !Step(s, tx).Done?
  {
    hide Governance.Applied;
  }

  lemma OutsiderLists(s: State, tx: Tx)
    requires Initialized(s) && Outside(s.cfg, tx.signers)
    requires Registers(tx.call) || Lists(tx.call) || UsesSlot(tx.call)
    ensures !Step(s, tx).Done?
            || (tx.call.ExecuteUpgrade? && SameAdministration(s, Apply(s, tx)))
  {
    hide Oracles.Registered, Oracles.AnyActive, Oracles.FirstIndex;
  }

  /**
   * No run of calls that neither the admin nor the proposed admin signs changes a setting, the
   * whitelist or the registry; all it can do to a pending upgrade is execute it.
   */
  lemma {:induction false} OutsidersChangeNothing(s: State, txs: seq<Tx>)
    requires Initialized(s) && forall i :: 0 <= i < |txs| ==> Outside(s.cfg, txs[i].signers)
    ensures SameAdministration(s, Run(s, txs))
    decreases |txs|
  {
    hide Step;
    if |txs| > 0 {
      OutsiderStep(s, txs[0]);
      OutsidersChangeNothing(Apply(s, txs[0]), txs[1..]);
    }
  }

  // -- two limits --------------------------------------------------------------------------

  /** Committed fee updates; `update_fee_config` alone enforces the maximum of 500 bps. */
  ghost function FeeUpdates(): (State, Tx) -> int {
    (s: State, tx: Tx) => if tx.call.Configure? && tx.call.setting.Fees? && Step(s, tx).Done? then 1 else 0
  }

  /** Committed initialisations with a threshold of at most 10 000, and committed threshold updates. */
  ghost function ThresholdsInRange(): (State, Tx) -> int {
    (s: State, tx: Tx) =>
      if ((tx.call.Initialize? && tx.call.thr <= 10_000)
          || (tx.call.Configure? && tx.call.setting.LiquidationThreshold?)) && Step(s, tx).Done?
      then 1 else 0
  }

  predicate FeeWithin(s: State) {
    Initialized(s) && s.cfg.intFee <= 500
  }

  predicate ThresholdWithin(s: State) {
    Initialized(s) && s.cfg.liqThr <= 10_000
  }

  lemma LimitStep(s: State, tx: Tx)
    ensures FeeWithin(Apply(s, tx)) <==> FeeWithin(s) || FeeUpdates()(s, tx) > 0
    ensures ThresholdWithin(Apply(s, tx)) <==> ThresholdWithin(s) || ThresholdsInRange()(s, tx) > 0
  {
    if Governs(tx.call) {
      if tx.call.Configure? {
        SettingLimits(s.cfg, tx.call.setting);
      }
      hide Governance.Applied;
    } else {
      hide Step;
      Frame(s, tx);
    }
  }

  lemma SettingLimits(cfg: Config, setting: Governance.Setting)
    ensures var o := Governance.Applied(cfg, setting);
      o.Done? ==>
        && o.value.admin == cfg.admin
        && (if setting.Fees? then o.value.intFee <= 500 else o.value.intFee == cfg.intFee)
        && (if setting.LiquidationThreshold? then o.value.liqThr <= 10_000 else o.value.liqThr == cfg.liqThr)
  {
  }

  lemma {:induction false} LimitsOverRun(s: State, txs: seq<Tx>)
    ensures FeeWithin(Run(s, txs)) <==> FeeWithin(s) || Tally(s, txs, FeeUpdates()) > 0
    ensures ThresholdWithin(Run(s, txs)) <==> ThresholdWithin(s) || Tally(s, txs, ThresholdsInRange()) > 0
    decreases |txs|
  {
    hide Step, FeeWithin, ThresholdWithin;
    if |txs| > 0 {
      var next, rest := Apply(s, txs[0]), txs[1..];
      LimitStep(s, txs[0]);
      LimitsOverRun(next, rest);
      TallyNonNegative(next, rest, FeeUpdates());
      TallyNonNegative(next, rest, ThresholdsInRange());
      assert FeeUpdates()(s, txs[0]) >= 0 && ThresholdsInRange()(s, txs[0]) >= 0;
    }
  }

  /**
   * In every run from deployment, an initialized contract has its interest fee within the maximum
   * exactly when a fee update was committed, and its threshold within 10 000 exactly when it was
   * initialized so or a threshold update was committed.
   */
  lemma LimitsExactly(deployed: State, txs: seq<Tx>)
    requires Deployed(deployed) && Initialized(Run(deployed, txs))
    ensures Run(deployed, txs).cfg.intFee <= 500 <==> Tally(deployed, txs, FeeUpdates()) > 0
    ensures Run(deployed, txs).cfg.liqThr <= 10_000 <==> Tally(deployed, txs, ThresholdsInRange()) > 0
  {
    LimitsOverRun(deployed, txs);
  }

  // -- handing over ------------------------------------------------------------------------

  /** The calls that name an admin and need it to be the current one. */
  predicate OrderedBy(call: Call, a: Address) {
    match call
    case Configure(admin, _) => admin == a
    case Pause(admin) => admin == a
    case Unpause(admin) => admin == a
    case EmergencyWithdraw(admin, _) => admin == a
    case AddOracle(admin, _) => admin == a
    case RemoveOracle(admin, _) => admin == a
    case AddLiquidator(admin, _) => admin == a
    case RemoveLiquidator(admin, _) => admin == a
    case ProposeUpgrade(admin, _) => admin == a
    case CancelUpgrade(admin) => admin == a
    case _ => false
  }

  /** The admin calls that are refused while the contract is paused, before anything else is looked at. */
  predicate BlockedWhilePaused(call: Call) {
    call.AddOracle? || (call.Configure? && (call.setting.Fees? || call.setting.StalenessThreshold?))
  }

  /** In another name than the admin's they fail, as unauthorized; in its name but unsigned they trap. */
  lemma OnlyTheAdmin(s: State, tx: Tx, a: Address)
    requires OrderedBy(tx.call, a) && (s.cfg.admin != Some(a) || !Signed(a, tx.signers))
    ensures !Step(s, tx).Done?
    ensures Initialized(s) && !(BlockedWhilePaused(tx.call) && Paused(s.cfg, s.now)) ==>
      Step(s, tx) == if s.cfg.admin != Some(a) then Err(Unauthorized) else Trap
  {
    hide Governance.Applied, Oracles.Registered, Oracles.AnyActive, Oracles.FirstIndex;
  }

  /**
   * The two-step hand-over. After a committed proposal of `next` and any run that neither of the two
   * signs, `next` can accept exactly by signing; then it is the admin, nothing is proposed any more,
   * no other setting has moved, and every call in the old admin's name fails.
   */
  lemma HandOver(s: State, propose: Tx, txs: seq<Tx>, accept: Tx, next: Address, order: Tx)
    requires propose.call.Configure? && propose.call.setting == Governance.NextAdmin(next) && Step(s, propose).Done?
    requires forall i :: 0 <= i < |txs| ==> Outside(Apply(s, propose).cfg, txs[i].signers)
    requires accept.call == AcceptAdmin(next)
    requires OrderedBy(order.call, propose.call.admin) && propose.call.admin != next
    ensures var waiting := Run(Apply(s, propose), txs);
      && (Step(waiting, accept).Done? <==> Signed(next, accept.signers))
      && (Step(waiting, accept).Done? ==>
            && Apply(waiting, accept) == waiting.(cfg := s.cfg.(admin := Some(next), pendingAdmin := None))
            && !Step(Apply(waiting, accept), order).Done?)
  {
    var proposed := Apply(s, propose);
    assert proposed == s.(cfg := s.cfg.(pendingAdmin := Some(next))) && Initialized(s);
    OutsidersChangeNothing(proposed, txs);
    var waiting := Run(proposed, txs);
    Accepts(waiting, accept, next);
    hide Step;
    if Step(waiting, accept).Done? {
      OnlyTheAdmin(Apply(waiting, accept), order, propose.call.admin);
    }
  }

  lemma Accepts(s: State, tx: Tx, next: Address)
    requires Initialized(s) && s.cfg.pendingAdmin == Some(next) && tx.call == AcceptAdmin(next)
    ensures Step(s, tx).Done? <==> Signed(next, tx.signers)
    ensures Step(s, tx).Done? ==> Apply(s, tx) == s.(cfg := s.cfg.(admin := Some(next), pendingAdmin := None))
  {
  }

  // -- emergency withdrawal ----------------------------------------------------------------

  /**
   * Exactly when a withdrawal goes through, and then the contract holds nothing, the recipient holds
   * that much more, and no other balance changes; a withdrawal to the contract itself moves nothing.
   */
  lemma WithdrawEmpties(s: State, tx: Tx)
    requires Inv(s) && tx.call.EmergencyWithdraw?
    ensures var held := Balance(s.balances, Contract);
      Step(s, tx).Done? <==>
      && s.cfg.admin == Some(tx.call.admin) && Signed(tx.call.admin, tx.signers) && Paused(s.cfg, s.now)
      && (tx.call.recipient == Contract || Balance(s.balances, tx.call.recipient) + held <= I128_MAX)
    ensures Step(s, tx).Done? ==>
      forall a :: Balance(Apply(s, tx).balances, a)
                  == if tx.call.recipient == Contract then Balance(s.balances, a)
                     else if a == Contract then 0
                     else Balance(s.balances, a) + if a == tx.call.recipient then Balance(s.balances, Contract) else 0
  {
    var held := Balance(s.balances, Contract);
    assert 0 <= held;
    if held > 0 && Transfer(s.balances, Contract, tx.call.recipient, held).Done? {
      TransferMoves(s.balances, Contract, tx.call.recipient, held);
    }
  }

  /** The calls that can bring tokens to the contract. */
  predicate BringsTokens(call: Call) {
    call.MoveTokens? || call.RepayLoan? || call.Liquidate?
  }

  lemma DryStep(s: State, tx: Tx)
    requires Inv(s) && Balance(s.balances, Contract) == 0 && !BringsTokens(tx.call)
    ensures Balance(Apply(s, tx).balances, Contract) == 0
    ensures Apply(s, tx).book.loanCounter == s.book.loanCounter
  {
    Frame(s, tx);
    if tx.call.RequestLoan? {
      RequestGrantedExactly(s, tx);
      hide Step;
      assert !Step(s, tx).Done?;
    } else if tx.call.EmergencyWithdraw? {
      WithdrawEmpties(s, tx);
    } else {
      hide Step;
    }
  }

  /** Without tokens coming in, an emptied contract stays empty and issues no loan. */
  lemma {:induction false} WithdrawalStopsLending(s: State, txs: seq<Tx>)
    requires Inv(s) && Balance(s.balances, Contract) == 0
    requires forall i :: 0 <= i < |txs| ==> !BringsTokens(txs[i].call)
    ensures Balance(Run(s, txs).balances, Contract) == 0
    ensures Run(s, txs).book.loanCounter == s.book.loanCounter
    decreases |txs|
  {
    hide Step;
    if |txs| > 0 {
      DryStep(s, txs[0]);
      StepKeeps(s, txs[0]);
      WithdrawalStopsLending(Apply(s, txs[0]), txs[1..]);
    }
  }
}
