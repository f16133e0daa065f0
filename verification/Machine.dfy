/** The contract as a state machine: signed calls, one atomic step each, and runs of them. */
module Machine {
  import opened Numeric
  import opened Wrappers
  import opened Protocol
  import Lending
  import Governance
  import Oracles

  /** The state-changing entry points, plus the passing of time and transfers made outside the contract. */
  datatype Call =
    | Initialize(admin: Address, oracle: Address, treasury: Address, ltv: U32, thr: U32, minQuorum: U32)
    | Configure(admin: Address, setting: Governance.Setting)
    | AcceptAdmin(admin: Address)
    | Pause(admin: Address)
    | Unpause(admin: Address)
    | RegisterLivestock(owner: Address, animalType: Symbol, count: U32, value: I128)
    | UpdateAppraisal(owner: Address, collateralId: nat, value: I128)
    | RequestLoan(borrower: Address, ids: seq<nat>, amount: I128, duration: Option<U64>)
    | RepayLoan(borrower: Address, loanId: nat, amount: I128)
    | Liquidate(liquidator: Address, loanId: nat, amount: I128)
    | QueryHealthFactor(loanId: nat)
    | EmergencyWithdraw(admin: Address, recipient: Address)
    | AddOracle(admin: Address, oracle: Address)
    | RemoveOracle(admin: Address, oracle: Address)
    | SubmitOraclePrices(submitter: Address, prices: seq<I128>)
    | SubmitPrice(oracle: Address, price: I128)
    | AddLiquidator(admin: Address, liquidator: Address)
    | RemoveLiquidator(admin: Address, liquidator: Address)
    | ProposeUpgrade(admin: Address, hash: WasmHash)
    | ExecuteUpgrade
    | CancelUpgrade(admin: Address)
    | Tick(now: U64)
    | MoveTokens(sender: Address, to: Address, amount: I128)

  datatype Tx = Tx(signers: set<Address>, call: Call)

  /** The ledger clock never goes back. */
  function Ticked(s: State, now: U64): Outcome<Commit> {
    Done(Commit(s.(now := Max(s.now, now)), Unit))
  }

  /** A transfer on the token contract that the sender signs; deposits reach the contract this way. */
  function Moved(s: State, signers: set<Address>, sender: Address, to: Address, amount: I128): Outcome<Commit> {
    if !Signed(sender, signers) then Trap else
    var balances :- Transfer(s.balances, sender, to, amount);
    Done(Commit(s.(balances := balances, log := s.log + [TokensMoved(sender, to, amount)]), Unit))
  }

  function Step(s: State, tx: Tx): Outcome<Commit> {
    match tx.call
    case Initialize(admin, oracle, treasury, ltv, thr, minQuorum) =>
      Governance.Initialize(s, tx.signers, admin, oracle, treasury, ltv, thr, minQuorum)
    case Configure(admin, setting) => Governance.Configure(s, tx.signers, admin, setting)
    case AcceptAdmin(admin) => Governance.AcceptAdmin(s, tx.signers, admin)
    case Pause(admin) => Governance.Pause(s, tx.signers, admin)
    case Unpause(admin) => Governance.Unpause(s, tx.signers, admin)
    case RegisterLivestock(owner, animalType, count, value) =>
      Lending.RegisterLivestock(s, tx.signers, owner, animalType, count, value)
    case UpdateAppraisal(owner, id, value) => Lending.UpdateAppraisal(s, tx.signers, owner, id, value)
    case RequestLoan(borrower, ids, amount, duration) =>
      Lending.RequestLoan(s, tx.signers, borrower, ids, amount, duration)
    case RepayLoan(borrower, id, amount) => Lending.RepayLoan(s, tx.signers, borrower, id, amount)
    case Liquidate(liquidator, id, amount) => Lending.Liquidate(s, tx.signers, liquidator, id, amount)
    case QueryHealthFactor(id) => Lending.QueryHealthFactor(s, id)
    case EmergencyWithdraw(admin, recipient) => Lending.EmergencyWithdraw(s, tx.signers, admin, recipient)
    case AddOracle(admin, oracle) => Oracles.AddOracle(s, tx.signers, admin, oracle)
    case RemoveOracle(admin, oracle) => Oracles.RemoveOracle(s, tx.signers, admin, oracle)
    case SubmitOraclePrices(submitter, prices) => Oracles.SubmitOraclePrices(s, tx.signers, submitter, prices)
    case SubmitPrice(oracle, price) => Oracles.SubmitPrice(s, tx.signers, oracle, price)
    case AddLiquidator(admin, liquidator) => Governance.AddLiquidator(s, tx.signers, admin, liquidator)
    case RemoveLiquidator(admin, liquidator) => Governance.RemoveLiquidator(s, tx.signers, admin, liquidator)
    case ProposeUpgrade(admin, hash) => Governance.ProposeUpgrade(s, tx.signers, admin, hash)
    case ExecuteUpgrade => Governance.ExecuteUpgrade(s)
    case CancelUpgrade(admin) => Governance.CancelUpgrade(s, tx.signers, admin)
    case Tick(now) => Ticked(s, now)
    case MoveTokens(sender, to, amount) => Moved(s, tx.signers, sender, to, amount)
  }

  /** The host rolls storage back unless the call commits. */
  function After(s: State, outcome: Outcome<Commit>): State {
    if outcome.Done? then outcome.value.state else s
  }

  function Apply(s: State, tx: Tx): State {
    After(s, Step(s, tx))
  }

  function Run(s: State, txs: seq<Tx>): State
    decreases |txs|
  {
    if |txs| == 0 then s else Run(Apply(s, txs[0]), txs[1..])
  }

  /** Freshly deployed: nothing stored yet, any token balances, any time. */
  ghost predicate Deployed(s: State) {
    && s.cfg.admin == None && s.cfg.pendingAdmin == None
    && s.cfg.ltv == 0 && s.cfg.intFee == 0 && !s.cfg.paused && s.cfg.pauseExp == 0
    && s.cfg.pauseDur == Governance.DEFAULT_PAUSE_DURATION && s.cfg.animalCaps == map[]
    && s.book == Book(map[], map[], 0, 0)
    && s.oracles == None && s.feed == Feed(0, 0, 0, 0, 0)
    && s.whitelist == Whitelist({}, 0) && s.upgrade == UpgradeSlot(None, None)
    && s.log == []
    && forall a :: Balance(s.balances, a) >= 0
  }

  // -- what accumulates along a run --------------------------------------------------------

  /** The sum over the steps of a run of what each step weighs in the state it meets. */
  ghost function Tally(s: State, txs: seq<Tx>, weight: (State, Tx) -> int): int
    decreases |txs|
  {
    if |txs| == 0 then 0 else weight(s, txs[0]) + Tally(Apply(s, txs[0]), txs[1..], weight)
  }

  lemma {:induction false} TallyNonNegative(s: State, txs: seq<Tx>, weight: (State, Tx) -> int)
    requires forall t, tx :: weight(t, tx) >= 0
    ensures Tally(s, txs, weight) >= 0
    decreases |txs|
  {
    hide Step;
    if |txs| > 0 {
      TallyNonNegative(Apply(s, txs[0]), txs[1..], weight);
    }
  }

  /** The highest value of a setting in any state of a run, the first and the last included. */
  ghost function Peak(s: State, txs: seq<Tx>, setting: Config -> int): int
    decreases |txs|
  {
    if |txs| == 0 then setting(s.cfg) else Max(setting(s.cfg), Peak(Apply(s, txs[0]), txs[1..], setting))
  }

  /** All the values the steps of a run add to a history, in order. */
  ghost function Gathered(s: State, txs: seq<Tx>, added: (State, Tx) -> seq<I128>): seq<I128>
    decreases |txs|
  {
    if |txs| == 0 then [] else added(s, txs[0]) + Gathered(Apply(s, txs[0]), txs[1..], added)
  }

  /** The sum of what each logged event weighs. */
  ghost function Sum(log: seq<Event>, weight: Event -> int): int {
    if |log| == 0 then 0 else Sum(log[..|log| - 1], weight) + weight(log[|log| - 1])
  }

  lemma SumAppend(log: seq<Event>, event: Event, weight: Event -> int)
    ensures Sum(log + [event], weight) == Sum(log, weight) + weight(event)
  {
    assert (log + [event])[..|log|] == log;
  }

  lemma {:induction false} RunSplit(s: State, first: seq<Tx>, rest: seq<Tx>)
    ensures Run(s, first + rest) == Run(Run(s, first), rest)
    decreases |first|
  {
    if |first| == 0 {
      assert first + rest == rest;
    } else {
      assert (first + rest)[1..] == first[1..] + rest;
      RunSplit(Apply(s, first[0]), first[1..], rest);
    }
  }
}
