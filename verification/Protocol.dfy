/** Records, errors, events and storage of the lending contract. */
module Protocol {
  import opened Numeric
  import opened Wrappers

  datatype Error =
    | NotInitialized | AlreadyInitialized | Unauthorized | InsufficientCollateral | LoanNotFound
    | CollateralNotFound | HealthFactorSafe | InvalidAmount | LoanAlreadyClosed | InvalidFeeRate
    | ExceedsCloseFactor | InvalidCloseFactor | ContractPaused | OracleAlreadyRegistered
    | OracleLimitReached | OracleNotFound | InsufficientOracleQuorum | InvalidPrice | NotPaused
    | AlreadyPaused | ArithmeticOverflow | LiquidatorNotWhitelisted | NoUpgradePending
    | TimelockNotElapsed | OracleRequired

  /** A call either commits, returns a contract error, or traps; only the first changes storage. */
  datatype Outcome<+T> = Done(value: T) | Err(error: Error) | Trap {
    predicate IsFailure() { !Done? }

    function PropagateFailure<U>(): Outcome<U>
      requires IsFailure()
    {
      if Err? then Err(error) else Trap
    }

    function Extract(): T
      requires Done?
    {
      value
    }
  }

  /** One check on the way: go on, return an error, or trap. */
  datatype Guard = Pass | Reject(error: Error) | Panic {
    predicate IsFailure() { !Pass? }

    function PropagateFailure<U>(): Outcome<U>
      requires IsFailure()
    {
      if Reject? then Err(error) else Trap
    }
  }

  function Need(condition: bool, error: Error): Guard {
    if condition then Pass else Reject(error)
  }

  /** An arithmetic panic, a missing signature or a failed host call. */
  function OrTrap(condition: bool): Guard {
    if condition then Pass else Panic
  }

  /** The contract's own address, or an account. */
  datatype Address = Contract | Account(id: nat)

  /** The all-zeros account that `initialize` refuses as admin. */
  const ZERO_ACCOUNT := Account(0)

  type Symbol = string
  type WasmHash = seq<bv8>

  /** `require_auth`: nobody can sign for the contract's own address. */
  predicate Signed(a: Address, signers: set<Address>) {
    a in signers && a != Contract
  }

  datatype LoanStatus = Active | Repaid | Liquidated

  datatype LoanRecord = LoanRecord(
    id: nat,
    borrower: Address,
    collateralIds: seq<nat>,
    totalCollateralValue: I128,
    principal: I128,
    outstanding: I128,
    interestAccrued: I128,
    lastInterestTime: U64,
    status: LoanStatus,
    dueLedger: Option<U64>,
    hfHistory: seq<I128>)

  datatype CollateralRecord = CollateralRecord(
    owner: Address,
    animalType: Symbol,
    count: U32,
    appraisedValue: I128,
    loanId: nat,
    appraisalHistory: seq<I128>)

  /** Instance storage that the admin entry points set. */
  datatype Config = Config(
    admin: Option<Address>,
    pendingAdmin: Option<Address>,
    oracle: Address,
    treasury: Address,
    ltv: U32,
    liqThr: U32,
    minQuorum: U32,
    origFee: U32,
    intFee: U32,
    closeFactor: U32,
    minLoan: I128,
    maxLoan: I128,
    staleThr: U64,
    twapWindow: U64,
    paused: bool,
    pauseExp: U64,
    pauseDur: U64,
    animalCaps: map<Symbol, I128>)

  datatype Book = Book(
    loans: map<nat, LoanRecord>,
    collaterals: map<nat, CollateralRecord>,
    loanCounter: U64,
    collateralCounter: U64)

  datatype Feed = Feed(
    lastPrice: I128,
    lastPriceTime: U64,
    twapPrice: I128,
    twapSum: I128,
    twapCount: U32)

  datatype Whitelist = Whitelist(entries: set<Address>, count: U32)

  datatype UpgradeSlot = UpgradeSlot(pendingWasm: Option<WasmHash>, upgradeTime: Option<U64>)

  datatype FeeKind = Origination | Interest

  /**
   * Published events. `FeeCollected` also names the recipient, which on chain is in the token
   * transfer beside it; `TokensMoved` is the token's own event for a transfer made outside the
   * contract.
   */
  datatype Event =
    | FeeCollected(loanId: nat, kind: FeeKind, fee: I128, to: Address)
    | LoanRequested(loanId: nat, borrower: Address, amount: I128, disbursement: I128, total: I128)
    | LoanRepaid(borrower: Address, loanId: nat, principalPaid: I128, interestPaid: I128, outstanding: I128)
    | LoanLiquidated(loanId: nat, liquidator: Address, repaid: I128, outstanding: I128, status: LoanStatus)
    | EmergencyWithdrawn(recipient: Address, balance: I128)
    | UpgradeProposed(hash: WasmHash, at: U64)
    | UpgradeExecuted(hash: WasmHash, at: U64)
    | UpgradeCanceled(at: U64)
    | TokensMoved(sender: Address, to: Address, amount: I128)

  type Balances = map<Address, I128>

  datatype State = State(
    now: U64,
    cfg: Config,
    book: Book,
    oracles: Option<seq<Address>>,
    feed: Feed,
    whitelist: Whitelist,
    upgrade: UpgradeSlot,
    balances: Balances,
    log: seq<Event>)

  datatype Reply =
    | Unit
    | Id(id: nat)
    | Factor(value: I128)
    | Report(median: I128, responses: U32, flagged: U32)

  datatype Commit = Commit(state: State, reply: Reply)

  predicate Initialized(s: State) {
    s.cfg.admin.Some?
  }

  /** The pause flag with its expiry; an expiry of 0 never lapses. */
  predicate Paused(cfg: Config, now: U64) {
    cfg.paused && (cfg.pauseExp == 0 || now < cfg.pauseExp)
  }

  /** The guards every admin entry point starts with. */
  function AdminOnly(s: State, admin: Address, signers: set<Address>): Guard {
    if !Initialized(s) then Reject(NotInitialized)
    else if s.cfg.admin != Some(admin) then Reject(Unauthorized)
    else OrTrap(Signed(admin, signers))
  }

  function Balance(b: Balances, a: Address): I128 {
    if a in b then b[a] else 0
  }

  /** The token ledger: a transfer moves the whole amount or traps. */
  function Transfer(b: Balances, sender: Address, to: Address, amount: I128): Outcome<Balances> {
    if amount < 0 || Balance(b, sender) < amount then Trap
    else
      var debited := b[sender := Balance(b, sender) - amount];
      if Balance(debited, to) + amount > I128_MAX then Trap
      else Done(debited[to := Balance(debited, to) + amount])
  }

  ghost predicate FundsOk(b: Balances) {
    forall a :: Balance(b, a) >= 0
  }

  /** Only the two parties' balances change, by the amount moved; a self-transfer changes nothing. */
  lemma TransferMoves(b: Balances, sender: Address, to: Address, amount: I128)
    requires Transfer(b, sender, to, amount).Done?
    ensures 0 <= amount <= Balance(b, sender)
    ensures forall a :: Balance(Transfer(b, sender, to, amount).value, a)
                        == Balance(b, a) - (if a == sender then amount else 0) + (if a == to then amount else 0)
    ensures FundsOk(b) ==> FundsOk(Transfer(b, sender, to, amount).value)
  {
  }

  /** A sequence without its entry i. */
  function Without<T>(xs: seq<T>, i: nat): seq<T>
    requires i < |xs|
  {
    xs[..i] + xs[i + 1..]
  }

  /** The last `n` entries of `xs`, or all of them when there are fewer. */
  function LastN<T>(n: nat, xs: seq<T>): seq<T> {
    if |xs| <= n then xs else xs[|xs| - n..]
  }
}
