/** The contract object: storage as fields, entry points as methods that commit at the end or change nothing. */
module LendingContract {
  import opened Numeric
  import opened Wrappers
  import opened Protocol
  import Lending
  import Governance
  import Oracles
  import Median
  import Machine

  function ReplyOf(o: Outcome<Commit>): Outcome<Reply> {
    match o
    case Done(c) => Done(c.reply)
    case Err(e) => Err(e)
    case Trap => Trap
  }

  /** The method answered and left storage as the specification says. */
  predicate Does(before: State, after: State, r: Outcome<Reply>, spec: Outcome<Commit>) {
    after == Machine.After(before, spec) && r == ReplyOf(spec)
  }

  /** A refusal met part-way through the list is the answer for the whole list. */
  lemma {:induction false} PledgeStops(collaterals: map<nat, CollateralRecord>, ids: seq<nat>, i: nat,
                                       borrower: Address)
    requires i <= |ids| && !Lending.Pledge(collaterals, ids[..i], borrower).Done?
    ensures Lending.Pledge(collaterals, ids, borrower) == Lending.Pledge(collaterals, ids[..i], borrower)
    decreases |ids|
  {
    if i < |ids| {
      var front := ids[..|ids| - 1];
      assert front[..i] == ids[..i];
      PledgeStops(collaterals, front, i, borrower);
    } else {
      assert ids[..i] == ids;
    }
  }

  /** Copies the newest entries when the log is full, then appends. */
  method Roll(cap: nat, history: seq<I128>, value: I128) returns (rolled: seq<I128>)
    requires cap > 0
    ensures rolled == Lending.Rolled(cap, history, value)
  {
    rolled := history;
    if |history| >= cap {
      rolled := [];
      var start := |history| - (cap - 1);
      for i := start to |history|
        invariant rolled == history[start..i]
      {
        rolled := rolled + [history[i]];
      }
    }
    rolled := rolled + [value];
  }

  class StellarKraal {
    var now: U64
    var cfg: Config
    var loans: map<nat, LoanRecord>
    var collaterals: map<nat, CollateralRecord>
    var loanCounter: U64
    var collateralCounter: U64
    var oracles: Option<seq<Address>>
    var feed: Feed
    var whitelist: set<Address>
    var whitelistCount: U32
    var pendingWasm: Option<WasmHash>
    var upgradeTime: Option<U64>
    var balances: Balances
    var log: seq<Event>

    function View(): State
      reads this
    {
      State(now, cfg, Book(loans, collaterals, loanCounter, collateralCounter), oracles, feed,
            Whitelist(whitelist, whitelistCount), UpgradeSlot(pendingWasm, upgradeTime), balances, log)
    }

    constructor (s: State)
      ensures View() == s
    {
      now, cfg, balances, log := s.now, s.cfg, s.balances, s.log;
      loans, collaterals := s.book.loans, s.book.collaterals;
      loanCounter, collateralCounter := s.book.loanCounter, s.book.collateralCounter;
      oracles, feed := s.oracles, s.feed;
      whitelist, whitelistCount := s.whitelist.entries, s.whitelist.count;
      pendingWasm, upgradeTime := s.upgrade.pendingWasm, s.upgrade.upgradeTime;
    }

    // -- governance ------------------------------------------------------------------------

    method Initialize(signers: set<Address>, admin: Address, oracle: Address, treasury: Address,
                      ltv: U32, thr: U32, minQuorum: U32) returns (r: Outcome<Reply>)
      modifies this`cfg, this`feed
      ensures Does(old(View()), View(), r,
                   Governance.Initialize(old(View()), signers, admin, oracle, treasury, ltv, thr, minQuorum))
    {
      if cfg.admin.Some? { return Err(AlreadyInitialized); }
      if admin == ZERO_ACCOUNT { return Err(Unauthorized); }
      if ltv == 0 || ltv > 9000 { return Err(InvalidAmount); }
      if thr < ltv { return Err(InvalidAmount); }
      if !Signed(admin, signers) { return Trap; }
      cfg := cfg.(admin := Some(admin), oracle := oracle, treasury := treasury, ltv := ltv, liqThr := thr);
      cfg := cfg.(minQuorum := minQuorum, origFee := 50, intFee := 1000, closeFactor := 5000);
      cfg := cfg.(minLoan := 10_000_000, maxLoan := 1_000_000_000_000, staleThr := 3600, twapWindow := 3600);
      feed := Feed(0, now, 0, 0, 0);
      return Done(Unit);
    }

    method Configure(signers: set<Address>, admin: Address, setting: Governance.Setting) returns (r: Outcome<Reply>)
      modifies this`cfg
      ensures Does(old(View()), View(), r, Governance.Configure(old(View()), signers, admin, setting))
    {
      if cfg.admin.None? { return Err(NotInitialized); }
      if Governance.BlockedByPause(setting) && Paused(cfg, now) { return Err(ContractPaused); }
      if cfg.admin != Some(admin) { return Err(Unauthorized); }
      if !Signed(admin, signers) { return Trap; }
      var applied := Governance.Applied(cfg, setting);
      match applied {
        case Done(next) => cfg := next; return Done(Unit);
        case Err(e) => return Err(e);
        case Trap => return Trap;
      }
    }

    method AcceptAdmin(signers: set<Address>, admin: Address) returns (r: Outcome<Reply>)
      modifies this`cfg
      ensures Does(old(View()), View(), r, Governance.AcceptAdmin(old(View()), signers, admin))
    {
      if cfg.admin.None? { return Err(NotInitialized); }
      if cfg.pendingAdmin != Some(admin) { return Err(Unauthorized); }
      if !Signed(admin, signers) { return Trap; }
      cfg := cfg.(admin := Some(admin), pendingAdmin := None);
      return Done(Unit);
    }

    method Pause(signers: set<Address>, admin: Address) returns (r: Outcome<Reply>)
      modifies this`cfg
      ensures Does(old(View()), View(), r, Governance.Pause(old(View()), signers, admin))
    {
      if cfg.admin.None? { return Err(NotInitialized); }
      if cfg.admin != Some(admin) { return Err(Unauthorized); }
      if !Signed(admin, signers) { return Trap; }
      if Paused(cfg, now) { return Err(AlreadyPaused); }
      if now + cfg.pauseDur > U64_MAX { return Err(ArithmeticOverflow); }
      cfg := cfg.(paused := true, pauseExp := now + cfg.pauseDur);
      return Done(Unit);
    }

    method Unpause(signers: set<Address>, admin: Address) returns (r: Outcome<Reply>)
      modifies this`cfg
      ensures Does(old(View()), View(), r, Governance.Unpause(old(View()), signers, admin))
    {
      if cfg.admin.None? { return Err(NotInitialized); }
      if cfg.admin != Some(admin) { return Err(Unauthorized); }
      if !Signed(admin, signers) { return Trap; }
      if !Paused(cfg, now) { return Err(NotPaused); }
      cfg := cfg.(paused := false, pauseExp := 0);
      return Done(Unit);
    }

    method AddLiquidator(signers: set<Address>, admin: Address, liquidator: Address) returns (r: Outcome<Reply>)
      modifies this`whitelist, this`whitelistCount
      ensures Does(old(View()), View(), r, Governance.AddLiquidator(old(View()), signers, admin, liquidator))
    {
      if cfg.admin.None? { return Err(NotInitialized); }
      if cfg.admin != Some(admin) { return Err(Unauthorized); }
      if !Signed(admin, signers) { return Trap; }
      if liquidator in whitelist { return Done(Unit); }
      if whitelistCount == U32_MAX { return Trap; }
      whitelist := whitelist + {liquidator};
      whitelistCount := whitelistCount + 1;
      return Done(Unit);
    }

    method RemoveLiquidator(signers: set<Address>, admin: Address, liquidator: Address) returns (r: Outcome<Reply>)
      modifies this`whitelist, this`whitelistCount
      ensures Does(old(View()), View(), r, Governance.RemoveLiquidator(old(View()), signers, admin, liquidator))
    {
      if cfg.admin.None? { return Err(NotInitialized); }
      if cfg.admin != Some(admin) { return Err(Unauthorized); }
      if !Signed(admin, signers) { return Trap; }
      if liquidator !in whitelist { return Done(Unit); }
      whitelist := whitelist - {liquidator};
      whitelistCount := SaturatingSub(whitelistCount, 1);
      return Done(Unit);
    }

    method ProposeUpgrade(signers: set<Address>, admin: Address, hash: WasmHash) returns (r: Outcome<Reply>)
      modifies this`pendingWasm, this`upgradeTime, this`log
      ensures Does(old(View()), View(), r, Governance.ProposeUpgrade(old(View()), signers, admin, hash))
    {
      if cfg.admin.None? { return Err(NotInitialized); }
      if cfg.admin != Some(admin) { return Err(Unauthorized); }
      if !Signed(admin, signers) { return Trap; }
      pendingWasm := Some(hash);
      upgradeTime := Some(now);
      log := log + [UpgradeProposed(hash, now)];
      return Done(Unit);
    }

    method ExecuteUpgrade() returns (r: Outcome<Reply>)
      modifies this`pendingWasm, this`upgradeTime, this`log
      ensures Does(old(View()), View(), r, Governance.ExecuteUpgrade(old(View())))
    {
      if pendingWasm.None? { return Err(NoUpgradePending); }
      if upgradeTime.None? { return Err(NoUpgradePending); }
      if now < SaturatingAddU64(upgradeTime.value, Governance.UPGRADE_TIMELOCK) { return Err(TimelockNotElapsed); }
      log := log + [UpgradeExecuted(pendingWasm.value, now)];
      pendingWasm := None;
      upgradeTime := None;
      return Done(Unit);
    }

    method CancelUpgrade(signers: set<Address>, admin: Address) returns (r: Outcome<Reply>)
      modifies this`pendingWasm, this`upgradeTime, this`log
      ensures Does(old(View()), View(), r, Governance.CancelUpgrade(old(View()), signers, admin))
    {
      if cfg.admin.None? { return Err(NotInitialized); }
      if cfg.admin != Some(admin) { return Err(Unauthorized); }
      if !Signed(admin, signers) { return Trap; }
      if pendingWasm.None? { return Err(NoUpgradePending); }
      pendingWasm := None;
      upgradeTime := None;
      log := log + [UpgradeCanceled(now)];
      return Done(Unit);
    }

    // -- oracles ---------------------------------------------------------------------------

    method AddOracle(signers: set<Address>, admin: Address, oracle: Address) returns (r: Outcome<Reply>)
      modifies this`oracles
      ensures Does(old(View()), View(), r, Oracles.AddOracle(old(View()), signers, admin, oracle))
    {
      if cfg.admin.None? { return Err(NotInitialized); }
      if Paused(cfg, now) { return Err(ContractPaused); }
      if cfg.admin != Some(admin) { return Err(Unauthorized); }
      if !Signed(admin, signers) { return Trap; }
      var list := Oracles.Registered(View());
      if oracle in list { return Err(OracleAlreadyRegistered); }
      if |list| >= Oracles.MAX_ORACLES { return Err(OracleLimitReached); }
      oracles := Some(list + [oracle]);
      return Done(Unit);
    }

    method RemoveOracle(signers: set<Address>, admin: Address, oracle: Address) returns (r: Outcome<Reply>)
      modifies this`oracles
      ensures Does(old(View()), View(), r, Oracles.RemoveOracle(old(View()), signers, admin, oracle))
    {
      if cfg.admin.None? { return Err(NotInitialized); }
      if cfg.admin != Some(admin) { return Err(Unauthorized); }
      if !Signed(admin, signers) { return Trap; }
      var list := Oracles.Registered(View());
      var index := 0;
      while index < |list| && list[index] != oracle
        invariant index <= |list| && oracle !in list[..index]
      {
        index := index + 1;
      }
      if index == |list| {
        assert list[..index] == list;
        return Err(OracleNotFound);
      }
      assert index == Oracles.FirstIndex(list, oracle);
      if |list| == 1 {
        var id := 1;
        while id <= loanCounter
          invariant 1 <= id <= loanCounter + 1
          invariant forall k: nat :: 1 <= k < id && k in loans ==> loans[k].status != Active
        {
          if id in loans && loans[id].status == Active { return Err(OracleRequired); }
          id := id + 1;
        }
      }
      oracles := Some(Without(list, index));
      return Done(Unit);
    }

    method SubmitOraclePrices(signers: set<Address>, submitter: Address, prices: seq<I128>) returns (r: Outcome<Reply>)
      modifies this`feed
      ensures Does(old(View()), View(), r, Oracles.SubmitOraclePrices(old(View()), signers, submitter, prices))
    {
      if cfg.admin.None? { return Err(NotInitialized); }
      if !Signed(submitter, signers) { return Trap; }
      if |prices| != |Oracles.Registered(View())| { return Err(InvalidPrice); }
      for i := 0 to |prices|
        invariant forall k :: 0 <= k < i ==> 0 < prices[k] < Oracles.MAX_PRICE
      {
        if prices[i] <= 0 || prices[i] >= Oracles.MAX_PRICE { return Err(InvalidPrice); }
      }
      if |prices| < cfg.minQuorum { return Err(InsufficientOracleQuorum); }
      if |prices| > Oracles.MAX_ORACLES || |prices| == 0 { return Trap; }
      var median := MiddleOf(prices);
      var flagged := 0;
      for i := 0 to |prices|
        invariant 0 <= flagged == Oracles.Flagged(prices[..i], median)
      {
        assert prices[..i + 1][..i] == prices[..i];
        if Oracles.Deviates(prices[i], median) { flagged := flagged + 1; }
      }
      assert prices[..|prices|] == prices;
      feed := feed.(lastPrice := median, lastPriceTime := now);
      return Done(Report(median, |prices|, flagged));
    }

    method SubmitPrice(signers: set<Address>, oracle: Address, price: I128) returns (r: Outcome<Reply>)
      modifies this`feed
      ensures Does(old(View()), View(), r, Oracles.SubmitPrice(old(View()), signers, oracle, price))
    {
      if cfg.admin.None? { return Err(NotInitialized); }
      if !Signed(oracle, signers) { return Trap; }
      if oracle != cfg.oracle { return Err(Unauthorized); }
      if price <= 0 { return Err(InvalidPrice); }
      var sum: I128, count: U32 := price, 1;
      if feed.lastPriceTime != 0 && SaturatingSub(now, feed.lastPriceTime) <= cfg.twapWindow {
        count := if feed.twapCount == U32_MAX then U32_MAX else feed.twapCount + 1;
        sum := if Fits(feed.twapSum + price) then feed.twapSum + price else I128_MAX;
      }
      feed := Feed(price, now, TruncDiv(sum, count), sum, count);
      return Done(Unit);
    }

    // -- collateral ------------------------------------------------------------------------

    method RegisterLivestock(signers: set<Address>, owner: Address, animalType: Symbol, count: U32, value: I128)
      returns (r: Outcome<Reply>)
      modifies this`collaterals, this`collateralCounter
      ensures Does(old(View()), View(), r,
                   Lending.RegisterLivestock(old(View()), signers, owner, animalType, count, value))
    {
      if cfg.admin.None? { return Err(NotInitialized); }
      if Paused(cfg, now) { return Err(ContractPaused); }
      if value <= 0 || count == 0 { return Err(InvalidAmount); }
      if animalType in cfg.animalCaps && value > cfg.animalCaps[animalType] { return Err(InvalidAmount); }
      if !Signed(owner, signers) { return Trap; }
      if collateralCounter == U64_MAX { return Err(ArithmeticOverflow); }
      collateralCounter := collateralCounter + 1;
      var record := CollateralRecord(owner, animalType, count, value, 0, [value]);
      collaterals := collaterals[collateralCounter := record];
      return Done(Id(collateralCounter));
    }

    method UpdateAppraisal(signers: set<Address>, owner: Address, id: nat, value: I128) returns (r: Outcome<Reply>)
      modifies this`collaterals
      ensures Does(old(View()), View(), r, Lending.UpdateAppraisal(old(View()), signers, owner, id, value))
    {
      if cfg.admin.None? { return Err(NotInitialized); }
      if Paused(cfg, now) { return Err(ContractPaused); }
      if value <= 0 { return Err(InvalidAmount); }
      if !Signed(owner, signers) { return Trap; }
      if id !in collaterals { return Err(CollateralNotFound); }
      var record := collaterals[id];
      if record.owner != owner { return Err(Unauthorized); }
      var history := Roll(Lending.APPRAISAL_LOG_CAP, record.appraisalHistory, value);
      collaterals := collaterals[id := record.(appraisedValue := value, appraisalHistory := history)];
      return Done(Unit);
    }

    // -- loans -----------------------------------------------------------------------------

    method RequestLoan(signers: set<Address>, borrower: Address, ids: seq<nat>, amount: I128, duration: Option<U64>)
      returns (r: Outcome<Reply>)
      modifies this`loans, this`collaterals, this`loanCounter, this`balances, this`log
      ensures Does(old(View()), View(), r,
                   Lending.RequestLoan(old(View()), signers, borrower, ids, amount, duration))
    {
      hide Lending.Pledge, Lending.Approve, Lending.PayOut, Lending.RequestGuard, Lending.Originated;
      var checked := CheckRequest(signers, borrower, ids, amount);
      if checked.IsFailure() { return checked.PropagateFailure(); }

      var gathered := TotalPledged(borrower, ids);
      if !gathered.Done? { return gathered.PropagateFailure(); }
      var total := gathered.value;
      var priced := Price(total, amount);
      if !priced.Done? { return priced.PropagateFailure(); }
      var terms := priced.value;
      if loanCounter == U64_MAX { return Err(ArithmeticOverflow); }
      var paid := PayOut(borrower, terms);
      if !paid.Done? { return paid.PropagateFailure(); }
      Originate(borrower, ids, amount, duration, total, terms, paid.value);
      return Done(Id(loanCounter));
    }

    /** The writes of `request_loan`: record, links, balances and events. */
    method Originate(borrower: Address, ids: seq<nat>, amount: I128, duration: Option<U64>,
                     total: I128, terms: Lending.Terms, paid: Balances)
      requires loanCounter < U64_MAX && forall c :: c in ids ==> c in collaterals
      modifies this`loans, this`collaterals, this`loanCounter, this`balances, this`log
      ensures View() == Lending.Originated(old(View()), borrower, ids, amount, duration, total, terms, paid)
      ensures loanCounter == old(loanCounter) + 1
    {
      hide Lending.FeeEvents, Lending.Linked, Lending.NewLoan;
      var id := loanCounter + 1;
      var loan := OpenLoan(id, borrower, ids, amount, duration, total);
      var linked := LinkAll(ids, id);
      loanCounter, loans, collaterals := id, loans[id := loan], linked;
      assert View().book == old(View()).book.(loans := loans, loanCounter := id, collaterals := linked);
      balances := paid;
      Publish(id, Origination, terms.fee, LoanRequested(id, borrower, amount, terms.disbursement, total));
    }

    /** The new record, with its deadline when a duration is given. */
    method OpenLoan(id: nat, borrower: Address, ids: seq<nat>, amount: I128, duration: Option<U64>, total: I128)
      returns (loan: LoanRecord)
      ensures loan == Lending.NewLoan(id, borrower, ids, total, amount, now, duration)
    {
      var due: Option<U64> := None;
      if duration.Some? { due := Some(SaturatingAddU64(now, duration.value)); }
      loan := LoanRecord(id, borrower, ids, total, amount, amount, 0, now, Active, due, []);
    }

    /** The fee event, when there is a fee, and then the loan's event. */
    method Publish(id: nat, kind: FeeKind, fee: I128, e: Event)
      modifies this`log
      ensures log == Lending.FeeEvents(old(log), id, kind, fee, cfg.treasury) + [e]
    {
      if fee > 0 {
        log := log + [FeeCollected(id, kind, fee, cfg.treasury)];
      }
      log := log + [e];
    }

    method CheckRequest(signers: set<Address>, borrower: Address, ids: seq<nat>, amount: I128) returns (g: Guard)
      ensures g == Lending.RequestGuard(View(), signers, borrower, ids, amount)
    {
      if cfg.admin.None? { return Reject(NotInitialized); }
      if Paused(cfg, now) { return Reject(ContractPaused); }
      if amount <= 0 { return Reject(InvalidAmount); }
      if amount < cfg.minLoan { return Reject(InvalidAmount); }
      if amount > cfg.maxLoan { return Reject(InvalidAmount); }
      if |ids| == 0 { return Reject(CollateralNotFound); }
      if !Signed(borrower, signers) { return Panic; }
      return Pass;
    }

    /** The loan-to-value cap and the origination fee of `request_loan`. */
    method Price(total: I128, amount: I128) returns (r: Outcome<Lending.Terms>)
      ensures r == Lending.Approve(total, amount, cfg.ltv, cfg.origFee)
    {
      if !Fits(total * cfg.ltv) { return Err(InvalidAmount); }
      var maxLoan := TruncDiv(total * cfg.ltv, BPS);
      if amount > maxLoan { return Err(InsufficientCollateral); }
      if !Fits(amount * cfg.origFee) { return Err(InvalidAmount); }
      var fee: I128 := TruncDiv(amount * cfg.origFee, BPS);
      if !Fits(amount - fee) { return Err(InvalidAmount); }
      return Done(Lending.Terms(fee, amount - fee));
    }

    /** The two transfers of `request_loan`, on the balances that are committed afterwards. */
    method PayOut(borrower: Address, terms: Lending.Terms) returns (r: Outcome<Balances>)
      ensures r == Lending.PayOut(balances, cfg.treasury, borrower, terms)
    {
      var held := balances;
      if terms.fee > 0 {
        var toTreasury := Transfer(held, Contract, cfg.treasury, terms.fee);
        if !toTreasury.Done? { return Trap; }
        held := toTreasury.value;
      }
      return Transfer(held, Contract, borrower, terms.disbursement);
    }

    /** The checking loop of `request_loan`. */
    method TotalPledged(borrower: Address, ids: seq<nat>) returns (r: Outcome<I128>)
      ensures r == Lending.Pledge(collaterals, ids, borrower)
      ensures r.Done? ==> forall c :: c in ids ==> c in collaterals
    {
      var total: I128 := 0;
      for i := 0 to |ids|
        invariant Lending.Pledge(collaterals, ids[..i], borrower) == Done(total)
        invariant forall c :: c in ids[..i] ==> c in collaterals
      {
        var upTo := ids[..i + 1];
        assert upTo[..i] == ids[..i];
        if ids[i] !in collaterals {
          PledgeStops(collaterals, ids, i + 1, borrower);
          return Err(CollateralNotFound);
        }
        if collaterals[ids[i]].owner != borrower {
          PledgeStops(collaterals, ids, i + 1, borrower);
          return Err(Unauthorized);
        }
        if !Fits(total + collaterals[ids[i]].appraisedValue) {
          PledgeStops(collaterals, ids, i + 1, borrower);
          return Err(InvalidAmount);
        }
        total := total + collaterals[ids[i]].appraisedValue;
      }
      assert ids[..|ids|] == ids;
      return Done(total);
    }

    /** The linking loop of `request_loan`, on the table that is committed afterwards. */
    method LinkAll(ids: seq<nat>, loanId: nat) returns (linked: map<nat, CollateralRecord>)
      requires forall c :: c in ids ==> c in collaterals
      ensures linked == Lending.Linked(collaterals, ids, loanId)
    {
      linked := collaterals;
      for i := 0 to |ids|
        invariant linked.Keys == collaterals.Keys
        invariant forall c :: c in collaterals ==>
          linked[c] == if c in ids[..i] then collaterals[c].(loanId := loanId) else collaterals[c]
      {
        linked := linked[ids[i] := linked[ids[i]].(loanId := loanId)];
      }
      assert ids[..|ids|] == ids;
    }

    method RepayLoan(signers: set<Address>, borrower: Address, id: nat, amount: I128) returns (r: Outcome<Reply>)
      modifies this`loans, this`balances, this`log
      ensures Does(old(View()), View(), r, Lending.RepayLoan(old(View()), signers, borrower, id, amount))
    {
      hide Lending.Accrued, Lending.Collect, Lending.FeeEvents, Lending.Settled;
      if cfg.admin.None? { return Err(NotInitialized); }
      if amount <= 0 { return Err(InvalidAmount); }
      if !Signed(borrower, signers) { return Trap; }
      if id !in loans { return Err(LoanNotFound); }
      var loan := loans[id];
      if loan.borrower != borrower { return Err(Unauthorized); }
      if loan.status != Active { return Err(LoanAlreadyClosed); }

      loan := Accrue(loan);
      var divided := Divide(loan, amount);
      if !divided.Done? { return divided.PropagateFailure(); }
      var split := divided.value;
      var collected := Collect(borrower, split);
      if !collected.Done? { return collected.PropagateFailure(); }
      loan := Settle(loan, split);
      loans, balances := loans[id := loan], collected.value;
      Publish(id, Interest, split.fee, LoanRepaid(borrower, id, split.principal, split.interest, loan.outstanding));
      return Done(Unit);
    }

    /** The amounts after a payment, and the status when nothing is left. */
    method Settle(record: LoanRecord, split: Lending.Split) returns (loan: LoanRecord)
      requires Fits(record.interestAccrued - split.interest) && Fits(record.outstanding - split.principal)
      ensures loan == Lending.Settled(record, split)
    {
      loan := record.(interestAccrued := record.interestAccrued - split.interest,
                      outstanding := record.outstanding - split.principal);
      if loan.outstanding == 0 && loan.interestAccrued == 0 {
        loan := loan.(status := Repaid);
      }
    }

    /** The two transfers of `repay_loan`, on the balances that are committed afterwards. */
    method Collect(borrower: Address, split: Lending.Split) returns (r: Outcome<Balances>)
      ensures r == Lending.Collect(balances, cfg.treasury, borrower, split)
    {
      if !Fits(split.interest + split.principal) { return Trap; }
      var received := Transfer(balances, borrower, Contract, split.interest + split.principal);
      if !received.Done? { return Trap; }
      if split.fee > 0 {
        return Transfer(received.value, Contract, cfg.treasury, split.fee);
      }
      return received;
    }

    /** The accrual step of `repay_loan`. */
    method Accrue(record: LoanRecord) returns (loan: LoanRecord)
      ensures loan == Lending.Accrued(record, cfg.intFee, now)
    {
      loan := record;
      var elapsed := SaturatingSub(now, loan.lastInterestTime);
      if elapsed > 0 && loan.outstanding > 0 {
        var accrued := TruncDiv(MulOrMax(MulOrMax(loan.outstanding, cfg.intFee), elapsed), Lending.YEAR_BPS);
        loan := loan.(interestAccrued := SaturatingAdd(loan.interestAccrued, accrued));
      }
      loan := loan.(lastInterestTime := now);
    }

    /** The division of a payment: interest first, principal with the rest, a cut of the interest. */
    method Divide(loan: LoanRecord, amount: I128) returns (r: Outcome<Lending.Split>)
      ensures r == Lending.SplitPayment(loan, cfg.intFee, amount)
    {
      if !Fits(loan.outstanding + loan.interestAccrued) { return Err(InvalidAmount); }
      var paid := if amount <= loan.outstanding + loan.interestAccrued then amount
                  else loan.outstanding + loan.interestAccrued;
      var interest: I128 := if loan.interestAccrued <= paid then loan.interestAccrued else paid;
      if !Fits(loan.interestAccrued - interest) { return Err(InvalidAmount); }
      if !Fits(paid - interest) { return Err(InvalidAmount); }
      var principal: I128 := paid - interest;
      if !Fits(loan.outstanding - principal) { return Err(InvalidAmount); }
      if !Fits(interest * cfg.intFee) { return Err(InvalidAmount); }
      return Done(Lending.Split(interest, principal, TruncDiv(interest * cfg.intFee, BPS)));
    }

    /** The pure health factor, with its unchecked scaling as a trap. */
    function Factor(loan: LoanRecord): Outcome<I128>
      reads this`cfg
    {
      Lending.HealthFactor(loan, cfg.liqThr)
    }

    method Liquidate(signers: set<Address>, liquidator: Address, id: nat, repay: I128) returns (r: Outcome<Reply>)
      modifies this`loans, this`balances, this`log
      ensures Does(old(View()), View(), r, Lending.Liquidate(old(View()), signers, liquidator, id, repay))
    {
      if cfg.admin.None? { return Err(NotInitialized); }
      if Paused(cfg, now) { return Err(ContractPaused); }
      if repay <= 0 { return Err(InvalidAmount); }
      if !Signed(liquidator, signers) { return Trap; }
      if whitelistCount > 0 && liquidator !in whitelist { return Err(LiquidatorNotWhitelisted); }
      if id !in loans { return Err(LoanNotFound); }
      var loan := loans[id];
      if loan.status != Active { return Err(LoanAlreadyClosed); }
      var factor := Factor(loan);
      if !factor.Done? { return factor.PropagateFailure(); }
      if factor.value >= BPS { return Err(HealthFactorSafe); }
      if !Fits(loan.outstanding * cfg.closeFactor) { return Err(InvalidAmount); }
      if repay > TruncDiv(loan.outstanding * cfg.closeFactor, BPS) { return Err(ExceedsCloseFactor); }
      var received := Transfer(balances, liquidator, Contract, repay);
      if !received.Done? { return Trap; }
      if !Fits(loan.outstanding - repay) { return Err(InvalidAmount); }
      loan := loan.(outstanding := loan.outstanding - repay);
      if loan.outstanding == 0 {
        loan := loan.(status := Liquidated);
      }
      loans, balances := loans[id := loan], received.value;
      log := log + [LoanLiquidated(id, liquidator, repay, loan.outstanding, loan.status)];
      return Done(Unit);
    }

    method QueryHealthFactor(id: nat) returns (r: Outcome<Reply>)
      modifies this`loans
      ensures Does(old(View()), View(), r, Lending.QueryHealthFactor(old(View()), id))
    {
      if id !in loans { return Err(LoanNotFound); }
      var loan := loans[id];
      if SaturatingSub(now, feed.lastPriceTime) > cfg.staleThr { return Err(InvalidPrice); }
      if loan.dueLedger.Some? && now > loan.dueLedger.value { return Done(Reply.Factor(0)); }
      var factor := Factor(loan);
      if !factor.Done? { return factor.PropagateFailure(); }
      var history := Roll(Lending.FACTOR_LOG_CAP, loan.hfHistory, factor.value);
      loans := loans[id := loan.(hfHistory := history)];
      return Done(Reply.Factor(factor.value));
    }

    method EmergencyWithdraw(signers: set<Address>, admin: Address, recipient: Address) returns (r: Outcome<Reply>)
      modifies this`balances, this`log
      ensures Does(old(View()), View(), r, Lending.EmergencyWithdraw(old(View()), signers, admin, recipient))
    {
      if cfg.admin.None? { return Err(NotInitialized); }
      if cfg.admin != Some(admin) { return Err(Unauthorized); }
      if !Signed(admin, signers) { return Trap; }
      if !Paused(cfg, now) { return Err(NotPaused); }
      var held := Balance(balances, Contract);
      if held > 0 {
        var sent := Transfer(balances, Contract, recipient, held);
        if !sent.Done? { return Trap; }
        balances := sent.value;
      }
      log := log + [EmergencyWithdrawn(recipient, held)];
      return Done(Unit);
    }
  }

  /** The five-slot array of `submit_oracle_prices`: fill, sort in place, take the middle. */
  method MiddleOf(prices: seq<I128>) returns (median: I128)
    requires 0 < |prices| <= Oracles.MAX_ORACLES && Oracles.Accepted(prices)
    ensures median == Oracles.AcceptedMedian(prices)
  {
    var n := |prices|;
    var slots := new int[Oracles.MAX_ORACLES](_ => 0);
    for i := 0 to n
      invariant slots[..i] == prices[..i]
    {
      slots[i] := prices[i];
    }
    assert slots[..n] == prices;
    Median.SortPrefix(slots, n);
    ghost var sorted := slots[..n];
    assert sorted == Median.SortedOf(prices);
    ghost var middle := Oracles.AcceptedMedian(prices);
    var mid := n / 2;
    if n % 2 == 1 {
      assert slots[mid] == sorted[mid] == middle;
      median := slots[mid];
    } else {
      assert slots[mid - 1] == sorted[mid - 1] && slots[mid] == sorted[mid];
      assert (slots[mid - 1] + slots[mid]) / 2 == middle;
      median := (slots[mid - 1] + slots[mid]) / 2;
    }
  }
}
