/** Runs from deployment that reach the states where the code does not do what is said of it. */
module Traces {
  import opened Numeric
  import opened Wrappers
  import opened Protocol
  import opened Machine
  import Lending
  import Governance
  import Oracles
  import Aggregator
  import Safeguards
  import Sharing

  const ADMIN := Account(1)
  const ORACLE := Account(2)
  const TREASURY := Account(3)
  const LENDER := Account(4)
  const HERDER := Account(5)

  /** A deployed contract at time 1, with one account that owns tokens. */
  function Genesis(): State {
    var cfg := Config(None, None, ADMIN, ADMIN, 0, 0, 0, 0, 0, 0, 0, 0, 0, 0, false, 0,
                      Governance.DEFAULT_PAUSE_DURATION, map[]);
    State(1, cfg, Book(map[], map[], 0, 0), None, Feed(0, 0, 0, 0, 0), Whitelist({}, 0), UpgradeSlot(None, None),
          map[LENDER := 100_000_000], [])
  }

  const OPEN := Tx({ADMIN}, Initialize(ADMIN, ORACLE, TREASURY, 5000, 8000, 1))
  const OPEN_WIDE := Tx({ADMIN}, Initialize(ADMIN, ORACLE, TREASURY, 5000, 20_000, 1))
  const FUND := Tx({LENDER}, MoveTokens(LENDER, Contract, 50_000_000))
  const DROP_ORACLE := Tx({ADMIN}, RemoveOracle(ADMIN, ORACLE))
  const WAIT := Tx({}, Tick(2))
  const SEIZE := Tx({LENDER}, Liquidate(LENDER, 1, 1))
  const HUGE := Tx({ORACLE}, SubmitPrice(ORACLE, I128_MAX))

  function Stock(value: I128): Tx {
    Tx({HERDER}, RegisterLivestock(HERDER, "cattle", 1, value))
  }

  /** Ten million tokens on the listed collateral, due at once. */
  function Borrow(ids: seq<nat>): Tx {
    Tx({HERDER}, RequestLoan(HERDER, ids, 10_000_000, Some(0)))
  }

  function Opened(): State {
    var cfg := Config(Some(ADMIN), None, ORACLE, TREASURY, 5000, 8000, 1, 50, 1000, 5000, 10_000_000, 1_000_000_000_000,
                      3600, 3600, false, 0, Governance.DEFAULT_PAUSE_DURATION, map[]);
    Genesis().(cfg := cfg, feed := Feed(0, 1, 0, 0, 0))
  }

  /** Liquidity and one registered collateral, under a given registry. */
  function Stocked(oracles: Option<seq<Address>>, value: I128): State {
    Opened().(
      oracles := oracles,
      balances := map[LENDER := 50_000_000, Contract := 50_000_000],
      log := [TokensMoved(LENDER, Contract, 50_000_000)],
      book := Book(map[], map[1 := CollateralRecord(HERDER, "cattle", 1, value, 0, [value])], 0, 1))
  }

  /** The loan that the herder gets. */
  function LoanOn(id: nat, ids: seq<nat>, total: I128): LoanRecord {
    LoanRecord(id, HERDER, ids, total, 10_000_000, 10_000_000, 0, 1, Active, Some(1), [])
  }

  lemma RunThen(s: State, txs: seq<Tx>, tx: Tx, all: seq<Tx>)
    requires all == txs + [tx]
    ensures Run(s, all) == Apply(Run(s, txs), tx)
  {
    hide Step;
    RunSplit(s, txs, [tx]);
    assert Run(Run(s, txs), [tx]) == Run(Apply(Run(s, txs), tx), [tx][1..]);
  }

  /** Three calls, a fourth and a fifth. */
  lemma RunsFive(s: State, a: Tx, b: Tx, c: Tx, d: Tx, e: Tx)
    ensures Run(s, [a]) == Apply(s, a)
    ensures Run(s, [a, b, c]) == Apply(Apply(Apply(s, a), b), c)
    ensures Run(s, [a, b, c, d]) == Apply(Run(s, [a, b, c]), d)
    ensures Run(s, [a, b, c, d, e]) == Apply(Run(s, [a, b, c, d]), e)
  {
    hide Step, Apply;
    RunThen(s, [], a, [a]);
    RunThen(s, [a], b, [a, b]);
    RunThen(s, [a, b], c, [a, b, c]);
    RunThen(s, [a, b, c], d, [a, b, c, d]);
    RunThen(s, [a, b, c, d], e, [a, b, c, d, e]);
  }

  lemma GenesisIsDeployed()
    ensures Deployed(Genesis())
  {
  }

  lemma Opens()
    ensures Apply(Genesis(), OPEN) == Opened()
  {
  }

  lemma Stocks(value: I128)
    requires 0 < value
    ensures Apply(Apply(Apply(Genesis(), OPEN), FUND), Stock(value)) == Stocked(None, value)
  {
    Opens();
    var funded := Apply(Opened(), FUND);
    assert funded == Opened().(balances := map[LENDER := 50_000_000, Contract := 50_000_000],
                               log := [TokensMoved(LENDER, Contract, 50_000_000)]);
    assert Apply(funded, Stock(value)) == Stocked(None, value);
  }

  /** What the listed collateral is worth to the contract, and that it approves ten million on it. */
  lemma Priced(collaterals: map<nat, CollateralRecord>, ids: seq<nat>, value: I128, total: I128)
    requires 1 in collaterals && collaterals[1].owner == HERDER && collaterals[1].appraisedValue == value
    requires (ids == [1] && total == value) || (ids == [1, 1] && total == value + value)
    requires 0 < value && 20_000_000 <= total <= 10_000_000_000_000_000_000_000_000_000_000_000
    ensures Lending.Pledge(collaterals, ids, HERDER) == Done(total)
    ensures Lending.Approve(total, 10_000_000, 5000, 50) == Done(Lending.Terms(50_000, 9_950_000))
  {
    var one: seq<nat> := [1];
    assert one[..0] == [] && Lending.Pledge(collaterals, [], HERDER) == Done(0);
    assert Lending.Pledge(collaterals, one, HERDER) == Done(value);
    if ids == [1, 1] {
      assert ids[..1] == one;
    }
  }

  /** A first loan, on collateral listed once or twice. */
  lemma Lends(oracles: Option<seq<Address>>, ids: seq<nat>, value: I128, total: I128)
    requires (ids == [1] && total == value) || (ids == [1, 1] && total == value + value)
    requires 0 < value && 20_000_000 <= total <= 10_000_000_000_000_000_000_000_000_000_000_000
    ensures Step(Stocked(oracles, value), Borrow(ids)).Done?
    ensures var s := Stocked(oracles, value);
      var after := Apply(s, Borrow(ids));
      && after.book.loans == map[1 := LoanOn(1, ids, total)] && after.oracles == oracles
      && after == s.(book := after.book, balances := after.balances, log := after.log)
      && after.balances == map[LENDER := 50_000_000, Contract := 40_000_000, TREASURY := 50_000, HERDER := 9_950_000]
      && after.book.loanCounter == 1
      && after.book.collaterals == map[1 := CollateralRecord(HERDER, "cattle", 1, value, 1, [value])]
  {
    hide Lending.Pledge, Lending.Approve;
    Priced(Stocked(oracles, value).book.collaterals, ids, value, total);
  }

  // -- averages ----------------------------------------------------------------------------

  lemma Observes()
    ensures Step(Opened(), HUGE).Done?
    ensures Apply(Opened(), HUGE) == Opened().(feed := Feed(I128_MAX, 1, I128_MAX, I128_MAX, 1))
    ensures var once := Apply(Opened(), HUGE);
      Step(once, HUGE).Done? && Apply(once, HUGE).feed == Feed(I128_MAX, 1, I128_MAX / 2, I128_MAX, 2)
  {
  }

  /** The average of two observations can be half of the lower one. */
  lemma TwapBelowEveryObservation() returns (deployed: State, txs: seq<Tx>)
    ensures Deployed(deployed)
    ensures Aggregator.Window(Aggregator.Sightings(deployed, txs)) == [I128_MAX, I128_MAX]
    ensures Run(deployed, txs).feed.twapPrice == I128_MAX / 2
    ensures deployed == Genesis() && txs == [OPEN, HUGE, HUGE]
  {
    hide Step, Run, Apply, Aggregator.Window, Aggregator.Sightings, Deployed, Genesis, Opened;
    deployed, txs := Genesis(), [OPEN, HUGE, HUGE];
    GenesisIsDeployed();
    Opens();
    Observes();
    TwoObserved();
    RunsFive(Genesis(), OPEN, HUGE, HUGE, HUGE, HUGE);
  }

  lemma TwoObserved()
    ensures Aggregator.Window(Aggregator.Sightings(Genesis(), [OPEN, HUGE, HUGE])) == [I128_MAX, I128_MAX]
  {
    Observes();
    Opens();
    var es := [Aggregator.Opening(1), Aggregator.Single(1, I128_MAX, 3600), Aggregator.Single(1, I128_MAX, 3600)];
    OpeningSeen();
    assert Aggregator.Seen(Opened(), HUGE) == [es[1]] && Aggregator.Seen(Apply(Opened(), HUGE), HUGE) == [es[2]];
    hide Step, Aggregator.Seen;
    SeesThree(Genesis(), OPEN, HUGE, HUGE);
    assert [es[0]] + [es[1]] + [es[2]] == es;
    WindowOfEqual(I128_MAX, 2);
    assert [Aggregator.Opening(1)] + Equal(I128_MAX, 2) == es;
    assert Repeated(I128_MAX, 2) == [I128_MAX, I128_MAX];
  }

  lemma OpeningSeen()
    ensures Aggregator.Seen(Genesis(), OPEN) == [Aggregator.Opening(1)]
  {
  }

  /** What three calls show. */
  lemma SeesThree(s: State, a: Tx, b: Tx, c: Tx)
    ensures Aggregator.Sightings(s, [a, b, c])
            == Aggregator.Seen(s, a) + Aggregator.Seen(Apply(s, a), b) + Aggregator.Seen(Apply(Apply(s, a), b), c)
  {
    hide Step, Apply, Aggregator.Seen;
    assert [a, b, c][1..] == [b, c] && [b, c][1..] == [c] && [c][1..] == [];
    var t, u := Apply(s, a), Apply(Apply(s, a), b);
    assert Aggregator.Sightings(u, [c]) == Aggregator.Seen(u, c) + Aggregator.Sightings(Apply(u, c), []);
    assert Aggregator.Sightings(t, [b, c]) == Aggregator.Seen(t, b) + Aggregator.Sightings(u, [c]);
    assert Aggregator.Sightings(s, [a, b, c]) == Aggregator.Seen(s, a) + Aggregator.Sightings(t, [b, c]);
  }

  // -- equal quotes ------------------------------------------------------------------------

  function Quote(price: I128): Tx {
    Tx({ORACLE}, SubmitPrice(ORACLE, price))
  }

  /** n submissions of one price. */
  function Quotes(price: I128, n: nat): seq<Tx> {
    if n == 0 then [] else [Quote(price)] + Quotes(price, n - 1)
  }

  function Repeated(price: int, n: nat): (w: seq<int>)
    ensures |w| == n && forall k :: 0 <= k < n ==> w[k] == price
  {
    if n == 0 then [] else [price] + Repeated(price, n - 1)
  }

  /** Open, at time 1, with the clock of the feed running. */
  predicate Steady(s: State) {
    s.cfg == Opened().cfg && s.now == 1 && s.feed.lastPriceTime == 1
  }

  /** n sightings of one price at time 1. */
  function Equal(price: int, n: nat): seq<Aggregator.Sighting> {
    seq(n, _ => Aggregator.Single(1, price, 3600))
  }

  lemma {:induction false} WindowOfEqual(price: int, n: nat)
    ensures Aggregator.Window([Aggregator.Opening(1)] + Equal(price, n)) == Repeated(price, n)
  {
    var opening := [Aggregator.Opening(1)];
    if n > 0 {
      var e, es := Aggregator.Single(1, price, 3600), opening + Equal(price, n - 1);
      WindowOfEqual(price, n - 1);
      Aggregator.WindowExtends(es, e);
      assert es + [e] == opening + Equal(price, n);
      assert Repeated(price, n - 1) + [price] == Repeated(price, n);
    } else {
      Aggregator.WindowExtends([], Aggregator.Opening(1));
      assert [] + opening == opening && opening + Equal(price, 0) == opening;
    }
  }

  lemma QuoteObserved(s: State, price: I128)
    requires Steady(s) && 0 < price
    ensures Steady(Apply(s, Quote(price)))
    ensures Aggregator.Seen(s, Quote(price)) == [Aggregator.Single(1, price, 3600)]
  {
  }

  lemma {:induction false} QuotesObserved(s: State, price: I128, n: nat)
    requires Steady(s) && 0 < price
    ensures Aggregator.Sightings(s, Quotes(price, n)) == Equal(price, n)
    decreases n
  {
    hide Step, Steady, Aggregator.Seen;
    if n > 0 {
      var txs := Quotes(price, n);
      QuoteObserved(s, price);
      assert txs[0] == Quote(price) && txs[1..] == Quotes(price, n - 1);
      QuotesObserved(Apply(s, Quote(price)), price, n - 1);
      assert [Aggregator.Single(1, price, 3600)] + Equal(price, n - 1) == Equal(price, n);
    }
  }

  /**
   * After `initialize` and n submissions of one price, for any n and any price, the average is the
   * capped sum over the capped count. It exceeds the only price there is exactly when the capped sum
   * reaches one more than the price for each counted observation, as for price 1 and n = 2^33 - 2.
   */
  lemma AverageOfEqualQuotes(price: I128, n: nat) returns (deployed: State, txs: seq<Tx>)
    requires 0 < price && 0 < n
    ensures Deployed(deployed) && deployed == Genesis() && txs == [OPEN] + Quotes(price, n)
    ensures Aggregator.Window(Aggregator.Sightings(deployed, txs)) == Repeated(price, n)
    ensures Run(deployed, txs).feed.twapPrice == Min(price * n, I128_MAX) / Min(n, U32_MAX)
    ensures price < Run(deployed, txs).feed.twapPrice
            <==> (price + 1) * Min(n, U32_MAX) <= Min(price * n, I128_MAX)
  {
    hide Step, Run, Quotes, Repeated, Genesis, Deployed, Aggregator.Window, Aggregator.Sightings;
    deployed, txs := Genesis(), [OPEN] + Quotes(price, n);
    GenesisIsDeployed();
    OpenThenQuotes(Genesis(), price, n);
    Aggregator.TwapRefinesWindow(deployed, txs);
    Aggregator.SumBounds(Repeated(price, n), price, price);
    FloorBelow(Min(price * n, I128_MAX), Min(n, U32_MAX), price + 1);
  }

  lemma OpenThenQuotes(s: State, price: I128, n: nat)
    requires s == Genesis() && 0 < price
    ensures Aggregator.Window(Aggregator.Sightings(s, [OPEN] + Quotes(price, n))) == Repeated(price, n)
  {
    Opens();
    OpeningSeen();
    QuotesObserved(Opened(), price, n);
    WindowOfEqual(price, n);
    hide Step, Quotes, Repeated, Genesis, Opened, Equal, Aggregator.Seen, Aggregator.Window;
    var txs := [OPEN] + Quotes(price, n);
    assert txs[0] == OPEN && txs[1..] == Quotes(price, n);
  }

  // -- a gap -------------------------------------------------------------------------------

  const LATER := Tx({}, Tick(10_000))

  /** A gap longer than the window starts the average over: the second price stands alone. */
  lemma GapStartsOver() returns (deployed: State, txs: seq<Tx>)
    ensures Deployed(deployed)
    ensures Run(deployed, txs).feed == Feed(300, 10_000, 300, 300, 1)
    ensures deployed == Genesis() && txs == [OPEN, Quote(100), LATER, Quote(300)]
  {
    hide Run, Deployed, Genesis;
    deployed, txs := Genesis(), [OPEN, Quote(100), LATER, Quote(300)];
    GenesisIsDeployed();
    Opens();
    TwoQuotesApart();
    hide Step, Apply, Opened, Quote;
    RunsFive(Genesis(), OPEN, Quote(100), LATER, Quote(300), WAIT);
  }

  lemma TwoQuotesApart()
    ensures Apply(Apply(Apply(Opened(), Quote(100)), LATER), Quote(300)).feed == Feed(300, 10_000, 300, 300, 1)
  {
    var once := Apply(Opened(), Quote(100));
    assert once == Opened().(feed := Feed(100, 1, 100, 100, 1));
    assert Apply(once, LATER) == once.(now := 10_000);
  }

  // -- deadlines, limits and overflow ------------------------------------------------------

  lemma SafeWhenLate(lent: State)
    requires lent.book.loans == map[1 := LoanOn(1, [1], 100_000_000)] && Balance(lent.balances, LENDER) == 50_000_000
    requires lent == Stocked(None, 100_000_000).(book := lent.book, balances := lent.balances, log := lent.log)
    ensures Apply(lent, WAIT) == lent.(now := 2)
    ensures Lending.QueryHealthFactor(lent.(now := 2), 1) == Done(Commit(lent.(now := 2), Factor(0)))
    ensures Step(lent.(now := 2), SEIZE) == Err(HealthFactorSafe)
  {
    assert Lending.HealthFactor(LoanOn(1, [1], 100_000_000), 8000) == Done(80_000);
  }

  /** A loan past its deadline, with a health factor of 0, that a signed liquidation is refused on as safe. */
  lemma PastDueYetSafe() returns (deployed: State, txs: seq<Tx>)
    ensures Deployed(deployed)
    ensures var late, loan := Run(deployed, txs), LoanOn(1, [1], 100_000_000);
      && late.book.loans == map[1 := loan] && Lending.PastDue(loan, late.now)
      && Lending.QueryHealthFactor(late, 1) == Done(Commit(late, Factor(0)))
      && Step(late, SEIZE) == Err(HealthFactorSafe)
    ensures deployed == Genesis() && txs == [OPEN, FUND, Stock(100_000_000), Borrow([1]), WAIT]
  {
    hide Step, Run, Apply, Stocked, Opened, Genesis, Deployed, Borrow, Stock, Lending.QueryHealthFactor;
    deployed, txs := Genesis(), [OPEN, FUND, Stock(100_000_000), Borrow([1]), WAIT];
    GenesisIsDeployed();
    Stocks(100_000_000);
    Lends(None, [1], 100_000_000, 100_000_000);
    SafeWhenLate(Apply(Stocked(None, 100_000_000), Borrow([1])));
    RunsFive(Genesis(), OPEN, FUND, Stock(100_000_000), Borrow([1]), WAIT);
  }

  /** One call from deployment leaves the interest fee above 500 bps and the threshold above 10 000. */
  lemma LimitsPassed() returns (deployed: State, txs: seq<Tx>)
    ensures Deployed(deployed)
    ensures Run(deployed, txs).cfg.intFee == 1000 && Run(deployed, txs).cfg.liqThr == 20_000
    ensures deployed == Genesis() && txs == [OPEN_WIDE]
  {
    deployed, txs := Genesis(), [OPEN_WIDE];
    GenesisIsDeployed();
    OpensWide();
    hide Step, Run, Apply, Genesis, Deployed;
    RunsFive(Genesis(), OPEN_WIDE, WAIT, WAIT, WAIT, WAIT);
  }

  lemma OpensWide()
    ensures Apply(Genesis(), OPEN_WIDE).cfg.intFee == 1000 && Apply(Genesis(), OPEN_WIDE).cfg.liqThr == 20_000
  {
  }

  const FORTUNE: I128 := 10_000_000_000_000_000_000_000_000_000_000_000

  lemma TrapsOnFortune(lent: State)
    requires lent.book.loans == map[1 := LoanOn(1, [1], FORTUNE)]
    requires lent == Stocked(None, FORTUNE).(book := lent.book, balances := lent.balances, log := lent.log)
    ensures Lending.QueryHealthFactor(lent, 1) == Trap && Step(lent, SEIZE) == Trap
  {
    assert Lending.HealthFactor(LoanOn(1, [1], FORTUNE), 8000) == Trap;
  }

  /** A loan so well backed that its health factor overflows: query and liquidation trap. */
  lemma HealthyLoanTraps() returns (deployed: State, txs: seq<Tx>)
    ensures Deployed(deployed)
    ensures var end := Run(deployed, txs);
      && end.book.loans == map[1 := LoanOn(1, [1], FORTUNE)]
      && BPS * 10_000_000 <= FORTUNE * end.cfg.liqThr
      && Lending.QueryHealthFactor(end, 1) == Trap && Step(end, SEIZE) == Trap
    ensures deployed == Genesis() && txs == [OPEN, FUND, Stock(FORTUNE), Borrow([1])]
  {
    deployed, txs := Genesis(), [OPEN, FUND, Stock(FORTUNE), Borrow([1])];
    assert Stocked(None, FORTUNE).cfg.liqThr == 8000;
    hide Step, Run, Apply, Stocked, Opened, Genesis, Deployed, Borrow, Stock, Lending.QueryHealthFactor;
    GenesisIsDeployed();
    Stocks(FORTUNE);
    Lends(None, [1], FORTUNE, FORTUNE);
    TrapsOnFortune(Apply(Stocked(None, FORTUNE), Borrow([1])));
    RunsFive(Genesis(), OPEN, FUND, Stock(FORTUNE), Borrow([1]), WAIT);
  }

  // -- oracles and collateral --------------------------------------------------------------

  lemma Drops()
    ensures Apply(Stocked(None, 100_000_000), DROP_ORACLE) == Stocked(Some([]), 100_000_000)
  {
    var list := [ORACLE];
    assert Oracles.Registered(Stocked(None, 100_000_000)) == list && Oracles.FirstIndex(list, ORACLE) == 0;
    assert Without(list, 0) == [];
  }

  /** The only oracle is removed while no loan is active; a loan is then granted all the same. */
  lemma ActiveLoanWithoutOracle() returns (deployed: State, txs: seq<Tx>)
    ensures Deployed(deployed)
    ensures var end := Run(deployed, txs);
      && end.book.loans == map[1 := LoanOn(1, [1], 100_000_000)]
      && Oracles.Registered(end) == [] && !Safeguards.OracleBacked(end)
    ensures deployed == Genesis() && txs == [OPEN, FUND, Stock(100_000_000), DROP_ORACLE, Borrow([1])]
  {
    hide Step, Run, Apply, Stocked, Opened, Genesis, Deployed, Borrow, Stock;
    deployed, txs := Genesis(), [OPEN, FUND, Stock(100_000_000), DROP_ORACLE, Borrow([1])];
    GenesisIsDeployed();
    Stocks(100_000_000);
    Drops();
    Lends(Some([]), [1], 100_000_000, 100_000_000);
    var end := Apply(Apply(Stocked(None, 100_000_000), DROP_ORACLE), Borrow([1]));
    assert 1 in end.book.loans && end.book.loans[1].status == Active;
    RunsFive(Genesis(), OPEN, FUND, Stock(100_000_000), DROP_ORACLE, Borrow([1]));
  }

  lemma LendsAgain(lent: State)
    requires lent == Stocked(None, 100_000_000).(book := lent.book, balances := lent.balances, log := lent.log)
    requires lent.balances == map[LENDER := 50_000_000, Contract := 40_000_000, TREASURY := 50_000, HERDER := 9_950_000]
    requires lent.book.loans == map[1 := LoanOn(1, [1], 100_000_000)] && lent.book.loanCounter == 1
    requires lent.book.collaterals
             == map[1 := CollateralRecord(HERDER, "cattle", 1, 100_000_000, 1, [100_000_000])]
    ensures Apply(lent, Borrow([1])).book.loans
            == map[1 := LoanOn(1, [1], 100_000_000), 2 := LoanOn(2, [1], 100_000_000)]
  {
    Priced(lent.book.collaterals, [1], 100_000_000, 100_000_000);
  }

  /** The same request twice: two active loans on one collateral. */
  lemma CollateralBacksTwoLoans() returns (deployed: State, txs: seq<Tx>)
    ensures Deployed(deployed)
    ensures var end := Run(deployed, txs).book;
      && end.loans == map[1 := LoanOn(1, [1], 100_000_000), 2 := LoanOn(2, [1], 100_000_000)]
      && !Sharing.Unshared(end)
    ensures deployed == Genesis() && txs == [OPEN, FUND, Stock(100_000_000), Borrow([1]), Borrow([1])]
  {
    hide Step, Run, Apply, Stocked, Opened, Genesis, Deployed, Borrow, Stock;
    deployed, txs := Genesis(), [OPEN, FUND, Stock(100_000_000), Borrow([1]), Borrow([1])];
    GenesisIsDeployed();
    Stocks(100_000_000);
    Lends(None, [1], 100_000_000, 100_000_000);
    LendsAgain(Apply(Stocked(None, 100_000_000), Borrow([1])));
    RunsFive(Genesis(), OPEN, FUND, Stock(100_000_000), Borrow([1]), Borrow([1]));
    var end := Run(deployed, txs).book;
    assert Sharing.Backs(end, 1, 1) && Sharing.Backs(end, 1, 2);
  }

  /** Collateral listed twice counts twice: the loan exceeds the ratio of what backs it. */
  lemma RepeatedCollateralOverborrows() returns (deployed: State, txs: seq<Tx>)
    ensures Deployed(deployed)
    ensures var end := Run(deployed, txs);
      && end.book.loans == map[1 := LoanOn(1, [1, 1], 30_000_000)]
      && 1 in end.book.collaterals && end.book.collaterals[1].appraisedValue == 15_000_000
      && end.cfg.ltv * Sharing.Once(end.book.collaterals, [1, 1]) < 10_000_000 * BPS
    ensures deployed == Genesis() && txs == [OPEN, FUND, Stock(15_000_000), Borrow([1, 1])]
  {
    deployed, txs := Genesis(), [OPEN, FUND, Stock(15_000_000), Borrow([1, 1])];
    assert Stocked(None, 15_000_000).cfg.ltv == 5000;
    hide Step, Run, Apply, Stocked, Opened, Genesis, Deployed, Borrow, Stock;
    GenesisIsDeployed();
    Stocks(15_000_000);
    Lends(None, [1, 1], 15_000_000, 30_000_000);
    RunsFive(Genesis(), OPEN, FUND, Stock(15_000_000), Borrow([1, 1]), WAIT);
    CountedOnce(Run(deployed, txs).book.collaterals);
  }

  lemma CountedOnce(collaterals: map<nat, CollateralRecord>)
    requires 1 in collaterals
    ensures Sharing.Once(collaterals, [1, 1]) == collaterals[1].appraisedValue
  {
    var two: seq<nat> := [1, 1];
    assert two[..1] == [1] && two[..1][..0] == [];
    assert Sharing.Once(collaterals, []) == 0;
    assert Sharing.Once(collaterals, two[..1]) == collaterals[1].appraisedValue;
  }
}
