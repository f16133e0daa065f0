/** The oracle registry, the multi-oracle median and the running average of single observations. */
module Oracles {
  import opened Numeric
  import opened Wrappers
  import opened Protocol
  import Median

  const MAX_ORACLES: nat := 5
  const MAX_PRICE: int := 1_000_000_000_000_000_000

  /** The stored list, or the single configured oracle while no list was ever stored. */
  function Registered(s: State): seq<Address> {
    if s.oracles.Some? then s.oracles.value
    else if Initialized(s) then [s.cfg.oracle]
    else []
  }

  function AddOracle(s: State, signers: set<Address>, admin: Address, oracle: Address): Outcome<Commit> {
    if !Initialized(s) then Err(NotInitialized) else
    :- Need(!Paused(s.cfg, s.now), ContractPaused);
    :- AdminOnly(s, admin, signers);
    :- Need(oracle !in Registered(s), OracleAlreadyRegistered);
    :- Need(|Registered(s)| < MAX_ORACLES, OracleLimitReached);
    Done(Commit(s.(oracles := Some(Registered(s) + [oracle])), Unit))
  }

  /** The loan scan of `remove_oracle`: ids from 1 to the counter. */
  predicate AnyActive(book: Book) {
    exists id: nat | 1 <= id <= book.loanCounter :: id in book.loans && book.loans[id].status == Active
  }

  function FirstIndex<T(==)>(xs: seq<T>, x: T): (i: nat)
    requires x in xs
    ensures i < |xs| && xs[i] == x && x !in xs[..i]
  {
    if xs[0] == x then 0 else 1 + FirstIndex(xs[1..], x)
  }

  function RemoveOracle(s: State, signers: set<Address>, admin: Address, oracle: Address): Outcome<Commit> {
    var admitted := AdminOnly(s, admin, signers);
    :- admitted;
    :- Need(oracle in Registered(s), OracleNotFound);
    :- Need(|Registered(s)| == 1 ==> !AnyActive(s.book), OracleRequired);
    Done(Commit(s.(oracles := Some(Without(Registered(s), FirstIndex(Registered(s), oracle)))), Unit))
  }

  // -- submit_oracle_prices ----------------------------------------------------------------

  predicate Accepted(prices: seq<int>) {
    forall k :: 0 <= k < |prices| ==> 0 < prices[k] < MAX_PRICE
  }

  /** A price more than half the median away from the median is flagged. */
  predicate Deviates(price: int, median: int) {
    0 < median && median * 50 < (if price > median then price - median else median - price) * 100
  }

  function Flagged(prices: seq<int>, median: int): (n: nat)
    ensures n <= |prices|
  {
    if |prices| == 0 then 0
    else Flagged(prices[..|prices| - 1], median) + if Deviates(prices[|prices| - 1], median) then 1 else 0
  }

  function AcceptedMedian(prices: seq<int>): (m: I128)
    requires |prices| > 0 && Accepted(prices)
    ensures 0 < m < MAX_PRICE
  {
    Median.MedianInRange(prices, 1, MAX_PRICE - 1);
    Median.MedianOf(prices)
  }

  /** Five slots hold the prices: a sixth, or none at all, traps on an array index. */
  function SubmitOraclePrices(s: State, signers: set<Address>, submitter: Address, prices: seq<I128>): Outcome<Commit> {
    if !Initialized(s) then Err(NotInitialized) else
    :- OrTrap(Signed(submitter, signers));
    :- Need(|prices| == |Registered(s)|, InvalidPrice);
    :- Need(Accepted(prices), InvalidPrice);
    :- Need(s.cfg.minQuorum <= |prices|, InsufficientOracleQuorum);
    :- OrTrap(0 < |prices| <= MAX_ORACLES);
    var median := AcceptedMedian(prices);
    var feed := s.feed.(lastPrice := median, lastPriceTime := s.now);
    Done(Commit(s.(feed := feed), Report(median, |prices|, Flagged(prices, median))))
  }

  // -- submit_price ------------------------------------------------------------------------

  /** The average starts over after a gap longer than the window, or when no price was ever timed. */
  predicate StartsOver(feed: Feed, window: U64, now: U64) {
    feed.lastPriceTime == 0 || SaturatingSub(now, feed.lastPriceTime) > window
  }

  function Averaged(feed: Feed, window: U64, now: U64, price: I128): Feed
    requires 0 < price
  {
    var restart := StartsOver(feed, window, now);
    var sum: I128 := if restart then price else if Fits(feed.twapSum + price) then feed.twapSum + price else I128_MAX;
    var count: U32 := if restart then 1 else Min(feed.twapCount + 1, U32_MAX);
    Feed(price, now, TruncDiv(sum, count), sum, count)
  }

  function SubmitPrice(s: State, signers: set<Address>, oracle: Address, price: I128): Outcome<Commit> {
    if !Initialized(s) then Err(NotInitialized) else
    :- OrTrap(Signed(oracle, signers));
    :- Need(oracle == s.cfg.oracle, Unauthorized);
    :- Need(0 < price, InvalidPrice);
    Done(Commit(s.(feed := Averaged(s.feed, s.cfg.twapWindow, s.now, price)), Unit))
  }
}
