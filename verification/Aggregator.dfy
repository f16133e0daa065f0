/** What the two price entry points report and store, against the submitted prices and their times. */
module Aggregator {
  import opened Numeric
  import opened Wrappers
  import opened Protocol
  import opened Machine
  import opened Invariant
  import opened Frames
  import Oracles
  import Median

  // -- submit_oracle_prices ----------------------------------------------------------------

  function Abs(x: int): nat {
    if x < 0 then -x else x
  }

  /** The positions whose price lies in a range. */
  ghost function Within(prices: seq<int>, lo: int, hi: int): set<nat> {
    set k: nat | k < |prices| && lo <= prices[k] <= hi
  }

  /** The positions whose price is more than half the median away from it. */
  ghost function FarFrom(prices: seq<int>, median: int): set<nat> {
    set k: nat | k < |prices| && 2 * Abs(prices[k] - median) > median
  }

  /** The middle of sorted values: the middle one, or the mean of the two middle ones rounded down. */
  function MiddleOfSorted(xs: seq<int>): int
    requires |xs| > 0
  {
    var n := |xs|;
    if n % 2 == 1 then xs[n / 2] else (xs[n / 2 - 1] + xs[n / 2]) / 2
  }

  /**
   * When a submission of several prices is accepted: signed, one price for each registered oracle, at
   * least one and at most five, each positive and below 10^18, and no fewer than the quorum.
   */
  lemma SubmitsExactly(s: State, tx: Tx)
    requires tx.call.SubmitOraclePrices?
    ensures var prices := tx.call.prices;
      Step(s, tx).Done? <==>
      && Initialized(s) && Signed(tx.call.submitter, tx.signers)
      && 1 <= |prices| <= 5 && s.cfg.minQuorum <= |prices| == |Oracles.Registered(s)|
      && forall k :: 0 <= k < |prices| ==> 0 < prices[k] < 1_000_000_000_000_000_000
  {
    hide Oracles.Registered, Oracles.AcceptedMedian, Oracles.Flagged;
  }

  lemma SubmissionParts(s: State, tx: Tx)
    requires tx.call.SubmitOraclePrices? && Step(s, tx).Done?
    ensures |tx.call.prices| > 0 && Oracles.Accepted(tx.call.prices)
    ensures var median := Median.MedianOf(tx.call.prices);
      && Fits(median) && Fits(|tx.call.prices|) && |tx.call.prices| <= 5
      && Step(s, tx) == Done(Commit(s.(feed := s.feed.(lastPrice := median, lastPriceTime := s.now)),
                                    Report(median, |tx.call.prices|, Oracles.Flagged(tx.call.prices, median))))
  {
    hide Oracles.Registered, Median.MedianOf, Oracles.Flagged;
  }

  lemma FarExtends(prices: seq<int>, median: int)
    requires |prices| > 0
    ensures var n := |prices| - 1;
      |FarFrom(prices, median)|
      == |FarFrom(prices[..n], median)| + if 2 * Abs(prices[n] - median) > median then 1 else 0
  {
    var n := |prices| - 1;
    assert FarFrom(prices, median)
      == FarFrom(prices[..n], median) + if 2 * Abs(prices[n] - median) > median then {n} else {};
  }

  lemma {:induction false} FlaggedAreFar(prices: seq<int>, median: int)
    requires 0 < median
    ensures Oracles.Flagged(prices, median) == |FarFrom(prices, median)|
  {
    if |prices| > 0 {
      var n := |prices| - 1;
      FlaggedAreFar(prices[..n], median);
      FarExtends(prices, median);
    } else {
      assert FarFrom(prices, median) == {};
    }
  }

  /**
   * What a submission reports and stores: the middle of the prices in sorted order, whichever sorted
   * arrangement `xs` of them one takes, how many there were, and how many are more than half of it
   * away; only price and time of the feed change.
   */
  lemma MedianReported(s: State, tx: Tx, xs: seq<int>)
    requires tx.call.SubmitOraclePrices? && Step(s, tx).Done?
    requires var prices: seq<int> := tx.call.prices; Median.Sorted(xs) && multiset(xs) == multiset(prices)
    ensures var prices: seq<int> := tx.call.prices;
      |xs| == |prices| && |xs| > 0
      && var median := MiddleOfSorted(xs);
         && Fits(median) && |prices| <= 5 && |FarFrom(prices, median)| <= |prices|
         && Step(s, tx).value.reply == Report(median, |prices|, |FarFrom(prices, median)|)
         && Apply(s, tx) == s.(feed := s.feed.(lastPrice := median, lastPriceTime := s.now))
  {
    var prices: seq<int> := tx.call.prices;
    assert |multiset(xs)| == |multiset(prices)|;
    SubmissionParts(s, tx);
    Median.SortedPermutation(xs, prices);
    var median := MiddleOfSorted(xs);
    assert median == Median.MedianOf(prices);
    Median.MedianInRange(prices, 1, 1_000_000_000_000_000_000 - 1);
    FlaggedAreFar(prices, median);
  }

  lemma {:induction false} CountIsWithin(xs: seq<int>, lo: int, hi: int)
    ensures Median.CountIn(xs, lo, hi) == |Within(xs, lo, hi)|
  {
    if |xs| > 0 {
      var n := |xs| - 1;
      CountIsWithin(xs[..n], lo, hi);
      Median.CountSplit(xs[..n], [xs[n]], lo, hi);
      assert xs[..n] + [xs[n]] == xs;
      assert Within(xs, lo, hi) == Within(xs[..n], lo, hi) + if lo <= xs[n] <= hi then {n} else {};
    } else {
      assert Within(xs, lo, hi) == {};
    }
  }

  /** If more than half of the submitted prices lie in a range, the reported and stored median does. */
  lemma MajorityBoundsReport(s: State, tx: Tx, lo: int, hi: int)
    requires tx.call.SubmitOraclePrices? && Step(s, tx).Done?
    requires 2 * |Within(tx.call.prices, lo, hi)| > |tx.call.prices|
    ensures Step(s, tx).value.reply.Report? && lo <= Step(s, tx).value.reply.median <= hi
    ensures lo <= Apply(s, tx).feed.lastPrice <= hi
  {
    SubmissionParts(s, tx);
    CountIsWithin(tx.call.prices, lo, hi);
    Median.MajorityBoundsMedian(tx.call.prices, lo, hi);
  }

  /** The same prices in another order are accepted alike, with the same report and the same state. */
  lemma ReportIgnoresOrder(s: State, tx: Tx, other: Tx)
    requires tx.call.SubmitOraclePrices? && other.call.SubmitOraclePrices? && Step(s, tx).Done?
    requires other.signers == tx.signers && other.call.submitter == tx.call.submitter
    requires multiset(tx.call.prices) == multiset(other.call.prices)
    ensures Step(s, other) == Step(s, tx)
  {
    var p: seq<int>, q: seq<int> := tx.call.prices, other.call.prices;
    assert |multiset(tx.call.prices)| == |multiset(other.call.prices)|;
    SubmitsExactly(s, tx);
    SubmitsExactly(s, other);
    forall k | 0 <= k < |q| ensures 0 < q[k] < 1_000_000_000_000_000_000 {
      assert other.call.prices[k] in multiset(tx.call.prices);
      assert other.call.prices[k] in tx.call.prices;
    }
    SubmissionParts(s, tx);
    SubmissionParts(s, other);
    hide Step;
    SameMultiset(tx.call.prices, other.call.prices);
    Median.MedianIgnoresOrder(p, q);
    var median := Median.MedianOf(p);
    Median.MedianInRange(p, 1, 1_000_000_000_000_000_000 - 1);
    FlaggedIgnoresOrder(p, q, median);
  }

  lemma {:induction false} SameMultiset(p: seq<I128>, q: seq<I128>)
    requires multiset(p) == multiset(q)
    ensures var a: seq<int>, b: seq<int> := p, q; multiset(a) == multiset(b)
  {
  }

  /** Far from the median means outside the range from half of it to one and a half times it. */
  lemma {:induction false} FarIsOutside(prices: seq<int>, median: int)
    requires 0 < median
    ensures |FarFrom(prices, median)| + Median.CountIn(prices, median - median / 2, median + median / 2) == |prices|
  {
    if |prices| > 0 {
      var n, lo, hi := |prices| - 1, median - median / 2, median + median / 2;
      FarIsOutside(prices[..n], median);
      FarExtends(prices, median);
      hide FarFrom;
      assert prices[..n] + [prices[n]] == prices;
      Median.CountSplit(prices[..n], [prices[n]], lo, hi);
    } else {
      assert FarFrom(prices, median) == {};
    }
  }

  lemma CountIgnoresOrder(p: seq<int>, q: seq<int>, lo: int, hi: int)
    requires multiset(p) == multiset(q)
    ensures Median.CountIn(p, lo, hi) == Median.CountIn(q, lo, hi)
  {
    Median.SortedOfSorts(q);
    Median.SortedPermutation(Median.SortedOf(q), p);
    Median.CountSorted(p, lo, hi);
    Median.CountSorted(q, lo, hi);
  }

  lemma FlaggedIgnoresOrder(p: seq<int>, q: seq<int>, median: int)
    requires multiset(p) == multiset(q) && 0 < median
    ensures Oracles.Flagged(p, median) == Oracles.Flagged(q, median)
  {
    assert |multiset(p)| == |multiset(q)|;
    hide Oracles.Flagged, Median.CountIn, FarFrom;
    FlaggedAreFar(p, median);
    FlaggedAreFar(q, median);
    FarIsOutside(p, median);
    FarIsOutside(q, median);
    CountIgnoresOrder(p, q, median - median / 2, median + median / 2);
  }

  // -- the running average -----------------------------------------------------------------

  function SumOf(xs: seq<int>): int {
    if |xs| == 0 then 0 else SumOf(xs[..|xs| - 1]) + xs[|xs| - 1]
  }

  /** Stored sum and count are those of the window, capped by their types, and the average is their quotient. */
  ghost predicate Averages(feed: Feed, w: seq<int>) {
    && (forall k :: 0 <= k < |w| ==> 0 < w[k] <= I128_MAX)
    && feed.twapSum == Min(SumOf(w), I128_MAX)
    && feed.twapCount == Min(|w|, U32_MAX)
    && (|w| == 0 ==> feed.twapPrice == 0)
    && (|w| > 0 ==> feed.twapCount > 0 && feed.twapPrice == feed.twapSum / feed.twapCount)
  }

  lemma {:induction false} SumPositive(w: seq<int>)
    requires forall k :: 0 <= k < |w| ==> 0 < w[k]
    ensures |w| <= SumOf(w)
  {
    if |w| > 0 { SumPositive(w[..|w| - 1]); }
  }

  lemma SumAppended(w: seq<int>, x: int)
    ensures SumOf(w + [x]) == SumOf(w) + x
  {
    assert (w + [x])[..|w|] == w;
  }

  // -- what was seen, with its own times ---------------------------------------------------

  /** An accepted initialisation or submission, the time it came, and the window length then in force. */
  datatype Sighting =
    | Opening(at: U64)
    | Single(at: U64, price: int, window: U64)
    | Several(at: U64, price: int)

  ghost function Seen(s: State, tx: Tx): seq<Sighting> {
    if !Step(s, tx).Done? then []
    else if tx.call.Initialize? then [Opening(s.now)]
    else if tx.call.SubmitPrice? then [Single(s.now, tx.call.price, s.cfg.twapWindow)]
    else if tx.call.SubmitOraclePrices? && |tx.call.prices| > 0 then [Several(s.now, Median.MedianOf(tx.call.prices))]
    else []
  }

  ghost function Sightings(s: State, txs: seq<Tx>): seq<Sighting>
    decreases |txs|
  {
    if |txs| == 0 then [] else Seen(s, txs[0]) + Sightings(Apply(s, txs[0]), txs[1..])
  }

  function LastTime(es: seq<Sighting>): nat {
    if |es| == 0 then 0 else es[|es| - 1].at
  }

  function LastPrice(es: seq<Sighting>): int {
    if |es| == 0 || es[|es| - 1].Opening? then 0 else es[|es| - 1].price
  }

  /**
   * A window begins at an initialisation, and at a single price whose gap to the sighting before it
   * exceeds the window length, or that has none before it, or one at time 0.
   */
  predicate BeginsAt(es: seq<Sighting>, k: nat)
    requires k < |es|
  {
    es[k].Opening?
    || (es[k].Single? && (k == 0 || es[k - 1].at == 0 || es[k - 1].at + es[k].window < es[k].at))
  }

  /** Where the last window begins. */
  function Begin(es: seq<Sighting>): (b: nat)
    ensures b <= |es| && (0 < b ==> b < |es| && BeginsAt(es, b))
    ensures forall k :: b < k < |es| ==> !BeginsAt(es, k)
  {
    if |es| == 0 then 0
    else
      var n := |es| - 1;
      if BeginsAt(es, n) then n
      else
        var b := Begin(es[..n]);
        assert forall k :: 0 <= k < n ==> (BeginsAt(es[..n], k) <==> BeginsAt(es, k));
        b
  }

  /** The single prices among some sightings, in order. */
  function Singles(es: seq<Sighting>): seq<int> {
    if |es| == 0 then []
    else
      var last := es[|es| - 1];
      Singles(es[..|es| - 1]) + if last.Single? then [last.price] else []
  }

  /** The observations that the average is over. */
  function Window(es: seq<Sighting>): seq<int> {
    Singles(es[Begin(es)..])
  }

  lemma WindowExtends(es: seq<Sighting>, e: Sighting)
    ensures var all := es + [e];
      Window(all) == (if BeginsAt(all, |es|) then [] else Window(es)) + if e.Single? then [e.price] else []
  {
    var all := es + [e];
    assert all[..|es|] == es;
    if BeginsAt(all, |es|) {
      assert all[|es|..] == [e] && [e][..0] == [];
      assert Singles([]) == [];
    } else {
      var b := Begin(es);
      assert Begin(all) == b;
      assert all[b..] == es[b..] + [e] && (es[b..] + [e])[..|es| - b] == es[b..];
    }
  }

  /** The stored feed is the last sighting and the average of the last window. */
  ghost predicate FeedMatches(feed: Feed, es: seq<Sighting>) {
    feed.lastPriceTime == LastTime(es) && feed.lastPrice == LastPrice(es) && Averages(feed, Window(es))
  }

  /** When a single price is accepted: from the configured oracle, signed, and positive. */
  lemma QuotesExactly(s: State, tx: Tx)
    requires tx.call.SubmitPrice?
    ensures Step(s, tx).Done? <==>
            Initialized(s) && tx.call.oracle == s.cfg.oracle && Signed(tx.call.oracle, tx.signers) && 0 < tx.call.price
    ensures Step(s, tx).Done? ==> Step(s, tx).value.reply == Unit
  {
  }

  lemma SingleSeen(s: State, tx: Tx, es: seq<Sighting>)
    requires tx.call.SubmitPrice? && Step(s, tx).Done? && FeedMatches(s.feed, es)
    ensures FeedMatches(Apply(s, tx).feed, es + [Single(s.now, tx.call.price, s.cfg.twapWindow)])
  {
    var e := Single(s.now, tx.call.price, s.cfg.twapWindow);
    WindowExtends(es, e);
    QuoteStored(s, tx);
    hide Step, Window, Begin, Averages;
    var restart := s.feed.lastPriceTime == 0 || s.feed.lastPriceTime + s.cfg.twapWindow < s.now;
    assert BeginsAt(es + [e], |es|) <==> restart;
    assert [] + [tx.call.price] == [tx.call.price];
    QuoteAverages(s.feed, Apply(s, tx).feed, Window(es), tx.call.price, restart);
  }

  /** The arithmetic of one accepted single price. */
  lemma QuoteStored(s: State, tx: Tx)
    requires tx.call.SubmitPrice? && Step(s, tx).Done?
    ensures var feed, after, price := s.feed, Apply(s, tx).feed, tx.call.price;
      var restart := feed.lastPriceTime == 0 || feed.lastPriceTime + s.cfg.twapWindow < s.now;
      && 0 < price && after.lastPrice == price && after.lastPriceTime == s.now
      && after.twapSum == (if restart then price else Min(feed.twapSum + price, I128_MAX))
      && after.twapCount == (if restart then 1 else Min(feed.twapCount + 1, U32_MAX))
      && after.twapCount > 0
      && (0 <= feed.twapSum ==> after.twapPrice == after.twapSum / after.twapCount)
  {
  }

  lemma QuoteAverages(feed: Feed, after: Feed, w: seq<int>, price: I128, restart: bool)
    requires Averages(feed, w) && 0 < price && after.twapCount > 0
    requires after.twapSum == if restart then price else Min(feed.twapSum + price, I128_MAX)
    requires after.twapCount == if restart then 1 else Min(feed.twapCount + 1, U32_MAX)
    requires 0 <= feed.twapSum ==> after.twapPrice == after.twapSum / after.twapCount
    ensures Averages(after, (if restart then [] else w) + [price])
  {
    SumAppended([], price);
    SumAppended(w, price);
    SumPositive(w);
  }

  lemma OpeningMatches(es: seq<Sighting>, at: U64)
    ensures FeedMatches(Feed(0, at, 0, 0, 0), es + [Opening(at)])
  {
    WindowExtends(es, Opening(at));
    hide Window;
  }

  lemma OpeningSeen(s: State, tx: Tx, es: seq<Sighting>)
    requires tx.call.Initialize? && Step(s, tx).Done?
    ensures FeedMatches(Apply(s, tx).feed, es + [Opening(s.now)])
  {
    hide FeedMatches;
    OpeningMatches(es, s.now);
  }

  lemma SeveralMatches(feed: Feed, es: seq<Sighting>, at: U64, price: I128)
    requires FeedMatches(feed, es)
    ensures FeedMatches(feed.(lastPrice := price, lastPriceTime := at), es + [Several(at, price)])
  {
    WindowExtends(es, Several(at, price));
    hide Window;
    assert Window(es) + [] == Window(es);
  }

  lemma SeveralSeen(s: State, tx: Tx, es: seq<Sighting>)
    requires tx.call.SubmitOraclePrices? && Step(s, tx).Done? && FeedMatches(s.feed, es)
    ensures |tx.call.prices| > 0
    ensures FeedMatches(Apply(s, tx).feed, es + [Several(s.now, Median.MedianOf(tx.call.prices))])
  {
    hide FeedMatches, Median.MedianOf;
    SubmissionParts(s, tx);
    hide Step;
    SeveralMatches(s.feed, es, s.now, Median.MedianOf(tx.call.prices));
  }

  lemma FeedStep(s: State, tx: Tx, es: seq<Sighting>)
    requires FeedMatches(s.feed, es)
    ensures FeedMatches(Apply(s, tx).feed, es + Seen(s, tx))
  {
    hide Step, FeedMatches;
    if Step(s, tx).Done? && tx.call.Initialize? {
      OpeningSeen(s, tx, es);
    } else if Step(s, tx).Done? && tx.call.SubmitPrice? {
      SingleSeen(s, tx, es);
    } else if Step(s, tx).Done? && tx.call.SubmitOraclePrices? {
      SeveralSeen(s, tx, es);
    } else {
      Frame(s, tx);
      assert es + [] == es;
    }
  }

  lemma {:induction false} FeedRun(s: State, txs: seq<Tx>, es: seq<Sighting>)
    requires FeedMatches(s.feed, es)
    ensures FeedMatches(Run(s, txs).feed, es + Sightings(s, txs))
    decreases |txs|
  {
    hide Step, FeedMatches;
    if |txs| > 0 {
      FeedStep(s, txs[0], es);
      FeedRun(Apply(s, txs[0]), txs[1..], es + Seen(s, txs[0]));
      assert es + Seen(s, txs[0]) + Sightings(Apply(s, txs[0]), txs[1..]) == es + Sightings(s, txs);
    } else {
      assert es + [] == es;
    }
  }

  /**
   * From deployment, through any mix of calls, the stored price and time are those last accepted, and
   * sum, count and average are those of the single prices since the last window began, by the times at
   * which they came; only the two integer types cap them.
   */
  lemma TwapRefinesWindow(deployed: State, txs: seq<Tx>)
    requires Deployed(deployed)
    ensures var feed, es := Run(deployed, txs).feed, Sightings(deployed, txs);
      feed.lastPriceTime == LastTime(es) && feed.lastPrice == LastPrice(es) && Averages(feed, Window(es))
  {
    FeedRun(deployed, txs, []);
    assert [] + Sightings(deployed, txs) == Sightings(deployed, txs);
  }

  /**
   * Exactly when the average lies between the lowest and the highest observation of the window. It
   * is not too low exactly when the lowest price times the count fits; it can be too high only once
   * the count is capped, and then exactly when the sum is too large for the capped count.
   */
  lemma AverageWithinExactly(feed: Feed, w: seq<int>, lo: int, hi: int)
    requires Averages(feed, w) && |w| > 0 && lo in w
    requires forall k :: 0 <= k < |w| ==> lo <= w[k] <= hi
    ensures lo <= feed.twapPrice <==> lo * Min(|w|, U32_MAX) <= I128_MAX
    ensures feed.twapPrice <= hi <==> |w| <= U32_MAX || Min(SumOf(w), I128_MAX) < (hi + 1) * U32_MAX
    ensures |w| <= U32_MAX ==> (lo <= feed.twapPrice <= hi <==> lo * |w| <= I128_MAX)
  {
    var count := Min(|w|, U32_MAX);
    var sum := Min(SumOf(w), I128_MAX);
    SumBounds(w, lo, hi);
    MulMono(lo, count, |w|);
    FloorBelow(sum, count, lo);
    FloorBelow(sum, count, hi + 1);
    assert (hi + 1) * count == hi * count + count;
  }

  /**
   * Past 2^32 - 1 observations in one window the stored count stands still while the sum grows, so
   * the average of n equal prices is n / (2^32 - 1) times the price until the sum is capped too.
   */
  lemma CountCapInflates(feed: Feed, w: seq<int>, price: int)
    requires Averages(feed, w) && |w| >= U32_MAX && price * |w| <= I128_MAX
    requires forall k :: 0 <= k < |w| ==> w[k] == price
    ensures feed.twapPrice == price * |w| / U32_MAX
    ensures price < feed.twapPrice <==> U32_MAX <= price * (|w| - U32_MAX)
  {
    SumBounds(w, price, price);
    FloorBelow(price * |w|, U32_MAX, price + 1);
    assert price * (|w| - U32_MAX) == price * |w| - price * U32_MAX;
    assert (price + 1) * U32_MAX == price * U32_MAX + U32_MAX;
  }

  lemma {:induction false} SumBounds(w: seq<int>, lo: int, hi: int)
    requires forall k :: 0 <= k < |w| ==> lo <= w[k] <= hi
    ensures lo * |w| <= SumOf(w) <= hi * |w|
  {
    if |w| > 0 {
      var n := |w| - 1;
      SumBounds(w[..n], lo, hi);
      assert lo * n + lo == lo * |w| && hi * n + hi == hi * |w|;
    }
  }
}
