# StellarKraal verification

A Dafny model of StellarKraal, a livestock-backed lending protocol on Soroban, and proofs about it.

Four parts are modelled.

1. **The lending contract** (`contracts/stellarkraal/src/lib.rs`): loans, collateral records, the
   configuration, the oracle registry, the price aggregator, the liquidator whitelist, the pause timer and
   the timelocked upgrade slot, over an abstract token ledger and bounded integers.
   `Lending`, `Governance` and `Oracles` say what each entry point does to the whole storage;
   `Machine` makes them the steps of one state machine; `LendingContract.StellarKraal` is the object that
   assigns fields, loops and sorts, and each of its methods is proved to do exactly that step. The theorems
   are about runs of the machine: `Invariant`, `Lifecycle`, `LoanLife`, `Conservation`, `Ledger`, `Interest`,
   `Liquidation`, `Histories`, `Aggregator`, `Median`, `Safeguards`, `Administration`, `Sharing`. `Effects`, `Entries`
   and `Refusals` state, call by call and without the functions that define the steps, exactly when a call succeeds,
   all that it then writes, pays, publishes and replies, and which refusal it gets otherwise. `Frames` says what each
   kind of call may write, and `Traces` holds concrete runs from deployment.
2. **Collateral reservation** (`backend/src/index.ts`, `backend/src/db/store.ts`): create requests that check
   and reserve, yield at an await, then insert and release, interleaved with every other writer of the loan
   table (`Reservation`).
3. **The RPC connection pool** (`backend/src/utils/connectionPool.ts`) under interleaved `run` calls
   (`ConnectionPool`).
4. **Arithmetic that the repository states several times**: health factor, loan request and jump-rate curve in
   the contract, the fuzz targets and the backend (`Formulas`).

## How to read the model

- A call yields `Done` (it commits), `Err` (a contract error) or `Trap` (a panic, a failed host call, a missing
  signature). Only `Done` changes storage, as the host rolls the rest back. Checks appear in the source's order,
  so the error that is returned is the source's.
- Authorisation: a transaction carries the set of addresses that signed it. Nobody signs for the contract's own
  address, so a user is never the contract; the treasury and a withdrawal's recipient may be.
- Besides the entry points there are two environment steps: `Tick` (the ledger clock never goes back) and
  `MoveTokens` (a signed transfer made on the token itself; this is how liquidity arrives).
- Published events form a log that the proofs read. `FeeCollected` additionally carries the recipient, which on
  chain is in the token transfer next to it. Events that no theorem needs are not logged.
- Integer widths are explicit: `checked_*` gives the source's error, `saturating_*` and `unwrap_or(MAX)` saturate,
  an unchecked overflow traps, `as u32` wraps, and `/` truncates toward zero.
- `Tally`, `Peak` and `Gathered` (in `Machine`) sum, maximise and collect something over the steps of a run.
- TypeScript numbers are exact integers or reals.

## Main results

- Money is conserved over every run, and the event log alone determines what every loan owes and what every
  address holds.
- Every reachable state satisfies one invariant covering loans, collateral, configuration and registries; closed
  loans never change; one sufficient payment closes a loan exactly when its arithmetic and transfers succeed.
- Requests, repayments and liquidations succeed exactly under a stated condition, without reference to the code's checks.
- A loan cannot be liquidated while the threshold is not below the ratio it was issued at; a liquidation in any
  run from deployment needs a lowered threshold.
- Interest charged over a loan's life lies between exact bounds and below simple interest at the peak rate.
- Settings change only by a signed admin or its signed successor, and a hand-over takes both.
- A loan's health factor never falls while it is active and the threshold is not lowered.
- Partial liquidations leave a geometric share of the debt and never finish a loan.
- Collateral is shared between active loans exactly by requests that list it again.
- The oracle median is order-free and bounded by any strict majority.
- Rolling logs, TWAP, whitelist counter and upgrade slot refine the sequence, set or log they stand for.
- No interleaving of create requests double-pledges, with the exact exception named below.

## Where the code is not what is said or expected

- *Past-due loans.* The comments at `contracts/stellarkraal/src/lib.rs:992-994` and `:1009`, and
  `docs/contracts/stellarkraal-interface.md:203`, call past-due loans immediately liquidatable. `liquidate` reads
  no deadline: `Liquidation.LiquidationIgnoresFeedAndDeadline`, `Liquidation.PastDueIsNotLiquidatable`, and the run
  `Traces.PastDueYetSafe`.
- *Factor history.* The comment at lines 995-996 has every successful query append to the history; a past-due one
  does not. `Histories.FactorHistory` counts the others.
- *TWAP in liquidation.* `docs/adr/ADR-007-oracle-twap.md:22` makes the TWAP the collateral value of
  liquidation decisions. `liquidate` reads no price at all; the same lemma shows it. Nor does a drop in collateral value
  make a loan liquidatable, as `docs/protocol/liquidation.md:5` has it: `Liquidation.LiquidationIgnoresAppraisals`.
- *Fuzz target.* `contracts/stellarkraal/fuzz/fuzz_targets/health_factor.rs:31-34` says an answer means the contract
  accepts the input. The contract's unchecked scaling traps on some of them: `Formulas.FuzzAcceptsWhatTraps`, and
  exactly which in `Formulas.FactorDomains`.
- *Fee and threshold limits.* The error text at `contracts/stellarkraal/src/lib.rs:114` gives 500 bps as the maximum;
  `initialize` sets an interest fee of 1000. Likewise it does not cap the threshold at the 10 000 of its setter.
  `Traces.LimitsPassed` is such a run, `Administration.LimitsExactly` says exactly when each limit holds, and the
  invariant uses 1000.
- *TWAP window.* `initialize` names a parameter it does not have (lines 347-353); the model takes the value that
  is stored, 3600 (line 371), not the 720 of `docs/protocol/twap-mechanism.md:36`.
- *TWAP bounds.* `submit_price` has no upper limit, so the capped sum can put the average below every observation,
  as in the run `Traces.TwapBelowEveryObservation`, and the capped count can put it above
  (`Aggregator.CountCapInflates`, reached by `Traces.AverageOfEqualQuotes`). It stays within exactly under the condition of `Aggregator.AverageWithinExactly`,
  which a caller can check from the lowest price and the count.
- *Oracle guard.* `remove_oracle` refuses to leave active loans without an oracle, but `request_loan` does not look
  at the registry: `Traces.ActiveLoanWithoutOracle`, and exactly when in `Safeguards.OracleBackedExactly`.
- *Locked collateral.* `docs/protocol/loan-state-machine.md:45` and the comment at
  `contracts/stellarkraal/src/lib.rs:169` have collateral locked to its loan. `request_loan` does not read the
  back-pointer and takes an id twice: `Traces.CollateralBacksTwoLoans` and `Traces.RepeatedCollateralOverborrows`, and
  exactly when in `Sharing.UnsharedExactly` and `Sharing.TotalCountsRepeats`.
- *Unchecked scaling.* The health factor of a very well backed loan traps (`Traces.HealthyLoanTraps`). A due liquidation
  of a loan up to 10^30 is never blocked by it (`Liquidation.DueLiquidationGoesThrough`).
- *Reservation.* Restoring a deleted loan, or a health-job visit based on a list taken before the loan was closed and
  not up to date then, can leave two open loans on one collateral: `Reservation.StaleVisitAndRestoreDoublePledge`. They do so exactly
  when they reopen a loan whose collateral is held: `Reservation.StepKeepsExactly`, `Reservation.VisitExactly`.
- *Pool.* `close` forgets open leases, so more than `max` connections can be in use afterwards, as in
  `ConnectionPool.CloseForgetsLeases`. It happens exactly after a close with a lease open
  (`ConnectionPool.CloseExceedsExactly`) and while such a lease lasts (`ConnectionPool.ExceedsExactly`).
- *Rate curve.* Above 100 % utilization the backend refuses while the contract's casts can wrap:
  `Formulas.RatesAgreeExactly` says exactly when, and `Formulas.RatesPartOutOfRange` is an instance. The contract's
  own utilization is capped at 100 %, where no share wraps whatever the kink (`Formulas.RatesAgree`).

## Model

| member | source | states |
|---|---|---|
| Conservation.Conserved | contracts/stellarkraal/src/lib.rs:730-740 | after any run from deployment, the contract's tokens plus all principal owed equal the opening balance plus interest paid in, less interest fees and withdrawals that leave, plus outside deposits |
| Conservation.LogReplaysLoans | contracts/stellarkraal/src/lib.rs:793-829 | after any run, principal minus outstanding of every loan is the principal that its repayment and liquidation events add up to, ids never issued have none, and all interest fees are at most a tenth of all interest paid |
| Conservation.RunBalances | contracts/stellarkraal/src/lib.rs:730-740 | the balance equation holds between any two states of a run, not only from deployment |
| Conservation.RequestBalances | contracts/stellarkraal/src/lib.rs:699-740 | a granted request turns exactly the tokens paid out, fee included, into principal owed on the next id |
| Conservation.RepayBalances | contracts/stellarkraal/src/lib.rs:789-829 | a repayment moves principal from owed to held and adds its interest less the treasury's cut |
| Conservation.LiquidateBalances | contracts/stellarkraal/src/lib.rs:877-885 | a liquidation moves what it repays from owed to held and nothing else |
| Ledger.LogReplaysBalances | contracts/stellarkraal/src/lib.rs:730-744 | after any run from deployment, every address holds its opening balance plus what the fee, loan, repayment, liquidation, withdrawal and outside-transfer events moved to it less what they moved away |
| Conservation.PayOutMoves | contracts/stellarkraal/src/lib.rs:730-739 | fee to the treasury and payout to the borrower, both from the contract, whoever the treasury is; no other balance changes |
| Conservation.CollectMoves | contracts/stellarkraal/src/lib.rs:811-820 | interest and principal from the borrower, the treasury's cut from the contract; no other balance changes |
| Lifecycle.RunKeeps | contracts/stellarkraal/src/lib.rs:643-908 | every run keeps the invariant: ids are exactly 1 to the counter; Active exactly while principal is owed; outstanding within 0 and principal; interest not negative, and 0 once Repaid; each collateral points to the newest loan listing it and belongs to its borrower; settings in range; registry duplicate-free with at most five; whitelist count exact; upgrade keys both or neither |
| Lifecycle.StepKeeps | contracts/stellarkraal/src/lib.rs:643-908 | the same for each single call, with any arguments and signers |
| Frames.Frame | contracts/stellarkraal/src/lib.rs:322-1700 | every call, committed or not, leaves all storage alone but the part its kind may write: settings, registry, feed, whitelist, upgrade slot, collateral, loans with balances and log, or balances and log |
| Lifecycle.AccrualIsCappedProduct | contracts/stellarkraal/src/lib.rs:774-784 | the two multiplications that each fall back to the maximum are one exact product of outstanding, rate and elapsed time, capped once and divided once |
| Lifecycle.PaymentMeaning | contracts/stellarkraal/src/lib.rs:787-819 | a payment takes the smaller of amount and debt, interest before principal, gives the treasury at most a tenth of the interest, and leaves the loan Repaid exactly when it covers the debt |
| Lifecycle.RequestWithinLtv | contracts/stellarkraal/src/lib.rs:685-697 | an approved amount is within the exact loan-to-value cap, the fee is the floor of its share, and fee and payout add up to the amount |
| Invariant.PledgeIsTotal | contracts/stellarkraal/src/lib.rs:670-683 | the id list is accepted exactly when every entry exists, is the borrower's and the sum fits, and the result is the sum of values counted as often as listed |
| LoanLife.RequestGrantedExactly | contracts/stellarkraal/src/lib.rs:643-744 | a request succeeds if and only if the contract is live, the borrower signed and owns all that is listed, the amount is within the limits and within the ratio of the listed total, products fit, ids are left, and the tokens can be paid |
| Effects.RequestRecords | contracts/stellarkraal/src/lib.rs:699-728 | a granted request replies the next id and stores under it the loan on the listed total: all of it owed, due after the duration if there is one, no interest, accrual clock at now, empty history; each listed collateral points to it and nothing else in the tables changes |
| Effects.RequestPays | contracts/stellarkraal/src/lib.rs:694-739 | the fee, amount times rate over 10 000 rounded down, goes to the treasury and the rest to the borrower, both from the contract |
| Effects.RequestPublishes | contracts/stellarkraal/src/lib.rs:733-744 | the fee event, if there is a fee, and the request event, with amount, payout and total |
| Effects.DeadlineDecides | contracts/stellarkraal/src/lib.rs:700-702 | after any run since a loan was granted, a query at a fresh price answers past due, 0 with nothing written, exactly when the clock is beyond the end of the duration; otherwise the factor |
| LoanLife.LoanRun | contracts/stellarkraal/src/lib.rs:713-714 | through any run a loan keeps its terms, its principal owed never rises, its clock never goes back, and once Repaid or Liquidated debt and status are final |
| LoanLife.OnePaymentCloses | contracts/stellarkraal/src/lib.rs:753-830 | a signed payment of at least the debt closes an active loan with both amounts 0, paused or not, if and only if the fee product fits and the transfers have funds and room |
| LoanLife.RepaysExactly | contracts/stellarkraal/src/lib.rs:753-819 | a repayment of any amount succeeds if and only if it is positive, signed by the borrower of an active loan, the debt and the fee product fit, the borrower has the tokens, and contract and treasury have room; the pause plays no part |
| Effects.RepaymentRecords | contracts/stellarkraal/src/lib.rs:774-823 | what a repayment writes: interest accrued on the principal over the exact elapsed time, interest paid before principal, the clock at now, and Repaid exactly when the debt is covered |
| Effects.RepaymentPays | contracts/stellarkraal/src/lib.rs:807-818 | the payment, at most the debt, from borrower to contract, and the rate's share of the interest from there to the treasury |
| Effects.RepaymentPublishes | contracts/stellarkraal/src/lib.rs:816-829 | the cut, if there is one, and the repayment with principal, interest and what is left |
| LoanLife.OtherStepSameDebt | contracts/stellarkraal/src/lib.rs:821 | no call but its own repayment or liquidation changes a loan's debt, clock or status, and none changes its terms |
| Interest.ChargedOverRun | contracts/stellarkraal/src/lib.rs:774-784 | over any run, 10000 * 31536000 times the interest charged is at most the sum of the exact capped products and falls short of it by less than that factor per repayment |
| Interest.ChargedBelowSimple | contracts/stellarkraal/src/lib.rs:774-808 | interest charged over any run is at most simple interest on the principal first owed, at the highest rate in force, over the time accrued |
| Interest.ExactBelowSimple | contracts/stellarkraal/src/lib.rs:774-784 | the exact products of a run add up to no more than that simple interest |
| Liquidation.FactorDecides | contracts/stellarkraal/src/lib.rs:1782-1795 | a completed health factor is below 10 000 exactly when collateral times threshold is below 10 000 times outstanding |
| Liquidation.FactorDefined | contracts/stellarkraal/src/lib.rs:1782-1795 | for an active loan the factor completes exactly when the debt, the denominator and the scaled numerator fit, traps exactly on the unchecked scaling, and never divides by zero |
| Effects.QueryAnswersExactly | contracts/stellarkraal/src/lib.rs:997-1033 | the exact answer of `health_factor` in every reachable state: refused at a stale price; 0 with nothing written past the deadline; else the maximum without debt or weighted collateral over principal at the current threshold, appended to the newest five; an error or the trap when the products do not fit |
| Liquidation.LiquidatesExactlyWhen | contracts/stellarkraal/src/lib.rs:837-909 | a liquidation succeeds if and only if live, signed, the whitelist empty or containing the liquidator, loan active and exactly under-collateralised, amount positive and within the close factor, products fit and tokens can move |
| Effects.LiquidationRecords | contracts/stellarkraal/src/lib.rs:873-903 | a liquidation takes its amount off the principal, closes the loan exactly when nothing is left, moves the amount from liquidator to contract, publishes it, and accrues nothing |
| Liquidation.DueLiquidationGoesThrough | contracts/stellarkraal/src/lib.rs:1782-1795 | while outstanding times 10^8 fits, no product can block a liquidation: it succeeds exactly when live, signed, admitted, under-collateralised, within the close factor and payable |
| Traces.HealthyLoanTraps | contracts/stellarkraal/src/lib.rs:1794 | a run from deployment to a loan so well backed that the unchecked scaling traps its query and its liquidation |
| Liquidation.LiquidationIgnoresFeedAndDeadline | contracts/stellarkraal/src/lib.rs:837-909 | states that differ only in the price feed and the loan's deadline answer a liquidation alike |
| Liquidation.LiquidationIgnoresAppraisals | contracts/stellarkraal/src/lib.rs:837-909 | states that differ only in the collateral records, appraised values included, answer a liquidation alike |
| Liquidation.PastDueIsNotLiquidatable | contracts/stellarkraal/src/lib.rs:1009-1014 | on a past-due but well-backed loan the query answers 0; a liquidation never succeeds, and for a signed, admitted liquidator on a live contract its error is `HealthFactorSafe` |
| Traces.PastDueYetSafe | contracts/stellarkraal/src/lib.rs:1009-1014 | a run from deployment that ends with a past-due loan whose query answers 0 and whose signed liquidation answers `HealthFactorSafe` |
| Liquidation.BackedLoanIsSafe | contracts/stellarkraal/src/lib.rs:864-867 | a loan whose principal is covered by threshold-weighted collateral cannot be liquidated and has a factor of at least 10 000 |
| Liquidation.IssuedLoanIsSafe | contracts/stellarkraal/src/lib.rs:685-693 | after any run since its origination, a loan issued at a ratio not above the current threshold cannot be liquidated and has a factor of at least 10 000 when it completes |
| Liquidation.HitNeverLowersFactor | contracts/stellarkraal/src/lib.rs:877-883 | a liquidation that leaves the loan active leaves a factor that completes and is no lower, as collateral value is not reduced |
| Liquidation.FactorNeverFalls | contracts/stellarkraal/src/lib.rs:1782-1795 | over any run, appraisals included, the completed factor of a loan that stays active does not fall unless the threshold does |
| Liquidation.LiquidationNeedsLoweredThreshold | contracts/stellarkraal/src/lib.rs:547-561 | over all runs from deployment, a liquidation succeeds only while the threshold is below some ratio that was in force before |
| Liquidation.NoLiquidationWithoutReconfiguring | contracts/stellarkraal/src/lib.rs:339-344 | a run in which no change of the ratio or the threshold after `initialize` is committed has no successful liquidation |
| Liquidation.CloseFactorDecay | contracts/stellarkraal/src/lib.rs:869-885 | over any run without repayments, n liquidations at close factors up to cf leave outstanding * 10000^n at least the first outstanding * (10000 - cf)^n |
| Liquidation.HitDecay | contracts/stellarkraal/src/lib.rs:869-885 | one liquidation strictly lowers outstanding and leaves at least the protected share; it ends the loan only at close factor 10 000 |
| Liquidation.PartialLiquidationsNeverFinish | contracts/stellarkraal/src/lib.rs:881-885 | with close factors below 10 000 and no repayments, an active loan stays active through any run |
| Liquidation.GateIsMembership | contracts/stellarkraal/src/lib.rs:846-849 | the count-based gate lets in exactly the members, or everyone when the set is empty |
| Median.SortPrefix | contracts/stellarkraal/src/lib.rs:1543-1551 | the nested exchange loop turns the used slots into their sorted permutation and leaves the others alone |
| Median.SortedOfSorts | contracts/stellarkraal/src/lib.rs:1543-1551 | the reference order is sorted and a permutation of the submitted prices |
| Median.SortedIsUnique | contracts/stellarkraal/src/lib.rs:1543-1551 | two sorted permutations of the same prices are equal, so the order is determined by the values |
| Median.MedianIgnoresOrder | contracts/stellarkraal/src/lib.rs:1526-1558 | the same prices in any order of submission give the same median |
| Median.MajorityBoundsMedian | contracts/stellarkraal/src/lib.rs:1553-1558 | if more than half of the prices lie in a range, so does the median, for odd and even counts |
| Median.HalfDoesNotBoundMedian | contracts/stellarkraal/src/lib.rs:1553-1558 | exactly half is not enough: a pair of prices whose median leaves the honest range |
| LendingContract.MiddleOf | contracts/stellarkraal/src/lib.rs:1538-1558 | filling five slots, sorting in place and taking the middle gives the median of the reference order |
| Aggregator.SubmitsExactly | contracts/stellarkraal/src/lib.rs:1512-1536 | a submission is accepted exactly when signed, with one positive price below 10^18 for each of one to five oracles, and no fewer than the quorum |
| Aggregator.MedianReported | contracts/stellarkraal/src/lib.rs:1538-1575 | for any sorted arrangement of the submitted prices, the reported and stored median is its middle, or the floored mean of its two middle values; the report counts the prices and those more than half the median away; only price and time of the feed change |
| Aggregator.MajorityBoundsReport | contracts/stellarkraal/src/lib.rs:1553-1568 | if more than half of the submitted prices lie in a range, the reported and stored median does |
| Aggregator.ReportIgnoresOrder | contracts/stellarkraal/src/lib.rs:1538-1575 | the same prices in another order give the same report and the same state |
| Histories.FactorHistory | contracts/stellarkraal/src/lib.rs:1015-1031 | after any run, a loan's `hf_history` is the newest five of its old entries and, for each query at a fresh price before the deadline, weighted collateral over principal at the threshold then in force, if the products fit |
| Histories.AppraisalHistory | contracts/stellarkraal/src/lib.rs:1060-1073 | after any run, a collateral's history is the newest three of its old entries and all appraisals since |
| Histories.NewestAppraisalIsValue | contracts/stellarkraal/src/lib.rs:1068-1069 | in every reachable state the last entry of the history is the current value |
| Histories.RegisteredForGood | contracts/stellarkraal/src/lib.rs:591-633 | after a registration and any run, the record is there under the fresh id it was given, with owner, kind and count unchanged, its history the newest three of the registered value and all appraisals since, and the last of them its value |
| Effects.RegistersExactly | contracts/stellarkraal/src/lib.rs:598-633 | a registration succeeds exactly on a live contract for a signing owner, with animals and a value within the cap of their kind, and stores just its record under the next id |
| Effects.AppraisesExactly | contracts/stellarkraal/src/lib.rs:1043-1080 | an appraisal succeeds exactly for the signing owner of an existing collateral on a live contract with a positive value; it replaces the value and keeps the newest three |
| Histories.LastNAbsorbs | contracts/stellarkraal/src/lib.rs:1060-1068 | cutting a log to its newest n before appending or only at the end gives the same log |
| Aggregator.TwapRefinesWindow | contracts/stellarkraal/src/lib.rs:1591-1609 | from deployment, through any mix of calls, the stored price and time are those last accepted; sum and count are those of the single prices since the last window began, judged by the recorded times (an initialisation, or a gap longer than the window in force, or a time 0 before), capped only by their types; the average is their quotient |
| Aggregator.QuotesExactly | contracts/stellarkraal/src/lib.rs:1580-1589 | a single price is accepted exactly when it is positive and signed by the configured oracle |
| Traces.GapStartsOver | contracts/stellarkraal/src/lib.rs:1595-1596 | a run from deployment in which a gap of 9 999 s restarts the average: the second price stands alone |
| Aggregator.AverageWithinExactly | contracts/stellarkraal/src/lib.rs:1595-1604 | the average lies between the lowest and the highest observation exactly when the lowest times the count fits an i128; only a capped count can lift it above the highest, and exactly when the sum reaches the next multiple of that count |
| Aggregator.CountCapInflates | contracts/stellarkraal/src/lib.rs:1600 | from 2^32 - 1 equal prices on the stored count stands still and the average is their exact sum over it; it exceeds the price exactly when the price times the uncounted observations reaches 2^32 - 1 |
| Traces.TwapBelowEveryObservation | contracts/stellarkraal/src/lib.rs:1580-1609 | a run from deployment, `initialize` and two `submit_price` calls, whose average is half of both observations |
| Traces.AverageOfEqualQuotes | contracts/stellarkraal/src/lib.rs:1580-1609 | runs from deployment with `initialize` and any number n of equal submissions: the average is the capped sum over the capped count, and exactly when it exceeds the price |
| Safeguards.ExecutedWasProposed | contracts/stellarkraal/src/lib.rs:1630-1700 | in every run, each executed hash was proposed at least 86 400 seconds before (or the clock is at its maximum) with no proposal, cancellation or execution in between |
| Safeguards.LastOracleStaysForActiveLoans | contracts/stellarkraal/src/lib.rs:1475-1484 | a removal that empties the registry happens only while no loan in storage is active |
| Safeguards.OracleBackedExactly | contracts/stellarkraal/src/lib.rs:1475-1484 | "an active loan has a registered oracle" is kept by every step but a request granted while the registry is empty, and broken by each of those |
| Traces.ActiveLoanWithoutOracle | contracts/stellarkraal/src/lib.rs:643-744 | a run from deployment that removes the only oracle and then is granted a loan |
| Safeguards.AddThenRemove | contracts/stellarkraal/src/lib.rs:1437-1491 | an added oracle is last, and its removal gives back the former registry; it succeeds exactly unless that was empty and a loan is active |
| Safeguards.MedianTrapsOnlyWhenEmpty | contracts/stellarkraal/src/lib.rs:1533-1558 | a signed submission traps if and only if no oracle is registered, no price given and the quorum is 0; the five slots are never overrun |
| Safeguards.GateAgrees | contracts/stellarkraal/src/lib.rs:980-986 | after any run from deployment the count is the set's size, and the query, the gate and "empty or member" agree on every address |
| Safeguards.DecrementNeverSaturates | contracts/stellarkraal/src/lib.rs:966-969 | removing a listed address lowers the count by exactly one |
| Safeguards.PauseLapses | contracts/stellarkraal/src/lib.rs:1752-1763 | after a pause and any run without pause calls, the contract is paused exactly until the expiry, hence at most 518 400 seconds; only a zero-length pause at time 0 does not lapse |
| Safeguards.UnpauseEnds | contracts/stellarkraal/src/lib.rs:463-479 | the admin's unpause succeeds exactly while the contract is paused, and after it no run without a new pause is ever paused |
| Administration.InitializedOnce | contracts/stellarkraal/src/lib.rs:322-385 | in any run from a blank contract `initialize` succeeds at most once, exactly when the contract ends up initialized, for good; until then only clock, token balances and token events change |
| Administration.NothingBeforeInitialize | contracts/stellarkraal/src/lib.rs:1737-1742 | on a blank contract every entry point but `initialize` fails with the error for it |
| Entries.InitializesExactly | contracts/stellarkraal/src/lib.rs:322-385 | exactly when it succeeds, and that it stores its arguments and each default |
| Entries.SettingsExactly | contracts/stellarkraal/src/lib.rs:399-563 | every setter, those at lines 913-922, 1257-1310, 1356-1379 and 1392-1410 included: it succeeds exactly for the signing admin, in its range, and unpaused for fees and staleness; it stores its arguments in their places and nothing else; out of range it gives its error |
| Entries.AcceptsExactly | contracts/stellarkraal/src/lib.rs:576-587 | exactly the signing proposed address becomes admin |
| Entries.PausesExactly | contracts/stellarkraal/src/lib.rs:436-455 | exactly while not paused; sets flag and end |
| Entries.UnpausesExactly | contracts/stellarkraal/src/lib.rs:463-479 | exactly while paused; clears both |
| Entries.ListsExactly | contracts/stellarkraal/src/lib.rs:933-953 | the admin can always list; the address is then a member and the count is the size |
| Entries.UnlistsExactly | contracts/stellarkraal/src/lib.rs:956-975 | the admin can always unlist; the address is then no member and the count is the size |
| Entries.AddsExactly | contracts/stellarkraal/src/lib.rs:1437-1453 | exactly when new, with room, on a live contract; appended to the list in force |
| Entries.RemovesExactly | contracts/stellarkraal/src/lib.rs:1460-1491 | exactly when registered, and not the last while any stored loan is active; the others keep their order |
| Entries.ProposesExactly | contracts/stellarkraal/src/lib.rs:1630-1648 | the admin can always propose; hash and time replace the former proposal and are published |
| Entries.ExecutesExactly | contracts/stellarkraal/src/lib.rs:1652-1679 | anyone can execute, exactly from 86 400 s after the proposal on; the slot is emptied and the hash published; else the error for it |
| Entries.CancelsExactly | contracts/stellarkraal/src/lib.rs:1683-1700 | the admin can cancel exactly while something is pending |
| Entries.WithdrawalRecords | contracts/stellarkraal/src/lib.rs:1343-1346 | publishes recipient and amount, and changes only balances beside |
| Administration.OutsidersChangeNothing | contracts/stellarkraal/src/lib.rs:1744-1750 | no run of calls that neither the admin nor the proposed admin signs changes any setting, the whitelist or the registry; all it can do to a pending upgrade is execute it |
| Administration.OnlyTheAdmin | contracts/stellarkraal/src/lib.rs:1744-1750 | a call in the name of an address that is not the admin fails as unauthorized, and an unsigned one in the admin's name traps, unless the pause refuses it first |
| Administration.LimitsExactly | contracts/stellarkraal/src/lib.rs:1284-1303 | in every run from deployment, an initialized contract has an interest fee of at most 500 bps exactly when a fee update was committed, and a threshold of at most 10 000 exactly when it was initialized so or a threshold update was committed |
| Traces.LimitsPassed | contracts/stellarkraal/src/lib.rs:322-385 | one `initialize` from deployment after which the fee is 1000 and the threshold 20 000 |
| Administration.HandOver | contracts/stellarkraal/src/lib.rs:565-587 | after a proposal and any run that neither party signs, the proposed address can accept exactly by signing; then it is the admin, nothing else in the settings has moved, and every call of the old admin fails |
| Administration.WithdrawEmpties | contracts/stellarkraal/src/lib.rs:1326-1349 | a withdrawal succeeds exactly for the signing admin of a paused contract with room at the recipient; then the contract holds nothing, the recipient that much more, and no other balance changes |
| Administration.WithdrawalStopsLending | contracts/stellarkraal/src/lib.rs:739 | while no deposit, repayment or liquidation brings tokens, an emptied contract stays empty and issues no loan, in any run |
| Refusals.RequestClosed | contracts/stellarkraal/src/lib.rs:650-668 | which error a request gets before its collateral is looked at |
| Refusals.RequestRefused | contracts/stellarkraal/src/lib.rs:670-683 | it is refused for a missing or a foreign collateral exactly when that is the first entry that is not acceptable |
| Refusals.PricedRefused | contracts/stellarkraal/src/lib.rs:685-699 | with acceptable collateral: too little of it exactly when the amount exceeds the ratio, no id left exactly at the last one, an invalid amount exactly when a product does not fit |
| Refusals.RepaymentRefused | contracts/stellarkraal/src/lib.rs:753-805 | which error a repayment gets, in order |
| Refusals.LiquidationRefused | contracts/stellarkraal/src/lib.rs:837-875 | which error a liquidation gets, in order: gate, loan, status, products, safety, close factor |
| Refusals.RegistrationRefused | contracts/stellarkraal/src/lib.rs:598-615 | which error a registration gets |
| Refusals.AppraisalRefused | contracts/stellarkraal/src/lib.rs:1043-1058 | which error an appraisal gets |
| Refusals.SubmissionRefused | contracts/stellarkraal/src/lib.rs:1512-1536 | which error a submission of several prices gets |
| Refusals.QuoteRefused | contracts/stellarkraal/src/lib.rs:1580-1589 | which error a single price gets |
| Refusals.AdminRefused | contracts/stellarkraal/src/lib.rs:436-479 | which error the admin's own pause, unpause, withdrawal, cancellation and a second initialisation get |
| Refusals.RegistryRefused | contracts/stellarkraal/src/lib.rs:1437-1491 | which error registry changes get |
| Safeguards.PledgeOverRun | contracts/stellarkraal/src/lib.rs:699-728 | after any later run, a loan's stored value is still the listed sum at origination, and each listed collateral exists, is the borrower's, and points to this or a newer loan listing it |
| Sharing.UnsharedExactly | contracts/stellarkraal/src/lib.rs:670-683 | "at most one active loan for each collateral" is kept by every step but a granted request that lists the collateral of an active loan, and broken by each of those |
| Traces.CollateralBacksTwoLoans | contracts/stellarkraal/src/lib.rs:643-744 | a run from deployment that is granted the same loan twice on one collateral |
| Sharing.TotalCountsRepeats | contracts/stellarkraal/src/lib.rs:670-683 | the contract's sum is at least that of the distinct collaterals listed, and equal exactly when nothing is listed twice |
| Sharing.RequestWithinDistinct | contracts/stellarkraal/src/lib.rs:670-693 | a granted request without repeats keeps its principal within the ratio of the distinct collaterals; the stored value is theirs exactly when nothing is repeated |
| Traces.RepeatedCollateralOverborrows | contracts/stellarkraal/src/lib.rs:670-693 | a run from deployment whose list `[1, 1]` borrows more than the ratio of the one collateral |
| Formulas.FactorsCompared | contracts/stellarkraal/fuzz/fuzz_targets/health_factor.rs:46-48 | the contract's factor is the exact ratio rounded down; the fuzz target's is the same rounded down further to a multiple of 10 000 |
| Formulas.FactorsAgree | backend/src/jobs/healthFactorJob.ts:72-75 | contract, fuzz and backend factors, where defined, fall below 10 000 exactly when weighted collateral is below 10 000 times outstanding |
| Formulas.FactorDomains | contracts/stellarkraal/fuzz/fuzz_targets/health_factor.rs:31-48 | the contract answers exactly where the fuzz copy does and the scaled numerator fits, and traps exactly where it does not |
| Formulas.FuzzAcceptsWhatTraps | contracts/stellarkraal/fuzz/fuzz_targets/health_factor.rs:31-34 | an input that the fuzz copy answers and the contract traps on |
| Formulas.BackendDecides | backend/src/jobs/healthFactorJob.ts:93 | the job's real-valued comparison flags a loan exactly when 8000 times its collateral is below 10 000 times its amount |
| Formulas.RequestsAgree | contracts/stellarkraal/fuzz/fuzz_targets/loan_request.rs:47-70 | on positive values, contract and fuzz copy accept, refuse and fail on the same inputs, with equal fee and payout that add up to the amount within the cap |
| Formulas.RatesAgree | backend/src/interestRate.ts:33-49 | for utilization up to 100 % and any kink, the contract's rate is the backend's capped at the largest u32 |
| Formulas.RateIs | contracts/stellarkraal/src/lib.rs:1812-1840 | up to 100 %, the rate is base plus the floored share of each slope, capped at the largest u32 |
| Formulas.RatesAgreeExactly | contracts/stellarkraal/src/lib.rs:1818-1837 | for every u32 utilization and model, the contract's rate is the exact curve capped at the largest u32 exactly when both shares fit a u32 or the wrapped sum still reaches the cap |
| Formulas.RateBounds | contracts/stellarkraal/src/lib.rs:1812-1840 | in that range the rate lies between the base rate and base plus both slopes, and is the base rate at zero utilization |
| Formulas.RateMonotone | contracts/stellarkraal/fuzz/fuzz_targets/interest_rate.rs:77-82 | in that range more utilization never lowers the rate, across the kink included |
| Formulas.UtilizationsAgree | backend/src/interestRate.ts:58-61 | for amounts that are not negative, contract and backend utilization are equal and at most 10 000 |
| Formulas.UtilizationIs | contracts/stellarkraal/src/lib.rs:1798-1809 | 0 without liquidity, 10 000 from full use on, else the exact ratio rounded down; an error exactly when the product does not fit |
| Formulas.PoolRateMonotone | contracts/stellarkraal/src/lib.rs:1798-1840 | composed with utilization, the rate does not fall when more is borrowed or liquidity shrinks |
| Reservation.StepKeepsExactly | backend/src/index.ts:635-697 | from an exclusive store, a step keeps exclusivity if and only if it is not a restore or stale status write that reopens a loan whose collateral is reserved or pledged |
| Reservation.NoDoublePledge | backend/src/index.ts:635-697 | any interleaving without such a write keeps each collateral to at most one open loan or one in-flight request, never both, with `pendingPledges` exactly the ids in flight |
| Reservation.NoDoublePledgeFromStart | backend/src/index.ts:635-638 | from an empty loan table, with health passes as one step and no restores, every interleaving of any number of requests is exclusive |
| Reservation.AdmittedExactly | backend/src/index.ts:650-677 | each answer exactly: invalid, not found, not the owner, conflict, or let through, when the collateral is held by no request and no open loan; only the last reserves, for the named borrower and the smaller of what was asked and the floor of 80 % of the value |
| Reservation.RequestLife | backend/src/index.ts:672-695 | whatever runs between its halves, an admitted request ends with the borrower, collateral and amount it was admitted with, and adds one row with them, active and without a factor, exactly when the await succeeded; only its reservation goes |
| Reservation.FinishExactly | backend/src/index.ts:679-695 | the whole store after either end of a request |
| Reservation.FailureUndoes | backend/src/index.ts:693-695 | a failed request with nothing in between leaves the store as it was |
| Reservation.RowsExactly | backend/src/index.ts:685-690 | in any interleaving, the rows at the end are those of the start and one for each request that finished successfully, besides the chain listener's |
| Reservation.OriginStays | backend/src/db/store.ts:391-424 | no writer moves a row to another borrower or collateral, in any interleaving |
| Reservation.WritersExactly | backend/src/db/store.ts:391-424 | each status, amount, deletion and restore write changes its one field of its one row |
| Reservation.StaleVisitAndRestoreDoublePledge | backend/src/db/store.ts:419-424 | two concrete histories, one with a restore and one with a visit of a health job that listed the new loan, with no factor stored yet, before its liquidation; both end with two open loans on one collateral |
| Reservation.PassFlagsExactly | backend/src/jobs/healthFactorJob.ts:89-98 | after a pass that no alert interrupts, an open loan is `at_risk` exactly when its collateral and amount count and 80 % of the value is below the amount |
| Reservation.VisitExactly | backend/src/jobs/healthFactorJob.ts:89-98 | one visit to a loan listed earlier, after any steps in between: it writes nothing exactly when the listed factor and status are the computed ones, else both, from the listed amount and the value now; exclusivity breaks exactly when it writes, the loan was closed meanwhile and is not deleted, and its collateral is held again |
| Reservation.ReviewedListingWritesNothing | backend/src/jobs/healthFactorJob.ts:95-98 | a loan listed as a review at the present value left it is not written, whatever came in between |
| Reservation.PassIsItsVisits | backend/src/jobs/healthFactorJob.ts:86-98 | with nothing in between, the guarded visits over any listing of the open loans add up to the one-step pass |
| Reservation.FactorMeans | backend/src/jobs/healthFactorJob.ts:72-75 | the job's factor times the amount is 8000 times the value, and it is null exactly when the collateral is missing, deleted or worthless or nothing is owed |
| Reservation.Server.BeginCreate | backend/src/index.ts:654-677 | the half before the await has exactly the specified answer and new store, and keeps exclusivity |
| Reservation.Server.FinishCreate | backend/src/index.ts:679-695 | the half after the await inserts on success, releases always, and keeps exclusivity |
| Reservation.Server.IsCollateralPledged | backend/src/db/store.ts:439-446 | the scan answers whether some open, non-deleted loan lists the collateral |
| Reservation.Server.UpdateStatus | backend/src/db/store.ts:391-400 | keeps exclusivity exactly when it does not reopen a loan whose collateral is reserved or pledged; writes only that loan's status, and nothing when the id is unknown |
| Reservation.Server.SoftDelete | backend/src/db/store.ts:407-412 | marks the loan deleted, succeeds exactly when it was there and not deleted, and always keeps exclusivity |
| Reservation.Server.ReviewListed | backend/src/jobs/healthFactorJob.ts:90-98 | one visit, which nothing can interrupt: guarded write of factor and status, whether it counted as updated, and exclusivity kept exactly unless it takes held collateral |
| Reservation.Server.RunHealthJob | backend/src/jobs/healthFactorJob.ts:82-98 | while no alert makes it wait, the loop gives every open loan its reviewed row, leaves the rest alone, keeps exclusivity, and returns the number of rows it changed |
| ConnectionPool.PoolSound | backend/src/utils/connectionPool.ts:41-111 | in every interleaving of runs and closes, no connection is idle twice, leased twice, or idle and leased; idle plus in-use stays within the larger of min and max; until a close the in-use set is exactly what is leased |
| ConnectionPool.RefusedExactlyAtLimit | backend/src/utils/connectionPool.ts:55-74 | before a close, a new run is refused exactly when max connections are leased, and never more are |
| ConnectionPool.StartExactly | backend/src/utils/connectionPool.ts:55-74 | a start takes the connection last put back, makes one when none is idle below the limit, and is refused at it; nothing else changes |
| ConnectionPool.FinishExactly | backend/src/utils/connectionPool.ts:76-110 | the whole pool after the end of a run and after a close |
| ConnectionPool.FinishReturns | backend/src/utils/connectionPool.ts:76-82 | before a close, with min at most max, a finished run's connection goes back on the stack and none is lost |
| ConnectionPool.RoomExactlyWhen | backend/src/utils/connectionPool.ts:76-82 | for any min and max, a release finds room exactly when idle plus in-use was at most max |
| ConnectionPool.StartExceedsExactly | backend/src/utils/connectionPool.ts:65-71 | a start takes the leases above max exactly when max are open and the pool has forgotten one of them |
| ConnectionPool.ExceedsExactly | backend/src/utils/connectionPool.ts:55-82 | from any sound state, some continuation without a close passes max exactly when a lease is forgotten |
| ConnectionPool.CloseExceedsExactly | backend/src/utils/connectionPool.ts:107-110 | after any history with min at most max, a close lets a continuation pass max exactly when a run holds a connection at the time |
| ConnectionPool.Connections.constructor | backend/src/utils/connectionPool.ts:47-53 | min new, distinct connections, none in use |
| ConnectionPool.Connections.Acquire | backend/src/utils/connectionPool.ts:55-74 | takes the top of the stack, else a new connection below the limit, else fails without change, exactly when none is idle and max are in use |
| ConnectionPool.Connections.Release | backend/src/utils/connectionPool.ts:76-82 | no longer in use, and on top of the stack when there is room |
| ConnectionPool.Connections.Close | backend/src/utils/connectionPool.ts:107-110 | nothing idle and nothing in use |
| LendingContract.StellarKraal.Pause | contracts/stellarkraal/src/lib.rs:436-455 | pauses an unpaused contract until now plus the pause duration, or fails when that overflows; nothing else changes |
| LendingContract.StellarKraal.AddLiquidator | contracts/stellarkraal/src/lib.rs:933-953 | adds entry and count, or nothing when listed |
| LendingContract.StellarKraal.RemoveLiquidator | contracts/stellarkraal/src/lib.rs:956-975 | removes entry and count, or nothing when not listed |
| LendingContract.StellarKraal.ProposeUpgrade | contracts/stellarkraal/src/lib.rs:1630-1648 | stores hash and time and publishes them |
| LendingContract.StellarKraal.ExecuteUpgrade | contracts/stellarkraal/src/lib.rs:1652-1679 | after the timelock clears the slot and publishes the hash; else fails without change |
| LendingContract.StellarKraal.CancelUpgrade | contracts/stellarkraal/src/lib.rs:1683-1700 | clears a pending slot and publishes it |
| LendingContract.StellarKraal.RemoveOracle | contracts/stellarkraal/src/lib.rs:1460-1491 | the search and the loan scan remove the listed oracle unless it is the last and a loan is active |
| LendingContract.StellarKraal.SubmitOraclePrices | contracts/stellarkraal/src/lib.rs:1507-1576 | the loops report the specified median, responses and flags, and store the median and the time |
| LendingContract.StellarKraal.SubmitPrice | contracts/stellarkraal/src/lib.rs:1580-1615 | one observation updates sum, count, average and time as specified |
| LendingContract.StellarKraal.UpdateAppraisal | contracts/stellarkraal/src/lib.rs:1037-1081 | sets the owner's collateral value and rolls its history |
| LendingContract.StellarKraal.RequestLoan | contracts/stellarkraal/src/lib.rs:643-744 | checks, sum, price, payout, record, links and events together are the specified step, and a failure anywhere changes nothing |
| LendingContract.StellarKraal.TotalPledged | contracts/stellarkraal/src/lib.rs:670-683 | the loop with its three early exits is the specified sum or first refusal |
| LendingContract.StellarKraal.LinkAll | contracts/stellarkraal/src/lib.rs:719-728 | the loop links exactly the listed collateral |
| LendingContract.StellarKraal.RepayLoan | contracts/stellarkraal/src/lib.rs:753-832 | accrual, split, transfers, status and events together are the specified step |
| LendingContract.StellarKraal.Liquidate | contracts/stellarkraal/src/lib.rs:837-909 | gate, factor, cap, transfer, status and event together are the specified step |
| LendingContract.StellarKraal.QueryHealthFactor | contracts/stellarkraal/src/lib.rs:997-1033 | stale price, past-due and computed cases answer as specified, and only the last writes, to the loan's history |
| LendingContract.Roll | contracts/stellarkraal/src/lib.rs:1018-1028 | the copying loop keeps the newest entries up to the cap |

## Left out

- Soroban host details: TTL extension and archival, event encoding, instruction budgets, signature cryptography.
- The token contract: a transfer moves the whole amount or traps on a negative amount, missing funds or an overflow.
- The reentrancy guard: calls are atomic steps and the abstract token calls nothing back.
- Events of setters, the registry, appraisals and prices: published, but no theorem reads them.
- `execute_upgrade`'s effect on later calls: a replaced program is not the program modelled here.
- `migrate_storage`, `collateral_seized` and the read-only queries: no effect on storage.
- `update_appraisal` and `get_appraisal_history` occur twice in the file (lines 1037-1157); one copy is modelled.
- `TOTAL_BORROWED` and `TOTAL_LIQUIDITY`: never updated, so utilization and rate are functions of parameters.
- Wasm hashes are byte sequences of any length; symbols and ids in the backend are strings.
- Reservation.NoDoublePledge: excludes restores and stale status writes that reopen a loan whose collateral is held, because the promise is false for them; the condition is exact (`Reservation.StepKeepsExactly`).
- Reservation.PassFlagsExactly: takes a health pass as one step, while the job awaits alerts between loans; `Reservation.VisitExactly` is the visit with other steps in between, and `Reservation.PassIsItsVisits` ties the two.
- Reservation.Server.RunHealthJob: is the loop without the awaits, because a method runs as one step; each visit is `Reservation.Server.ReviewListed`, and a visit with other steps before it `Reservation.VisitExactly`.
- Reservation.AdmittedExactly: takes 80 % of the value as an exact floor, without the rounding of a binary 0.8; alerts, and validation beyond non-empty ids and positive amounts, are not modelled.
- ConnectionPool.PoolSound: takes a `run` from acquire to release, so retries, their delays and metrics do not appear.
- Safeguards.ExecutedWasProposed: at the very end of the 64-bit clock the saturated deadline shortens the day, as in the code.
- The fuzz copy of the rate curve is the same formula as the contract's, so one function stands for both.
- HTTP routing, authentication, rate limits, caches, webhooks, cron, the event listener beyond the rows it writes, compound interest and averages, and the whole frontend.
