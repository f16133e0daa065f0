/** Collateral reservation in the backend: create requests that yield half-way, over one shared store. */
module Reservation {
  import opened Numeric
  import opened Wrappers
  import Formulas

  datatype LoanStatus = Active | AtRisk | Repaid | Liquidated

  /** `factor` is the health factor last stored, None for null. */
  datatype LoanRow = LoanRow(
    borrower: string,
    collateralId: string,
    amount: int,
    status: LoanStatus,
    deleted: bool,
    factor: Option<real>)

  datatype Asset = Asset(owner: string, value: int, deleted: bool)

  /** What a create handler keeps across its await. */
  datatype Held = Held(borrower: string, collateralId: string, amount: int)

  datatype Answer = Invalid | NotFound | NotOwner | Conflict | Waiting

  /** The tables, the set of reserved ids, and the handlers suspended at their await. */
  datatype Store = Store(
    assets: map<string, Asset>,
    loans: map<string, LoanRow>,
    pending: set<string>,
    inFlight: map<nat, Held>)

  predicate OpenStatus(s: LoanStatus) {
    s == Active || s == AtRisk
  }

  predicate Open(l: LoanRow) {
    OpenStatus(l.status) && !l.deleted
  }

  predicate Pledged(loans: map<string, LoanRow>, c: string) {
    exists id | id in loans :: loans[id].collateralId == c && Open(loans[id])
  }

  predicate Available(st: Store, c: string) {
    c in st.assets && !st.assets[c].deleted
  }

  // -- the two halves of a create request --------------------------------------------------

  /** Up to the await: look up, check owner, check both reservations and loans, reserve. */
  function Begin(st: Store, req: nat, borrower: string, caller: Option<string>, c: string, requested: int)
    : (Store, Answer)
  {
    if c == "" || requested <= 0 || req in st.inFlight then (st, Invalid)
    else if !Available(st, c) then (st, NotFound)
    else if st.assets[c].owner != (if caller.Some? then caller.value else borrower) then (st, NotOwner)
    else if c in st.pending || Pledged(st.loans, c) then (st, Conflict)
    else
      var amount := Min(requested, st.assets[c].value * 4 / 5);
      (st.(pending := st.pending + {c}, inFlight := st.inFlight[req := Held(borrower, c, amount)]), Waiting)
  }

  /** After the await, whether it succeeded or not: insert on success, release always. */
  function Finish(st: Store, req: nat, built: bool, id: string): Store {
    if req !in st.inFlight then st
    else
      var held := st.inFlight[req];
      st.(pending := st.pending - {held.collateralId},
          inFlight := st.inFlight - {req},
          loans := if built
                   then st.loans[id := LoanRow(held.borrower, held.collateralId, held.amount, Active, false, None)]
                   else st.loans)
  }

  // -- other writers -----------------------------------------------------------------------

  function SetStatus(st: Store, id: string, status: LoanStatus): Store {
    if id !in st.loans then st else st.(loans := st.loans[id := st.loans[id].(status := status)])
  }

  function SetAmount(st: Store, id: string, amount: int): Store {
    if id !in st.loans then st else st.(loans := st.loans[id := st.loans[id].(amount := amount)])
  }

  function SetDeleted(st: Store, id: string, deleted: bool): Store {
    if id !in st.loans then st else st.(loans := st.loans[id := st.loans[id].(deleted := deleted)])
  }

  /** The chain listener inserts loans without a collateral id. */
  function InsertFromChain(st: Store, id: string, borrower: string, amount: int): Store {
    st.(loans := st.loans[id := LoanRow(borrower, "", amount, Active, false, None)])
  }

  /** The value the health job uses: 0 when the collateral is missing or deleted. */
  function ValueOf(assets: map<string, Asset>, c: string): int {
    if c in assets && !assets[c].deleted then assets[c].value else 0
  }

  /** The factor the job computes from a loan row and the collateral's current value. */
  function FactorOf(assets: map<string, Asset>, l: LoanRow): Option<real> {
    Formulas.BackendFactor(ValueOf(assets, l.collateralId), l.amount)
  }

  function RiskOf(assets: map<string, Asset>, l: LoanRow): LoanStatus {
    if Formulas.AtRisk(FactorOf(assets, l)) then AtRisk else Active
  }

  /** The job writes nothing for a listed row that already has the factor and the status it computes. */
  predicate UpToDate(assets: map<string, Asset>, l: LoanRow) {
    l.factor == FactorOf(assets, l) && l.status == RiskOf(assets, l)
  }

  /** One visit of the job to a loan that it listed as `listed`, whatever the loan's row is by now. */
  function Visit(st: Store, id: string, listed: LoanRow): Store {
    if id !in st.loans || UpToDate(st.assets, listed) then st
    else
      var row := st.loans[id].(status := RiskOf(st.assets, listed), factor := FactorOf(st.assets, listed));
      st.(loans := st.loans[id := row])
  }

  function Reviewed(assets: map<string, Asset>, l: LoanRow): LoanRow {
    if Open(l) then l.(status := RiskOf(assets, l), factor := FactorOf(assets, l)) else l
  }

  /** The open loans whose row a review changes. */
  ghost function DueLoans(st: Store): set<string> {
    set id | id in st.loans && Open(st.loans[id]) && !UpToDate(st.assets, st.loans[id])
  }

  /** One pass of the health job, taken as one step. */
  function HealthPass(st: Store): Store {
    st.(loans := map id | id in st.loans :: Reviewed(st.assets, st.loans[id]))
  }

  // -- interleavings -----------------------------------------------------------------------

  datatype Step =
    | BeginRequest(req: nat, borrower: string, caller: Option<string>, c: string, requested: int)
    | FinishRequest(req: nat, built: bool, freshId: string)
    | MarkLiquidated(id: string)
    | RecordRepayment(id: string, amount: int)
    | DeleteLoan(id: string)
    | RunHealthPass
    | ChainLoan(id: string, borrower: string, amount: int)
    | PutAsset(c: string, asset: Asset)
    | RestoreLoan(id: string)
    | StaleVisit(id: string, listed: LoanRow)

  /** A random id is new; every other step is always possible. */
  predicate Enabled(st: Store, step: Step) {
    step.FinishRequest? ==> step.freshId !in st.loans
  }

  function Next(st: Store, step: Step): Store {
    match step
    case BeginRequest(req, borrower, caller, c, requested) => Begin(st, req, borrower, caller, c, requested).0
    case FinishRequest(req, built, id) => Finish(st, req, built, id)
    case MarkLiquidated(id) => SetStatus(st, id, Liquidated)
    case RecordRepayment(id, amount) => SetAmount(st, id, amount)
    case DeleteLoan(id) => SetDeleted(st, id, true)
    case RunHealthPass => HealthPass(st)
    case ChainLoan(id, borrower, amount) => InsertFromChain(st, id, borrower, amount)
    case PutAsset(c, asset) => st.(assets := st.assets[c := asset])
    case RestoreLoan(id) => SetDeleted(st, id, false)
    case StaleVisit(id, listed) => Visit(st, id, listed)
  }

  predicate SamePledge(l: LoanRow, m: LoanRow) {
    Open(l) && Open(m) && l.collateralId == m.collateralId && l.collateralId != ""
  }

  ghost predicate OneOpenLoan(loans: map<string, LoanRow>) {
    forall a, b :: a in loans && b in loans && SamePledge(loans[a], loans[b]) ==> a == b
  }

  /** The reserved ids are exactly those of suspended requests, one request each. */
  ghost predicate ReservedExactly(st: Store) {
    && (forall c :: c in st.pending <==> exists r :: r in st.inFlight && st.inFlight[r].collateralId == c)
    && (forall r, q ::
          r in st.inFlight && q in st.inFlight && st.inFlight[r].collateralId == st.inFlight[q].collateralId ==> r == q)
  }

  /** No collateral backs two open loans, is reserved twice, or is reserved while it backs one. */
  ghost predicate Exclusive(st: Store) {
    && OneOpenLoan(st.loans) && ReservedExactly(st) && "" !in st.pending
    && forall c :: c in st.pending ==> !Pledged(st.loans, c)
  }

  lemma BeginKeeps(st: Store, req: nat, borrower: string, caller: Option<string>, c: string, requested: int)
    requires Exclusive(st)
    ensures Exclusive(Begin(st, req, borrower, caller, c, requested).0)
  {
    var after := Begin(st, req, borrower, caller, c, requested).0;
    if after != st {
      forall d ensures d in after.pending <==> exists r :: r in after.inFlight && after.inFlight[r].collateralId == d {
        if d == c {
          assert after.inFlight[req].collateralId == c;
        } else if d in st.pending {
          var r :| r in st.inFlight && st.inFlight[r].collateralId == d;
          assert after.inFlight[r].collateralId == d;
        }
      }
    }
  }

  lemma FinishKeeps(st: Store, req: nat, built: bool, id: string)
    requires Exclusive(st) && id !in st.loans
    ensures Exclusive(Finish(st, req, built, id))
  {
    if req in st.inFlight {
      var after, c := Finish(st, req, built, id), st.inFlight[req].collateralId;
      assert c in st.pending;
      assert !Pledged(st.loans, c);
      forall d ensures d in after.pending <==> exists r :: r in after.inFlight && after.inFlight[r].collateralId == d {
        if d in after.pending {
          var r :| r in st.inFlight && st.inFlight[r].collateralId == d;
          assert after.inFlight[r].collateralId == d;
        }
      }
      forall d | d in after.pending ensures !Pledged(after.loans, d) {
        assert !Pledged(st.loans, d);
      }
    }
  }

  /** Replacing loan rows so that no new (id, collateral) pair is open keeps exclusivity. */
  lemma FewerOpenKeeps(st: Store, after: Store)
    requires Exclusive(st) && after.pending == st.pending && after.inFlight == st.inFlight
    requires forall id :: id in after.loans && Open(after.loans[id]) && after.loans[id].collateralId != "" ==>
      id in st.loans && Open(st.loans[id]) && st.loans[id].collateralId == after.loans[id].collateralId
    ensures Exclusive(after)
  {
    assert ReservedExactly(after);
    forall c | c in after.pending ensures !Pledged(after.loans, c) {
      assert !Pledged(st.loans, c);
    }
  }

  /** Replacing the row of a closed or deleted loan by an open one whose collateral someone else holds. */
  ghost predicate ReopensHeld(st: Store, id: string, row: LoanRow) {
    && id in st.loans && !Open(st.loans[id]) && Open(row) && row.collateralId != ""
    && (row.collateralId in st.pending || Pledged(st.loans, row.collateralId))
  }

  ghost predicate TakesHeld(st: Store, step: Step) {
    && (step.RestoreLoan? || step.StaleVisit?)
    && step.id in st.loans && ReopensHeld(st, step.id, Next(st, step).loans[step.id])
  }

  /**
   * One step, from an exclusive store: it stays exclusive unless a restore or a stale health visit
   * reopens a loan whose collateral is reserved or pledged; and such a step always breaks it.
   */
  lemma StepKeepsExactly(st: Store, step: Step)
    requires Exclusive(st) && Enabled(st, step)
    ensures Exclusive(Next(st, step)) <==> !TakesHeld(st, step)
  {
    hide Exclusive, ReopensHeld, Begin, Finish, FactorOf, RiskOf, UpToDate;
    match step
    case BeginRequest(req, borrower, caller, c, requested) => BeginKeeps(st, req, borrower, caller, c, requested);
    case FinishRequest(req, built, id) => FinishKeeps(st, req, built, id);
    case RestoreLoan(id) => RewriteIfPresent(st, id, Next(st, step));
    case StaleVisit(id, _) => RewriteIfPresent(st, id, Next(st, step));
    case PutAsset(c, asset) => AssetsDoNotMatter(st, st.assets[c := asset]);
    case RunHealthPass => FewerOpenKeeps(st, HealthPass(st));
    case _ => FewerOpenKeeps(st, Next(st, step));
  }

  lemma AssetsDoNotMatter(st: Store, assets: map<string, Asset>)
    requires Exclusive(st)
    ensures Exclusive(st.(assets := assets))
  {
    assert ReservedExactly(st.(assets := assets));
  }

  lemma RewriteIfPresent(st: Store, id: string, after: Store)
    requires Exclusive(st)
    requires id !in st.loans ==> after == st
    requires id in st.loans ==>
      id in after.loans && after.loans[id].collateralId == st.loans[id].collateralId
      && after == st.(loans := st.loans[id := after.loans[id]])
    ensures Exclusive(after) <==> !(id in st.loans && ReopensHeld(st, id, after.loans[id]))
  {
    if id in st.loans {
      RewriteExactly(st, id, after.loans[id]);
    }
  }

  /** Any new row for a loan, on the same collateral, keeps the store exclusive unless it reopens a held one. */
  lemma RewriteExactly(st: Store, id: string, row: LoanRow)
    requires Exclusive(st) && id in st.loans && row.collateralId == st.loans[id].collateralId
    ensures Exclusive(st.(loans := st.loans[id := row])) <==> !ReopensHeld(st, id, row)
  {
    var after := st.(loans := st.loans[id := row]);
    if !Open(st.loans[id]) && Open(row) {
      var c := row.collateralId;
      assert Pledged(after.loans, c) by { assert after.loans[id] == row; }
      if !ReopensHeld(st, id, row) {
        ReopenedFree(st, after, id);
      } else if Pledged(st.loans, c) {
        var other :| other in st.loans && st.loans[other].collateralId == c && Open(st.loans[other]);
        assert other != id && after.loans[other] == st.loans[other];
        assert !OneOpenLoan(after.loans);
      }
    } else {
      FewerOpenKeeps(st, after);
    }
  }

  lemma ReopenedFree(st: Store, after: Store, id: string)
    requires Exclusive(st) && id in st.loans && id in after.loans && !Open(st.loans[id])
    requires after == st.(loans := st.loans[id := after.loans[id]])
    requires var c := after.loans[id].collateralId; c == "" || (c !in st.pending && !Pledged(st.loans, c))
    ensures Exclusive(after)
  {
    assert ReservedExactly(after);
    forall c | c in after.pending ensures !Pledged(after.loans, c) {
      assert !Pledged(st.loans, c);
    }
  }

  function Run(st: Store, steps: seq<Step>): Store
    decreases |steps|
  {
    if |steps| == 0 then st else Run(Next(st, steps[0]), steps[1..])
  }

  /** Ids are new when used, and no reopening write takes a held collateral. */
  ghost predicate Fair(st: Store, steps: seq<Step>)
    decreases |steps|
  {
    |steps| > 0 ==>
      && Enabled(st, steps[0]) && !TakesHeld(st, steps[0]) && Fair(Next(st, steps[0]), steps[1..])
  }

  /** No collateral is ever double-pledged, in any interleaving of any number of requests and writers. */
  lemma {:induction false} NoDoublePledge(st: Store, steps: seq<Step>)
    requires Exclusive(st) && Fair(st, steps)
    ensures Exclusive(Run(st, steps))
    decreases |steps|
  {
    if |steps| > 0 {
      StepKeepsExactly(st, steps[0]);
      NoDoublePledge(Next(st, steps[0]), steps[1..]);
    }
  }

  /** With atomic health passes and no restores the only requirement left is that random ids are new. */
  ghost predicate FreshIds(st: Store, steps: seq<Step>)
    decreases |steps|
  {
    |steps| > 0 ==>
      && Enabled(st, steps[0]) && !steps[0].RestoreLoan? && !steps[0].StaleVisit?
      && FreshIds(Next(st, steps[0]), steps[1..])
  }

  lemma {:induction false} AtomicWritersAreFair(st: Store, steps: seq<Step>)
    requires FreshIds(st, steps)
    ensures Fair(st, steps)
    decreases |steps|
  {
    if |steps| > 0 {
      AtomicWritersAreFair(Next(st, steps[0]), steps[1..]);
    }
  }

  /** From an empty loan table, the documented promise: no interleaving double-pledges. */
  lemma NoDoublePledgeFromStart(assets: map<string, Asset>, steps: seq<Step>)
    requires FreshIds(Store(assets, map[], {}, map[]), steps)
    ensures Exclusive(Run(Store(assets, map[], {}, map[]), steps))
  {
    AtomicWritersAreFair(Store(assets, map[], {}, map[]), steps);
    NoDoublePledge(Store(assets, map[], {}, map[]), steps);
  }

  /** The caller, else the borrower it names. */
  function UserOf(borrower: string, caller: Option<string>): string {
    match caller
    case Some(user) => user
    case None => borrower
  }

  /** Some request in flight or open loan has the collateral. */
  ghost predicate TakenNow(st: Store, c: string) {
    || (exists r :: r in st.inFlight && st.inFlight[r].collateralId == c)
    || (exists id :: id in st.loans && st.loans[id].collateralId == c && Open(st.loans[id]))
  }

  /** The smaller of what was asked and 80 % of the value rounded down. */
  predicate IsLoanable(amount: int, requested: int, value: int) {
    var tenths := value * 8;
    if requested * 10 <= tenths then amount == requested else amount * 10 <= tenths < amount * 10 + 10
  }

  /**
   * Exactly which answer a request gets, and what it leaves: it is let in when it is well formed, the
   * collateral is there and the caller's, and nobody holds it, and then it alone is reserved, for the
   * borrower named and the amount loanable; any other answer changes nothing.
   */
  lemma AdmittedExactly(st: Store, req: nat, borrower: string, caller: Option<string>, c: string, requested: int)
    requires Exclusive(st)
    ensures var (after, answer) := Begin(st, req, borrower, caller, c, requested);
      var formed := c != "" && 0 < requested && req !in st.inFlight;
      var found := c in st.assets && !st.assets[c].deleted;
      && (answer == Invalid <==> !formed)
      && (answer == NotFound <==> formed && !found)
      && (answer == NotOwner <==> formed && found && st.assets[c].owner != UserOf(borrower, caller))
      && (answer == Conflict <==>
          formed && found && st.assets[c].owner == UserOf(borrower, caller) && TakenNow(st, c))
      && (answer == Waiting <==>
          formed && found && st.assets[c].owner == UserOf(borrower, caller) && !TakenNow(st, c))
      && (answer != Waiting ==> after == st)
      && (answer == Waiting ==>
            && req in after.inFlight
            && IsLoanable(after.inFlight[req].amount, requested, st.assets[c].value)
            && after == st.(pending := st.pending + {c},
                 inFlight := st.inFlight[req := Held(borrower, c, after.inFlight[req].amount)]))
  {
  }

  // -- what happens to an admitted request -------------------------------------------------

  /** The end of a request: a row exactly on success, and the reservation gone either way. */
  lemma FinishExactly(st: Store, req: nat, built: bool, id: string)
    requires req in st.inFlight
    ensures var h := st.inFlight[req];
      var row := LoanRow(h.borrower, h.collateralId, h.amount, Active, false, None);
      Next(st, FinishRequest(req, built, id)) == Store(
        st.assets, if built then st.loans[id := row] else st.loans, st.pending - {h.collateralId},
        st.inFlight - {req})
  {
  }

  /** A failed request leaves the store as it was before it began, when nothing came between. */
  lemma FailureUndoes(st: Store, req: nat, borrower: string, caller: Option<string>, c: string, requested: int,
                      id: string)
    requires Exclusive(st) && Begin(st, req, borrower, caller, c, requested).1 == Waiting
    ensures Next(Next(st, BeginRequest(req, borrower, caller, c, requested)), FinishRequest(req, false, id)) == st
  {
    AdmittedExactly(st, req, borrower, caller, c, requested);
    var held := Next(st, BeginRequest(req, borrower, caller, c, requested));
    FinishExactly(held, req, false, id);
    assert held.pending - {c} == st.pending;
    assert held.inFlight - {req} == st.inFlight;
  }

  predicate Ends(step: Step, req: nat) {
    step.FinishRequest? && step.req == req
  }

  /** No step but its own end touches a request in flight. */
  lemma {:induction false} HeldOverRun(st: Store, steps: seq<Step>, req: nat)
    requires req in st.inFlight && forall i :: 0 <= i < |steps| ==> !Ends(steps[i], req)
    ensures req in Run(st, steps).inFlight && Run(st, steps).inFlight[req] == st.inFlight[req]
    decreases |steps|
  {
    if |steps| > 0 {
      HeldOverRun(Next(st, steps[0]), steps[1..], req);
    }
  }

  /**
   * The whole life of an admitted request, whatever runs between its halves: when it ends it has what
   * it was admitted with, and it adds one row, with that borrower, collateral and amount, active and
   * with no factor, exactly when the await succeeded; either way only its reservation goes.
   */
  lemma RequestLife(st: Store, req: nat, borrower: string, caller: Option<string>, c: string, requested: int,
                    between: seq<Step>, built: bool, id: string)
    requires Exclusive(st) && Begin(st, req, borrower, caller, c, requested).1 == Waiting
    requires forall i :: 0 <= i < |between| ==> !Ends(between[i], req)
    ensures var mid := Run(Next(st, BeginRequest(req, borrower, caller, c, requested)), between);
      && req in mid.inFlight
      && var amount := mid.inFlight[req].amount;
         && c in st.assets && IsLoanable(amount, requested, st.assets[c].value)
         && Next(mid, FinishRequest(req, built, id)) == Store(
              mid.assets,
              if built then mid.loans[id := LoanRow(borrower, c, amount, Active, false, None)] else mid.loans,
              mid.pending - {c}, mid.inFlight - {req})
  {
    AdmittedExactly(st, req, borrower, caller, c, requested);
    var held := Next(st, BeginRequest(req, borrower, caller, c, requested));
    HeldOverRun(held, between, req);
    FinishExactly(Run(held, between), req, built, id);
  }

  /** The ids of the rows that a run inserts: one for each request that finishes successfully, and the chain's. */
  ghost function Inserted(st: Store, steps: seq<Step>): set<string>
    decreases |steps|
  {
    if |steps| == 0 then {}
    else
      var step := steps[0];
      (if step.FinishRequest? && step.req in st.inFlight && step.built then {step.freshId}
       else if step.ChainLoan? then {step.id}
       else {})
      + Inserted(Next(st, step), steps[1..])
  }

  /** In any interleaving, a row is there at the end exactly if it was at the start or was so inserted. */
  lemma {:induction false} RowsExactly(st: Store, steps: seq<Step>)
    ensures Run(st, steps).loans.Keys == st.loans.Keys + Inserted(st, steps)
    decreases |steps|
  {
    if |steps| > 0 {
      StepRows(st, steps[0]);
      RowsExactly(Next(st, steps[0]), steps[1..]);
    }
  }

  lemma StepRows(st: Store, step: Step)
    ensures Next(st, step).loans.Keys == st.loans.Keys
      + (if step.FinishRequest? && step.req in st.inFlight && step.built then {step.freshId}
         else if step.ChainLoan? then {step.id}
         else {})
  {
  }

  /** The origin of a row never changes: no other writer moves a loan to another borrower or collateral. */
  lemma {:induction false} OriginStays(st: Store, steps: seq<Step>, id: string)
    requires id in st.loans && id !in Inserted(st, steps)
    ensures id in Run(st, steps).loans
    ensures Run(st, steps).loans[id].borrower == st.loans[id].borrower
    ensures Run(st, steps).loans[id].collateralId == st.loans[id].collateralId
    decreases |steps|
  {
    if |steps| > 0 {
      StepOrigin(st, steps[0], id);
      OriginStays(Next(st, steps[0]), steps[1..], id);
    }
  }

  lemma StepOrigin(st: Store, step: Step, id: string)
    requires id in st.loans && id !in Inserted(st, [step])
    ensures id in Next(st, step).loans
    ensures Next(st, step).loans[id].borrower == st.loans[id].borrower
    ensures Next(st, step).loans[id].collateralId == st.loans[id].collateralId
  {
    assert [step][1..] == [];
  }

  /** What each other writer does to the row it names, and to nothing else. */
  lemma WritersExactly(st: Store, id: string, amount: int, borrower: string, status: LoanStatus)
    ensures id in st.loans ==>
      var row := st.loans[id];
      && SetStatus(st, id, status) == st.(loans := st.loans[id := row.(status := status)])
      && Next(st, MarkLiquidated(id)) == st.(loans := st.loans[id := row.(status := Liquidated)])
      && Next(st, RecordRepayment(id, amount)) == st.(loans := st.loans[id := row.(amount := amount)])
      && Next(st, DeleteLoan(id)) == st.(loans := st.loans[id := row.(deleted := true)])
      && Next(st, RestoreLoan(id)) == st.(loans := st.loans[id := row.(deleted := false)])
    ensures id !in st.loans ==>
      && SetStatus(st, id, status) == Next(st, MarkLiquidated(id)) == Next(st, RecordRepayment(id, amount)) == st
      && Next(st, DeleteLoan(id)) == Next(st, RestoreLoan(id)) == st
    ensures Next(st, ChainLoan(id, borrower, amount))
            == st.(loans := st.loans[id := LoanRow(borrower, "", amount, Active, false, None)])
  {
  }

  /** The row of a loan of 10 that was just created. */
  function NewRow(owner: string, c: string): LoanRow {
    LoanRow(owner, c, 10, Active, false, None)
  }

  predicate Free(st: Store, c: string, owner: string) {
    && c != "" && c in st.assets && st.assets[c] == Asset(owner, 100, false)
    && c !in st.pending && !Pledged(st.loans, c)
  }

  /** A whole successful create request on a free collateral adds one loan and leaves nothing reserved behind. */
  lemma BorrowOnce(st: Store, req: nat, owner: string, c: string, id: string)
    requires Free(st, c, owner) && req !in st.inFlight
    ensures Finish(Begin(st, req, owner, None, c, 10).0, req, true, id)
            == st.(loans := st.loans[id := NewRow(owner, c)])
  {
    var held := Begin(st, req, owner, None, c, 10).0;
    assert held.inFlight[req] == Held(owner, c, 10);
    assert held.pending - {c} == st.pending;
    assert held.inFlight - {req} == st.inFlight;
  }

  /** A first loan, from an empty table. */
  function FirstLoan(owner: string, c: string, first: string): Store {
    var start := Store(map[c := Asset(owner, 100, false)], map[], {}, map[]);
    Finish(Begin(start, 1, owner, None, c, 10).0, 1, true, first)
  }

  /** The first loan is closed or deleted, and then there is a second loan on the same collateral. */
  function SecondLoan(closing: Step, owner: string, c: string, first: string, second: string): Store {
    Finish(Begin(Next(FirstLoan(owner, c, first), closing), 2, owner, None, c, 10).0, 2, true, second)
  }

  lemma FirstLoanStands(owner: string, c: string, first: string)
    requires c != ""
    ensures FirstLoan(owner, c, first)
            == Store(map[c := Asset(owner, 100, false)], map[first := NewRow(owner, c)], {}, map[])
  {
    var start := Store(map[c := Asset(owner, 100, false)], map[], {}, map[]);
    BorrowOnce(start, 1, owner, c, first);
    assert map[][first := NewRow(owner, c)] == map[first := NewRow(owner, c)];
  }

  lemma SecondLoanStands(closing: Step, owner: string, c: string, first: string, second: string)
    requires c != "" && first != second && (closing == MarkLiquidated(first) || closing == DeleteLoan(first))
    ensures var st := SecondLoan(closing, owner, c, first, second);
      var closed := NewRow(owner, c).(
        status := if closing.DeleteLoan? then Active else Liquidated, deleted := closing.DeleteLoan?);
      && Exclusive(st) && st.assets == map[c := Asset(owner, 100, false)]
      && st.loans == map[first := closed, second := NewRow(owner, c)]
  {
    FirstLoanStands(owner, c, first);
    BorrowOnce(Next(FirstLoan(owner, c, first), closing), 2, owner, c, second);
  }

  /**
   * The promise fails for the two excluded writers. A health job that had listed the new loan before
   * its liquidation, with no factor stored yet, or an admin who restores it after its deletion, leaves
   * two open loans on one collateral.
   */
  lemma StaleVisitAndRestoreDoublePledge(owner: string, c: string, first: string, second: string)
    requires c != "" && first != second
    ensures var listed := NewRow(owner, c);
      var st := SecondLoan(MarkLiquidated(first), owner, c, first, second);
      && FirstLoan(owner, c, first).loans == map[first := listed]
      && Exclusive(st) && !Exclusive(Next(st, StaleVisit(first, listed)))
    ensures var st := SecondLoan(DeleteLoan(first), owner, c, first, second);
      Exclusive(st) && !Exclusive(Next(st, RestoreLoan(first)))
  {
    hide SecondLoan, FirstLoan;
    FirstLoanStands(owner, c, first);
    SecondLoanStands(MarkLiquidated(first), owner, c, first, second);
    SecondLoanStands(DeleteLoan(first), owner, c, first, second);
    var stale := SecondLoan(MarkLiquidated(first), owner, c, first, second);
    Formulas.BackendDecides(100, 10);
    assert RiskOf(stale.assets, NewRow(owner, c)) == Active && FactorOf(stale.assets, NewRow(owner, c)).Some?;
    ReopeningBreaks(stale, StaleVisit(first, NewRow(owner, c)), second);
    ReopeningBreaks(SecondLoan(DeleteLoan(first), owner, c, first, second), RestoreLoan(first), second);
  }

  /** A listing already reviewed at the same amount and value: the visit writes nothing, whatever came between. */
  lemma ReviewedListingWritesNothing(st: Store, id: string, l: LoanRow)
    requires Open(l)
    ensures Next(st, StaleVisit(id, Reviewed(st.assets, l))) == st
  {
    assert UpToDate(st.assets, Reviewed(st.assets, l));
  }

  lemma ReopeningBreaks(st: Store, step: Step, other: string)
    requires step.RestoreLoan? || step.StaleVisit?
    requires step.id in st.loans && other in st.loans && step.id != other
    requires SamePledge(Next(st, step).loans[step.id], st.loans[other])
    ensures !Exclusive(Next(st, step))
  {
    var after := Next(st, step).loans;
    assert after[other] == st.loans[other];
    assert SamePledge(after[step.id], after[other]);
  }

  /** After a pass, an open loan is flagged exactly when its collateral counts and 80 % of it is below the amount. */
  lemma PassFlagsExactly(st: Store, id: string)
    requires id in st.loans && Open(st.loans[id])
    ensures var l := st.loans[id];
      var value := ValueOf(st.assets, l.collateralId);
      && Open(HealthPass(st).loans[id])
      && (HealthPass(st).loans[id].status == AtRisk <==> 0 < value && 0 < l.amount && value * 8 < l.amount * 10)
  {
    RiskMeans(st.assets, st.loans[id]);
  }

  /**
   * One visit of the job to a loan it had listed as `l`, after any number of other steps. It writes
   * nothing exactly when the listing already has the computed factor and status; else it writes both
   * from the listed amount and the value now. It double-pledges exactly when it writes, the loan was
   * closed in between and is not deleted, and its collateral is held again.
   */
  lemma VisitExactly(st: Store, id: string, l: LoanRow)
    requires Exclusive(st) && id in st.loans && st.loans[id].collateralId == l.collateralId
    ensures var after := Next(st, StaleVisit(id, l));
      var row, value := st.loans[id], ValueOf(st.assets, l.collateralId);
      var risky := 0 < value && 0 < l.amount && value * 8 < l.amount * 10;
      var current := l.factor == FactorOf(st.assets, l) && l.status == (if risky then AtRisk else Active);
      && after == (if current then st else st.(loans := st.loans[id := row.(
           status := if risky then AtRisk else Active, factor := FactorOf(st.assets, l))]))
      && (Exclusive(after) <==>
          current || Open(row) || row.deleted || l.collateralId == ""
          || (l.collateralId !in st.pending && !Pledged(st.loans, l.collateralId)))
  {
    StepKeepsExactly(st, StaleVisit(id, l));
    RiskMeans(st.assets, l);
  }

  /** The job's factor is the exact ratio of 8000 times the value to the amount, and null without either. */
  lemma FactorMeans(assets: map<string, Asset>, l: LoanRow)
    ensures var c, factor := l.collateralId, FactorOf(assets, l);
      && (factor.Some? <==> c in assets && !assets[c].deleted && 0 < assets[c].value && 0 < l.amount)
      && (factor.Some? ==> factor.value * l.amount as real == (assets[c].value * 8000) as real)
  {
    var value := ValueOf(assets, l.collateralId);
    if 0 < value && 0 < l.amount {
      Formulas.FactorIsRatio(value, l.amount);
    }
  }

  /** The job's verdict, without real numbers. */
  lemma RiskMeans(assets: map<string, Asset>, l: LoanRow)
    ensures var value := ValueOf(assets, l.collateralId);
      RiskOf(assets, l) == if 0 < value && 0 < l.amount && value * 8 < l.amount * 10 then AtRisk else Active
  {
    var value := ValueOf(assets, l.collateralId);
    if 0 < value && 0 < l.amount {
      Formulas.BackendDecides(value, l.amount);
    }
  }

  /** The visits of a job to the loans it listed. */
  function Visits(st: Store, ids: seq<string>): seq<Step>
    requires forall id :: id in ids ==> id in st.loans
  {
    if |ids| == 0 then [] else [StaleVisit(ids[0], st.loans[ids[0]])] + Visits(st, ids[1..])
  }

  lemma {:induction false} SameVisits(st: Store, other: Store, ids: seq<string>)
    requires forall id :: id in ids ==> id in st.loans && id in other.loans && st.loans[id] == other.loans[id]
    requires st.assets == other.assets
    ensures Visits(st, ids) == Visits(other, ids)
  {
    if |ids| > 0 {
      SameVisits(st, other, ids[1..]);
    }
  }

  function PartPass(st: Store, ids: seq<string>): Store {
    st.(loans := map id | id in st.loans :: if id in ids then Reviewed(st.assets, st.loans[id]) else st.loans[id])
  }

  lemma {:induction false} VisitsArePart(st: Store, ids: seq<string>)
    requires Distinct(ids) && forall id :: id in ids ==> id in st.loans && Open(st.loans[id])
    ensures Run(st, Visits(st, ids)) == PartPass(st, ids)
    decreases |ids|
  {
    hide RiskOf, FactorOf, UpToDate;
    if |ids| > 0 {
      VisitReviews(st, ids[0]);
      var next := Next(st, Visits(st, ids)[0]);
      assert next == st.(loans := st.loans[ids[0] := Reviewed(st.assets, st.loans[ids[0]])]);
      hide Visit, Reviewed;
      var rest := ids[1..];
      assert forall id :: id in rest ==> id in ids && id != ids[0];
      SameVisits(st, next, rest);
      VisitsArePart(next, rest);
      assert Visits(st, ids)[1..] == Visits(next, rest);
      assert forall id :: id in ids <==> id == ids[0] || id in rest;
      assert PartPass(next, rest).loans == PartPass(st, ids).loans;
    } else {
      assert PartPass(st, ids).loans == st.loans;
    }
  }

  /** When nothing comes between its visits, a job over any listing of the open loans is the one-step pass. */
  lemma PassIsItsVisits(st: Store, ids: seq<string>)
    requires Distinct(ids) && forall id :: id in ids <==> id in st.loans && Open(st.loans[id])
    ensures Run(st, Visits(st, ids)) == HealthPass(st)
  {
    VisitsArePart(st, ids);
    assert PartPass(st, ids).loans == HealthPass(st).loans;
  }

  // -- the module-level state --------------------------------------------------------------

  /** The module-level tables and set, written in place by the handler halves and the store functions. */
  class Server {
    var assets: map<string, Asset>
    var loans: map<string, LoanRow>
    var pendingPledges: set<string>
    var inFlight: map<nat, Held>

    function View(): Store
      reads this
    {
      Store(assets, loans, pendingPledges, inFlight)
    }

    constructor (assets: map<string, Asset>)
      ensures View() == Store(assets, map[], {}, map[]) && Exclusive(View())
    {
      this.assets, loans, pendingPledges, inFlight := assets, map[], {}, map[];
    }

    method BeginCreate(req: nat, borrower: string, caller: Option<string>, c: string, requested: int)
      returns (answer: Answer)
      modifies this
      ensures (View(), answer) == Begin(old(View()), req, borrower, caller, c, requested)
      ensures old(Exclusive(View())) ==> Exclusive(View())
    {
      BeginKeepsIfExclusive(View(), req, borrower, caller, c, requested);
      if c == "" || requested <= 0 || req in inFlight { return Invalid; }
      if !(c in assets && !assets[c].deleted) { return NotFound; }
      var user := if caller.Some? then caller.value else borrower;
      if assets[c].owner != user { return NotOwner; }
      var pledged := IsCollateralPledged(c);
      if c in pendingPledges || pledged { return Conflict; }
      pendingPledges := pendingPledges + {c};
      var maxLoanAmount := assets[c].value * 4 / 5;
      var loanAmount := if requested <= maxLoanAmount then requested else maxLoanAmount;
      inFlight := inFlight[req := Held(borrower, c, loanAmount)];
      return Waiting;
    }

    method FinishCreate(req: nat, built: bool, id: string)
      requires id !in loans
      modifies this
      ensures View() == Finish(old(View()), req, built, id)
      ensures old(Exclusive(View())) ==> Exclusive(View())
    {
      FinishKeepsIfExclusive(View(), req, built, id);
      if req in inFlight {
        var held := inFlight[req];
        if built {
          loans := loans[id := LoanRow(held.borrower, held.collateralId, held.amount, Active, false, None)];
        }
        pendingPledges := pendingPledges - {held.collateralId};
        inFlight := inFlight - {req};
      }
    }

    /** The scan over all loans. */
    method IsCollateralPledged(c: string) returns (pledged: bool)
      ensures pledged == Pledged(loans, c)
    {
      var todo := loans.Keys;
      while todo != {}
        invariant todo <= loans.Keys
        invariant forall id :: id in loans && id !in todo ==> !(loans[id].collateralId == c && Open(loans[id]))
      {
        var id :| id in todo;
        if loans[id].collateralId == c && Open(loans[id]) { return true; }
        todo := todo - {id};
      }
      return false;
    }

    /** Keeps exclusivity exactly when it does not reopen a loan whose collateral someone else holds. */
    method UpdateStatus(id: string, status: LoanStatus)
      modifies this`loans
      ensures View() == SetStatus(old(View()), id, status)
      ensures old(Exclusive(View())) && id in old(loans) ==>
        (Exclusive(View()) <==> !old(ReopensHeld(View(), id, loans[id].(status := status))))
    {
      if id in loans {
        RewriteIfExclusive(View(), id, loans[id].(status := status));
        loans := loans[id := loans[id].(status := status)];
      }
    }

    method SoftDelete(id: string) returns (ok: bool)
      modifies this`loans
      ensures View() == SetDeleted(old(View()), id, true)
      ensures ok <==> id in old(loans) && !old(loans)[id].deleted
      ensures old(Exclusive(View())) ==> Exclusive(View())
    {
      StepKeepsIfExclusive(View(), DeleteLoan(id));
      ok := id in loans && !loans[id].deleted;
      if ok {
        loans := loans[id := loans[id].(deleted := true)];
      } else if id in loans {
        assert loans[id := loans[id].(deleted := true)] == loans;
      }
    }

    /** One visit of the health job, which no other handler can interrupt; `listed` may be out of date. */
    method ReviewListed(id: string, listed: LoanRow) returns (updated: bool)
      modifies this`loans
      ensures View() == Visit(old(View()), id, listed)
      ensures updated <==> !UpToDate(assets, listed)
      ensures old(Exclusive(View())) ==> (Exclusive(View()) <==> !old(TakesHeld(View(), StaleVisit(id, listed))))
    {
      StepKeepsIfExclusive(View(), StaleVisit(id, listed));
      var factor := FactorOf(assets, listed);
      var status := RiskOf(assets, listed);
      updated := listed.factor != factor || listed.status != status;
      if updated && id in loans {
        loans := loans[id := loans[id].(status := status, factor := factor)];
      }
    }

    /** One turn of the loop over the listed loans, when the listing is still up to date. */
    method ReviewIfOpen(id: string) returns (updated: bool)
      requires id in loans
      modifies this`loans
      ensures loans == old(loans)[id := Reviewed(assets, old(loans)[id])]
      ensures updated <==> Open(old(loans)[id]) && !UpToDate(assets, old(loans)[id])
    {
      updated := false;
      if Open(loans[id]) {
        VisitReviews(View(), id);
        updated := ReviewListed(id, loans[id]);
      } else {
        assert loans[id := loans[id]] == loans;
      }
    }

    /** The whole job while no alert makes it wait: the loans still to do are as they were listed. */
    method RunHealthJob() returns (updated: nat)
      modifies this`loans
      ensures View() == HealthPass(old(View()))
      ensures updated == |DueLoans(old(View()))|
      ensures old(Exclusive(View())) ==> Exclusive(View())
    {
      hide Exclusive, Reviewed, UpToDate, Open, DueLoans, HealthPass;
      ghost var start := View();
      ghost var written: set<string> := {};
      updated := 0;
      var todo := loans.Keys;
      DueExactly(start);
      while todo != {}
        invariant todo <= start.loans.Keys && loans.Keys == start.loans.Keys && updated == |written|
        invariant forall id :: id in written <==> id in DueLoans(start) && id !in todo
        invariant forall id :: id in start.loans ==>
          loans[id] == if id in todo then start.loans[id] else Reviewed(assets, start.loans[id])
      {
        var id :| id in todo;
        var changed := ReviewIfOpen(id);
        if changed {
          updated := updated + 1;
          written := written + {id};
        }
        todo := todo - {id};
      }
      PassReviewsAll(start, loans);
      PassKeepsIfExclusive(start);
      assert written == DueLoans(start);
    }
  }

  lemma DueExactly(st: Store)
    ensures forall id ::
      id in DueLoans(st) <==> id in st.loans && Open(st.loans[id]) && !UpToDate(st.assets, st.loans[id])
  {
  }

  lemma VisitReviews(st: Store, id: string)
    requires id in st.loans && Open(st.loans[id])
    ensures Visit(st, id, st.loans[id]) == st.(loans := st.loans[id := Reviewed(st.assets, st.loans[id])])
  {
    if UpToDate(st.assets, st.loans[id]) {
      assert st.loans[id := Reviewed(st.assets, st.loans[id])] == st.loans;
    }
  }

  /** A row that is not open is its own review, so reviewing the open rows reviews them all. */
  lemma PassReviewsAll(st: Store, loans: map<string, LoanRow>)
    requires loans.Keys == st.loans.Keys
    requires forall id :: id in loans ==> loans[id] == Reviewed(st.assets, st.loans[id])
    ensures st.(loans := loans) == HealthPass(st)
  {
    assert loans == HealthPass(st).loans;
  }

  lemma PassKeepsIfExclusive(st: Store)
    ensures Exclusive(st) ==> Exclusive(HealthPass(st))
  {
    StepKeepsIfExclusive(st, RunHealthPass);
  }

  lemma RewriteIfExclusive(st: Store, id: string, row: LoanRow)
    requires id in st.loans && row.collateralId == st.loans[id].collateralId
    ensures Exclusive(st) ==> (Exclusive(st.(loans := st.loans[id := row])) <==> !ReopensHeld(st, id, row))
  {
    if Exclusive(st) { RewriteExactly(st, id, row); }
  }

  lemma StepKeepsIfExclusive(st: Store, step: Step)
    requires Enabled(st, step)
    ensures Exclusive(st) ==> (Exclusive(Next(st, step)) <==> !TakesHeld(st, step))
  {
    if Exclusive(st) { StepKeepsExactly(st, step); }
  }

  lemma BeginKeepsIfExclusive(st: Store, req: nat, borrower: string, caller: Option<string>, c: string, requested: int)
    ensures Exclusive(st) ==> Exclusive(Begin(st, req, borrower, caller, c, requested).0)
  {
    if Exclusive(st) { BeginKeeps(st, req, borrower, caller, c, requested); }
  }

  lemma FinishKeepsIfExclusive(st: Store, req: nat, built: bool, id: string)
    requires id !in st.loans
    ensures Exclusive(st) ==> Exclusive(Finish(st, req, built, id))
  {
    if Exclusive(st) { FinishKeeps(st, req, built, id); }
  }
}
