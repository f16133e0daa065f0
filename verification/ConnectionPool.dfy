/** The RPC connection pool: a stack of idle connections, a set of leased ones, and interleaved runs. */
module ConnectionPool {
  import opened Numeric
  import opened Wrappers

  datatype Pool<!T(==)> = Pool(idle: seq<T>, inUse: set<T>)

  /** `acquire`: the top of the stack, else a connection made for the occasion while the limit allows, else nothing. */
  function Acquired<T>(p: Pool<T>, max: nat, made: T): (Pool<T>, Option<T>) {
    if |p.idle| > 0 then
      var conn := p.idle[|p.idle| - 1];
      (Pool(p.idle[..|p.idle| - 1], p.inUse + {conn}), Some(conn))
    else if |p.inUse| < max then (Pool([], p.inUse + {made}), Some(made))
    else (p, None)
  }

  /** `release`: back on the stack if there is room for it. */
  function Released<T>(p: Pool<T>, max: nat, conn: T): Pool<T> {
    var inUse := p.inUse - {conn};
    if |p.idle| + |inUse| < max then Pool(p.idle + [conn], inUse) else Pool(p.idle, inUse)
  }

  // -- the object --------------------------------------------------------------------------

  class Server {
    constructor () { }
  }

  class Connections {
    var pool: seq<Server>
    var inUse: set<Server>
    const min: nat
    const max: nat

    function View(): Pool<Server>
      reads this
    {
      Pool(pool, inUse)
    }

    constructor (min: nat, max: nat)
      ensures this.min == min && this.max == max
      ensures |pool| == min && inUse == {}
      ensures forall i, j :: 0 <= i < j < |pool| ==> pool[i] != pool[j]
      ensures forall c :: c in pool ==> fresh(c)
    {
      this.min, this.max := min, max;
      pool, inUse := [], {};
      new;
      for i := 0 to min
        invariant |pool| == i && inUse == {} && this.min == min && this.max == max
        invariant forall j, k :: 0 <= j < k < |pool| ==> pool[j] != pool[k]
        invariant forall c :: c in pool ==> fresh(c)
      {
        var conn := new Server();
        pool := pool + [conn];
      }
    }

    /** None stands for the exhaustion error. */
    method Acquire() returns (r: Option<Server>)
      modifies this
      ensures r.Some? ==> (View(), r) == Acquired(old(View()), max, r.value)
      ensures r.None? ==> View() == old(View())
      ensures r.None? <==> old(pool) == [] && |old(inUse)| >= max
      ensures r.Some? && old(pool) == [] ==> fresh(r.value) && pool == [] && inUse == old(inUse) + {r.value}
      ensures old(pool) != [] ==>
        var last := |old(pool)| - 1;
        r == Some(old(pool)[last]) && pool == old(pool)[..last] && inUse == old(inUse) + {old(pool)[last]}
    {
      if |pool| > 0 {
        var conn := pool[|pool| - 1];
        pool := pool[..|pool| - 1];
        inUse := inUse + {conn};
        return Some(conn);
      }
      if |inUse| < max {
        var conn := new Server();
        inUse := inUse + {conn};
        return Some(conn);
      }
      return None;
    }

    method Release(conn: Server)
      modifies this
      ensures View() == Released(old(View()), max, conn)
      ensures inUse == old(inUse) - {conn}
      ensures pool == if |old(pool)| + |inUse| < max then old(pool) + [conn] else old(pool)
    {
      inUse := inUse - {conn};
      if |pool| + |inUse| < max {
        pool := pool + [conn];
      }
    }

    method Close()
      modifies this
      ensures View() == Pool([], {})
    {
      pool := [];
      inUse := {};
    }
  }

  // -- interleaved runs --------------------------------------------------------------------

  /**
   * Any number of `run` calls, each holding its connection from its acquire to its release however
   * often it retries. Connections are numbered in the order they are made.
   */
  datatype System = System(pool: Pool<nat>, leases: map<nat, nat>, made: nat, closed: bool)

  datatype Event = Start(run: nat) | Finish(run: nat) | Close

  function Step(s: System, max: nat, e: Event): System {
    match e
    case Start(run) =>
      if run in s.leases then s
      else
        var (pool, conn) := Acquired(s.pool, max, s.made);
        if conn.None? then s
        else s.(pool := pool, leases := s.leases[run := conn.value],
                made := if conn.value == s.made then s.made + 1 else s.made)
    case Finish(run) =>
      if run !in s.leases then s
      else s.(pool := Released(s.pool, max, s.leases[run]), leases := s.leases - {run})
    case Close => s.(pool := Pool([], {}), closed := true)
  }

  function Run(s: System, max: nat, events: seq<Event>): System
    decreases |events|
  {
    if |events| == 0 then s else Run(Step(s, max, events[0]), max, events[1..])
  }

  /** A new pool of `min` connections. */
  function Opened(min: nat): System {
    System(Pool(seq(min, i => i), {}), map[], min, false)
  }

  ghost predicate Exclusive(leases: map<nat, nat>) {
    forall r, q :: r in leases && q in leases && leases[r] == leases[q] ==> r == q
  }

  /** Idle connections have been made and are held by no run. */
  ghost predicate IdleOk(idle: seq<nat>, leases: map<nat, nat>, made: nat) {
    forall c :: c in idle ==> c < made && c !in leases.Values
  }

  ghost predicate LeasesMade(leases: map<nat, nat>, made: nat) {
    forall r :: r in leases ==> leases[r] < made
  }

  /**
   * No connection is idle twice, leased twice, or idle and leased at once; the pool's own count
   * never exceeds its capacity; and until it is closed, what it counts as in use is what is leased.
   */
  ghost predicate Sound(s: System, cap: nat) {
    && Distinct(s.pool.idle) && Exclusive(s.leases)
    && IdleOk(s.pool.idle, s.leases, s.made) && LeasesMade(s.leases, s.made)
    && s.pool.inUse <= s.leases.Values
    && |s.pool.idle| + |s.pool.inUse| <= cap
    && (!s.closed ==> s.pool.inUse == s.leases.Values)
  }

  /**
   * What one start does: nothing for a run that already holds a connection; else it takes the
   * connection last put back; with none idle it makes one, below the limit; at the limit it is refused.
   */
  lemma StartExactly(s: System, max: nat, cap: nat, run: nat)
    requires Sound(s, cap)
    ensures var idle, inUse, last, next := s.pool.idle, s.pool.inUse, |s.pool.idle| - 1, Step(s, max, Start(run));
      && (run in s.leases ==> next == s)
      && (run !in s.leases && idle != [] ==>
            next == s.(pool := Pool(idle[..last], inUse + {idle[last]}), leases := s.leases[run := idle[last]]))
      && (run !in s.leases && idle == [] && |inUse| < max ==>
            next == System(Pool([], inUse + {s.made}), s.leases[run := s.made], s.made + 1, s.closed))
      && (run !in s.leases && idle == [] && max <= |inUse| ==> next == s)
  {
    if s.pool.idle != [] {
      assert s.pool.idle[|s.pool.idle| - 1] in s.pool.idle;
    }
  }

  /** What the end of a run and a close do. */
  lemma FinishExactly(s: System, max: nat, run: nat)
    requires run in s.leases
    ensures var conn, idle := s.leases[run], s.pool.idle;
      var inUse := s.pool.inUse - {conn};
      && Step(s, max, Finish(run)) == s.(
           pool := Pool(if |idle| + |inUse| < max then idle + [conn] else idle, inUse), leases := s.leases - {run})
      && Step(s, max, Close) == s.(pool := Pool([], {}), closed := true)
  {
  }

  lemma LeaseAdded(leases: map<nat, nat>, run: nat, conn: nat)
    requires Exclusive(leases) && run !in leases && conn !in leases.Values
    ensures Exclusive(leases[run := conn]) && leases[run := conn].Values == leases.Values + {conn}
  {
    var after := leases[run := conn];
    forall c | c in leases.Values + {conn} ensures c in after.Values {
      if c != conn {
        var r :| r in leases && leases[r] == c;
        assert after[r] == c;
      } else {
        assert after[run] == conn;
      }
    }
  }

  lemma StartKeeps(s: System, max: nat, cap: nat, run: nat)
    requires Sound(s, cap) && max <= cap
    ensures Sound(Step(s, max, Start(run)), cap)
  {
    if run !in s.leases {
      if |s.pool.idle| > 0 {
        PopKeeps(s, max, cap, run);
      } else if |s.pool.inUse| < max {
        MakeKeeps(s, max, cap, run);
      }
    }
  }

  /** A connection just made is held by no run. */
  lemma FreshOk(leases: map<nat, nat>, made: nat, run: nat)
    requires LeasesMade(leases, made)
    ensures made !in leases.Values && LeasesMade(leases[run := made], made + 1)
    ensures IdleOk([], leases[run := made], made + 1) && Distinct<nat>([])
  {
  }

  lemma MakeKeeps(s: System, max: nat, cap: nat, run: nat)
    requires Sound(s, cap) && max <= cap && run !in s.leases && |s.pool.idle| == 0 && |s.pool.inUse| < max
    ensures Sound(Step(s, max, Start(run)), cap)
  {
    hide Distinct, Exclusive, IdleOk, LeasesMade;
    FreshOk(s.leases, s.made, run);
    LeaseAdded(s.leases, run, s.made);
    assert Step(s, max, Start(run))
      == System(Pool([], s.pool.inUse + {s.made}), s.leases[run := s.made], s.made + 1, s.closed);
    assert |s.pool.inUse + {s.made}| <= |s.pool.inUse| + 1;
  }

  /** Taking the last idle connection leaves the others distinct, made and free. */
  lemma FrontOk(idle: seq<nat>, leases: map<nat, nat>, made: nat, run: nat)
    requires Distinct(idle) && |idle| > 0 && IdleOk(idle, leases, made) && LeasesMade(leases, made)
    requires Exclusive(leases) && run !in leases
    ensures var conn := idle[|idle| - 1];
      var after := leases[run := conn];
      && Distinct(idle[..|idle| - 1]) && IdleOk(idle[..|idle| - 1], after, made) && LeasesMade(after, made)
      && conn !in leases.Values && conn < made
  {
    var last := |idle| - 1;
    var front, conn := idle[..last], idle[last];
    assert conn in idle;
    LeaseAdded(leases, run, conn);
    forall c | c in front ensures c < made && c !in leases[run := conn].Values {
      assert c in idle && c != conn;
    }
  }

  lemma PopKeeps(s: System, max: nat, cap: nat, run: nat)
    requires Sound(s, cap) && run !in s.leases && |s.pool.idle| > 0
    ensures Sound(Step(s, max, Start(run)), cap)
  {
    hide Distinct, Exclusive, IdleOk, LeasesMade;
    var last := |s.pool.idle| - 1;
    var idle, conn := s.pool.idle[..last], s.pool.idle[last];
    FrontOk(s.pool.idle, s.leases, s.made, run);
    LeaseAdded(s.leases, run, conn);
    assert Step(s, max, Start(run))
      == System(Pool(idle, s.pool.inUse + {conn}), s.leases[run := conn], s.made, s.closed);
    assert |s.pool.inUse + {conn}| <= |s.pool.inUse| + 1;
  }

  lemma LeaseRemoved(leases: map<nat, nat>, run: nat)
    requires Exclusive(leases) && run in leases
    ensures Exclusive(leases - {run}) && (leases - {run}).Values == leases.Values - {leases[run]}
  {
    var after := leases - {run};
    forall c | c in leases.Values - {leases[run]} ensures c in after.Values {
      var r :| r in leases && leases[r] == c;
      assert after[r] == c;
    }
  }

  lemma FinishKeeps(s: System, max: nat, cap: nat, run: nat)
    requires Sound(s, cap) && max <= cap
    ensures Sound(Step(s, max, Finish(run)), cap)
  {
    if run in s.leases {
      var conn := s.leases[run];
      var idle, inUse := s.pool.idle, s.pool.inUse - {conn};
      LeaseRemoved(s.leases, run);
      assert conn !in idle;
      if |idle| + |inUse| < max {
        assert Distinct(idle + [conn]);
        assert Step(s, max, Finish(run)) == System(Pool(idle + [conn], inUse), s.leases - {run}, s.made, s.closed);
      } else {
        assert |inUse| <= |s.pool.inUse|;
        assert Step(s, max, Finish(run)) == System(Pool(idle, inUse), s.leases - {run}, s.made, s.closed);
      }
    }
  }

  lemma {:induction false} RunKeeps(s: System, max: nat, cap: nat, events: seq<Event>)
    requires Sound(s, cap) && max <= cap
    ensures Sound(Run(s, max, events), cap)
    decreases |events|
  {
    if |events| > 0 {
      match events[0] {
        case Start(run) => StartKeeps(s, max, cap, run);
        case Finish(run) => FinishKeeps(s, max, cap, run);
        case Close =>
      }
      RunKeeps(Step(s, max, events[0]), max, cap, events[1..]);
    }
  }

  /** Every interleaving of runs and closes of a new pool is sound, at the larger of the two limits. */
  lemma PoolSound(min: nat, max: nat, events: seq<Event>)
    ensures Sound(Run(Opened(min), max, events), Max(min, max))
  {
    RunKeeps(Opened(min), max, Max(min, max), events);
  }

  lemma {:induction false} LeaseCount(leases: map<nat, nat>)
    requires Exclusive(leases)
    ensures |leases.Values| == |leases|
  {
    if leases != map[] {
      var r :| r in leases;
      var rest := leases - {r};
      LeaseRemoved(leases, r);
      assert leases.Values == rest.Values + {leases[r]};
      LeaseCount(rest);
      assert leases.Keys == rest.Keys + {r};
    }
  }

  ghost predicate NotClosed(events: seq<Event>) {
    forall i :: 0 <= i < |events| ==> !events[i].Close?
  }

  lemma {:induction false} StaysOpen(s: System, max: nat, events: seq<Event>)
    requires NotClosed(events)
    ensures Run(s, max, events).closed == s.closed
    decreases |events|
  {
    if |events| > 0 {
      StaysOpen(Step(s, max, events[0]), max, events[1..]);
    }
  }

  /** Until a close, a new run is refused exactly when `max` runs hold connections, and never more than `max` do. */
  lemma RefusedExactlyAtLimit(min: nat, max: nat, events: seq<Event>, run: nat)
    requires min <= max && NotClosed(events)
    ensures var s := Run(Opened(min), max, events);
      && |s.leases| <= max
      && (run !in s.leases ==> (run !in Step(s, max, Start(run)).leases <==> |s.leases| == max))
  {
    PoolSound(min, max, events);
    StaysOpen(Opened(min), max, events);
    LeaseCount(Run(Opened(min), max, events).leases);
  }

  /** Until a close, a finished run puts its connection on top of the stack, and nothing is ever lost. */
  lemma FinishReturns(min: nat, max: nat, events: seq<Event>, run: nat)
    requires min <= max && NotClosed(events)
    requires run in Run(Opened(min), max, events).leases
    ensures var s := Run(Opened(min), max, events);
      var after := Step(s, max, Finish(run));
      && after.pool == Pool(s.pool.idle + [s.leases[run]], s.pool.inUse - {s.leases[run]})
      && |after.pool.idle| + |after.leases| == |s.pool.idle| + |s.leases|
  {
    var s := Run(Opened(min), max, events);
    PoolSound(min, max, events);
    StaysOpen(Opened(min), max, events);
    FinishKeeps(s, max, max, run);
    LeaseCount(s.leases);
    LeaseCount(Step(s, max, Finish(run)).leases);
    assert |s.pool.inUse - {s.leases[run]}| == |s.pool.inUse| - 1;
  }

  /** A release finds room exactly when the pool, its own lease included, is not above `max`. */
  lemma RoomExactlyWhen(s: System, max: nat, cap: nat, run: nat)
    requires Sound(s, cap) && !s.closed && run in s.leases
    ensures s.leases[run] in Step(s, max, Finish(run)).pool.idle <==> |s.pool.idle| + |s.pool.inUse| <= max
  {
    assert s.leases[run] in s.pool.inUse;
    assert |s.pool.inUse - {s.leases[run]}| == |s.pool.inUse| - 1;
    assert s.leases[run] !in s.pool.idle;
  }

  // -- when the limit fails after a close --------------------------------------------------

  /** Some continuation without another close ends with more runs holding connections than the limit. */
  ghost predicate CanExceed(s: System, max: nat) {
    exists later :: NotClosed(later) && |Run(s, max, later).leases| > max
  }

  /** A start that is not refused leases a connection that nobody holds. */
  lemma StartLeases(s: System, max: nat, run: nat) returns (conn: nat)
    requires Sound(s, max) && run !in s.leases && |s.pool.inUse| < max
    ensures conn !in s.leases.Values && conn !in s.pool.inUse
    ensures var next := Step(s, max, Start(run));
      next.leases == s.leases[run := conn] && next.pool.inUse == s.pool.inUse + {conn}
  {
    hide Distinct, Exclusive;
    conn := s.made;
    if |s.pool.idle| > 0 {
      conn := s.pool.idle[|s.pool.idle| - 1];
      assert conn in s.pool.idle;
    }
  }

  /** It adds one to both counts and remembers no lease that was forgotten. */
  lemma StartTakes(s: System, max: nat, run: nat)
    requires Sound(s, max) && run !in s.leases && |s.pool.inUse| < max
    ensures var next := Step(s, max, Start(run));
      && |next.pool.inUse| == |s.pool.inUse| + 1 && |next.leases| == |s.leases| + 1
      && (s.pool.inUse != s.leases.Values ==> next.pool.inUse != next.leases.Values)
  {
    var conn := StartLeases(s, max, run);
    assert Exclusive(s.leases) && s.pool.inUse <= s.leases.Values;
    hide Step, Sound, Exclusive;
    var next := Step(s, max, Start(run));
    LeaseAdded(s.leases, run, conn);
    assert next.leases.Keys == s.leases.Keys + {run};
    StillForgotten(s.pool.inUse, s.leases.Values, conn);
  }

  lemma StillForgotten(inUse: set<nat>, leased: set<nat>, conn: nat)
    requires inUse <= leased && conn !in leased
    ensures inUse + {conn} == leased + {conn} ==> inUse == leased
    ensures |inUse + {conn}| == |inUse| + 1
  {
    if inUse + {conn} == leased + {conn} {
      forall c | c in leased ensures c in inUse {
        assert c in inUse + {conn};
      }
    }
  }

  /** One start passes the limit exactly when the limit is reached and the pool has forgotten a lease. */
  lemma StartExceedsExactly(s: System, max: nat, run: nat)
    requires Sound(s, max) && |s.leases| <= max && run !in s.leases
    ensures |Step(s, max, Start(run)).leases| > max <==> |s.leases| == max && s.pool.inUse != s.leases.Values
  {
    LeaseCount(s.leases);
    if |s.pool.inUse| < max {
      StartTakes(s, max, run);
    }
    if s.pool.inUse != s.leases.Values {
      ForgottenCount(s.pool.inUse, s.leases.Values);
    }
  }

  lemma ForgottenCount(inUse: set<nat>, leased: set<nat>)
    requires inUse <= leased && inUse != leased
    ensures |inUse| < |leased|
  {
    var c :| c in leased && c !in inUse;
    assert |inUse + {c}| == |inUse| + 1 && inUse + {c} <= leased;
    assert leased == (inUse + {c}) + (leased - (inUse + {c}));
  }

  lemma {:induction false} NewRun(keys: set<nat>) returns (run: nat)
    ensures forall k :: k in keys ==> k < run
  {
    run := 0;
    if keys != {} {
      var k :| k in keys;
      var rest := NewRun(keys - {k});
      run := rest + k + 1;
      assert keys == (keys - {k}) + {k};
    }
  }

  /** Once a lease is forgotten, starting fresh runs until the pool is full passes the limit. */
  lemma {:induction false} FillUp(s: System, max: nat) returns (later: seq<Event>)
    requires Sound(s, max) && s.pool.inUse != s.leases.Values
    ensures NotClosed(later) && |Run(s, max, later).leases| > max
    decreases max - |s.pool.inUse|
  {
    if |s.pool.inUse| == max {
      ForgottenCount(s.pool.inUse, s.leases.Values);
      LeaseCount(s.leases);
      later := [];
    } else {
      var run := NewRun(s.leases.Keys);
      StartKeeps(s, max, max, run);
      StartTakes(s, max, run);
      var rest := FillUp(Step(s, max, Start(run)), max);
      later := [Start(run)] + rest;
      assert later[1..] == rest;
    }
  }

  lemma {:induction false} ClosedIsOnlyAMark(s: System, max: nat, events: seq<Event>, mark: bool)
    requires NotClosed(events)
    ensures Run(s.(closed := mark), max, events) == Run(s, max, events).(closed := mark)
    decreases |events|
  {
    if |events| > 0 {
      assert Step(s.(closed := mark), max, events[0]) == Step(s, max, events[0]).(closed := mark);
      ClosedIsOnlyAMark(Step(s, max, events[0]), max, events[1..], mark);
    }
  }

  lemma NoneForgotten(s: System, max: nat, later: seq<Event>)
    requires Sound(s, max) && s.pool.inUse == s.leases.Values && NotClosed(later)
    ensures |Run(s, max, later).leases| <= max
  {
    var open := s.(closed := false);
    ClosedIsOnlyAMark(s, max, later, false);
    RunKeeps(open, max, max, later);
    StaysOpen(open, max, later);
    LeaseCount(Run(open, max, later).leases);
  }

  /** More than `max` runs can come to hold connections exactly when the pool has forgotten a lease. */
  lemma ExceedsExactly(s: System, max: nat)
    requires Sound(s, max)
    ensures CanExceed(s, max) <==> s.pool.inUse != s.leases.Values
  {
    if s.pool.inUse == s.leases.Values {
      forall later | NotClosed(later) ensures |Run(s, max, later).leases| <= max {
        NoneForgotten(s, max, later);
      }
    } else {
      var later := FillUp(s, max);
    }
  }

  /**
   * In any history of a pool, closes included, the limit can still be passed exactly when some lease
   * is forgotten; and a close lets that happen exactly when a run holds a connection at the time.
   */
  lemma CloseExceedsExactly(min: nat, max: nat, events: seq<Event>)
    requires min <= max
    ensures var s := Run(Opened(min), max, events);
      && (CanExceed(s, max) <==> s.pool.inUse != s.leases.Values)
      && (CanExceed(Step(s, max, Close), max) <==> s.leases != map[])
  {
    PoolSound(min, max, events);
    var s := Run(Opened(min), max, events);
    ExceedsExactly(s, max);
    ExceedsExactly(Step(s, max, Close), max);
    if s.leases != map[] {
      var run :| run in s.leases;
      assert s.leases[run] in s.leases.Values;
    }
  }

  /** A close forgets open leases: a pool of one connection then has two in the hands of runs. */
  lemma CloseForgetsLeases()
    ensures |Run(Opened(1), 1, [Start(0), Close, Start(1)]).leases| == 2
  {
    var a := Step(Opened(1), 1, Start(0));
    var b := Step(a, 1, Close);
    var c := Step(b, 1, Start(1));
    assert Run(Opened(1), 1, [Start(0), Close, Start(1)]) == c by {
      assert [Start(0), Close, Start(1)][1..] == [Close, Start(1)];
      assert [Close, Start(1)][1..] == [Start(1)];
    }
    assert c.leases.Keys == {0, 1};
  }
}
