/** Whole runs of a shared pool: any number of clients, whose locked steps interleave freely.

    Clients release and remove only connections they hold; nothing is assumed about the clock.
    exchange and a retry of safe_grab are a Remove and a Grab of one client with any steps of other
    clients in between, so these runs contain them. */
module PoolRuns {
  import opened ConnectionPool

  type Client = nat

  /** The pool together with what each client believes it may use. */
  datatype System = System(ps: PoolState, held: map<Client, set<Conn>>) {

    predicate Holds(client: Client, c: Conn) {
      client in held && c in held[client]
    }

    function Give(client: Client, c: Conn): map<Client, set<Conn>> {
      held[client := (if client in held then held[client] else {}) + {c}]
    }

    function Take(client: Client, c: Conn): map<Client, set<Conn>> {
      if client in held then held[client := held[client] - {c}] else held
    }
  }

  datatype Event =
    | Grab(client: Client, now: int, stamp: int, spare: Conn, got: Conn)
    | Release(client: Client, conn: Conn, now: int)
    | Remove(client: Client, conn: Conn)
    | Shrink

  const Initial := System(PoolState([], {}, []), map[])

  /** One locked step.  `create` makes a connection that was never made before. */
  ghost predicate Next(maxIdle: nat, s: System, e: Event, s': System) {
    match e
    case Grab(client, now, stamp, spare, got) =>
      && spare !in s.ps.created
      && GrabStep(s.ps, s'.ps, maxIdle, now, stamp, spare, got)
      && s'.held == s.Give(client, got)
    case Release(client, c, now) =>
      && s.Holds(client, c)
      && s'.ps == AfterRelease(s.ps, c, now)
      && s'.held == s.Take(client, c)
    case Remove(client, c) =>
      && s.Holds(client, c)
      && s'.ps == AfterRemove(s.ps, c)
      && s'.held == s.Take(client, c)
    case Shrink =>
      s' == s.(ps := AfterSweep(s.ps, Unused))
  }

  ghost predicate Run(maxIdle: nat, states: seq<System>, events: seq<Event>) {
    && |states| == |events| + 1
    && forall i :: 0 <= i < |events| ==> Next(maxIdle, states[i], events[i], states[i + 1])
  }

  // ----- exclusivity and conservation -----

  /** Every connection ever made is either in the pool, once, or was destroyed, once. */
  ghost predicate Conserved(ps: PoolState) {
    multiset(Conns(ps.pool)) + multiset(ps.destroyed) == multiset(ps.created)
  }

  ghost predicate Exclusive(s: System) {
    forall k, k', c :: s.Holds(k, c) && s.Holds(k', c) ==> k == k'
  }

  /** The busy connections of the pool are those that some client holds. */
  ghost predicate BusyIsHeld(s: System) {
    forall c :: IsBusy(s.ps, c) <==> exists k :: s.Holds(k, c)
  }

  ghost predicate Inv(s: System) {
    Conserved(s.ps) && Exclusive(s) && BusyIsHeld(s)
  }

  /** Conservation read off: no connection is pooled twice, none is both pooled and destroyed, none
      is destroyed twice, and none is lost. */
  lemma ConservedMeans(ps: PoolState)
    requires Conserved(ps)
    ensures Distinct(ps.pool)
    ensures forall i, j :: 0 <= i < j < |ps.destroyed| ==> ps.destroyed[i] != ps.destroyed[j]
    ensures forall c :: c in ps.created <==> c in Conns(ps.pool) || c in ps.destroyed
    ensures forall c :: !(c in Conns(ps.pool) && c in ps.destroyed)
  {
    var pooled, gone, all := multiset(Conns(ps.pool)), multiset(ps.destroyed), multiset(ps.created);
    forall i, j | 0 <= i < j < |ps.pool|
      ensures ps.pool[i].conn != ps.pool[j].conn
    {
      assert all[ps.pool[i].conn] <= 1;
      TwiceCounted(Conns(ps.pool), i, j);
    }
    forall i, j | 0 <= i < j < |ps.destroyed|
      ensures ps.destroyed[i] != ps.destroyed[j]
    {
      assert all[ps.destroyed[i]] <= 1;
      TwiceCounted(ps.destroyed, i, j);
    }
    forall c
      ensures c in ps.created <==> c in Conns(ps.pool) || c in ps.destroyed
      ensures !(c in Conns(ps.pool) && c in ps.destroyed)
    {
      assert all[c] == pooled[c] + gone[c] <= 1;
    }
  }

  lemma TwiceCounted(s: seq<Conn>, i: nat, j: nat)
    requires i < j < |s|
    ensures s[i] == s[j] ==> multiset(s)[s[i]] >= 2
  {
    assert s == s[..i] + [s[i]] + s[i + 1..j] + [s[j]] + s[j + 1..];
  }

  lemma SweepKeepsConserved(ps: PoolState, sweep: Sweep)
    requires Conserved(ps)
    ensures Conserved(AfterSweep(ps, sweep))
  {
    SweepConserves(ps.pool, sweep);
  }

  lemma CreateConserves(pooled: seq<Conn>, destroyed: seq<Conn>, created: set<Conn>, spare: Conn)
    requires multiset(pooled) + multiset(destroyed) == multiset(created) && spare !in created
    ensures multiset(pooled + [spare]) + multiset(destroyed) == multiset(created + {spare})
  {
    assert multiset(created + {spare}) == multiset(created) + multiset{spare};
  }

  lemma EraseCounts(s: seq<Conn>, i: nat)
    requires i < |s|
    ensures multiset(s[..i] + s[i + 1..]) + multiset{s[i]} == multiset(s)
  {
    assert s == s[..i] + [s[i]] + s[i + 1..];
  }

  lemma DestroyConserves(pooled: multiset<Conn>, pooled': multiset<Conn>, destroyed: seq<Conn>,
                         created: multiset<Conn>, c: Conn)
    requires pooled' + multiset{c} == pooled
    requires pooled + multiset(destroyed) == created
    ensures pooled' + multiset(destroyed + [c]) == created
  {
    assert multiset(destroyed + [c]) == multiset(destroyed) + multiset{c};
  }

  lemma GrabKeepsConserved(maxIdle: nat, ps: PoolState, ps': PoolState, now: int, stamp: int, spare: Conn, got: Conn)
    requires Conserved(ps) && spare !in ps.created
    requires GrabStep(ps, ps', maxIdle, now, stamp, spare, got)
    ensures Conserved(ps')
  {
    var swept := AfterSweep(ps, OlderThan(now - maxIdle));
    SweepKeepsConserved(ps, OlderThan(now - maxIdle));
    assert swept.created == ps.created;
    hide AfterSweep, IsMru, Conserved, Kept, Swept;
    if AllInUse(swept.pool) {
      CreatedConserved(swept, ps', ConnectionInfo(spare, stamp, true));
    } else {
      assert Conns(ps'.pool) == Conns(swept.pool);
      SameConserved(swept, ps');
    }
  }

  lemma CreatedConserved(ps: PoolState, ps': PoolState, made: ConnectionInfo)
    requires Conserved(ps) && made.conn !in ps.created
    requires ps' == ps.(pool := ps.pool + [made], created := ps.created + {made.conn})
    ensures Conserved(ps')
  {
    ConnsAppend(ps.pool, [made]);
    assert Conns([made]) == [made.conn];
    hide Conns;
    CreateConserves(Conns(ps.pool), ps.destroyed, ps.created, made.conn);
  }

  lemma SameConserved(ps: PoolState, ps': PoolState)
    requires Conserved(ps) && Conns(ps'.pool) == Conns(ps.pool)
    requires ps'.created == ps.created && ps'.destroyed == ps.destroyed
    ensures Conserved(ps')
  {
  }

  lemma RemoveKeepsConserved(ps: PoolState, c: Conn)
    requires Conserved(ps)
    ensures Conserved(AfterRemove(ps, c))
  {
    hide Conns;
    var i := Position(ps.pool, c);
    if i < |ps.pool| {
      var conns, pool' := Conns(ps.pool), ps.pool[..i] + ps.pool[i + 1..];
      ConnsErase(ps.pool, i);
      EraseCounts(conns, i);
      DestroyConserves(multiset(conns), multiset(Conns(pool')), ps.destroyed, multiset(ps.created), c);
    }
  }

  lemma ConnsErase(pool: seq<ConnectionInfo>, i: nat)
    requires i < |pool|
    ensures Conns(pool[..i] + pool[i + 1..]) == Conns(pool)[..i] + Conns(pool)[i + 1..]
  {
    hide Conns;
    var pool', conns := pool[..i] + pool[i + 1..], Conns(pool);
    var conns' := conns[..i] + conns[i + 1..];
    forall j | 0 <= j < |pool'|
      ensures Conns(pool')[j] == conns'[j]
    {
      assert pool'[j] == pool[if j < i then j else j + 1];
    }
  }

  lemma ReleaseKeepsConserved(ps: PoolState, c: Conn, now: int)
    requires Conserved(ps)
    ensures Conserved(AfterRelease(ps, c, now))
  {
    hide Conserved;
    assert Conns(AfterRelease(ps, c, now).pool) == Conns(ps.pool);
    SameConserved(ps, AfterRelease(ps, c, now));
  }

  /** How each step changes the set of busy connections. */
  lemma BusyAfterGrab(maxIdle: nat, ps: PoolState, ps': PoolState, now: int, stamp: int, spare: Conn, got: Conn)
    requires Conserved(ps) && spare !in ps.created
    requires GrabStep(ps, ps', maxIdle, now, stamp, spare, got)
    ensures !IsBusy(ps, got) && got !in ps.destroyed && ps.destroyed <= ps'.destroyed
    ensures forall c :: IsBusy(ps', c) <==> IsBusy(ps, c) || c == got
  {
    ConservedMeans(ps);
    GrabRecords(ps, ps', maxIdle, now, stamp, spare, got);
    hide GrabStep;
    if got != spare {
      var ci :| ci in ps.pool && !ci.inUse && ci.conn == got;
      assert got in Conns(ps.pool);
    }
  }

  lemma BusyAfterRelease(ps: PoolState, c: Conn, now: int)
    requires Distinct(ps.pool) && IsBusy(ps, c)
    ensures forall c' :: IsBusy(AfterRelease(ps, c, now), c') <==> IsBusy(ps, c') && c' != c
  {
    var i := Position(ps.pool, c);
    var pool' := ps.pool[i := ConnectionInfo(c, now, false)];
    forall ci: ConnectionInfo | ci.conn != c
      ensures ci in pool' <==> ci in ps.pool
    {
      if ci in ps.pool {
        var j :| 0 <= j < |ps.pool| && ps.pool[j] == ci;
        assert pool'[j] == ci;
      }
    }
  }

  lemma BusyAfterRemove(ps: PoolState, c: Conn)
    requires Distinct(ps.pool) && IsBusy(ps, c)
    ensures forall c' :: IsBusy(AfterRemove(ps, c), c') <==> IsBusy(ps, c') && c' != c
  {
    RemoveIsExact(ps, c);
  }

  lemma BusyAfterShrink(ps: PoolState)
    ensures forall c :: IsBusy(AfterSweep(ps, Unused), c) <==> IsBusy(ps, c)
  {
    SweepIsExact(ps.pool, Unused);
  }

  lemma SameHolds(s: System, s': System)
    requires s'.held == s.held
    requires Exclusive(s) && BusyIsHeld(s)
    requires forall c :: IsBusy(s'.ps, c) <==> IsBusy(s.ps, c)
    ensures Exclusive(s') && BusyIsHeld(s')
  {
    hide IsBusy;
    assert forall k, c :: s'.Holds(k, c) <==> s.Holds(k, c);
  }

  lemma GiveHolds(s: System, s': System, client: Client, c: Conn)
    requires s'.held == s.Give(client, c)
    requires Exclusive(s) && BusyIsHeld(s) && !IsBusy(s.ps, c)
    requires forall c' :: IsBusy(s'.ps, c') <==> IsBusy(s.ps, c') || c' == c
    ensures Exclusive(s') && BusyIsHeld(s')
  {
    hide IsBusy;
    assert forall k, c' :: s'.Holds(k, c') <==> s.Holds(k, c') || (k == client && c' == c);
    assert s'.Holds(client, c);
  }

  lemma TakeHolds(s: System, s': System, client: Client, c: Conn)
    requires s.Holds(client, c) && s'.held == s.Take(client, c)
    requires Exclusive(s) && BusyIsHeld(s)
    requires forall c' :: IsBusy(s'.ps, c') <==> IsBusy(s.ps, c') && c' != c
    ensures Exclusive(s') && BusyIsHeld(s')
  {
    hide IsBusy;
    assert forall k, c' :: s'.Holds(k, c') <==> s.Holds(k, c') && !(k == client && c' == c);
  }

  /** Every step of every client keeps the pool exclusive and conserved, and a grab never hands out
      a connection that was destroyed or that some client still holds. */
  lemma InvStep(maxIdle: nat, s: System, e: Event, s': System)
    requires Inv(s) && Next(maxIdle, s, e, s')
    ensures Inv(s')
    ensures s.ps.destroyed <= s'.ps.destroyed
    ensures e.Grab? ==> e.got !in s.ps.destroyed && forall k :: !s.Holds(k, e.got)
  {
    ConservedMeans(s.ps);
    hide Conserved, Distinct, IsBusy, GrabStep, Kept, Swept, Exclusive;
    match e
    case Grab(client, now, stamp, spare, got) =>
      GrabKeepsConserved(maxIdle, s.ps, s'.ps, now, stamp, spare, got);
      BusyAfterGrab(maxIdle, s.ps, s'.ps, now, stamp, spare, got);
      GiveHolds(s, s', client, got);
    case Release(client, c, now) =>
      ReleaseKeepsConserved(s.ps, c, now);
      BusyAfterRelease(s.ps, c, now);
      TakeHolds(s, s', client, c);
    case Remove(client, c) =>
      RemoveKeepsConserved(s.ps, c);
      BusyAfterRemove(s.ps, c);
      TakeHolds(s, s', client, c);
    case Shrink =>
      SweepKeepsConserved(s.ps, Unused);
      BusyAfterShrink(s.ps);
      SameHolds(s, s');
  }

  /** In every state of every run that starts with an empty pool, no connection is held by two
      clients, the busy connections are the held ones, and created connections are the disjoint union
      of the pooled and the destroyed ones. */
  lemma {:induction false} RunKeepsInv(maxIdle: nat, states: seq<System>, events: seq<Event>, n: nat)
    requires Run(maxIdle, states, events) && states[0] == Initial
    requires n < |states|
    ensures Inv(states[n])
  {
    if n == 0 {
      assert forall k, c :: !Initial.Holds(k, c);
      assert forall c :: !IsBusy(Initial.ps, c);
    } else {
      RunKeepsInv(maxIdle, states, events, n - 1);
      InvStep(maxIdle, states[n - 1], events[n - 1], states[n]);
    }
  }

  lemma {:induction false} DestroyedOnlyGrows(maxIdle: nat, states: seq<System>, events: seq<Event>, i: nat, j: nat)
    requires Run(maxIdle, states, events) && states[0] == Initial
    requires i <= j < |states|
    ensures states[i].ps.destroyed <= states[j].ps.destroyed
  {
    hide Next, Inv;
    if i < j {
      DestroyedOnlyGrows(maxIdle, states, events, i, j - 1);
      RunKeepsInv(maxIdle, states, events, j - 1);
      InvStep(maxIdle, states[j - 1], events[j - 1], states[j]);
    }
  }

  /** A connection given back as defective is never handed out again, so exchange returns a different
      one whatever other clients do between its two locked steps. */
  lemma ExchangeReturnsAnother(maxIdle: nat, states: seq<System>, events: seq<Event>, i: nat, j: nat)
    requires Run(maxIdle, states, events) && states[0] == Initial
    requires i < j < |events| && events[i].Remove? && events[j].Grab?
    ensures events[j].got != events[i].conn
  {
    hide Next, Inv;
    RunKeepsInv(maxIdle, states, events, i);
    RunKeepsInv(maxIdle, states, events, j);
    RemoveDestroys(maxIdle, states[i], events[i], states[i + 1]);
    DestroyedOnlyGrows(maxIdle, states, events, i + 1, j);
    InvStep(maxIdle, states[j], events[j], states[j + 1]);
  }

  lemma RemoveDestroys(maxIdle: nat, s: System, e: Event, s': System)
    requires Inv(s) && Next(maxIdle, s, e, s') && e.Remove?
    ensures e.conn in s'.ps.destroyed
  {
    hide IsBusy;
    assert IsBusy(s.ps, e.conn);
    ConservedMeans(s.ps);
    hide Inv, Conserved;
    RemoveIsExact(s.ps, e.conn);
  }

  // ----- how large the pool gets -----

  /** The number of connections in use. */
  function BusyCount(pool: seq<ConnectionInfo>): nat {
    |Kept(pool, Unused)|
  }

  /** Connections in use, or last used after time t. */
  function WarmCount(pool: seq<ConnectionInfo>, t: int): nat {
    |Kept(pool, OlderThan(t))|
  }

  lemma {:induction false} AllInUseCounts(pool: seq<ConnectionInfo>, sweep: Sweep)
    requires AllInUse(pool) && !sweep.Everything?
    ensures |Kept(pool, sweep)| == |pool|
  {
    KeptWhole(pool, sweep);
  }

  /** A grab leaves no more than its sweep does, unless every connection is in use then. */
  lemma GrabSize(maxIdle: nat, ps: PoolState, ps': PoolState, now: int, stamp: int, spare: Conn, got: Conn)
    requires GrabStep(ps, ps', maxIdle, now, stamp, spare, got)
    ensures |ps'.pool| <= WarmCount(ps.pool, now - maxIdle) || |ps'.pool| == BusyCount(ps'.pool)
  {
    hide Kept, Swept;
    if AllInUse(ps'.pool) {
      AllInUseCounts(ps'.pool, Unused);
    }
  }

  /** Only a grab makes the pool larger, and then every connection in it is in use. */
  lemma PoolGrowth(maxIdle: nat, s: System, e: Event, s': System)
    requires Next(maxIdle, s, e, s')
    ensures |s'.ps.pool| <= |s.ps.pool| || |s'.ps.pool| == BusyCount(s'.ps.pool)
  {
    hide Kept, Swept, GrabStep;
    match e
    case Grab(client, now, stamp, spare, got) =>
      KeptShorter(s.ps.pool, OlderThan(now - maxIdle));
      GrabSize(maxIdle, s.ps, s'.ps, now, stamp, spare, got);
    case Release(client, c, now) =>
    case Remove(client, c) =>
    case Shrink =>
      KeptShorter(s.ps.pool, Unused);
  }

  function Peak(states: seq<System>): (peak: nat)
    ensures forall i :: 0 <= i < |states| ==> BusyCount(states[i].ps.pool) <= peak
    ensures states != [] ==> exists i :: 0 <= i < |states| && BusyCount(states[i].ps.pool) == peak
  {
    if states == [] then 0 else
      var last := |states| - 1;
      var rest, here := Peak(states[..last]), BusyCount(states[last].ps.pool);
      if here >= rest then here else rest
  }

  /** High-water bound: in every reachable state the pool holds no more connections than were once in
      use at the same time. */
  lemma {:induction false} PoolStaysBelowPeak(maxIdle: nat, states: seq<System>, events: seq<Event>, n: nat)
    requires Run(maxIdle, states, events) && states[0] == Initial
    requires n < |states|
    ensures |states[n].ps.pool| <= Peak(states[..n + 1])
  {
    if n > 0 {
      PoolStaysBelowPeak(maxIdle, states, events, n - 1);
      PoolGrowth(maxIdle, states[n - 1], events[n - 1], states[n]);
      assert states[..n + 1][..n] == states[..n - 1 + 1];
    }
  }

  // ----- how the pool shrinks -----

  lemma {:induction false} ColdAreNotKept(pool: seq<ConnectionInfo>, t: int)
    requires forall i :: 0 <= i < |pool| && !pool[i].inUse ==> pool[i].lastUsed <= t
    ensures WarmCount(pool, t) == BusyCount(pool)
  {
    if pool != [] {
      ColdAreNotKept(pool[..|pool| - 1], t);
    }
  }

  lemma {:induction false} LaterCutoffKeepsLess(pool: seq<ConnectionInfo>, t: int, u: int)
    requires t <= u
    ensures WarmCount(pool, u) <= WarmCount(pool, t)
  {
    if pool != [] {
      LaterCutoffKeepsLess(pool[..|pool| - 1], t, u);
    }
  }

  /** Reusing the most recently used connection warms up a cold one only if no free one is warm. */
  lemma ReuseKeepsWarm(pool: seq<ConnectionInfo>, i: nat, t: int)
    requires IsMru(pool, i)
    ensures var pool' := pool[i := pool[i].(inUse := true)];
      WarmCount(pool', t) <= WarmCount(pool, t) || WarmCount(pool', t) == BusyCount(pool')
  {
    var busy := pool[i].(inUse := true);
    if pool[i].lastUsed <= t {
      ColdAreNotKept(pool[i := busy], t);
    } else {
      KeptUpdate(pool, i, busy, OlderThan(t));
      SweepOne(busy, OlderThan(t));
      SweepOne(pool[i], OlderThan(t));
    }
  }

  /** A step adds to the warm connections only by taking into use. */
  lemma WarmStep(maxIdle: nat, s: System, e: Event, s': System, t: int)
    requires Inv(s) && Next(maxIdle, s, e, s')
    ensures WarmCount(s'.ps.pool, t) <= WarmCount(s.ps.pool, t)
      || WarmCount(s'.ps.pool, t) == BusyCount(s'.ps.pool)
  {
    var pool, pool' := s.ps.pool, s'.ps.pool;
    match e
    case Grab(client, now, stamp, spare, got) =>
      GrabWarm(maxIdle, s.ps, s'.ps, now, stamp, spare, got, t);
    case Release(client, c, now) =>
      assert IsBusy(s.ps, c);
      ConservedMeans(s.ps);
      ReleaseWarm(s.ps, c, now, t);
    case Remove(client, c) =>
      var i := Position(pool, c);
      if i < |pool| {
        KeptErase(pool, i, OlderThan(t));
      }
    case Shrink =>
      SweepTwice(pool, Unused, OlderThan(t));
  }

  lemma GrabWarm(maxIdle: nat, ps: PoolState, ps': PoolState, now: int, stamp: int, spare: Conn, got: Conn, t: int)
    requires GrabStep(ps, ps', maxIdle, now, stamp, spare, got)
    ensures WarmCount(ps'.pool, t) <= WarmCount(ps.pool, t) || WarmCount(ps'.pool, t) == BusyCount(ps'.pool)
  {
    var swept := Kept(ps.pool, OlderThan(now - maxIdle));
    SweepTwice(ps.pool, OlderThan(now - maxIdle), OlderThan(t));
    hide Kept, Swept;
    if AllInUse(swept) {
      AllInUseCounts(ps'.pool, OlderThan(t));
      AllInUseCounts(ps'.pool, Unused);
    } else {
      var i :| IsMru(swept, i) && ps'.pool == swept[i := swept[i].(inUse := true)];
      ReuseKeepsWarm(swept, i, t);
    }
  }

  lemma ReleaseWarm(ps: PoolState, c: Conn, now: int, t: int)
    requires Distinct(ps.pool) && IsBusy(ps, c)
    ensures WarmCount(AfterRelease(ps, c, now).pool, t) <= WarmCount(ps.pool, t)
  {
    var i, ci := Position(ps.pool, c), ConnectionInfo(c, now, false);
    KeptUpdate(ps.pool, i, ci, OlderThan(t));
    SweepOne(ci, OlderThan(t));
    SweepOne(ps.pool[i], OlderThan(t));
  }

  /** Every free connection was last used at time t or before. */
  ghost predicate IdleSince(pool: seq<ConnectionInfo>, t: int) {
    forall i :: 0 <= i < |pool| && !pool[i].inUse ==> pool[i].lastUsed <= t
  }

  /** At most k connections are in use in each of the states from a to b. */
  ghost predicate BusyWithin(states: seq<System>, a: nat, b: nat, k: nat)
    requires b < |states|
  {
    forall j :: a <= j <= b ==> BusyCount(states[j].ps.pool) <= k
  }

  /** From a state where every free connection was last used at time t or before, and while at most k
      connections are in use, at most k are in use or have been used since. */
  lemma {:induction false} WarmStaysBelow(maxIdle: nat, states: seq<System>, events: seq<Event>, a: nat, b: nat,
                                          t: int, k: nat)
    requires Run(maxIdle, states, events) && states[0] == Initial
    requires a <= b < |states|
    requires IdleSince(states[a].ps.pool, t) && BusyWithin(states, a, b, k)
    ensures WarmCount(states[b].ps.pool, t) <= k
  {
    hide Next, Inv, WarmCount, BusyCount;
    if a == b {
      ColdAreNotKept(states[a].ps.pool, t);
    } else {
      hide IdleSince;
      WarmStaysBelow(maxIdle, states, events, a, b - 1, t, k);
      RunKeepsInv(maxIdle, states, events, b - 1);
      WarmStep(maxIdle, states[b - 1], events[b - 1], states[b], t);
    }
  }

  /** Pool decay, the aim of reusing the most recently used connection.  Take any stretch of any run
      in which at most k connections are ever in use at once.  A grab made at least max_idle_time
      after the last use of every connection that was free at its start leaves at most k in the pool. */
  lemma PoolDecays(maxIdle: nat, states: seq<System>, events: seq<Event>, a: nat, b: nat, t: int, k: nat)
    requires Run(maxIdle, states, events) && states[0] == Initial
    requires a <= b < |events|
    requires IdleSince(states[a].ps.pool, t) && BusyWithin(states, a, b + 1, k)
    requires events[b].Grab? && events[b].now >= t + maxIdle
    ensures |states[b + 1].ps.pool| <= k
  {
    hide Next, Inv, WarmCount, BusyCount, IdleSince;
    WarmStaysBelow(maxIdle, states, events, a, b, t, k);
    GrabDropsCold(maxIdle, states[b], events[b], states[b + 1], t);
  }

  lemma GrabDropsCold(maxIdle: nat, s: System, e: Event, s': System, t: int)
    requires Next(maxIdle, s, e, s') && e.Grab? && e.now >= t + maxIdle
    ensures |s'.ps.pool| <= WarmCount(s.ps.pool, t) || |s'.ps.pool| == BusyCount(s'.ps.pool)
  {
    hide GrabStep, BusyCount;
    LaterCutoffKeepsLess(s.ps.pool, t, e.now - maxIdle);
    GrabSize(maxIdle, s.ps, s'.ps, e.now, e.stamp, e.spare, e.got);
  }
}
