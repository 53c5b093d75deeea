/** The connection pool of mysqlpp/lib/cpool.h and cpool.cpp.

    A pool is a list of connection records.  `create`, `destroy`, `ping` and the clock are
    outside the library, so they enter as parameters (the connection `create` would return,
    the clock readings) or as a log (`destroyed`). */
module ConnectionPool {
  import opened Basics

  /** Identity of a connection object. */
  type Conn = nat

  /** One record of the pool's list. */
  datatype ConnectionInfo = ConnectionInfo(conn: Conn, lastUsed: int, inUse: bool) {

    /** The ordering used to look for the most recently used free connection: every busy record
        is below every free one, and within each group the record touched earlier is below. */
    predicate Less(rhs: ConnectionInfo) {
      if inUse == rhs.inUse then lastUsed < rhs.lastUsed else inUse
    }
  }

  /** The ways in which the pool sweeps its list. */
  datatype Sweep = Everything | Unused | OlderThan(cutoff: int) {

    predicate Hits(ci: ConnectionInfo) {
      match this
      case Everything => true
      case Unused => !ci.inUse
      case OlderThan(cutoff) => !ci.inUse && ci.lastUsed <= cutoff
    }
  }

  /** The records a sweep leaves, in order. */
  function Kept(pool: seq<ConnectionInfo>, sweep: Sweep): seq<ConnectionInfo> {
    if pool == [] then []
    else
      var last := pool[|pool| - 1];
      Kept(pool[..|pool| - 1], sweep) + if sweep.Hits(last) then [] else [last]
  }

  /** The connections a sweep destroys, in order. */
  function Swept(pool: seq<ConnectionInfo>, sweep: Sweep): seq<Conn> {
    if pool == [] then []
    else
      var last := pool[|pool| - 1];
      Swept(pool[..|pool| - 1], sweep) + if sweep.Hits(last) then [last.conn] else []
  }

  lemma SweepSnoc(a: seq<ConnectionInfo>, ci: ConnectionInfo, sweep: Sweep)
    ensures Kept(a + [ci], sweep) == Kept(a, sweep) + if sweep.Hits(ci) then [] else [ci]
    ensures Swept(a + [ci], sweep) == Swept(a, sweep) + if sweep.Hits(ci) then [ci.conn] else []
  {
    assert (a + [ci])[..|a|] == a;
  }

  lemma {:induction false} SweepAppend(a: seq<ConnectionInfo>, b: seq<ConnectionInfo>, sweep: Sweep)
    ensures Kept(a + b, sweep) == Kept(a, sweep) + Kept(b, sweep)
    ensures Swept(a + b, sweep) == Swept(a, sweep) + Swept(b, sweep)
  {
    if b == [] {
      assert a + b == a;
    } else {
      hide Kept, Swept, Sweep.Hits;
      var front, last := b[..|b| - 1], b[|b| - 1];
      SweepAppend(a, front, sweep);
      assert b == front + [last];
      ConcatAssociates(a, front, [last]);
      SweepSnoc(a + front, last, sweep);
      SweepSnoc(front, last, sweep);
      ConcatAssociates(Kept(a, sweep), Kept(front, sweep), Kept(b, sweep)[|Kept(front, sweep)|..]);
      ConcatAssociates(Swept(a, sweep), Swept(front, sweep), Swept(b, sweep)[|Swept(front, sweep)|..]);
    }
  }

  /** A stretch of records that the sweep spares is kept whole. */
  lemma {:induction false} KeptWhole(a: seq<ConnectionInfo>, sweep: Sweep)
    requires forall j :: 0 <= j < |a| ==> !sweep.Hits(a[j])
    ensures Kept(a, sweep) == a && Swept(a, sweep) == []
  {
    if a != [] {
      KeptWhole(a[..|a| - 1], sweep);
    }
  }

  lemma SweepOne(ci: ConnectionInfo, sweep: Sweep)
    ensures Kept([ci], sweep) == if sweep.Hits(ci) then [] else [ci]
    ensures Swept([ci], sweep) == if sweep.Hits(ci) then [ci.conn] else []
  {
    assert [ci][..0] == [];
  }

  /** A sweep in progress: the first `seen` records of `was` have been looked at, `gone` were
      destroyed, and `it` points just after the survivors. */
  ghost predicate SweepPoint(was: seq<ConnectionInfo>, seen: nat, pool: seq<ConnectionInfo>, it: nat,
                             gone: seq<Conn>, sweep: Sweep)
  {
    && seen <= |was|
    && it == |Kept(was[..seen], sweep)|
    && pool == Kept(was[..seen], sweep) + was[seen..]
    && gone == Swept(was[..seen], sweep)
  }

  /** The sweep spares the records from one position up to another. */
  ghost predicate Spared(pool: seq<ConnectionInfo>, from: nat, to: nat, sweep: Sweep)
    requires to <= |pool|
  {
    forall j :: from <= j < to ==> !sweep.Hits(pool[j])
  }

  lemma SweepBegins(was: seq<ConnectionInfo>, sweep: Sweep)
    ensures SweepPoint(was, 0, was, 0, [], sweep)
  {
  }

  lemma SweepErases(was: seq<ConnectionInfo>, seen: nat, pool: seq<ConnectionInfo>, it: nat,
                    gone: seq<Conn>, sweep: Sweep)
    requires SweepPoint(was, seen, pool, it, gone, sweep)
    requires it < |pool| && sweep.Hits(pool[it])
    ensures seen < |was|
    ensures SweepPoint(was, seen + 1, pool[..it] + pool[it + 1..], it, gone + [pool[it].conn], sweep)
  {
    assert was[..seen + 1][..seen] == was[..seen];
  }

  lemma SweepSpares(was: seq<ConnectionInfo>, seen: nat, pool: seq<ConnectionInfo>, it: nat,
                    gone: seq<Conn>, sweep: Sweep, next: nat)
    requires SweepPoint(was, seen, pool, it, gone, sweep)
    requires it <= next <= |pool|
    requires Spared(pool, it, next, sweep)
    ensures seen + (next - it) <= |was|
    ensures SweepPoint(was, seen + (next - it), pool, next, gone, sweep)
  {
    hide Kept, Swept, Sweep.Hits;
    var n := next - it;
    var before, rest := was[..seen], was[seen..];
    var spared := rest[..n];
    SplitAt(was, seen, n);
    forall j | 0 <= j < n
      ensures !sweep.Hits(spared[j])
    {
      assert spared[j] == pool[it + j];
    }
    KeptWhole(spared, sweep);
    SweepAppend(before, spared, sweep);
    ConcatAssociates(Kept(before, sweep), spared, rest[n..]);
    assert Swept(before, sweep) + [] == Swept(before, sweep);
  }

  lemma SplitAt(was: seq<ConnectionInfo>, seen: nat, n: nat)
    requires seen <= |was| && n <= |was| - seen
    ensures was[..seen + n] == was[..seen] + was[seen..][..n]
    ensures was[seen + n..] == was[seen..][n..]
    ensures was[seen..] == was[seen..][..n] + was[seen..][n..]
  {
  }

  lemma SweepEnds(was: seq<ConnectionInfo>, seen: nat, pool: seq<ConnectionInfo>, gone: seq<Conn>,
                  sweep: Sweep)
    requires SweepPoint(was, seen, pool, |pool|, gone, sweep)
    ensures pool == Kept(was, sweep) && gone == Swept(was, sweep)
  {
    assert was[..seen] == was;
  }

  lemma {:induction false} SweepMembers(pool: seq<ConnectionInfo>, sweep: Sweep, ci: ConnectionInfo)
    ensures ci in Kept(pool, sweep) <==> ci in pool && !sweep.Hits(ci)
    ensures ci in pool && sweep.Hits(ci) ==> ci.conn in Swept(pool, sweep)
  {
    if pool != [] {
      SweepMembers(pool[..|pool| - 1], sweep, ci);
      assert ci in pool <==> ci in pool[..|pool| - 1] || ci == pool[|pool| - 1];
    }
  }

  /** The connections of a list of records. */
  function Conns(pool: seq<ConnectionInfo>): (conns: seq<Conn>)
    ensures |conns| == |pool|
    ensures forall i :: 0 <= i < |pool| ==> conns[i] == pool[i].conn
  {
    if pool == [] then [] else Conns(pool[..|pool| - 1]) + [pool[|pool| - 1].conn]
  }

  lemma ConnsAppend(a: seq<ConnectionInfo>, b: seq<ConnectionInfo>)
    ensures Conns(a + b) == Conns(a) + Conns(b)
  {
  }

  lemma CountOneMore(a: seq<Conn>, b: seq<Conn>, whole: seq<Conn>, c: Conn)
    requires multiset(a) + multiset(b) == multiset(whole)
    ensures multiset(a + [c]) + multiset(b) == multiset(whole + [c])
    ensures multiset(a) + multiset(b + [c]) == multiset(whole + [c])
  {
  }

  /** A sweep loses no connection: what it keeps and what it destroys is what was there. */
  lemma {:induction false} SweepConserves(pool: seq<ConnectionInfo>, sweep: Sweep)
    ensures multiset(Conns(Kept(pool, sweep))) + multiset(Swept(pool, sweep)) == multiset(Conns(pool))
  {
    if pool == [] {
    } else {
      var front, last := pool[..|pool| - 1], pool[|pool| - 1];
      SweepConserves(front, sweep);
      assert pool == front + [last];
      SweepSnoc(front, last, sweep);
      hide *;
      ConnsAppend(front, [last]);
      ConnsAppend(Kept(front, sweep), [last]);
      assert Conns([last]) == [last.conn];
      CountOneMore(Conns(Kept(front, sweep)), Swept(front, sweep), Conns(front), last.conn);
      if sweep.Hits(last) {
        assert Kept(pool, sweep) == Kept(front, sweep);
      } else {
        assert Swept(pool, sweep) == Swept(front, sweep);
      }
    }
  }

  predicate Distinct(pool: seq<ConnectionInfo>) {
    forall i, j :: 0 <= i < j < |pool| ==> pool[i].conn != pool[j].conn
  }

  lemma {:induction false} KeptDistinct(pool: seq<ConnectionInfo>, sweep: Sweep)
    requires Distinct(pool)
    ensures Distinct(Kept(pool, sweep))
  {
    if pool != [] {
      var front := pool[..|pool| - 1];
      KeptDistinct(front, sweep);
      forall i | 0 <= i < |Kept(front, sweep)|
        ensures Kept(front, sweep)[i].conn != pool[|pool| - 1].conn
      {
        SweepMembers(front, sweep, Kept(front, sweep)[i]);
      }
    }
  }

  predicate AllInUse(pool: seq<ConnectionInfo>) {
    forall i :: 0 <= i < |pool| ==> pool[i].inUse
  }

  /** The documented reuse policy: record i is free and no free record was used more recently;
      among equals it is the first of the list. */
  predicate IsMru(pool: seq<ConnectionInfo>, i: int) {
    && 0 <= i < |pool|
    && !pool[i].inUse
    && forall j :: 0 <= j < |pool| && !pool[j].inUse ==>
         pool[j].lastUsed <= pool[i].lastUsed && (j < i ==> pool[j].lastUsed < pool[i].lastUsed)
  }

  /** What std::max_element returns under Less: the first record that none exceeds. */
  predicate IsFirstMax(pool: seq<ConnectionInfo>, i: int) {
    && 0 <= i < |pool|
    && forall j :: 0 <= j < |pool| ==>
         !pool[i].Less(pool[j]) && (j < i ==> pool[j].Less(pool[i]))
  }

  /** Looking at the greatest record alone finds the most recently used free connection, and
      finds out that there is none exactly when every connection is busy. */
  lemma MaxElementFindsMru(pool: seq<ConnectionInfo>, i: int)
    requires IsFirstMax(pool, i)
    ensures pool[i].inUse <==> AllInUse(pool)
    ensures IsMru(pool, i) <==> !AllInUse(pool)
  {
    if !AllInUse(pool) {
      var j :| 0 <= j < |pool| && !pool[j].inUse;
      assert !pool[i].Less(pool[j]);
    }
  }

  /** Less is a strict weak order, as std::max_element demands. */
  lemma LessIsStrictWeak(a: ConnectionInfo, b: ConnectionInfo, c: ConnectionInfo)
    ensures !a.Less(a)
    ensures a.Less(b) && b.Less(c) ==> a.Less(c)
    ensures !a.Less(b) && !b.Less(a) && !b.Less(c) && !c.Less(b) ==> !a.Less(c) && !c.Less(a)
  {
  }

  /** The pool's abstract state: its list, every connection ever made, and the calls to destroy. */
  datatype PoolState = PoolState(pool: seq<ConnectionInfo>, created: set<Conn>, destroyed: seq<Conn>)

  function Position(pool: seq<ConnectionInfo>, c: Conn): (i: nat)
    ensures i <= |pool|
    ensures forall j :: 0 <= j < i ==> pool[j].conn != c
    ensures i < |pool| ==> pool[i].conn == c
  {
    if pool == [] || pool[0].conn == c then 0 else
      var k := Position(pool[1..], c);
      assert forall j :: 0 < j <= k ==> pool[j] == pool[1..][j - 1];
      k + 1
  }

  function AfterSweep(s: PoolState, sweep: Sweep): PoolState {
    PoolState(Kept(s.pool, sweep), s.created, s.destroyed + Swept(s.pool, sweep))
  }

  function AfterRelease(s: PoolState, c: Conn, now: int): PoolState {
    var i := Position(s.pool, c);
    if i == |s.pool| then s
    else s.(pool := s.pool[i := ConnectionInfo(c, now, false)])
  }

  function AfterRemove(s: PoolState, c: Conn): PoolState {
    var i := Position(s.pool, c);
    if i == |s.pool| then s
    else s.(pool := s.pool[..i] + s.pool[i + 1..], destroyed := s.destroyed + [c])
  }

  /** One grab: sweep away what has been idle for maxIdle seconds at time `now`, then hand out the
      most recently used free connection, or `spare`, stamped `stamp`, if none is free. */
  ghost predicate GrabStep(s: PoolState, s': PoolState, maxIdle: nat, now: int, stamp: int,
                           spare: Conn, got: Conn)
  {
    var swept := AfterSweep(s, OlderThan(now - maxIdle));
    if AllInUse(swept.pool) then
      && got == spare
      && s' == swept.(pool := swept.pool + [ConnectionInfo(spare, stamp, true)],
                      created := swept.created + {spare})
    else
      exists i ::
        && IsMru(swept.pool, i)
        && got == swept.pool[i].conn
        && s' == swept.(pool := swept.pool[i := swept.pool[i].(inUse := true)])
  }

  function FreeCount(pool: seq<ConnectionInfo>): nat {
    KeptShorter(pool, Unused);
    |pool| - |Kept(pool, Unused)|
  }

  /** Replacing one record changes what a sweep keeps by that record alone. */
  lemma KeptUpdate(pool: seq<ConnectionInfo>, i: nat, ci: ConnectionInfo, sweep: Sweep)
    requires i < |pool|
    ensures |Kept(pool[i := ci], sweep)| + |Kept([pool[i]], sweep)| == |Kept(pool, sweep)| + |Kept([ci], sweep)|
  {
    hide Kept;
    assert pool == pool[..i] + [pool[i]] + pool[i + 1..];
    assert pool[i := ci] == pool[..i] + [ci] + pool[i + 1..];
    SweepAppend(pool[..i] + [pool[i]], pool[i + 1..], sweep);
    SweepAppend(pool[..i], [pool[i]], sweep);
    SweepAppend(pool[..i] + [ci], pool[i + 1..], sweep);
    SweepAppend(pool[..i], [ci], sweep);
  }

  /** Erasing one record likewise. */
  lemma KeptErase(pool: seq<ConnectionInfo>, i: nat, sweep: Sweep)
    requires i < |pool|
    ensures |Kept(pool[..i] + pool[i + 1..], sweep)| + |Kept([pool[i]], sweep)| == |Kept(pool, sweep)|
  {
    hide Kept;
    assert pool == pool[..i] + [pool[i]] + pool[i + 1..];
    SweepAppend(pool[..i] + [pool[i]], pool[i + 1..], sweep);
    SweepAppend(pool[..i], [pool[i]], sweep);
    SweepAppend(pool[..i], pool[i + 1..], sweep);
  }

  /** A first sweep leaves no more for a second one, and all the busy records. */
  lemma {:induction false} SweepTwice(pool: seq<ConnectionInfo>, first: Sweep, second: Sweep)
    ensures |Kept(Kept(pool, first), second)| <= |Kept(pool, second)|
  {
    if pool != [] {
      var front, last := pool[..|pool| - 1], pool[|pool| - 1];
      SweepTwice(front, first, second);
      assert pool == front + [last];
      SweepSnoc(front, last, first);
      SweepSnoc(front, last, second);
      SweepSnoc(Kept(front, first), last, second);
      hide Kept;
      if first.Hits(last) {
        assert Kept(pool, first) == Kept(front, first);
      }
    }
  }

  lemma {:induction false} SweepFewerFree(pool: seq<ConnectionInfo>, sweep: Sweep)
    ensures FreeCount(Kept(pool, sweep)) <= FreeCount(pool)
  {
    if pool != [] {
      var front, last := pool[..|pool| - 1], pool[|pool| - 1];
      SweepFewerFree(front, sweep);
      assert pool == front + [last];
      SweepSnoc(front, last, sweep);
      SweepSnoc(front, last, Unused);
      SweepSnoc(Kept(front, sweep), last, Unused);
      hide Kept;
      if sweep.Hits(last) {
        assert Kept(pool, sweep) == Kept(front, sweep);
      }
    }
  }

  /** Marking a record busy, seen from the other records. */
  lemma MarkBusy(pool: seq<ConnectionInfo>, i: nat)
    requires Distinct(pool) && i < |pool| && !pool[i].inUse
    ensures var pool' := pool[i := pool[i].(inUse := true)];
      && Distinct(pool')
      && (forall ci: ConnectionInfo :: ci.conn != pool[i].conn ==> (ci in pool' <==> ci in pool))
      && FreeCount(pool') == FreeCount(pool) - 1
  {
    var busy := pool[i].(inUse := true);
    KeptUpdate(pool, i, busy, Unused);
    SweepOne(pool[i], Unused);
    SweepOne(busy, Unused);
    var pool' := pool[i := busy];
    forall ci: ConnectionInfo | ci.conn != pool[i].conn
      ensures ci in pool' <==> ci in pool
    {
      if ci in pool {
        var j :| 0 <= j < |pool| && pool[j] == ci;
        assert pool'[j] == ci;
      }
    }
  }

  /** What a grab does, record by record: the connection handed out was free or is new; among the
      others exactly the records idle since `cutoff` or longer go, and they are destroyed. */
  ghost predicate GrabEffect(s: PoolState, s': PoolState, cutoff: int, spare: Conn, got: Conn) {
    && IsBusy(s', got)
    && (got == spare || WasFree(s, got))
    && (forall ci: ConnectionInfo :: ci.conn != got ==>
          (ci in s'.pool <==> ci in s.pool && (ci.inUse || ci.lastUsed > cutoff)))
    && s.destroyed <= s'.destroyed
    && (forall ci :: ci in s.pool && !ci.inUse && ci.lastUsed <= cutoff ==> ci.conn in s'.destroyed)
  }

  ghost predicate IsBusy(s: PoolState, c: Conn) {
    exists ci :: ci in s.pool && ci.conn == c && ci.inUse
  }

  ghost predicate WasFree(s: PoolState, c: Conn) {
    exists ci :: ci in s.pool && !ci.inUse && ci.conn == c
  }

  /** grab, record by record. */
  lemma GrabRecords(s: PoolState, s': PoolState, maxIdle: nat, now: int, stamp: int, spare: Conn, got: Conn)
    requires GrabStep(s, s', maxIdle, now, stamp, spare, got)
    requires Distinct(s.pool) && spare !in Conns(s.pool)
    ensures Distinct(s'.pool)
    ensures GrabEffect(s, s', now - maxIdle, spare, got)
    ensures got == spare ==> AllInUse(s'.pool)
    ensures got != spare ==> |s'.pool| <= |s.pool| && FreeCount(s'.pool) < FreeCount(s.pool)
  {
    hide AfterSweep, FreeCount, Distinct, GrabEffect, SweepEffect;
    var swept := AfterSweep(s, OlderThan(now - maxIdle));
    SweptFacts(s, now - maxIdle);
    if AllInUse(swept.pool) {
      GrabMakes(s, swept, s', now - maxIdle, stamp, spare);
    } else {
      var i :| IsMru(swept.pool, i) && got == swept.pool[i].conn &&
               s' == swept.(pool := swept.pool[i := swept.pool[i].(inUse := true)]);
      GrabReuses(s, swept, s', now - maxIdle, spare, i);
    }
  }

  /** grab is exact: the survivors stay in order, with a new connection only at the end, and the one handed
      out was the most recently used of the free survivors. */
  lemma GrabIsExact(s: PoolState, s': PoolState, maxIdle: nat, now: int, stamp: int, spare: Conn, got: Conn)
    requires GrabStep(s, s', maxIdle, now, stamp, spare, got)
    requires Distinct(s.pool) && spare !in Conns(s.pool)
    ensures var kept := Kept(s.pool, OlderThan(now - maxIdle));
      if AllInUse(kept) then got == spare && s'.pool == kept + [ConnectionInfo(spare, stamp, true)]
      else exists i :: IsMru(kept, i) && got == kept[i].conn && s'.pool == kept[i := kept[i].(inUse := true)]
    ensures GrabEffect(s, s', now - maxIdle, spare, got)
    ensures Distinct(s'.pool) && (got == spare ==> AllInUse(s'.pool))
    ensures got != spare ==> FreeCount(s'.pool) < FreeCount(s.pool)
  {
    hide Distinct, FreeCount, GrabEffect, Kept, Swept, IsMru;
    GrabRecords(s, s', maxIdle, now, stamp, spare, got);
  }

  /** What sweeping away the records idle since `cutoff` does, record by record. */
  ghost predicate SweepEffect(s: PoolState, swept: PoolState, cutoff: int) {
    && (forall ci :: ci in swept.pool <==> ci in s.pool && (ci.inUse || ci.lastUsed > cutoff))
    && (forall ci :: ci in s.pool && !ci.inUse && ci.lastUsed <= cutoff ==> ci.conn in swept.destroyed)
    && s.destroyed <= swept.destroyed
  }

  lemma SweptRecords(s: PoolState, cutoff: int)
    ensures SweepEffect(s, AfterSweep(s, OlderThan(cutoff)), cutoff)
  {
    SweepIsExact(s.pool, OlderThan(cutoff));
    hide Kept, Swept;
  }

  lemma {:induction false} AllSwept(pool: seq<ConnectionInfo>)
    ensures Kept(pool, Everything) == [] && Swept(pool, Everything) == Conns(pool)
  {
    if pool != [] {
      AllSwept(pool[..|pool| - 1]);
    }
  }

  lemma SweptFacts(s: PoolState, cutoff: int)
    requires Distinct(s.pool)
    ensures var swept := AfterSweep(s, OlderThan(cutoff));
      && Distinct(swept.pool) && SweepEffect(s, swept, cutoff)
      && |swept.pool| <= |s.pool| && FreeCount(swept.pool) <= FreeCount(s.pool)
  {
    hide Kept, Swept, FreeCount, Distinct;
    SweepIsExact(s.pool, OlderThan(cutoff));
    KeptDistinct(s.pool, OlderThan(cutoff));
    SweepFewerFree(s.pool, OlderThan(cutoff));
    KeptShorter(s.pool, OlderThan(cutoff));
  }

  lemma SweepIsExact(pool: seq<ConnectionInfo>, sweep: Sweep)
    ensures forall ci :: ci in Kept(pool, sweep) <==> ci in pool && !sweep.Hits(ci)
    ensures forall ci :: ci in pool && sweep.Hits(ci) ==> ci.conn in Swept(pool, sweep)
  {
    forall ci {
      SweepMembers(pool, sweep, ci);
    }
  }

  lemma GrabReuses(s: PoolState, swept: PoolState, s': PoolState, cutoff: int, spare: Conn, i: nat)
    requires Distinct(swept.pool) && IsMru(swept.pool, i)
    requires SweepEffect(s, swept, cutoff)
    requires s' == swept.(pool := swept.pool[i := swept.pool[i].(inUse := true)])
    ensures Distinct(s'.pool) && GrabEffect(s, s', cutoff, spare, swept.pool[i].conn)
    ensures FreeCount(s'.pool) == FreeCount(swept.pool) - 1
    ensures swept.pool[i] in s.pool
  {
    MarkBusy(swept.pool, i);
    hide FreeCount, Distinct;
    assert s'.pool[i] in s'.pool && swept.pool[i] in s.pool;
  }

  lemma GrabMakes(s: PoolState, swept: PoolState, s': PoolState, cutoff: int, stamp: int, spare: Conn)
    requires Distinct(swept.pool) && spare !in Conns(s.pool) && AllInUse(swept.pool)
    requires SweepEffect(s, swept, cutoff)
    requires s'.pool == swept.pool + [ConnectionInfo(spare, stamp, true)]
    requires s'.destroyed == swept.destroyed
    ensures Distinct(s'.pool) && AllInUse(s'.pool) && GrabEffect(s, s', cutoff, spare, spare)
  {
    assert s'.pool[|swept.pool|] in s'.pool;
    forall i | 0 <= i < |swept.pool|
      ensures swept.pool[i].conn != spare
    {
      assert swept.pool[i] in s.pool;
    }
  }

  lemma {:induction false} KeptShorter(pool: seq<ConnectionInfo>, sweep: Sweep)
    ensures |Kept(pool, sweep)| <= |pool|
  {
    if pool != [] {
      KeptShorter(pool[..|pool| - 1], sweep);
    }
  }

  /** Removing a busy connection takes away its record and no other. */
  lemma RemoveIsExact(s: PoolState, got: Conn)
    requires Distinct(s.pool)
    requires IsBusy(s, got)
    ensures Distinct(AfterRemove(s, got).pool)
    ensures forall ci :: ci in AfterRemove(s, got).pool <==> ci in s.pool && ci.conn != got
    ensures AfterRemove(s, got).destroyed == s.destroyed + [got]
    ensures |AfterRemove(s, got).pool| == |s.pool| - 1
    ensures FreeCount(AfterRemove(s, got).pool) == FreeCount(s.pool)
  {
    hide Kept;
    var i := Position(s.pool, got);
    KeptErase(s.pool, i, Unused);
    SweepOne(s.pool[i], Unused);
    EraseMembers(s.pool, i);
  }

  lemma EraseMembers(pool: seq<ConnectionInfo>, i: nat)
    requires Distinct(pool) && i < |pool|
    ensures Distinct(pool[..i] + pool[i + 1..])
    ensures forall ci :: ci in pool[..i] + pool[i + 1..] <==> ci in pool && ci.conn != pool[i].conn
  {
    var pool' := pool[..i] + pool[i + 1..];
    forall ci | ci in pool && ci.conn != pool[i].conn
      ensures ci in pool'
    {
      var j :| 0 <= j < |pool| && pool[j] == ci;
      assert ci == if j < i then pool'[j] else pool'[j - 1];
    }
  }

  /** Where a run of failed grabs has led from state s0.  What failed was free and is destroyed; every
      other record is as it was, except that those idle for too long at one of the grabs are gone and
      destroyed. */
  ghost predicate Outcome(maxIdle: nat, clock: nat -> int, spare: Conn, s0: PoolState, s: PoolState,
                          got: Conn, failed: seq<Conn>)
  {
    && IsBusy(s, got)
    && (got == spare || WasFree(s0, got))
    && (forall c :: c in failed ==> c in s.destroyed && c !in Conns(s.pool) && WasFree(s0, c))
    && (forall ci: ConnectionInfo :: ci.conn != got && ci in s.pool ==> ci in s0.pool)
    && (forall ci: ConnectionInfo :: ci.conn != got && ci in s0.pool && ci !in s.pool ==>
          ci.conn in s.destroyed &&
          (ci.conn in failed || TimedOut(maxIdle, clock, |failed|, ci)))
  }

  /** The record had been idle for too long at one of the first n + 1 grabs. */
  ghost predicate TimedOut(maxIdle: nat, clock: nat -> int, n: nat, ci: ConnectionInfo) {
    !ci.inUse && exists k: nat :: k <= n && ci.lastUsed <= clock(k) - maxIdle
  }

  lemma OutcomeStart(maxIdle: nat, clock: nat -> int, stamp: int, spare: Conn,
                     s0: PoolState, s: PoolState, got: Conn)
    requires Distinct(s0.pool) && spare !in Conns(s0.pool)
    requires GrabStep(s0, s, maxIdle, clock(0), stamp, spare, got)
    ensures Distinct(s.pool) && Outcome(maxIdle, clock, spare, s0, s, got, [])
    ensures got != spare ==> FreeCount(s.pool) < FreeCount(s0.pool)
  {
    hide GrabStep, Distinct, FreeCount, AllInUse;
    GrabRecords(s0, s, maxIdle, clock(0), stamp, spare, got);
    assert forall ci: ConnectionInfo ::
      !ci.inUse && ci.lastUsed <= clock(0) - maxIdle ==> TimedOut(maxIdle, clock, 0, ci);
  }

  /** The state between removing a connection that failed and grabbing the next one. */
  ghost predicate BadRemoved(s: PoolState, got: Conn, removed: PoolState) {
    && (forall ci :: ci in removed.pool <==> ci in s.pool && ci.conn != got)
    && removed.destroyed == s.destroyed + [got]
  }

  lemma RemoveBad(maxIdle: nat, clock: nat -> int, spare: Conn, s0: PoolState, s: PoolState, got: Conn,
                  failed: seq<Conn>)
    requires spare !in Conns(s0.pool) && got != spare && Distinct(s.pool)
    requires Outcome(maxIdle, clock, spare, s0, s, got, failed)
    ensures var removed := AfterRemove(s, got);
      && BadRemoved(s, got, removed)
      && Distinct(removed.pool) && spare !in Conns(removed.pool)
      && |removed.pool| == |s.pool| - 1 && FreeCount(removed.pool) == FreeCount(s.pool)
  {
    RemoveIsExact(s, got);
    var removed := AfterRemove(s, got);
    forall i | 0 <= i < |removed.pool|
      ensures removed.pool[i].conn != spare
    {
      assert removed.pool[i] in removed.pool;
    }
  }

  lemma FailedAreGone(maxIdle: nat, clock: nat -> int, spare: Conn, s0: PoolState, s: PoolState, got: Conn,
                      failed: seq<Conn>, removed: PoolState, s': PoolState, got': Conn)
    requires spare !in Conns(s0.pool) && got != spare
    requires Outcome(maxIdle, clock, spare, s0, s, got, failed)
    requires BadRemoved(s, got, removed)
    requires GrabEffect(removed, s', clock(|failed| + 1) - maxIdle, spare, got')
    ensures forall c :: c in failed + [got] ==> c in s'.destroyed && c !in Conns(s'.pool) && WasFree(s0, c)
  {
    forall c | c in failed + [got]
      ensures c in s'.destroyed && c !in Conns(s'.pool) && WasFree(s0, c)
    {
      assert c in removed.destroyed;
      assert c !in Conns(removed.pool) by {
        assert forall i :: 0 <= i < |removed.pool| ==> removed.pool[i] in removed.pool;
      }
      FailedStaysGone(s0, removed, s', spare, c, clock(|failed| + 1) - maxIdle, got');
    }
  }

  lemma ThenGrabbed(maxIdle: nat, clock: nat -> int, spare: Conn, s0: PoolState, s: PoolState, got: Conn,
                    failed: seq<Conn>, removed: PoolState, s': PoolState, got': Conn)
    requires spare !in Conns(s0.pool) && got != spare
    requires Outcome(maxIdle, clock, spare, s0, s, got, failed)
    requires BadRemoved(s, got, removed)
    requires GrabEffect(removed, s', clock(|failed| + 1) - maxIdle, spare, got')
    ensures Outcome(maxIdle, clock, spare, s0, s', got', failed + [got])
  {
    FailedAreGone(maxIdle, clock, spare, s0, s, got, failed, removed, s', got');
    forall ci: ConnectionInfo | ci.conn != got' && ci in s0.pool && ci !in s'.pool
      ensures ci.conn in s'.destroyed
      ensures ci.conn in failed + [got] || TimedOut(maxIdle, clock, |failed| + 1, ci)
    {
      assert got in removed.destroyed;
      if ci !in removed.pool && ci.conn != got {
        assert ci.conn in removed.destroyed;
      }
    }
  }

  /** One turn of the loop of safe_grab. */
  lemma TriedAgain(maxIdle: nat, clock: nat -> int, stamp: int, spare: Conn, s0: PoolState, s: PoolState, bad: Conn,
                   failed: seq<Conn>, s': PoolState, got: Conn)
    requires spare !in Conns(s0.pool) && bad != spare && Distinct(s.pool)
    requires Outcome(maxIdle, clock, spare, s0, s, bad, failed)
    requires GrabStep(AfterRemove(s, bad), s', maxIdle, clock(|failed| + 1), stamp, spare, got)
    ensures Distinct(s'.pool) && Outcome(maxIdle, clock, spare, s0, s', got, failed + [bad])
    ensures got != spare ==> |s'.pool| < |s.pool| && FreeCount(s'.pool) < FreeCount(s.pool)
  {
    hide Outcome, Distinct, GrabStep, GrabEffect, BadRemoved, AfterRemove, FreeCount, AllInUse, Conns;
    RemoveBad(maxIdle, clock, spare, s0, s, bad, failed);
    var removed, n := AfterRemove(s, bad), |failed| + 1;
    GrabRecords(removed, s', maxIdle, clock(n), stamp, spare, got);
    ThenGrabbed(maxIdle, clock, spare, s0, s, bad, failed, removed, s', got);
  }

  lemma FailedStaysGone(s0: PoolState, removed: PoolState, s': PoolState, spare: Conn, c: Conn,
                        cutoff: int, got': Conn)
    requires WasFree(s0, c) && spare !in Conns(s0.pool)
    requires c !in Conns(removed.pool)
    requires GrabEffect(removed, s', cutoff, spare, got')
    ensures c !in Conns(s'.pool)
  {
    forall i | 0 <= i < |s'.pool|
      ensures s'.pool[i].conn != c
    {
      assert s'.pool[i] in s'.pool;
    }
  }

  class Pool {
    const maxIdleTime: nat
    var pool: seq<ConnectionInfo>
    ghost var created: set<Conn>
    ghost var destroyed: seq<Conn>

    ghost function State(): PoolState
      reads this
    {
      PoolState(pool, created, destroyed)
    }

    constructor (maxIdleTime: nat)
      ensures State() == PoolState([], {}, [])
      ensures this.maxIdleTime == maxIdleTime
    {
      this.maxIdleTime := maxIdleTime;
      pool, created, destroyed := [], {}, [];
    }

    /** remove(const PoolIt&): destroy the connection, then erase its record. */
    method RemoveAt(it: nat)
      requires it < |pool|
      modifies this
      ensures pool == old(pool)[..it] + old(pool)[it + 1..]
      ensures destroyed == old(destroyed) + [old(pool)[it].conn]
      ensures created == old(created)
    {
      destroyed := destroyed + [pool[it].conn];
      pool := pool[..it] + pool[it + 1..];
    }

    /** std::find_if from an iterator, with the TooOld functor. */
    method FindTooOld(from: nat, minAge: int) returns (it: nat)
      requires from <= |pool|
      ensures from <= it <= |pool|
      ensures Spared(pool, from, it, OlderThan(minAge))
      ensures it < |pool| ==> OlderThan(minAge).Hits(pool[it])
      ensures forall j :: from <= j < it ==> pool[j].inUse || pool[j].lastUsed > minAge
      ensures it < |pool| ==> !pool[it].inUse && pool[it].lastUsed <= minAge
    {
      it := from;
      while it < |pool| && !(!pool[it].inUse && pool[it].lastUsed <= minAge)
        invariant from <= it <= |pool|
        invariant forall j :: from <= j < it ==> pool[j].inUse || pool[j].lastUsed > minAge
      {
        it := it + 1;
      }
    }

    /** One turn of the loop of remove_old_connections: the record found is removed, and the search goes
        on from where it was. */
    method RemoveAndFindNext(it: nat, minAge: int, ghost was: seq<ConnectionInfo>, ghost seen: nat,
                             ghost gone: seq<Conn>)
      returns (next: nat, ghost seen': nat, ghost gone': seq<Conn>)
      requires it < |pool| && OlderThan(minAge).Hits(pool[it])
      requires SweepPoint(was, seen, pool, it, gone, OlderThan(minAge))
      modifies this
      ensures it <= next <= |pool| == old(|pool|) - 1 && SweepPoint(was, seen', pool, next, gone', OlderThan(minAge))
      ensures next < |pool| ==> OlderThan(minAge).Hits(pool[next])
      ensures gone' == gone + [old(pool[it].conn)] && destroyed == old(destroyed) + [old(pool[it].conn)]
      ensures created == old(created)
    {
      hide SweepPoint, Spared, Sweep.Hits;
      SweepErases(was, seen, pool, it, gone, OlderThan(minAge));
      gone', seen' := gone + [pool[it].conn], seen + 1;
      RemoveAt(it);
      next := FindTooOld(it, minAge);
      SweepSpares(was, seen', pool, it, gone', OlderThan(minAge), next);
      seen' := seen' + (next - it);
    }

    method RemoveOldConnections(now: int)
      modifies this
      ensures State() == AfterSweep(old(State()), OlderThan(now - maxIdleTime))
      ensures SweepEffect(old(State()), State(), now - maxIdleTime)
    {
      hide SweepPoint, Spared, Kept, Swept, Sweep.Hits;
      var minAge := now - maxIdleTime;
      ghost var sweep, was, gone: seq<Conn> := OlderThan(minAge), pool, [];
      ghost var destroyed0, created0 := destroyed, created;
      ghost var seen: nat := 0;
      var it := FindTooOld(0, minAge);
      SweepBegins(was, sweep);
      SweepSpares(was, 0, pool, 0, [], sweep, it);
      seen := it;
      while it != |pool|
        invariant it <= |pool| && SweepPoint(was, seen, pool, it, gone, sweep)
        invariant it < |pool| ==> sweep.Hits(pool[it])
        invariant destroyed == destroyed0 + gone && created == created0
        decreases |pool| - it
      {
        ConcatAssociates(destroyed0, gone, [pool[it].conn]);
        it, seen, gone := RemoveAndFindNext(it, minAge, was, seen, gone);
      }
      SweepEnds(was, seen, pool, gone, sweep);
      SweptRecords(old(State()), now - maxIdleTime);
    }

    /** clear(all): drain the pool, or only its unused part (shrink). */
    method Clear(all: bool)
      modifies this
      ensures State() == AfterSweep(old(State()), if all then Everything else Unused)
      ensures all ==> pool == [] && destroyed == old(destroyed) + Conns(old(pool))
      ensures !all ==> forall ci :: ci in pool <==> ci in old(pool) && ci.inUse
      ensures !all ==> forall ci :: ci in old(pool) && !ci.inUse ==> ci.conn in destroyed
    {
      hide SweepPoint;
      ghost var sweep, was, gone := if all then Everything else Unused, pool, [];
      ghost var seen: nat := 0;
      SweepBegins(was, sweep);
      var it := 0;
      while it != |pool|
        invariant it <= |pool| && SweepPoint(was, seen, pool, it, gone, sweep)
        invariant destroyed == old(destroyed) + gone
        invariant created == old(created)
        decreases |pool| - it
      {
        if all || !pool[it].inUse {
          SweepErases(was, seen, pool, it, gone, sweep);
          gone := gone + [pool[it].conn];
          RemoveAt(it);
        } else {
          SweepSpares(was, seen, pool, it, gone, sweep, it + 1);
          it := it + 1;
        }
        seen := seen + 1;
      }
      SweepEnds(was, seen, pool, gone, sweep);
      if all {
        AllSwept(was);
      } else {
        SweepIsExact(was, Unused);
      }
    }

    /** find_mru: std::max_element over the list, then a look at its in-use flag. */
    method FindMru() returns (found: bool, conn: Conn)
      modifies this`pool
      ensures found <==> !AllInUse(old(pool))
      ensures !found ==> pool == old(pool)
      ensures found ==> exists i :: IsMru(old(pool), i) && conn == old(pool)[i].conn
                                    && pool == old(pool)[i := old(pool)[i].(inUse := true)]
    {
      found, conn := false, 0;
      if pool == [] {
        return;
      }
      var mru, i := 0, 1;
      while i < |pool|
        invariant 0 <= mru < i <= |pool|
        invariant IsFirstMax(pool[..i], mru)
      {
        if pool[mru].Less(pool[i]) {
          mru := i;
        }
        i := i + 1;
      }
      assert pool[..i] == pool;
      MaxElementFindsMru(pool, mru);
      if !pool[mru].inUse {
        found, conn := true, pool[mru].conn;
        pool := pool[mru := pool[mru].(inUse := true)];
      }
    }

    /** grab.  `now` is the clock as the sweep reads it, `stamp` as the new record reads it, and
        `spare` the connection that create would return. */
    method Grab(now: int, stamp: int, spare: Conn) returns (got: Conn)
      modifies this
      ensures GrabStep(old(State()), State(), maxIdleTime, now, stamp, spare, got)
    {
      RemoveOldConnections(now);
      var found, mru := FindMru();
      if found {
        return mru;
      }
      pool := pool + [ConnectionInfo(spare, stamp, true)];
      created := created + {spare};
      got := pool[|pool| - 1].conn;
    }

    method Release(pc: Conn, now: int)
      modifies this`pool
      ensures State() == AfterRelease(old(State()), pc, now)
      ensures |pool| == |old(pool)|
      ensures forall j :: 0 <= j < |pool| ==>
        var first := old(pool)[j].conn == pc && forall k :: 0 <= k < j ==> old(pool)[k].conn != pc;
        pool[j] == if first then ConnectionInfo(pc, now, false) else old(pool)[j]
    {
      var it := 0;
      while it != |pool|
        invariant 0 <= it <= |pool| && pool == old(pool)
        invariant forall j :: 0 <= j < it ==> pool[j].conn != pc
      {
        if pool[it].conn == pc {
          pool := pool[it := pool[it].(inUse := false, lastUsed := now)];
          break;
        }
        it := it + 1;
      }
    }

    method Remove(pc: Conn)
      modifies this
      ensures State() == AfterRemove(old(State()), pc)
      ensures forall i :: 0 <= i < |old(pool)| && old(pool)[i].conn == pc ==>
        ((forall k :: 0 <= k < i ==> old(pool)[k].conn != pc) ==>
         pool == old(pool)[..i] + old(pool)[i + 1..] && destroyed == old(destroyed) + [pc])
    {
      var it := 0;
      while it != |pool|
        invariant 0 <= it <= |pool| && State() == old(State())
        invariant forall j :: 0 <= j < it ==> pool[j].conn != pc
      {
        if pool[it].conn == pc {
          RemoveAt(it);
          return;
        }
        it := it + 1;
      }
    }

    /** exchange, when no other client gets in between its two locked steps. */
    method Exchange(pc: Conn, now: int, stamp: int, spare: Conn) returns (got: Conn)
      modifies this
      ensures GrabStep(AfterRemove(old(State()), pc), State(), maxIdleTime, now, stamp, spare, got)
    {
      Remove(pc);
      got := Grab(now, stamp, spare);
    }

    /** safe_grab, when no other client interferes and a connection that `create` just made answers
        `ping`.  `clock(n)` is the time of the n-th grab. */
    method SafeGrab(clock: nat -> int, stamp: int, spare: Conn, ping: Conn -> bool)
      returns (got: Conn, ghost failed: seq<Conn>)
      requires Distinct(pool)
      requires spare !in Conns(pool) && ping(spare)
      modifies this
      ensures Distinct(pool) && Outcome(maxIdleTime, clock, spare, old(State()), State(), got, failed)
      ensures ping(got)
      ensures forall c :: c in failed ==> !ping(c)
      ensures |failed| <= FreeCount(old(pool))
    {
      hide Outcome, Distinct, GrabStep, AfterRemove, FreeCount, Conns;
      ghost var s0 := State();
      failed := [];
      var tries := 0;
      got := Grab(clock(0), stamp, spare);
      OutcomeStart(maxIdleTime, clock, stamp, spare, s0, State(), got);
      while !ping(got)
        invariant tries == |failed|
        invariant Distinct(pool) && Outcome(maxIdleTime, clock, spare, s0, State(), got, failed)
        invariant forall c :: c in failed ==> !ping(c)
        invariant |failed| + (if got == spare then 0 else FreeCount(pool) + 1) <= FreeCount(s0.pool)
        decreases if got == spare then 0 else |pool| + 1
      {
        ghost var before, bad := State(), got;
        Remove(got);
        tries := tries + 1;
        got := Grab(clock(tries), stamp, spare);
        TriedAgain(maxIdleTime, clock, stamp, spare, s0, before, bad, failed, State(), got);
        failed := failed + [bad];
      }
    }
  }
}
