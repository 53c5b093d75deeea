/** What the pool does to its records, in terms of their fields alone. */
module PoolFacts {
  import opened ConnectionPool
  import opened PoolRuns

  /** The idle limit of one grab.  A free connection idle for less than maxIdle seconds is still in the pool,
      or is the one handed out; one idle for as long or longer is gone and destroyed; busy ones stay as they
      are. */
  lemma GrabDropsIdle(s: PoolState, s': PoolState, maxIdle: nat, now: int, stamp: int, spare: Conn, got: Conn)
    requires GrabStep(s, s', maxIdle, now, stamp, spare, got)
    requires forall i, j :: 0 <= i < j < |s.pool| ==> s.pool[i].conn != s.pool[j].conn
    requires forall i :: 0 <= i < |s.pool| ==> s.pool[i].conn != spare
    ensures forall i :: 0 <= i < |s.pool| && s.pool[i].inUse ==> s.pool[i] in s'.pool && s.pool[i].conn != got
    ensures forall i :: 0 <= i < |s.pool| && !s.pool[i].inUse && now - s.pool[i].lastUsed < maxIdle ==>
      s.pool[i] in s'.pool || s.pool[i].conn == got
    ensures forall i :: 0 <= i < |s.pool| && !s.pool[i].inUse && now - s.pool[i].lastUsed >= maxIdle ==>
      s.pool[i].conn in s'.destroyed && s.pool[i].conn != got
    ensures forall i, j :: 0 <= i < |s.pool| && 0 <= j < |s'.pool| ==>
      (!s.pool[i].inUse && now - s.pool[i].lastUsed >= maxIdle ==> s'.pool[j].conn != s.pool[i].conn)
  {
    hide IsMru, AllInUse, Kept, Swept, Distinct, FreeCount, GrabStep;
    assert Distinct(s.pool) by {
      AllDistinct(s.pool);
    }
    assert spare !in Conns(s.pool);
    GrabRecords(s, s', maxIdle, now, stamp, spare, got);
    GrabChooses(s, s', maxIdle, now, stamp, spare, got);
    GotIsWarm(s, maxIdle, now, got, spare);
    GoneFromPool(s, s', now - maxIdle, spare, got);
  }

  lemma AllDistinct(pool: seq<ConnectionInfo>)
    requires forall i, j :: 0 <= i < j < |pool| ==> pool[i].conn != pool[j].conn
    ensures Distinct(pool)
  {
  }

  lemma GotIsWarm(s: PoolState, maxIdle: nat, now: int, got: Conn, spare: Conn)
    requires forall i, j :: 0 <= i < j < |s.pool| ==> s.pool[i].conn != s.pool[j].conn
    requires forall i :: 0 <= i < |s.pool| ==> s.pool[i].conn != spare
    requires got != spare ==>
      exists i :: 0 <= i < |s.pool| && s.pool[i].conn == got && !s.pool[i].inUse && now - s.pool[i].lastUsed < maxIdle
    ensures forall i :: 0 <= i < |s.pool| && s.pool[i].conn == got ==>
      !s.pool[i].inUse && now - s.pool[i].lastUsed < maxIdle
  {
  }

  /** The reuse policy of one grab.  If a free connection has been idle for less than maxIdle seconds, the
      one handed out is such a one, no free connection was used later, and nothing is created; if none has,
      a connection is created and handed out, with the stamp of its creation. */
  lemma GrabChooses(s: PoolState, s': PoolState, maxIdle: nat, now: int, stamp: int, spare: Conn, got: Conn)
    requires GrabStep(s, s', maxIdle, now, stamp, spare, got)
    requires forall i :: 0 <= i < |s.pool| ==> s.pool[i].conn != spare
    ensures got != spare <==> exists i :: 0 <= i < |s.pool| && !s.pool[i].inUse && now - s.pool[i].lastUsed < maxIdle
    ensures got != spare ==>
      exists i ::
        (&& 0 <= i < |s.pool| && s.pool[i].conn == got && !s.pool[i].inUse && now - s.pool[i].lastUsed < maxIdle
         && forall j :: 0 <= j < |s.pool| && !s.pool[j].inUse ==> s.pool[j].lastUsed <= s.pool[i].lastUsed)
    ensures got != spare ==>
      s'.created == s.created && exists j :: 0 <= j < |s'.pool| && s'.pool[j].conn == got && s'.pool[j].inUse
    ensures got == spare ==> s'.created == s.created + {spare}
    ensures got == spare ==> |s'.pool| > 0 && s'.pool[|s'.pool| - 1] == ConnectionInfo(spare, stamp, true)
  {
    var swept := AfterSweep(s, OlderThan(now - maxIdle));
    SweptRecords(s, now - maxIdle);
    hide Kept, Swept, SweepEffect;
    if AllInUse(swept.pool) {
      NothingFree(s, swept, now - maxIdle);
    } else {
      var i :| IsMru(swept.pool, i) && got == swept.pool[i].conn &&
               s' == swept.(pool := swept.pool[i := swept.pool[i].(inUse := true)]);
      hide AllInUse;
      assert s'.pool[i].conn == got && s'.pool[i].inUse;
      MruIsOneOf(s, swept, now - maxIdle, i);
    }
  }

  lemma NothingFree(s: PoolState, swept: PoolState, cutoff: int)
    requires SweepEffect(s, swept, cutoff) && AllInUse(swept.pool)
    ensures forall i :: 0 <= i < |s.pool| && !s.pool[i].inUse ==> s.pool[i].lastUsed <= cutoff
  {
    forall i | 0 <= i < |s.pool| && !s.pool[i].inUse
      ensures s.pool[i].lastUsed <= cutoff
    {
      assert s.pool[i] in swept.pool <==> s.pool[i].lastUsed > cutoff;
    }
  }

  lemma MruIsOneOf(s: PoolState, swept: PoolState, cutoff: int, i: nat)
    requires SweepEffect(s, swept, cutoff) && IsMru(swept.pool, i)
    ensures exists k :: 0 <= k < |s.pool| && s.pool[k] == swept.pool[i]
    ensures !swept.pool[i].inUse && swept.pool[i].lastUsed > cutoff
    ensures forall j :: 0 <= j < |s.pool| && !s.pool[j].inUse ==> s.pool[j].lastUsed <= swept.pool[i].lastUsed
  {
    assert swept.pool[i] in swept.pool;
    forall j | 0 <= j < |s.pool| && !s.pool[j].inUse && s.pool[j].lastUsed > cutoff
      ensures s.pool[j].lastUsed <= swept.pool[i].lastUsed
    {
      assert s.pool[j] in swept.pool;
    }
  }

  lemma GoneFromPool(s: PoolState, s': PoolState, cutoff: int, spare: Conn, got: Conn)
    requires GrabEffect(s, s', cutoff, spare, got) && Distinct(s.pool) && Distinct(s'.pool)
    requires forall i :: 0 <= i < |s.pool| ==> s.pool[i].conn != spare
    requires forall i :: 0 <= i < |s.pool| && s.pool[i].conn == got ==>
      !s.pool[i].inUse && s.pool[i].lastUsed > cutoff
    ensures forall i, j :: 0 <= i < |s.pool| && 0 <= j < |s'.pool| ==>
      (!s.pool[i].inUse && s.pool[i].lastUsed <= cutoff ==> s'.pool[j].conn != s.pool[i].conn)
  {
    forall i, j | 0 <= i < |s.pool| && !s.pool[i].inUse && s.pool[i].lastUsed <= cutoff && 0 <= j < |s'.pool|
      ensures s'.pool[j].conn != s.pool[i].conn
    {
      if s'.pool[j].conn != got {
        assert s'.pool[j] in s'.pool;
        var k :| 0 <= k < |s.pool| && s.pool[k] == s'.pool[j];
      }
    }
  }

  /** A connection given back is free and stamped with the time, and no other record changes. */
  lemma ReleaseInPlainTerms(maxIdle: nat, s: System, client: Client, c: Conn, now: int, s': System)
    requires Inv(s) && Next(maxIdle, s, Event.Release(client, c, now), s')
    ensures |s'.ps.pool| == |s.ps.pool|
    ensures exists i ::
      (&& 0 <= i < |s.ps.pool| && s.ps.pool[i].conn == c && s.ps.pool[i].inUse
       && s'.ps.pool[i] == ConnectionInfo(c, now, false))
    ensures forall i :: 0 <= i < |s.ps.pool| && s.ps.pool[i].conn != c ==> s'.ps.pool[i] == s.ps.pool[i]
    ensures s'.ps.destroyed == s.ps.destroyed && s'.ps.created == s.ps.created
  {
    ConservedMeans(s.ps);
    hide Conserved;
    assert IsBusy(s.ps, c);
    var ci :| ci in s.ps.pool && ci.conn == c && ci.inUse;
    var i :| 0 <= i < |s.ps.pool| && s.ps.pool[i] == ci;
    assert Position(s.ps.pool, c) == i;
  }

  /** Over runs: a connection given back later than every other was used, and grabbed for next before it
      has been idle for maxIdle seconds, is the one handed out. */
  lemma ReleasedIsGrabbedNext(maxIdle: nat, states: seq<System>, events: seq<Event>, i: nat)
    requires Run(maxIdle, states, events) && states[0] == Initial
    requires i + 1 < |events| && events[i].Release? && events[i + 1].Grab?
    requires forall k :: 0 <= k < |states[i].ps.pool| && states[i].ps.pool[k].conn != events[i].conn ==>
      states[i].ps.pool[k].lastUsed < events[i].now
    requires events[i + 1].now - events[i].now < maxIdle
    ensures events[i + 1].got == events[i].conn
  {
    var s, s', e, g := states[i], states[i + 1], events[i], events[i + 1];
    RunKeepsInv(maxIdle, states, events, i);
    RunKeepsInv(maxIdle, states, events, i + 1);
    assert Next(maxIdle, s, e, s') && Next(maxIdle, s', g, states[i + 2]);
    ReleaseInPlainTerms(maxIdle, s, e.client, e.conn, e.now, s');
    ConservedMeans(s'.ps);
    NotPooled(s'.ps, g.spare);
    hide Inv, Run;
    GrabChooses(s'.ps, states[i + 2].ps, maxIdle, g.now, g.stamp, g.spare, g.got);
  }

  lemma NotPooled(ps: PoolState, spare: Conn)
    requires Conserved(ps) && spare !in ps.created
    ensures forall i :: 0 <= i < |ps.pool| ==> ps.pool[i].conn != spare
  {
    ConservedMeans(ps);
    hide Conserved;
    assert forall i :: 0 <= i < |ps.pool| ==> Conns(ps.pool)[i] == ps.pool[i].conn;
  }

  /** The number of connections in use, counted. */
  lemma {:induction false} BusyCountIs(pool: seq<ConnectionInfo>)
    ensures BusyCount(pool) == |set i | 0 <= i < |pool| && pool[i].inUse|
  {
    var all := set i | 0 <= i < |pool| && pool[i].inUse;
    if pool == [] {
      assert all == {};
    } else {
      var n := |pool| - 1;
      var front := pool[..n];
      BusyCountIs(front);
      var before := set i | 0 <= i < |front| && front[i].inUse;
      assert n !in before;
      assert all == if pool[n].inUse then before + {n} else before;
    }
  }
}
