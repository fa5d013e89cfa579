/**
 The connection pool's classes: connections shared between the pool's lists and the
 wrappers handed out. Each operation is proved to make the step of PoolModel.
 */
module ConnectionPool {
  import opened Results
  import opened PoolModel

  class PooledConnection {
    const transport: int
    const target: string
    const created: int
    var inUse: bool
    var lastUsed: int
    var useCount: int

    constructor (transport: int, target: string, now: int)
      ensures this.target == target && View() == Conn(transport, true, now, now, 1)
    {
      this.transport, this.target, created := transport, target, now;
      inUse, lastUsed, useCount := true, now, 1;
    }

    function View(): Conn
      reads this
    {
      Conn(transport, inUse, created, lastUsed, useCount)
    }

    /** The transport reports itself connected and the connection is at most an hour old. */
    predicate IsHealthy(now: int, connected: set<int>) {
      transport in connected && !(now - created > HOUR)
    }
  }

  ghost function ViewList(l: seq<PooledConnection>): (r: seq<Conn>)
    reads l
    ensures |r| == |l| && forall i :: 0 <= i < |l| ==> r[i] == l[i].View()
  {
    seq(|l|, i requires 0 <= i < |l| reads l => l[i].View())
  }

  lemma CountOneMore(l: seq<Conn>, k: nat, inUse: bool)
    requires k < |l|
    ensures Count(l[..k+1], inUse) == Count(l[..k], inUse) + if l[k].inUse == inUse then 1 else 0
  {
    assert l[..k+1] == l[..k] + [l[k]];
    CountAppend(l[..k], [l[k]], inUse);
    assert Count([l[k]], inUse) == if l[k].inUse == inUse then 1 else 0;
  }

  datatype GetError = CreateFailed | PoolExhausted

  class Pool {
    const config: Config
    var conns: map<string, seq<PooledConnection>>
    var metrics: Metrics
    ghost var all: set<PooledConnection>  // every connection created so far

    /** Transports identify connections, each is listed at most once, under its target, and while in use. */
    ghost predicate Valid()
      reads this, all
    {
      && metrics.created >= 0
      && (forall c :: c in all ==> 0 <= c.transport < metrics.created)
      && (forall c, c' :: c in all && c' in all && c.transport == c'.transport ==> c == c')
      && (forall t, i :: t in conns && 0 <= i < |conns[t]| ==> conns[t][i] in all && conns[t][i].target == t)
      && (forall t, i, j :: t in conns && 0 <= i < j < |conns[t]| ==> conns[t][i] != conns[t][j])
      && (forall c :: c in all && c.inUse ==> c.target in conns && c in conns[c.target])
    }

    ghost function View(): State
      reads this, all
      requires Valid()
    {
      State(map t | t in conns :: ViewList(conns[t]), metrics)
    }

    constructor (config: Config)
      ensures Valid() && View() == INITIAL && this.config == config && all == {}
    {
      this.config := config;
      conns, metrics, all := map[], Metrics(0, 0, 0, 0, 0), {};
    }

    /** When only the connection at i of t's list may have changed, the view is the old one updated there. */
    lemma OnlyOneChanged(before: map<string, seq<Conn>>, t: string, i: nat)
      requires Valid() && before.Keys == conns.Keys && t in conns && i < |conns[t]|
      requires forall u :: u in conns ==> |before[u]| == |conns[u]|
      requires forall u, j :: u in conns && 0 <= j < |conns[u]| && conns[u][j] != conns[t][i] ==>
        before[u][j] == conns[u][j].View()
      ensures View().conns == before[t := before[t][i := conns[t][i].View()]]
    {
      forall u | u in conns ensures ViewList(conns[u]) == if u == t then before[t][i := conns[t][i].View()] else before[u] {
        forall j | 0 <= j < |conns[u]| && !(u == t && j == i) ensures conns[u][j] != conns[t][i] {
          assert conns[u][j].target == u && conns[t][i].target == t;
        }
      }
    }

    /** When only t's list may have changed, the view is the old one with t's new list. */
    lemma ListSwapped(before: map<string, seq<Conn>>, t: string)
      requires Valid() && t in conns && conns.Keys == before.Keys + {t}
      requires forall u :: u in conns && u != t ==> ViewList(conns[u]) == before[u]
      ensures View().conns == before[t := ViewList(conns[t])]
    {}

    /** A listed connection is found by its transport. */
    lemma FoundByTransport(t: string, i: nat)
      requires Valid() && t in conns && i < |conns[t]|
      ensures IndexOf(ViewList(conns[t]), conns[t][i].transport) == Some(i)
    {}

    method Get(target: string, now: int, connected: set<int>, factoryOk: bool)
      returns (r: Result<PooledTransportWrapper, GetError>)
      requires Valid()
      modifies this, all
      ensures Valid() && old(all) <= all && fresh(all - old(all))
      ensures View() == PoolModel.Get(config, old(View()), target, now, connected, factoryOk).0
      ensures match PoolModel.Get(config, old(View()), target, now, connected, factoryOk).1
              case Leased(n) => r.Success? && r.value.pool == this && r.value.conn in all
                                && r.value.conn.transport == n && r.value.conn.target == target
              case FactoryFailed => r == Failure(CreateFailed)
              case Exhausted => r == Failure(PoolExhausted)
    {
      EnsureList(target);
      var got := GetConnection(target, now, connected, factoryOk);
      if got.Failure? {
        return Failure(got.error);
      }
      var wrapper := new PooledTransportWrapper(this, got.value);
      r := Success(wrapper);
    }

    /** Get for a target that has a list: the search, then the capacity check and the factory. */
    method GetConnection(target: string, now: int, connected: set<int>, factoryOk: bool)
      returns (r: Result<PooledConnection, GetError>)
      requires Valid() && target in conns
      modifies this, all
      ensures Valid() && old(all) <= all && fresh(all - old(all))
      ensures View() == GetListed(config, old(View()), target, now, connected, factoryOk).0
      ensures match GetListed(config, old(View()), target, now, connected, factoryOk).1
              case Leased(n) => r.Success? && r.value in all && r.value.transport == n && r.value.target == target
              case FactoryFailed => r == Failure(CreateFailed)
              case Exhausted => r == Failure(PoolExhausted)
    {
      var found := FindHealthy(conns[target], now, connected);
      if found.Some? {
        var conn := conns[target][found.value];
        ReuseConnection(target, found.value, now);
        return Success(conn);
      }
      var maxConns := if config.maxConns == 0 then 10 else config.maxConns;
      if |conns[target]| < maxConns {
        if !factoryOk {
          return Failure(CreateFailed);
        }
        var conn := AddConnection(target, now);
        return Success(conn);
      }
      r := Failure(PoolExhausted);
    }

    method EnsureList(target: string)
      requires Valid()
      modifies this`conns
      ensures Valid() && View() == WithList(old(View()), target)
      ensures target in conns && View().conns[target] == ViewList(conns[target])
    {
      ghost var before := View().conns;
      if target !in conns {
        conns := conns[target := []];
        ListSwapped(before, target);
      }
    }

    /** The search of Get: the first connection that is idle and healthy. */
    static method FindHealthy(l: seq<PooledConnection>, now: int, connected: set<int>) returns (found: Option<nat>)
      ensures found == FindReusable(ViewList(l), 0, now, connected)
    {
      ghost var views := ViewList(l);
      for i := 0 to |l|
        invariant FindReusable(views, 0, now, connected) == FindReusable(views, i, now, connected)
      {
        if !l[i].inUse && l[i].IsHealthy(now, connected) {
          return Some(i);
        }
      }
      found := None;
    }

    method ReuseConnection(target: string, i: nat, now: int)
      requires Valid() && target in conns && i < |conns[target]| && !conns[target][i].inUse
      modifies this`metrics, conns[target][i]
      ensures Valid() && View() == Reused(old(View()), target, i, now)
    {
      ghost var before := View();
      var conn := conns[target][i];
      conn.inUse := true;
      conn.lastUsed := now;
      conn.useCount := conn.useCount + 1;
      metrics := metrics.(totalReused := metrics.totalReused + 1, active := metrics.active + 1, idle := metrics.idle - 1);
      OnlyOneChanged(before.conns, target, i);
    }

    method AddConnection(target: string, now: int) returns (conn: PooledConnection)
      requires Valid() && target in conns
      modifies this
      ensures Valid() && fresh(conn) && all == old(all) + {conn}
      ensures conn.transport == old(metrics.created) && conn.target == target
      ensures View() == Added(old(View()), target, now)
    {
      ghost var before := View();
      conn := new PooledConnection(metrics.created, target, now);
      conns := conns[target := conns[target] + [conn]];
      all := all + {conn};
      metrics := metrics.(created := metrics.created + 1, active := metrics.active + 1);
      assert ViewList(conns[target]) == before.conns[target] + [conn.View()];
      ListSwapped(before.conns, target);
    }

    lemma IdleIsNotReturned(conn: PooledConnection)
      requires Valid() && conn in all && !conn.inUse
      ensures var l := ListOf(View(), conn.target);
        IndexOf(l, conn.transport).Some? ==> !l[IndexOf(l, conn.transport).value].inUse
    {}

    method MarkIdle(conn: PooledConnection, now: int, ghost i: nat)
      requires Valid() && conn.target in conns && i < |conns[conn.target]| && conns[conn.target][i] == conn
      modifies this`metrics, conn
      ensures Valid() && !conn.inUse
      ensures View() == Released(old(View()), conn.target, i, now)
    {
      ghost var before := View();
      conn.inUse := false;
      conn.lastUsed := now;
      metrics := metrics.(active := metrics.active - 1, idle := metrics.idle + 1);
      OnlyOneChanged(before.conns, conn.target, i);
    }

    /** The idle connections of conn's target, conn itself counted as idle. */
    method CountIdle(conn: PooledConnection) returns (idleConns: nat)
      requires Valid() && conn.target in conns && !conn.inUse
      ensures idleConns == Count(View().conns[conn.target], false)
    {
      idleConns := 0;
      var l := conns[conn.target];
      ghost var views := ViewList(l);
      for k := 0 to |l|
        invariant idleConns == Count(views[..k], false)
      {
        CountOneMore(views, k, false);
        if l[k] == conn {
          idleConns := idleConns + 1;
          continue;
        }
        if !l[k].inUse {
          idleConns := idleConns + 1;
        }
      }
      assert views[..|l|] == views;
    }

    /** Close the transport and drop the connection, which is at i of its target's list. */
    method DestroyConnection(conn: PooledConnection, ghost i: nat, disconnectOk: bool) returns (ok: bool)
      requires Valid() && conn.target in conns && i < |conns[conn.target]| && conns[conn.target][i] == conn
      modifies this`conns, this`metrics
      ensures Valid()
      ensures ok <==> !old(conn.inUse) && disconnectOk
      ensures View() == if ok then Destroyed(old(View()), conn.target, i) else old(View())
    {
      if conn.inUse {
        return false;
      }
      if !disconnectOk {
        return false;
      }
      RemoveConnection(conn, i);
      metrics := metrics.(destroyed := metrics.destroyed + 1, idle := metrics.idle - 1);
      ok := true;
    }

    method RemoveConnection(conn: PooledConnection, ghost i: nat)
      requires Valid() && conn.target in conns && i < |conns[conn.target]| && conns[conn.target][i] == conn && !conn.inUse
      modifies this`conns
      ensures Valid()
      ensures View().conns == old(View()).conns[conn.target := Without(old(View()).conns[conn.target], i)]
    {
      ghost var before := View().conns;
      var l := conns[conn.target];
      var k := Position(l, conn);
      assert k == i;
      conns := conns[conn.target := l[..k] + l[k+1..]];
      assert ViewList(l[..k] + l[k+1..]) == Without(ViewList(l), i);
      ListSwapped(before, conn.target);
    }

    static method Position(l: seq<PooledConnection>, conn: PooledConnection) returns (k: nat)
      requires conn in l
      ensures k < |l| && l[k] == conn && forall j :: 0 <= j < k ==> l[j] != conn
    {
      k := 0;
      while l[k] != conn
        invariant k < |l| && conn in l[k..]
        invariant forall j :: 0 <= j < k ==> l[j] != conn
        decreases |l| - k
      {
        k := k + 1;
      }
    }

    /** A copy of the counters with active and idle counted anew, in whatever order the map is iterated. */
    method GetMetrics() returns (m: Metrics)
      requires Valid()
      ensures m == metrics.(active := Total(View().conns, true), idle := Total(View().conns, false))
    {
      var active, idle := 0, 0;
      var rest := conns.Keys;
      ghost var views := View().conns;
      ghost var left := views;
      while rest != {}
        invariant rest == left.Keys <= conns.Keys && forall t :: t in left ==> left[t] == views[t]
        invariant active + Total(left, true) == Total(views, true)
        invariant idle + Total(left, false) == Total(views, false)
        decreases rest
      {
        var t :| t in rest;
        rest := rest - {t};
        TotalRemove(left, t, true);
        TotalRemove(left, t, false);
        left := left - {t};
        var inUse, unused := CountList(conns[t]);
        active, idle := active + inUse, idle + unused;
      }
      m := metrics.(active := active, idle := idle);
    }

    static method CountList(l: seq<PooledConnection>) returns (inUse: nat, unused: nat)
      ensures inUse == Count(ViewList(l), true) && unused == Count(ViewList(l), false)
    {
      inUse, unused := 0, 0;
      ghost var views := ViewList(l);
      for k := 0 to |l|
        invariant inUse == Count(views[..k], true) && unused == Count(views[..k], false)
      {
        CountOneMore(views, k, true);
        CountOneMore(views, k, false);
        if l[k].inUse {
          inUse := inUse + 1;
        } else {
          unused := unused + 1;
        }
      }
      assert views[..|l|] == views;
    }

    method Put(conn: PooledConnection, now: int, disconnectOk: bool) returns (ok: bool)
      requires Valid() && conn in all
      modifies this, all
      ensures Valid() && all == old(all)
      ensures (View(), ok) == PoolModel.Put(config, old(View()), conn.target, conn.transport, now, disconnectOk)
    {
      if !conn.inUse {
        IdleIsNotReturned(conn);
        return true;
      }
      ghost var i: nat :| i < |conns[conn.target]| && conns[conn.target][i] == conn;
      FoundByTransport(conn.target, i);
      PutInTwoSteps(config, View(), conn.target, conn.transport, now, disconnectOk, i);
      ghost var expected := PoolModel.Put(config, View(), conn.target, conn.transport, now, disconnectOk);
      MarkIdle(conn, now, i);
      ok := CloseIfSurplus(conn, i, now, disconnectOk);
      assert (View(), ok) == expected;
    }

    /** The second half of Put: close the connection when there are too many idle ones or it is too old. */
    method CloseIfSurplus(conn: PooledConnection, ghost i: nat, now: int, disconnectOk: bool) returns (ok: bool)
      requires Valid() && conn.target in conns && i < |conns[conn.target]| && conns[conn.target][i] == conn && !conn.inUse
      modifies this`conns, this`metrics
      ensures Valid()
      ensures var s := old(View());
        && View() == (if Closes(config, s, conn.target, i, now) && disconnectOk then Destroyed(s, conn.target, i) else s)
        && (ok <==> (Closes(config, s, conn.target, i, now) ==> disconnectOk))
    {
      var maxIdle := if config.maxIdle == 0 then 5 else config.maxIdle;
      var idleConns := CountIdle(conn);
      if idleConns > maxIdle {
        ok := DestroyConnection(conn, i, disconnectOk);
        return;
      }
      var maxLifetime := if config.maxLifetime == 0 then HOUR else config.maxLifetime;
      if now - conn.created > maxLifetime {
        ok := DestroyConnection(conn, i, disconnectOk);
        return;
      }
      ok := true;
    }
  }

  /** What a caller gets: disconnecting it returns the connection to the pool. */
  class PooledTransportWrapper {
    const pool: Pool
    const conn: PooledConnection

    constructor (pool: Pool, conn: PooledConnection)
      ensures this.pool == pool && this.conn == conn
    {
      this.pool, this.conn := pool, conn;
    }

    method Disconnect(now: int, disconnectOk: bool) returns (ok: bool)
      requires pool.Valid() && conn in pool.all
      modifies pool, pool.all
      ensures pool.Valid() && pool.all == old(pool.all)
      ensures (pool.View(), ok)
        == PoolModel.Put(pool.config, old(pool.View()), conn.target, conn.transport, now, disconnectOk)
    {
      ok := pool.Put(conn, now, disconnectOk);
    }
  }
}
