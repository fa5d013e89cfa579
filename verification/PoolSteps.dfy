/**
 What Get and put do to their target's list, connection by connection, and when: every outcome
 has exactly the cause that is stated here.
 */
module PoolSteps {
  import opened Results
  import opened PoolModel
  import opened PoolRuns
  import opened PoolExhaustion

  /** A limit that is not configured has its default. */
  function Limit(configured: int, default: int): int {
    if configured == 0 then default else configured
  }

  /** The positions of the connections of one kind. */
  function Positions(l: seq<Conn>, inUse: bool): set<nat> {
    set i: nat | i < |l| && l[i].inUse == inUse
  }

  /** Counting a list is counting its positions. */
  lemma {:induction false} CountIsSize(l: seq<Conn>, inUse: bool)
    ensures Count(l, inUse) == |Positions(l, inUse)|
    decreases |l|
  {
    if l != [] {
      var n := |l| - 1;
      CountIsSize(l[..n], inUse);
      CountAt(l, n, inUse);
      assert Without(l, n) == l[..n];
      PositionsOneMore(l, n, inUse);
    }
  }

  lemma PositionsOneMore(l: seq<Conn>, n: nat, inUse: bool)
    requires |l| == n + 1
    ensures Positions(l, inUse) == Positions(l[..n], inUse) + if l[n].inUse == inUse then {n} else {}
    ensures n !in Positions(l[..n], inUse)
  {}

  ghost predicate OtherListsSame(s: State, s': State, target: string) {
    forall t :: t != target ==> (t in s'.conns <==> t in s.conns) && ListOf(s', t) == ListOf(s, t)
  }

  /** Only the connection at i may differ. */
  ghost predicate SameBut(l: seq<Conn>, l': seq<Conn>, i: nat) {
    |l'| == |l| && forall j :: 0 <= j < |l| && j != i ==> l'[j] == l[j]
  }

  /** l' is l without the connection at i. */
  ghost predicate Dropped(l: seq<Conn>, l': seq<Conn>, i: nat) {
    && |l'| == |l| - 1 && (forall j :: 0 <= j < i && j < |l'| ==> l'[j] == l[j])
    && (forall j :: i <= j < |l'| ==> l'[j] == l[j+1])
  }

  // ----- Put -----

  /** A returned connection is to be closed: as many others are idle as are allowed, or it is too old. */
  ghost predicate MustClose(cfg: Config, l: seq<Conn>, c: Conn, now: int) {
    |Positions(l, false)| >= Limit(cfg.maxIdle, 5) || now - c.created > Limit(cfg.maxLifetime, 3_600_000_000_000)
  }

  lemma ClosesWhenDue(cfg: Config, l: seq<Conn>, i: nat, now: int)
    requires i < |l| && l[i].inUse
    ensures Discards(cfg, l, i, now) <==> MustClose(cfg, l, l[i], now)
  {
    CountUpdate(l, i, Release(l[i], now), false);
    CountIsSize(l, false);
  }

  lemma WithoutDrops(l: seq<Conn>, i: nat, c: Conn)
    requires i < |l|
    ensures Dropped(l, Without(l[i := c], i), i)
  {}

  lemma ReleasedLists(s: State, target: string, i: nat, now: int)
    requires target in s.conns && i < |s.conns[target]|
    ensures var s1 := Released(s, target, i, now);
      && SameBut(s.conns[target], s1.conns[target], i) && OtherListsSame(s, s1, target)
      && s1.conns[target][i] == Conn(s.conns[target][i].transport, false, s.conns[target][i].created, now,
                                     s.conns[target][i].useCount)
      && Dropped(s.conns[target], Destroyed(s1, target, i).conns[target], i)
      && OtherListsSame(s, Destroyed(s1, target, i), target)
  {
    WithoutDrops(s.conns[target], i, Release(s.conns[target][i], now));
  }

  /**
   A put of a connection in use drops it from the list exactly when as many others were idle as are allowed
   or it is too old, and its transport closes; otherwise it stays where it is, idle. The result tells
   whether a close that was due succeeded.
   */
  lemma PutExact(cfg: Config, s: State, target: string, i: nat, now: int, disconnectOk: bool)
    requires Unique(ListOf(s, target)) && i < |ListOf(s, target)| && ListOf(s, target)[i].inUse
    ensures var l := ListOf(s, target);
      var (s', ok) := Put(cfg, s, target, l[i].transport, now, disconnectOk);
      var l', due := ListOf(s', target), MustClose(cfg, l, l[i], now);
      && (due && disconnectOk ==> Dropped(l, l', i))
      && (!(due && disconnectOk) ==>
            SameBut(l, l', i) && l'[i] == Conn(l[i].transport, false, l[i].created, now, l[i].useCount))
      && (ok <==> (due ==> disconnectOk))
      && OtherListsSame(s, s', target)
  {
    var l := ListOf(s, target);
    IndexOfUnique(l, l[i].transport);
    assert IndexOf(l, l[i].transport) == Some(i);
    ClosesWhenDue(cfg, l, i, now);
    ReleasedLists(s, target, i, now);
  }

  /** A put of a connection that is not listed, or not in use, changes nothing. */
  lemma OtherPutsDoNothing(cfg: Config, s: State, target: string, transport: int, now: int, disconnectOk: bool)
    requires Unique(ListOf(s, target)) && !BusyIn(ListOf(s, target), transport)
    ensures Put(cfg, s, target, transport, now, disconnectOk) == (s, true)
  {
    IndexOfUnique(ListOf(s, target), transport);
  }

  // ----- Get -----

  /** Idle, connected, and at most an hour old. */
  predicate CanServe(c: Conn, now: int, connected: set<int>) {
    !c.inUse && c.transport in connected && now - c.created <= 3_600_000_000_000
  }

  ghost predicate NoneServes(l: seq<Conn>, now: int, connected: set<int>) {
    forall i :: 0 <= i < |l| ==> !CanServe(l[i], now, connected)
  }

  ghost predicate FirstServes(l: seq<Conn>, i: nat, now: int, connected: set<int>) {
    i < |l| && CanServe(l[i], now, connected) && forall j :: 0 <= j < i ==> !CanServe(l[j], now, connected)
  }

  /** Get reuses the first connection that can serve, and marks its use. */
  lemma GetReuses(cfg: Config, s: State, target: string, i: nat, now: int, connected: set<int>, factoryOk: bool)
    requires FirstServes(ListOf(s, target), i, now, connected)
    ensures var l := ListOf(s, target);
      var (s', r) := Get(cfg, s, target, now, connected, factoryOk);
      && r == Leased(l[i].transport) && SameBut(l, ListOf(s', target), i)
      && ListOf(s', target)[i] == Conn(l[i].transport, true, l[i].created, now, l[i].useCount + 1)
      && OtherListsSame(s, s', target)
  {
    var l := ListOf(s, target);
    assert forall c :: CanServe(c, now, connected) <==> Reusable(c, now, connected);
    assert FindReusable(l, 0, now, connected) == Some(i);
  }

  /** Without one, a full list is exhausted, whatever the factory would do; otherwise the factory decides. */
  lemma GetElse(cfg: Config, s: State, target: string, now: int, connected: set<int>, factoryOk: bool)
    requires NoneServes(ListOf(s, target), now, connected)
    ensures var l, full := ListOf(s, target), |ListOf(s, target)| >= Limit(cfg.maxConns, 10);
      var (s', r) := Get(cfg, s, target, now, connected, factoryOk);
      && (full <==> r == Exhausted)
      && (!full && !factoryOk <==> r == FactoryFailed)
      && (full || !factoryOk ==> ListOf(s', target) == l && s'.metrics == s.metrics)
      && (!full && factoryOk ==>
            && r == Leased(s.metrics.created) && |ListOf(s', target)| == |l| + 1 && ListOf(s', target)[..|l|] == l
            && ListOf(s', target)[|l|] == Conn(s.metrics.created, true, now, now, 1))
      && target in s'.conns && OtherListsSame(s, s', target)
  {
    assert forall c :: CanServe(c, now, connected) <==> Reusable(c, now, connected);
    assert FindReusable(ListOf(s, target), 0, now, connected) == None;
  }

  // ----- The default limits -----

  /** Without configured limits, in every run: at most 10 connections for a target, at most 5 of them idle while
      transports close, and then no target that can no longer be served. */
  lemma DefaultLimits(ops: seq<Op>, t: string, now: int)
    ensures var s := Run(Config(0, 0, 0), START, ops);
      && |ListOf(s.pool, t)| <= 10
      && (DisconnectsSucceed(ops) ==> |Positions(ListOf(s.pool, t), false)| <= 5)
      && (DisconnectsSucceed(ops) && InOrder(ops) ==> CanLease(Config(0, 0, 0), s, t, now))
  {
    var cfg := Config(0, 0, 0);
    var s := Run(cfg, START, ops);
    RunsFromStart(cfg, ops);
    CountIsSize(ListOf(s.pool, t), false);
    DeadReachable(cfg, t);
    ReachableServedUnlessDead(cfg, ops, t, now);
    assert DisconnectsSucceed(ops) && InOrder(ops) ==> !LeadsToDead(cfg, ops, t, now);
  }
}
