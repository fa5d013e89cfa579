/**
 When a target of the pool can no longer be served: which lists are dead, that they stay dead,
 and under which configurations they come about.
 */
module PoolExhaustion {
  import opened Results
  import opened PoolModel
  import opened PoolRuns

  // ----- Dead lists stay dead -----

  /** The target's list is full, nobody uses it, and every connection is past the maximum age. */
  ghost predicate Dead(cfg: Config, s: State, t: string, now: int) {
    var l := ListOf(s, t);
    && |l| >= MaxConns(cfg)
    && forall i :: 0 <= i < |l| ==> !l[i].inUse && now - l[i].created > HOUR
  }

  lemma DeadStep(cfg: Config, s: System, op: Op, t: string, now: int)
    requires Dead(cfg, s.pool, t, now) && now <= op.now
    ensures Dead(cfg, Step(cfg, s, op).pool, t, now)
    ensures op.GetOp? && op.target == t ==> Get(cfg, s.pool, t, op.now, op.connected, op.factoryOk).1 == Exhausted
  {}

  /** Get and put alone never revive it: from then on every Get for the target reports exhaustion. */
  lemma {:induction false} DeadTargetStaysExhausted(cfg: Config, s: System, ops: seq<Op>, t: string, now: int)
    requires Dead(cfg, s.pool, t, now) && forall i :: 0 <= i < |ops| ==> now <= ops[i].now
    ensures forall i :: 0 <= i < |ops| && ops[i].GetOp? && ops[i].target == t ==>
      Get(cfg, Run(cfg, s, ops[..i]).pool, t, ops[i].now, ops[i].connected, ops[i].factoryOk).1 == Exhausted
    decreases |ops|
  {
    if ops != [] {
      var s1, rest := Step(cfg, s, ops[0]), ops[1..];
      DeadStep(cfg, s, ops[0], t, now);
      DeadTargetStaysExhausted(cfg, s1, rest, t, now);
      forall i | 0 <= i < |ops| && ops[i].GetOp? && ops[i].target == t
        ensures Get(cfg, Run(cfg, s, ops[..i]).pool, t, ops[i].now, ops[i].connected, ops[i].factoryOk).1 == Exhausted
      {
        if i > 0 {
          assert ops[..i][0] == ops[0] && ops[..i][1..] == rest[..i-1] && rest[i-1] == ops[i];
        }
      }
    }
  }

  // ----- Every other list can be served again -----

  lemma RunOne(cfg: Config, s: System, op: Op)
    ensures Run(cfg, s, [op]) == Step(cfg, s, op)
  {
    assert [op][1..] == [];
  }

  lemma RunTwo(cfg: Config, s: System, op: Op, op': Op)
    ensures Run(cfg, s, [op, op']) == Step(cfg, Step(cfg, s, op), op')
  {
    assert [op, op'][1..] == [op'];
    RunOne(cfg, Step(cfg, s, op), op');
  }

  ghost predicate InOrder(ops: seq<Op>) {
    forall i, j :: 0 <= i < j < |ops| ==> ops[i].now <= ops[j].now
  }

  /** The operations, in order of time and none before now, end with a Get that leases a connection for t. */
  ghost predicate EndsInLease(cfg: Config, s: System, ops: seq<Op>, t: string, now: int) {
    && ops != [] && InOrder(ops) && now <= ops[0].now
    && var before, last := Run(cfg, s, ops[..|ops|-1]), ops[|ops|-1];
       && last.GetOp? && last.target == t
       && Get(cfg, before.pool, t, last.now, last.connected, last.factoryOk).1.Leased?
  }

  ghost predicate CanLease(cfg: Config, s: System, t: string, now: int) {
    exists ops :: EndsInLease(cfg, s, ops, t, now)
  }

  lemma LeasesNow(cfg: Config, s: System, t: string, now: int, connected: set<int>)
    requires Get(cfg, s.pool, t, now, connected, true).1.Leased?
    ensures CanLease(cfg, s, t, now)
  {
    var get := GetOp(t, now, connected, true);
    assert [get][..0] == [];
    assert EndsInLease(cfg, s, [get], t, now);
  }

  /** A connection returned after its maximum age is closed. */
  lemma LateReturnMakesRoom(cfg: Config, s: State, t: string, i: nat, later: int)
    requires Distinct(s) && i < |ListOf(s, t)| && ListOf(s, t)[i].inUse
    requires later > ListOf(s, t)[i].created + MaxLifetime(cfg)
    ensures |ListOf(Put(cfg, s, t, ListOf(s, t)[i].transport, later, true).0, t)| == |ListOf(s, t)| - 1
  {
    IndexOfUnique(ListOf(s, t), ListOf(s, t)[i].transport);
    assert IndexOf(ListOf(s, t), ListOf(s, t)[i].transport) == Some(i);
  }

  lemma LeasesAfterReturn(cfg: Config, s: System, t: string, now: int, i: nat)
    requires Sound(cfg, s) && BusyAreOpen(s) && i < |ListOf(s.pool, t)| && ListOf(s.pool, t)[i].inUse
    ensures CanLease(cfg, s, t, now)
  {
    var c := ListOf(s.pool, t)[i];
    assert Busy(s.pool, t, c.transport);
    var k: nat :| k < |s.wrappers| && s.wrappers[k] == Wrapper(t, c.transport, true);
    var tooOld := c.created + MaxLifetime(cfg) + 1;
    var later := if now < tooOld then tooOld else now;
    var disconnect, get := DisconnectOp(k, later, true), GetOp(t, later, {}, true);
    LateReturnMakesRoom(cfg, s.pool, t, i, later);
    LeasesNext(cfg, s, t, now, disconnect, get);
  }

  lemma LeasesNext(cfg: Config, s: System, t: string, now: int, op: Op, get: Op)
    requires now <= op.now <= get.now && get.GetOp? && get.target == t
    requires Get(cfg, Step(cfg, s, op).pool, t, get.now, get.connected, get.factoryOk).1.Leased?
    ensures CanLease(cfg, s, t, now)
  {
    RunOne(cfg, s, op);
    assert [op, get][..1] == [op];
    assert EndsInLease(cfg, s, [op, get], t, now);
  }

  /** A target can be served again, by some later operations, exactly when its list is not dead. */
  lemma ServedUnlessDead(cfg: Config, s: System, t: string, now: int)
    requires Sound(cfg, s) && BusyAreOpen(s)
    ensures CanLease(cfg, s, t, now) <==> !Dead(cfg, s.pool, t, now)
  {
    var l := ListOf(s.pool, t);
    if |l| < MaxConns(cfg) {
      LeasesNow(cfg, s, t, now, {});
    } else if i: nat :| i < |l| && l[i].inUse {
      LeasesAfterReturn(cfg, s, t, now, i);
    } else if i: nat :| i < |l| && !(now - l[i].created > HOUR) {
      assert Reusable(l[i], now, {l[i].transport});
      LeasesNow(cfg, s, t, now, {l[i].transport});
    } else {
      assert Dead(cfg, s.pool, t, now);
      forall ops: seq<Op> ensures !EndsInLease(cfg, s, ops, t, now) {
        if ops != [] && InOrder(ops) && now <= ops[0].now {
          DeadTargetStaysExhausted(cfg, s, ops, t, now);
        }
      }
    }
  }

  /** For every run of a new pool. */
  lemma ReachableServedUnlessDead(cfg: Config, ops: seq<Op>, t: string, now: int)
    ensures CanLease(cfg, Run(cfg, START, ops), t, now) <==> !Dead(cfg, Run(cfg, START, ops).pool, t, now)
  {
    StartIsSound(cfg);
    RunsAreSound(cfg, START, ops);
    BusyStayOpen(cfg, START, ops);
    ServedUnlessDead(cfg, Run(cfg, START, ops), t, now);
  }

  // ----- When lists die -----

  lemma {:induction false} RunConcat(cfg: Config, s: System, a: seq<Op>, b: seq<Op>)
    ensures Run(cfg, s, a + b) == Run(cfg, Run(cfg, s, a), b)
    decreases |a|
  {
    if a == [] {
      assert a + b == b;
    } else {
      assert (a + b)[0] == a[0] && (a + b)[1..] == a[1..] + b;
      RunConcat(cfg, Step(cfg, s, a[0]), a[1..], b);
    }
  }

  lemma {:induction false} CountIdle(l: seq<Conn>)
    requires forall i :: 0 <= i < |l| ==> !l[i].inUse
    ensures Count(l, false) == |l|
  {
    if l != [] {
      CountIdle(l[1..]);
    }
  }

  /** Leasing a new connection, as no old one is connected, and returning it at once; k times. */
  function Filling(t: string, k: nat, closes: bool): (ops: seq<Op>)
    ensures forall i :: 0 <= i < |ops| ==> ops[i].now == 0 && (ops[i].DisconnectOp? ==> ops[i].disconnectOk == closes)
  {
    if k == 0 then []
    else Filling(t, k - 1, closes) + [GetOp(t, 0, {}, true), DisconnectOp(k - 1, 0, closes)]
  }

  /** What closing does not prevent: either it fails, or the limits ask for none. */
  predicate KeepsReturned(cfg: Config, closes: bool) {
    closes ==> MaxConns(cfg) <= MaxIdle(cfg) && MaxLifetime(cfg) >= 0
  }

  ghost predicate Filled(cfg: Config, s: System, t: string, k: nat) {
    && Sound(cfg, s) && |s.wrappers| == k && |ListOf(s.pool, t)| == k
    && forall i :: 0 <= i < k ==> !ListOf(s.pool, t)[i].inUse && ListOf(s.pool, t)[i].created == 0
  }

  lemma FillStep(cfg: Config, s: System, t: string, k: nat, closes: bool)
    requires Filled(cfg, s, t, k) && k < MaxConns(cfg) && KeepsReturned(cfg, closes)
    ensures Filled(cfg, Step(cfg, Step(cfg, s, GetOp(t, 0, {}, true)), DisconnectOp(k, 0, closes)), t, k + 1)
  {
    var get, disconnect := GetOp(t, 0, {}, true), DisconnectOp(k, 0, closes);
    var n := s.pool.metrics.created;
    var s1 := Step(cfg, s, get);
    var s2 := Step(cfg, s1, disconnect);
    SoundStep(cfg, s, get);
    SoundStep(cfg, s1, disconnect);
    var l1 := ListOf(s1.pool, t);
    assert l1 == ListOf(s.pool, t) + [Conn(n, true, 0, 0, 1)];
    assert s1.wrappers[k] == Wrapper(t, n, true);
    IndexOfUnique(l1, n);
    assert l1[k].transport == n;
    assert IndexOf(l1, n) == Some(k);
    CountIdle(ReleasedList(l1, k, 0));
    assert ListOf(s2.pool, t) == ReleasedList(l1, k, 0);
  }

  lemma {:induction false} FillingFills(cfg: Config, t: string, k: nat, closes: bool)
    requires k <= AtLeastZero(MaxConns(cfg)) && KeepsReturned(cfg, closes)
    ensures Filled(cfg, Run(cfg, START, Filling(t, k, closes)), t, k)
  {
    if k == 0 {
      StartIsSound(cfg);
    } else {
      var get, disconnect := GetOp(t, 0, {}, true), DisconnectOp(k - 1, 0, closes);
      var s := Run(cfg, START, Filling(t, k - 1, closes));
      FillingFills(cfg, t, k - 1, closes);
      RunConcat(cfg, START, Filling(t, k - 1, closes), [get, disconnect]);
      FillStep(cfg, s, t, k - 1, closes);
      RunTwo(cfg, s, get, disconnect);
    }
  }

  ghost predicate LeadsToDead(cfg: Config, ops: seq<Op>, t: string, now: int) {
    InOrder(ops) && Dead(cfg, Run(cfg, START, ops).pool, t, now)
  }

  /** Where returned connections are kept, a new pool comes to a dead list. */
  lemma DeadArises(cfg: Config, t: string, closes: bool)
    requires MaxConns(cfg) <= 0 || KeepsReturned(cfg, closes)
    ensures LeadsToDead(cfg, Filling(t, AtLeastZero(MaxConns(cfg)), closes), t, HOUR + 1)
  {
    if MaxConns(cfg) > 0 {
      FillingFills(cfg, t, MaxConns(cfg), closes);
    }
  }

  ghost predicate NoneIdle(s: State, now: int) {
    forall t, i :: t in s.conns && 0 <= i < |s.conns[t]| ==> s.conns[t][i].inUse && s.conns[t][i].created <= now
  }

  lemma NoneIdleStep(cfg: Config, s: System, op: Op, now: int)
    requires NoneIdle(s.pool, now) && now <= op.now && MaxLifetime(cfg) < 0
    requires op.DisconnectOp? ==> op.disconnectOk
    ensures NoneIdle(Step(cfg, s, op).pool, op.now)
  {}

  /** With a negative lifetime every returned connection is too old and is closed. */
  lemma {:induction false} NoneIdleRun(cfg: Config, s: System, ops: seq<Op>, now: int)
    requires NoneIdle(s.pool, now) && InOrder(ops) && DisconnectsSucceed(ops) && MaxLifetime(cfg) < 0
    requires ops != [] ==> now <= ops[0].now
    ensures exists later :: NoneIdle(Run(cfg, s, ops).pool, later)
    decreases |ops|
  {
    if ops != [] {
      NoneIdleStep(cfg, s, ops[0], now);
      var s1, rest := Step(cfg, s, ops[0]), ops[1..];
      NoneIdleRun(cfg, s1, rest, ops[0].now);
      var later :| NoneIdle(Run(cfg, s1, rest).pool, later);
      assert NoneIdle(Run(cfg, s, ops).pool, later);
    } else {
      assert NoneIdle(Run(cfg, s, ops).pool, now);
    }
  }

  lemma DeadNeedsLimits(cfg: Config, ops: seq<Op>, t: string, now: int)
    requires DisconnectsSucceed(ops) && LeadsToDead(cfg, ops, t, now)
    ensures MaxConns(cfg) <= 0 || KeepsReturned(cfg, true)
  {
    var s := Run(cfg, START, ops);
    var l := ListOf(s.pool, t);
    RunsFromStart(cfg, ops);
    CountIdle(l);
    if MaxConns(cfg) > 0 {
      assert t in s.pool.conns && !l[0].inUse;
      if MaxLifetime(cfg) < 0 {
        NoneIdleRun(cfg, START, ops, if ops == [] then 0 else ops[0].now);
      }
    }
  }

  /**
   If transports close, a list can die exactly when the pool has no room for a connection, or when all the
   connections it has room for may stay idle; not with the default limits. If closing may fail, it always can.
   */
  lemma DeadReachable(cfg: Config, t: string)
    ensures (exists ops, now :: DisconnectsSucceed(ops) && LeadsToDead(cfg, ops, t, now))
            <==> MaxConns(cfg) <= 0 || (MaxConns(cfg) <= MaxIdle(cfg) && MaxLifetime(cfg) >= 0)
    ensures exists ops, now :: LeadsToDead(cfg, ops, t, now)
  {
    DeadArises(cfg, t, false);
    forall ops, now | DisconnectsSucceed(ops) && LeadsToDead(cfg, ops, t, now)
      ensures MaxConns(cfg) <= 0 || KeepsReturned(cfg, true)
    {
      DeadNeedsLimits(cfg, ops, t, now);
    }
    if MaxConns(cfg) <= 0 || KeepsReturned(cfg, true) {
      DeadArises(cfg, t, true);
      assert DisconnectsSucceed(Filling(t, AtLeastZero(MaxConns(cfg)), true));
    }
  }
}
