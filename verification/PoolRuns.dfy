/**
 What every run of the connection pool keeps: its counters, its limits, and, when each
 wrapper is disconnected at most once, that no two callers share a connection.
 */
module PoolRuns {
  import opened Results
  import opened PoolModel

  // ----- The pool's invariant -----

  ghost predicate Unique(l: seq<Conn>) {
    forall i, j :: 0 <= i < j < |l| ==> l[i].transport != l[j].transport
  }

  ghost predicate Lists(l: seq<Conn>, n: int) {
    exists i :: 0 <= i < |l| && l[i].transport == n
  }

  /** The target's list has a connection with transport n. */
  ghost predicate Has(s: State, t: string, n: int) {
    t in s.conns && Lists(s.conns[t], n)
  }

  ghost predicate BusyIn(l: seq<Conn>, n: int) {
    exists i :: 0 <= i < |l| && l[i].transport == n && l[i].inUse
  }

  /** The target's list has a connection with transport n that is in use. */
  ghost predicate Busy(s: State, t: string, n: int) {
    t in s.conns && BusyIn(s.conns[t], n)
  }

  /** Every transport is pooled at most once, and only transports already created are. */
  ghost predicate Distinct(s: State) {
    && (forall t :: t in s.conns ==> Unique(s.conns[t]))
    && (forall t, t', n :: Has(s, t, n) && Has(s, t', n) ==> t == t')
    && (forall t, n :: Has(s, t, n) ==> 0 <= n < s.metrics.created)
  }

  /** The stored counters are the recomputed ones, and what was created and not destroyed is pooled. */
  ghost predicate Counted(s: State) {
    && s.metrics.active == Total(s.conns, true)
    && s.metrics.idle == Total(s.conns, false)
    && s.metrics.created - s.metrics.destroyed == Total(s.conns, true) + Total(s.conns, false)
    && s.metrics.created >= 0
  }

  function AtLeastZero(n: int): nat {
    if n < 0 then 0 else n
  }

  ghost predicate WithinCapacity(cfg: Config, s: State) {
    forall t :: t in s.conns ==> |s.conns[t]| <= AtLeastZero(MaxConns(cfg))
  }

  ghost predicate WithinIdle(cfg: Config, s: State) {
    forall t :: t in s.conns ==> Count(s.conns[t], false) <= AtLeastZero(MaxIdle(cfg))
  }

  // ----- Lists -----

  lemma IndexOfUnique(l: seq<Conn>, n: int)
    requires Unique(l)
    ensures IndexOf(l, n).Some? <==> Lists(l, n)
    ensures BusyIn(l, n) <==> IndexOf(l, n).Some? && l[IndexOf(l, n).value].inUse
  {}

  /** Replacing a connection by one with the same transport. */
  lemma UpdateList(l: seq<Conn>, i: nat, c: Conn)
    requires Unique(l) && i < |l| && c.transport == l[i].transport
    ensures Unique(l[i := c])
    ensures forall n :: Lists(l[i := c], n) <==> Lists(l, n)
    ensures forall n :: BusyIn(l[i := c], n) <==> if n == c.transport then c.inUse else BusyIn(l, n)
  {
    var l' := l[i := c];
    forall n ensures Lists(l', n) <==> Lists(l, n) {
      if Lists(l, n) {
        var j :| 0 <= j < |l| && l[j].transport == n;
        assert l'[j].transport == n;
      }
    }
    forall n ensures BusyIn(l', n) <==> if n == c.transport then c.inUse else BusyIn(l, n) {
      if n == c.transport {
        assert l'[i] == c;
      } else if BusyIn(l, n) {
        var j :| 0 <= j < |l| && l[j].transport == n && l[j].inUse;
        assert l'[j] == l[j];
      }
    }
  }

  lemma RemoveFromList(l: seq<Conn>, i: nat)
    requires Unique(l) && i < |l|
    ensures Unique(Without(l, i))
    ensures forall n :: Lists(Without(l, i), n) <==> Lists(l, n) && n != l[i].transport
    ensures forall n :: BusyIn(Without(l, i), n) <==> BusyIn(l, n) && n != l[i].transport
  {
    var l' := Without(l, i);
    forall n ensures Lists(l', n) <==> Lists(l, n) && n != l[i].transport {
      if Lists(l, n) && n != l[i].transport {
        var j :| 0 <= j < |l| && l[j].transport == n;
        assert l'[if j < i then j else j - 1] == l[j];
      }
    }
    forall n ensures BusyIn(l', n) <==> BusyIn(l, n) && n != l[i].transport {
      if BusyIn(l, n) && n != l[i].transport {
        var j :| 0 <= j < |l| && l[j].transport == n && l[j].inUse;
        assert l'[if j < i then j else j - 1] == l[j];
      }
    }
  }

  lemma AppendToList(l: seq<Conn>, c: Conn)
    requires Unique(l) && !Lists(l, c.transport)
    ensures Unique(l + [c])
    ensures forall n :: Lists(l + [c], n) <==> Lists(l, n) || n == c.transport
    ensures forall n :: BusyIn(l + [c], n) <==> BusyIn(l, n) || (n == c.transport && c.inUse)
  {
    var l' := l + [c];
    assert l'[|l|] == c;
    forall n ensures Lists(l', n) <==> Lists(l, n) || n == c.transport {
      if Lists(l, n) {
        var j :| 0 <= j < |l| && l[j].transport == n;
        assert l'[j] == l[j];
      }
    }
    forall n ensures BusyIn(l', n) <==> BusyIn(l, n) || (n == c.transport && c.inUse) {
      if BusyIn(l, n) {
        var j :| 0 <= j < |l| && l[j].transport == n && l[j].inUse;
        assert l'[j] == l[j];
      }
    }
  }

  // ----- What one operation does to the transports -----

  /** Replacing one target's list. */
  lemma SwapList(s: State, s': State, target: string, l': seq<Conn>)
    requires s'.conns == s.conns[target := l']
    ensures forall t, n :: Has(s', t, n) <==> if t == target then Lists(l', n) else Has(s, t, n)
    ensures forall t, n :: Busy(s', t, n) <==> if t == target then BusyIn(l', n) else Busy(s, t, n)
  {}

  lemma ListOfTarget(s: State, target: string)
    requires Distinct(s)
    ensures Unique(ListOf(s, target))
    ensures forall n :: Lists(ListOf(s, target), n) <==> Has(s, target, n)
    ensures forall n :: BusyIn(ListOf(s, target), n) <==> Busy(s, target, n)
  {}

  /** A list with old transports of the target, or a newly created one, keeps transports distinct. */
  lemma DistinctKept(s: State, s': State, target: string, l': seq<Conn>)
    requires Distinct(s) && Unique(l') && s'.conns == s.conns[target := l']
    requires s'.metrics.created >= s.metrics.created >= 0
    requires forall n :: Lists(l', n) ==>
      Has(s, target, n) || (n == s.metrics.created && s'.metrics.created > s.metrics.created)
    ensures Distinct(s')
  {
    SwapList(s, s', target, l');
    forall t, n | Has(s', t, n) ensures 0 <= n < s'.metrics.created {
      assert t != target ==> Has(s, t, n);
    }
    forall t, t', n | Has(s', t, n) && Has(s', t', n) ensures t == t' {
      assert (t != target ==> Has(s, t, n)) && (t' != target ==> Has(s, t', n));
    }
  }

  /** Get changes no transport but the one it leases, which was not in use and now is. */
  lemma GetEffect(cfg: Config, s: State, target: string, now: int, connected: set<int>, factoryOk: bool)
    requires Distinct(s) && s.metrics.created >= 0
    ensures var (s', r) := Get(cfg, s, target, now, connected, factoryOk);
      && Distinct(s')
      && (forall t, n :: Busy(s', t, n) <==> Busy(s, t, n) || (r == Leased(n) && t == target))
      && (r.Leased? ==> Has(s', target, r.transport) && forall t :: !Busy(s, t, r.transport))
      && (forall t, n :: Has(s', t, n) ==> Has(s, t, n) || (r == Leased(n) && t == target && n == s.metrics.created))
      && s.metrics.created <= s'.metrics.created
  {
    var l := ListOf(s, target);
    var (s', r) := Get(cfg, s, target, now, connected, factoryOk);
    var l' := s'.conns[target];
    OneListChanges(cfg, s, target, 0, now, connected, factoryOk);
    ListOfTarget(s, target);
    match FindReusable(l, 0, now, connected)
    case Some(i) =>
      UpdateList(l, i, Reuse(l[i], now));
      IndexOfUnique(l, l[i].transport);
      assert Lists(l, l[i].transport);
      assert !BusyIn(l, l[i].transport);
      NotBusyElsewhere(s, target, l[i].transport);
      DistinctKept(s, s', target, l');
      SwapList(s, s', target, l');
    case None =>
      if |l| < MaxConns(cfg) && factoryOk {
        NeverBusyBefore(s, s.metrics.created);
        AppendToList(l, Conn(s.metrics.created, true, now, now, 1));
      }
      DistinctKept(s, s', target, l');
      SwapList(s, s', target, l');
  }

  lemma BusyHas(s: State, t: string, n: int)
    requires Busy(s, t, n)
    ensures Has(s, t, n)
  {}

  lemma NotBusyElsewhere(s: State, target: string, n: int)
    requires Distinct(s) && Has(s, target, n) && !Busy(s, target, n)
    ensures forall t :: !Busy(s, t, n)
  {
    forall t ensures !Busy(s, t, n) {
      if Busy(s, t, n) { BusyHas(s, t, n); }
    }
  }

  lemma NeverBusyBefore(s: State, n: int)
    requires Distinct(s) && n >= s.metrics.created
    ensures forall t :: !Has(s, t, n) && !Busy(s, t, n)
  {
    forall t ensures !Busy(s, t, n) {
      if Busy(s, t, n) { BusyHas(s, t, n); }
    }
  }

  /** Put ends the use of the returned transport and touches no other. */
  lemma PutEffect(cfg: Config, s: State, target: string, transport: int, now: int, disconnectOk: bool)
    requires Distinct(s) && s.metrics.created >= 0
    ensures var s' := Put(cfg, s, target, transport, now, disconnectOk).0;
      && Distinct(s') && s'.metrics.created == s.metrics.created
      && (forall t, n :: Busy(s', t, n) <==> Busy(s, t, n) && !(t == target && n == transport))
      && (forall t, n :: Has(s', t, n) ==> Has(s, t, n))
      && (!Busy(s, target, transport) ==> s' == s)
  {
    var l, s' := ListOf(s, target), Put(cfg, s, target, transport, now, disconnectOk).0;
    OneListChanges(cfg, s, target, transport, now, {}, disconnectOk);
    ListOfTarget(s, target);
    IndexOfUnique(l, transport);
    if IndexOf(l, transport).Some? && l[IndexOf(l, transport).value].inUse {
      var i := IndexOf(l, transport).value;
      UpdateList(l, i, Release(l[i], now));
      RemoveFromList(ReleasedList(l, i, now), i);
      DistinctKept(s, s', target, s'.conns[target]);
      SwapList(s, s', target, s'.conns[target]);
    }
  }

  // ----- Counters and limits -----

  /** How many connections of each kind Get adds to its target's list. */
  lemma GetListCounts(cfg: Config, s: State, target: string, now: int, connected: set<int>, factoryOk: bool)
    ensures var l, (s', r) := ListOf(s, target), Get(cfg, s, target, now, connected, factoryOk);
      var l' := s'.conns[target];
      && Count(l', true) - Count(l, true) == s'.metrics.active - s.metrics.active
      && Count(l', false) - Count(l, false) == s'.metrics.idle - s.metrics.idle <= 0
      && |l'| - |l| == s'.metrics.created - s.metrics.created
      && (|l'| > |l| ==> |l'| <= MaxConns(cfg))
      && s'.conns == s.conns[target := l'] && s'.metrics.destroyed == s.metrics.destroyed
      && 0 <= s'.metrics.created - s.metrics.created
      && (|l'| - |l|) == s'.metrics.active - s.metrics.active + s'.metrics.idle - s.metrics.idle
  {
    var l := ListOf(s, target);
    OneListChanges(cfg, s, target, 0, now, connected, factoryOk);
    match FindReusable(l, 0, now, connected)
    case Some(i) =>
      CountUpdate(l, i, Reuse(l[i], now), true);
      CountUpdate(l, i, Reuse(l[i], now), false);
    case None =>
      if |l| < MaxConns(cfg) && factoryOk {
        var c := Conn(s.metrics.created, true, now, now, 1);
        CountAppend(l, [c], true);
        CountAppend(l, [c], false);
        assert Count([c], true) == 1 && Count([c], false) == 0;
      }
  }

  lemma GetCounts(cfg: Config, s: State, target: string, now: int, connected: set<int>, factoryOk: bool)
    requires Counted(s) && WithinCapacity(cfg, s)
    ensures var s' := Get(cfg, s, target, now, connected, factoryOk).0;
      && Counted(s') && WithinCapacity(cfg, s') && (WithinIdle(cfg, s) ==> WithinIdle(cfg, s'))
  {
    var l, s' := ListOf(s, target), Get(cfg, s, target, now, connected, factoryOk).0;
    GetListCounts(cfg, s, target, now, connected, factoryOk);
    assert Count([], true) == 0 && Count([], false) == 0;
    TotalUpdate(s.conns, target, s'.conns[target], true);
    TotalUpdate(s.conns, target, s'.conns[target], false);
  }

  lemma PutCounts(cfg: Config, s: State, target: string, transport: int, now: int, disconnectOk: bool)
    requires Counted(s) && WithinCapacity(cfg, s)
    ensures var s' := Put(cfg, s, target, transport, now, disconnectOk).0;
      Counted(s') && WithinCapacity(cfg, s')
  {
    var l, s' := ListOf(s, target), Put(cfg, s, target, transport, now, disconnectOk).0;
    if IndexOf(l, transport).Some? && l[IndexOf(l, transport).value].inUse {
      var i := IndexOf(l, transport).value;
      var c := Release(l[i], now);
      OneListChanges(cfg, s, target, transport, now, {}, disconnectOk);
      TotalUpdate(s.conns, target, s'.conns[target], true);
      TotalUpdate(s.conns, target, s'.conns[target], false);
      CountUpdate(l, i, c, true);
      CountUpdate(l, i, c, false);
      CountAt(ReleasedList(l, i, now), i, true);
      CountAt(ReleasedList(l, i, now), i, false);
    }
  }

  /** The put of a connection in use that finds as many idle ones as are allowed, and cannot close it. */
  ghost predicate PutOverflows(cfg: Config, s: State, target: string, transport: int, disconnectOk: bool) {
    && !disconnectOk
    && var l := ListOf(s, target);
       IndexOf(l, transport).Some? && l[IndexOf(l, transport).value].inUse
       && Count(l, false) >= AtLeastZero(MaxIdle(cfg))
  }

  /** Put keeps the idle limit exactly when it does not fail to close a surplus connection. */
  lemma PutIdleLimit(cfg: Config, s: State, target: string, transport: int, now: int, disconnectOk: bool)
    requires WithinIdle(cfg, s)
    ensures WithinIdle(cfg, Put(cfg, s, target, transport, now, disconnectOk).0)
            <==> !PutOverflows(cfg, s, target, transport, disconnectOk)
  {
    var l, s' := ListOf(s, target), Put(cfg, s, target, transport, now, disconnectOk).0;
    if IndexOf(l, transport).Some? && l[IndexOf(l, transport).value].inUse {
      var i := IndexOf(l, transport).value;
      CountUpdate(l, i, Release(l[i], now), false);
      CountAt(ReleasedList(l, i, now), i, false);
      OneListChanges(cfg, s, target, transport, now, {}, disconnectOk);
      assert s'.conns[target] == if Discards(cfg, l, i, now) && disconnectOk
        then Without(ReleasedList(l, i, now), i) else ReleasedList(l, i, now);
    }
  }

  // ----- Callers: wrappers and runs -----

  /** A wrapper handed out by Get; it is open until it is first disconnected. */
  datatype Wrapper = Wrapper(target: string, transport: int, open: bool)

  /** The pool and all wrappers handed out so far, in order. */
  datatype System = System(pool: State, wrappers: seq<Wrapper>)

  const START := System(PoolModel.INITIAL, [])

  datatype Op =
    | GetOp(target: string, now: int, connected: set<int>, factoryOk: bool)
    | DisconnectOp(k: nat, now: int, disconnectOk: bool)  // of the k-th wrapper

  function Step(cfg: Config, s: System, op: Op): System {
    match op
    case GetOp(target, now, connected, factoryOk) =>
      var (pool, r) := Get(cfg, s.pool, target, now, connected, factoryOk);
      System(pool, if r.Leased? then s.wrappers + [Wrapper(target, r.transport, true)] else s.wrappers)
    case DisconnectOp(k, now, disconnectOk) =>
      if k >= |s.wrappers| then s
      else
        var w := s.wrappers[k];
        System(Put(cfg, s.pool, w.target, w.transport, now, disconnectOk).0, s.wrappers[k := w.(open := false)])
  }

  function Run(cfg: Config, s: System, ops: seq<Op>): System
    decreases |ops|
  {
    if ops == [] then s else Run(cfg, Step(cfg, s, ops[0]), ops[1..])
  }

  /** Kept by every run, however often wrappers are disconnected. */
  ghost predicate Sound(cfg: Config, s: System) {
    && Distinct(s.pool) && Counted(s.pool) && WithinCapacity(cfg, s.pool)
    && |s.wrappers| == s.pool.metrics.created + s.pool.metrics.totalReused  // every lease is counted once
  }

  lemma SoundStep(cfg: Config, s: System, op: Op)
    requires Sound(cfg, s)
    ensures Sound(cfg, Step(cfg, s, op))
  {
    match op
    case GetOp(target, now, connected, factoryOk) =>
      GetEffect(cfg, s.pool, target, now, connected, factoryOk);
      GetCounts(cfg, s.pool, target, now, connected, factoryOk);
    case DisconnectOp(k, now, disconnectOk) =>
      if k < |s.wrappers| {
        PutEffect(cfg, s.pool, s.wrappers[k].target, s.wrappers[k].transport, now, disconnectOk);
        PutCounts(cfg, s.pool, s.wrappers[k].target, s.wrappers[k].transport, now, disconnectOk);
      }
  }

  lemma StartIsSound(cfg: Config)
    ensures Sound(cfg, START) && Agree(START) && WithinIdle(cfg, START.pool)
  {}

  /** In every run the stored counters are the recomputed ones and no list exceeds its capacity. */
  lemma {:induction false} RunsAreSound(cfg: Config, s: System, ops: seq<Op>)
    requires Sound(cfg, s)
    ensures Sound(cfg, Run(cfg, s, ops))
    decreases |ops|
  {
    if ops != [] {
      SoundStep(cfg, s, ops[0]);
      RunsAreSound(cfg, Step(cfg, s, ops[0]), ops[1..]);
    }
  }

  ghost predicate DisconnectsSucceed(ops: seq<Op>) {
    forall i :: 0 <= i < |ops| && ops[i].DisconnectOp? ==> ops[i].disconnectOk
  }

  /** In every run whose transports close without error no target has more idle connections than allowed. */
  lemma {:induction false} RunsKeepIdleLimit(cfg: Config, s: System, ops: seq<Op>)
    requires Sound(cfg, s) && WithinIdle(cfg, s.pool) && DisconnectsSucceed(ops)
    ensures WithinIdle(cfg, Run(cfg, s, ops).pool)
    decreases |ops|
  {
    if ops != [] {
      SoundStep(cfg, s, ops[0]);
      match ops[0] {
        case GetOp(target, now, connected, factoryOk) =>
          GetCounts(cfg, s.pool, target, now, connected, factoryOk);
        case DisconnectOp(k, now, disconnectOk) =>
          if k < |s.wrappers| {
            PutIdleLimit(cfg, s.pool, s.wrappers[k].target, s.wrappers[k].transport, now, disconnectOk);
          }
      }
      RunsKeepIdleLimit(cfg, Step(cfg, s, ops[0]), ops[1..]);
    }
  }

  // ----- Exclusive use -----

  ghost predicate OpenFor(s: System, t: string, n: int) {
    exists k :: 0 <= k < |s.wrappers| && s.wrappers[k] == Wrapper(t, n, true)
  }

  /** The connections in use are exactly those of the open wrappers, each of one wrapper only. */
  ghost predicate Agree(s: System) {
    && (forall t, n :: Busy(s.pool, t, n) <==> OpenFor(s, t, n))
    && (forall i, j :: 0 <= i < j < |s.wrappers| && s.wrappers[i].open && s.wrappers[j].open
          ==> s.wrappers[i].transport != s.wrappers[j].transport)
  }

  /** Every connection in use has an open wrapper, whatever was disconnected twice. */
  ghost predicate BusyAreOpen(s: System) {
    forall t, n :: Busy(s.pool, t, n) ==> OpenFor(s, t, n)
  }

  lemma BusyAreOpenStep(cfg: Config, s: System, op: Op)
    requires Sound(cfg, s) && BusyAreOpen(s)
    ensures BusyAreOpen(Step(cfg, s, op))
  {
    var s' := Step(cfg, s, op);
    match op
    case GetOp(target, now, connected, factoryOk) =>
      GetEffect(cfg, s.pool, target, now, connected, factoryOk);
      forall t, n | Busy(s'.pool, t, n) ensures OpenFor(s', t, n) {
        if Busy(s.pool, t, n) {
          var k :| 0 <= k < |s.wrappers| && s.wrappers[k] == Wrapper(t, n, true);
          assert s'.wrappers[k] == Wrapper(t, n, true);
        } else {
          assert s'.wrappers[|s.wrappers|] == Wrapper(t, n, true);
        }
      }
    case DisconnectOp(k, now, disconnectOk) =>
      if k < |s.wrappers| {
        PutEffect(cfg, s.pool, s.wrappers[k].target, s.wrappers[k].transport, now, disconnectOk);
        forall t, n | Busy(s'.pool, t, n) ensures OpenFor(s', t, n) {
          var j :| 0 <= j < |s.wrappers| && s.wrappers[j] == Wrapper(t, n, true);
          assert s'.wrappers[j] == Wrapper(t, n, true);
        }
      }
  }

  /** In every run, double disconnects included, some open wrapper can still return a connection in use. */
  lemma {:induction false} BusyStayOpen(cfg: Config, s: System, ops: seq<Op>)
    requires Sound(cfg, s) && BusyAreOpen(s)
    ensures BusyAreOpen(Run(cfg, s, ops))
    decreases |ops|
  {
    if ops != [] {
      SoundStep(cfg, s, ops[0]);
      BusyAreOpenStep(cfg, s, ops[0]);
      BusyStayOpen(cfg, Step(cfg, s, ops[0]), ops[1..]);
    }
  }

  /** Disconnecting an open wrapper, or one whose connection is idle or gone. */
  ghost predicate Harmless(s: System, op: Op) {
    op.DisconnectOp? && op.k < |s.wrappers| ==>
      s.wrappers[op.k].open || !Busy(s.pool, s.wrappers[op.k].target, s.wrappers[op.k].transport)
  }

  lemma AgreeGet(cfg: Config, s: System, op: Op)
    requires Sound(cfg, s) && Agree(s) && op.GetOp?
    ensures Agree(Step(cfg, s, op))
  {
    var s' := Step(cfg, s, op);
    GetEffect(cfg, s.pool, op.target, op.now, op.connected, op.factoryOk);
    var r := Get(cfg, s.pool, op.target, op.now, op.connected, op.factoryOk).1;
    if r.Leased? {
      var w := Wrapper(op.target, r.transport, true);
      assert s'.wrappers == s.wrappers + [w];
      forall t, n ensures OpenFor(s', t, n) <==> OpenFor(s, t, n) || (t == op.target && n == r.transport) {
        assert s'.wrappers[|s.wrappers|] == w;
        if OpenFor(s, t, n) {
          var k :| 0 <= k < |s.wrappers| && s.wrappers[k] == Wrapper(t, n, true);
          assert s'.wrappers[k] == Wrapper(t, n, true);
        }
      }
      forall i | 0 <= i < |s.wrappers| && s.wrappers[i].open ensures s.wrappers[i].transport != r.transport {
        assert OpenFor(s, s.wrappers[i].target, s.wrappers[i].transport);
      }
    } else {
      assert forall t, n :: OpenFor(s', t, n) <==> OpenFor(s, t, n);
    }
  }

  lemma CloseWrapper(s: System, k: nat, pool: State)
    requires Agree(s) && k < |s.wrappers|
    ensures var w, s' := s.wrappers[k], System(pool, s.wrappers[k := s.wrappers[k].(open := false)]);
      forall t, n :: OpenFor(s', t, n) <==> OpenFor(s, t, n) && !(w.open && t == w.target && n == w.transport)
  {
    var w, s' := s.wrappers[k], System(pool, s.wrappers[k := s.wrappers[k].(open := false)]);
    forall t, n ensures OpenFor(s', t, n) <==> OpenFor(s, t, n) && !(w.open && t == w.target && n == w.transport) {
      if OpenFor(s, t, n) && !(w.open && t == w.target && n == w.transport) {
        var j :| 0 <= j < |s.wrappers| && s.wrappers[j] == Wrapper(t, n, true);
        assert s'.wrappers[j] == Wrapper(t, n, true);
      }
      if OpenFor(s', t, n) {
        var j :| 0 <= j < |s'.wrappers| && s'.wrappers[j] == Wrapper(t, n, true);
        assert s.wrappers[j] == Wrapper(t, n, true);
      }
    }
  }

  /** A disconnect keeps the agreement exactly when it is harmless. */
  lemma AgreeDisconnect(cfg: Config, s: System, op: Op)
    requires Sound(cfg, s) && Agree(s) && op.DisconnectOp?
    ensures Agree(Step(cfg, s, op)) <==> Harmless(s, op)
  {
    if op.k < |s.wrappers| {
      var w, s' := s.wrappers[op.k], Step(cfg, s, op);
      PutEffect(cfg, s.pool, w.target, w.transport, op.now, op.disconnectOk);
      CloseWrapper(s, op.k, s'.pool);
      if Busy(s.pool, w.target, w.transport) && !w.open {
        assert OpenFor(s', w.target, w.transport) && !Busy(s'.pool, w.target, w.transport);
      }
    }
  }

  ghost predicate AgreesThroughout(cfg: Config, s: System, ops: seq<Op>)
    decreases |ops|
  {
    Agree(s) && (ops == [] || AgreesThroughout(cfg, Step(cfg, s, ops[0]), ops[1..]))
  }

  ghost predicate HarmlessThroughout(cfg: Config, s: System, ops: seq<Op>)
    decreases |ops|
  {
    ops == [] || (Harmless(s, ops[0]) && HarmlessThroughout(cfg, Step(cfg, s, ops[0]), ops[1..]))
  }

  /** Connections and wrappers agree after every operation of a run exactly when every disconnect is harmless. */
  lemma {:induction false} AgreeThroughout(cfg: Config, s: System, ops: seq<Op>)
    requires Sound(cfg, s) && Agree(s)
    ensures AgreesThroughout(cfg, s, ops) <==> HarmlessThroughout(cfg, s, ops)
    decreases |ops|
  {
    if ops != [] {
      var s1 := Step(cfg, s, ops[0]);
      SoundStep(cfg, s, ops[0]);
      if ops[0].GetOp? {
        AgreeGet(cfg, s, ops[0]);
      } else {
        AgreeDisconnect(cfg, s, ops[0]);
      }
      if Agree(s1) {
        AgreeThroughout(cfg, s1, ops[1..]);
      }
    }
  }

  /** No wrapper is disconnected twice. */
  ghost predicate OncePerWrapper(ops: seq<Op>) {
    forall i, j :: 0 <= i < j < |ops| && ops[i].DisconnectOp? && ops[j].DisconnectOp? ==> ops[i].k != ops[j].k
  }

  /** The wrappers still to be disconnected are open. */
  ghost predicate StillOpen(s: System, ops: seq<Op>) {
    forall i :: 0 <= i < |ops| && ops[i].DisconnectOp? && ops[i].k < |s.wrappers| ==> s.wrappers[ops[i].k].open
  }

  /** If no wrapper is disconnected twice, the connections in use are exactly those of the open
      wrappers and no two open wrappers share one. */
  lemma {:induction false} ExclusiveUse(cfg: Config, s: System, ops: seq<Op>)
    requires Sound(cfg, s) && Agree(s) && OncePerWrapper(ops) && StillOpen(s, ops)
    ensures Agree(Run(cfg, s, ops))
    decreases |ops|
  {
    if ops != [] {
      var s1, rest := Step(cfg, s, ops[0]), ops[1..];
      SoundStep(cfg, s, ops[0]);
      if ops[0].GetOp? {
        AgreeGet(cfg, s, ops[0]);
      } else {
        AgreeDisconnect(cfg, s, ops[0]);
      }
      forall i | 0 <= i < |rest| && rest[i].DisconnectOp? && rest[i].k < |s1.wrappers| ensures s1.wrappers[rest[i].k].open {
        assert rest[i] == ops[i+1];
      }
      assert OncePerWrapper(rest) by {
        forall i, j | 0 <= i < j < |rest| && rest[i].DisconnectOp? && rest[j].DisconnectOp? ensures rest[i].k != rest[j].k {
          assert rest[i] == ops[i+1] && rest[j] == ops[j+1];
        }
      }
      ExclusiveUse(cfg, s1, rest);
    }
  }

  /** The three claims for every run from an empty pool. */
  lemma RunsFromStart(cfg: Config, ops: seq<Op>)
    ensures Sound(cfg, Run(cfg, START, ops))
    ensures DisconnectsSucceed(ops) ==> WithinIdle(cfg, Run(cfg, START, ops).pool)
    ensures OncePerWrapper(ops) ==> Agree(Run(cfg, START, ops))
  {
    StartIsSound(cfg);
    RunsAreSound(cfg, START, ops);
    if DisconnectsSucceed(ops) { RunsKeepIdleLimit(cfg, START, ops); }
    if OncePerWrapper(ops) { ExclusiveUse(cfg, START, ops); }
  }

  // ----- Disconnecting twice -----

  lemma GetSolo(cfg: Config, s: State, t: string, c: Conn, now: int, connected: set<int>)
    requires s.conns == map[t := [c]] && Reusable(c, now, connected)
    ensures Get(cfg, s, t, now, connected, true).0.conns == map[t := [Reuse(c, now)]]
    ensures Get(cfg, s, t, now, connected, true).1 == Leased(c.transport)
  {
    assert FindReusable([c], 0, now, connected) == Some(0);
    assert [c][0 := Reuse(c, now)] == [Reuse(c, now)];
  }

  lemma PutSolo(cfg: Config, s: State, t: string, c: Conn, now: int)
    requires s.conns == map[t := [c]] && c.inUse && MaxIdle(cfg) >= 1 && now - c.created <= MaxLifetime(cfg)
    ensures Put(cfg, s, t, c.transport, now, true).0.conns == map[t := [Release(c, now)]]
  {
    assert IndexOf([c], c.transport) == Some(0);
    assert ReleasedList([c], 0, now) == [Release(c, now)];
    assert Count([Release(c, now)], false) == 1;
  }

  /** Disconnecting one wrapper twice can put two callers on one connection. */
  lemma DoubleDisconnectShares(cfg: Config, t: string)
    requires MaxConns(cfg) >= 1 && MaxIdle(cfg) >= 1 && MaxLifetime(cfg) >= 0
    ensures var get, disconnect := GetOp(t, 0, {0}, true), DisconnectOp(0, 0, true);
      Run(cfg, START, [get, disconnect, get, disconnect, get]).wrappers
      == [Wrapper(t, 0, false), Wrapper(t, 0, true), Wrapper(t, 0, true)]
  {
    var get, disconnect := GetOp(t, 0, {0}, true), DisconnectOp(0, 0, true);
    var ops := [get, disconnect, get, disconnect, get];
    var c := Conn(0, true, 0, 0, 1);
    var s1 := Step(cfg, START, get);
    assert s1.pool.conns == map[t := [c]] by { assert [] + [c] == [c]; }
    var s2 := Step(cfg, s1, disconnect);
    PutSolo(cfg, s1.pool, t, c, 0);
    var s3 := Step(cfg, s2, get);
    GetSolo(cfg, s2.pool, t, Release(c, 0), 0, {0});
    var s4 := Step(cfg, s3, disconnect);
    PutSolo(cfg, s3.pool, t, Reuse(Release(c, 0), 0), 0);
    var s5 := Step(cfg, s4, get);
    GetSolo(cfg, s4.pool, t, Release(Reuse(Release(c, 0), 0), 0), 0, {0});
    assert s5.wrappers == [Wrapper(t, 0, false), Wrapper(t, 0, true), Wrapper(t, 0, true)];
    RunSteps(cfg, START, ops, 0);
    RunSteps(cfg, s1, ops, 1);
    RunSteps(cfg, s2, ops, 2);
    RunSteps(cfg, s3, ops, 3);
    RunSteps(cfg, s4, ops, 4);
    assert ops[0..] == ops;
  }

  lemma RunSteps(cfg: Config, s: System, ops: seq<Op>, k: nat)
    requires k < |ops|
    ensures Run(cfg, s, ops[k..]) == Run(cfg, Step(cfg, s, ops[k]), ops[k+1..])
  {}
}
