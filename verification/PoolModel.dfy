/**
 The connection pool as a state machine over values. Transports are numbered in the
 order of their creation; a connection is known by its transport's number. The clock,
 the transports that report themselves connected, the factory's outcome and the
 outcome of closing a transport are parameters of each operation.
 */
module PoolModel {
  import opened Maps
  import opened Results

  const HOUR := 3_600_000_000_000

  datatype Config = Config(maxConns: int, maxIdle: int, maxLifetime: int)

  function MaxConns(cfg: Config): int {
    if cfg.maxConns == 0 then 10 else cfg.maxConns
  }

  function MaxIdle(cfg: Config): int {
    if cfg.maxIdle == 0 then 5 else cfg.maxIdle
  }

  function MaxLifetime(cfg: Config): int {
    if cfg.maxLifetime == 0 then HOUR else cfg.maxLifetime
  }

  datatype Conn = Conn(transport: int, inUse: bool, created: int, lastUsed: int, useCount: int)

  datatype Metrics = Metrics(created: int, destroyed: int, active: int, idle: int, totalReused: int)

  datatype State = State(conns: map<string, seq<Conn>>, metrics: Metrics)

  const INITIAL := State(map[], Metrics(0, 0, 0, 0, 0))

  // ----- Operations -----

  predicate Healthy(c: Conn, now: int, connected: set<int>) {
    c.transport in connected && !(now - c.created > HOUR)
  }

  predicate Reusable(c: Conn, now: int, connected: set<int>) {
    !c.inUse && Healthy(c, now, connected)
  }

  /** The index from k on of the first connection that may be handed out again. */
  function FindReusable(l: seq<Conn>, k: nat, now: int, connected: set<int>): (r: Option<nat>)
    requires k <= |l|
    ensures r.Some? ==> k <= r.value < |l| && Reusable(l[r.value], now, connected)
    ensures r.Some? ==> forall j :: k <= j < r.value ==> !Reusable(l[j], now, connected)
    ensures r.None? ==> forall j :: k <= j < |l| ==> !Reusable(l[j], now, connected)
    decreases |l| - k
  {
    if k == |l| then None
    else if Reusable(l[k], now, connected) then Some(k)
    else FindReusable(l, k + 1, now, connected)
  }

  function ListOf(s: State, target: string): seq<Conn> {
    if target in s.conns then s.conns[target] else []
  }

  datatype GetReply = Leased(transport: int) | FactoryFailed | Exhausted

  function Reuse(c: Conn, now: int): Conn {
    c.(inUse := true, lastUsed := now, useCount := c.useCount + 1)
  }

  /** A target has a list from its first Get on. */
  function WithList(s: State, target: string): (s': State)
    ensures target in s'.conns && s'.conns[target] == ListOf(s, target)
  {
    if target in s.conns then s else s.(conns := s.conns[target := []])
  }

  function Reused(s: State, target: string, i: nat, now: int): State
    requires target in s.conns && i < |s.conns[target]|
  {
    var l, m := s.conns[target], s.metrics;
    State(s.conns[target := l[i := Reuse(l[i], now)]],
          m.(totalReused := m.totalReused + 1, active := m.active + 1, idle := m.idle - 1))
  }

  function Added(s: State, target: string, now: int): State
    requires target in s.conns
  {
    var m := s.metrics;
    State(s.conns[target := s.conns[target] + [Conn(m.created, true, now, now, 1)]],
          m.(created := m.created + 1, active := m.active + 1))
  }

  /** Get for a target that has a list. */
  function GetListed(cfg: Config, s: State, target: string, now: int, connected: set<int>, factoryOk: bool)
    : (State, GetReply)
    requires target in s.conns
  {
    match FindReusable(s.conns[target], 0, now, connected)
    case Some(i) => (Reused(s, target, i, now), Leased(s.conns[target][i].transport))
    case None =>
      if |s.conns[target]| >= MaxConns(cfg) then (s, Exhausted)
      else if !factoryOk then (s, FactoryFailed)
      else (Added(s, target, now), Leased(s.metrics.created))
  }

  function Get(cfg: Config, s: State, target: string, now: int, connected: set<int>, factoryOk: bool): (State, GetReply) {
    GetListed(cfg, WithList(s, target), target, now, connected, factoryOk)
  }

  /** The position of a transport's connection in a list. */
  function IndexOf(l: seq<Conn>, transport: int): (r: Option<nat>)
    ensures r.Some? ==> r.value < |l| && l[r.value].transport == transport
    ensures r.None? ==> forall j :: 0 <= j < |l| ==> l[j].transport != transport
    ensures r.Some? ==> forall j :: 0 <= j < r.value ==> l[j].transport != transport
  {
    if l == [] then None
    else if l[0].transport == transport then Some(0)
    else
      match IndexOf(l[1..], transport)
      case None => None
      case Some(i) => Some(i + 1)
  }

  function Count(l: seq<Conn>, inUse: bool): nat {
    if l == [] then 0 else (if l[0].inUse == inUse then 1 else 0) + Count(l[1..], inUse)
  }

  function Release(c: Conn, now: int): Conn {
    c.(inUse := false, lastUsed := now)
  }

  /** The list after the connection at i is marked idle. */
  function ReleasedList(l: seq<Conn>, i: nat, now: int): seq<Conn>
    requires i < |l|
  {
    l[i := Release(l[i], now)]
  }

  /** Whether a returned connection is to be closed: too many idle ones, or too old. */
  predicate Discards(cfg: Config, l: seq<Conn>, i: nat, now: int)
    requires i < |l|
  {
    Count(ReleasedList(l, i, now), false) > MaxIdle(cfg) || now - l[i].created > MaxLifetime(cfg)
  }

  function Without(l: seq<Conn>, i: nat): seq<Conn>
    requires i < |l|
  {
    l[..i] + l[i+1..]
  }

  function Released(s: State, target: string, i: nat, now: int): State
    requires target in s.conns && i < |s.conns[target]|
  {
    var m := s.metrics;
    State(s.conns[target := ReleasedList(s.conns[target], i, now)], m.(active := m.active - 1, idle := m.idle + 1))
  }

  function Destroyed(s: State, target: string, i: nat): State
    requires target in s.conns && i < |s.conns[target]|
  {
    var m := s.metrics;
    State(s.conns[target := Without(s.conns[target], i)], m.(destroyed := m.destroyed + 1, idle := m.idle - 1))
  }

  /** Returning a connection; the flag is false when closing its transport failed. */
  function Put(cfg: Config, s: State, target: string, transport: int, now: int, disconnectOk: bool): (State, bool) {
    match IndexOf(ListOf(s, target), transport)
    case None => (s, true)
    case Some(i) =>
      if !s.conns[target][i].inUse then (s, true)
      else if !Discards(cfg, s.conns[target], i, now) then (Released(s, target, i, now), true)
      else if !disconnectOk then (Released(s, target, i, now), false)
      else (Destroyed(Released(s, target, i, now), target, i), true)
  }

  /** After the release, a connection that is surplus or too old is closed. */
  predicate Closes(cfg: Config, s: State, target: string, i: nat, now: int)
    requires target in s.conns && i < |s.conns[target]|
  {
    Count(s.conns[target], false) > MaxIdle(cfg) || now - s.conns[target][i].created > MaxLifetime(cfg)
  }

  lemma PutInTwoSteps(cfg: Config, s: State, target: string, transport: int, now: int, disconnectOk: bool, i: nat)
    requires target in s.conns && i < |s.conns[target]| && s.conns[target][i].inUse
    requires IndexOf(s.conns[target], transport) == Some(i)
    ensures var s1 := Released(s, target, i, now);
      Put(cfg, s, target, transport, now, disconnectOk)
      == (if Closes(cfg, s1, target, i, now) && disconnectOk then Destroyed(s1, target, i) else s1,
          Closes(cfg, s1, target, i, now) ==> disconnectOk)
  {}

  /** Both operations change one target's list only. */
  lemma OneListChanges(cfg: Config, s: State, target: string, transport: int, now: int, connected: set<int>, ok: bool)
    ensures var s' := Get(cfg, s, target, now, connected, ok).0;
      target in s'.conns && s'.conns == s.conns[target := s'.conns[target]]
    ensures var s' := Put(cfg, s, target, transport, now, ok).0;
      if target in s'.conns then s'.conns == s.conns[target := s'.conns[target]] else s' == s
  {}

  // ----- Counting -----

  lemma {:induction false} CountAppend(l: seq<Conn>, l': seq<Conn>, inUse: bool)
    ensures Count(l + l', inUse) == Count(l, inUse) + Count(l', inUse)
  {
    if l == [] {
      assert l + l' == l';
    } else {
      assert (l + l')[1..] == l[1..] + l';
      CountAppend(l[1..], l', inUse);
    }
  }

  lemma CountAt(l: seq<Conn>, i: nat, inUse: bool)
    requires i < |l|
    ensures Count(l, inUse) == Count(Without(l, i), inUse) + if l[i].inUse == inUse then 1 else 0
  {
    assert l == l[..i] + ([l[i]] + l[i+1..]);
    CountAppend(l[..i], [l[i]] + l[i+1..], inUse);
    CountAppend([l[i]], l[i+1..], inUse);
    CountAppend(l[..i], l[i+1..], inUse);
    assert Count([l[i]], inUse) == if l[i].inUse == inUse then 1 else 0;
  }

  lemma CountUpdate(l: seq<Conn>, i: nat, c: Conn, inUse: bool)
    requires i < |l|
    ensures Count(l[i := c], inUse)
            == Count(l, inUse) - (if l[i].inUse == inUse then 1 else 0) + (if c.inUse == inUse then 1 else 0)
  {
    CountAt(l, i, inUse);
    CountAt(l[i := c], i, inUse);
    assert Without(l[i := c], i) == Without(l, i);
  }

  /** The number of pooled connections, over all targets, that are in use or that are not. */
  ghost function Total(conns: map<string, seq<Conn>>, inUse: bool): nat
    decreases |conns|
  {
    if conns == map[] then 0
    else
      var t := Pick(conns);
      assert |conns - {t}| < |conns| by { RemoveShrinks(conns, t); }
      Count(conns[t], inUse) + Total(conns - {t}, inUse)
  }

  /** The total does not depend on the order in which the targets are visited. */
  lemma {:induction false} TotalRemove(conns: map<string, seq<Conn>>, t: string, inUse: bool)
    requires t in conns
    ensures Total(conns, inUse) == Count(conns[t], inUse) + Total(conns - {t}, inUse)
    decreases |conns|
  {
    var p := Pick(conns);
    if p != t {
      RemoveShrinks(conns, p);
      RemoveShrinks(conns, t);
      TotalRemove(conns - {p}, t, inUse);
      TotalRemove(conns - {t}, p, inUse);
      assert conns - {p} - {t} == conns - {t} - {p};
    }
  }

  lemma TotalUpdate(conns: map<string, seq<Conn>>, t: string, l: seq<Conn>, inUse: bool)
    ensures Total(conns[t := l], inUse)
            == Total(conns, inUse) - (if t in conns then Count(conns[t], inUse) else 0) + Count(l, inUse)
  {
    TotalRemove(conns[t := l], t, inUse);
    assert conns[t := l] - {t} == conns - {t};
    if t in conns {
      TotalRemove(conns, t, inUse);
    } else {
      assert conns - {t} == conns;
    }
  }
}
