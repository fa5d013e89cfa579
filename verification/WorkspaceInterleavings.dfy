/**
 Calls of the workspace manager that overlap: each locked section is one step, and the calls
 in flight keep what they looked up or allocated between two steps. Ports stay unshared in
 every interleaving in which two deletes of one workspace do not overlap; when they do, two
 workspaces can end up with one port. A delete walks through the record's services under the port
 lock but not under the record's own, so a start of the same workspace that records
 a service meanwhile is a data race in Go; here the walk sees the services as they are.
 */
module WorkspaceInterleavings {
  import opened Results
  import opened WorkspaceModel

  /** A workspace record on the heap; it stays reachable for calls that looked it up earlier. */
  datatype Record = Record(id: string, sshPort: int, services: map<string, int>)

  /** Where a call in flight is, between two locked sections. */
  datatype Call =
    | CreatePending(id: string, port: int)            // the SSH port is allocated, the record not yet stored
    | StartPending(rec: nat)                          // the record is looked up
    | GrantPending(rec: nat, name: string, port: int) // a service port is allocated, not yet recorded
    | DeletePending(rec: nat, id: string)             // the record is looked up
    | RemovePending(id: string)                       // the ports are released, the entry not yet removed

  /** Calls are known by thread; released is history: the records whose ports have been released. */
  datatype Shared = Shared(
    allocatedPorts: set<int>,
    records: seq<Record>,
    table: map<string, nat>,
    calls: map<nat, Call>,
    released: set<nat>)

  const NOTHING := Shared({}, [], map[], map[], {})

  datatype Action =
    | BeginCreate(t: nat, id: string)
    | BeginStart(t: nat, id: string)
    | BeginDelete(t: nat, id: string)
    | Grant(t: nat, name: string)  // the start loop turns to this service
    | Advance(t: nat)              // the next locked section of a create, a grant or a delete
    | Leave(t: nat)                // a start ends, or a delete fails at the provider

  function RecordPorts(r: Record): set<int> {
    {r.sshPort} + set name | name in r.services :: r.services[name]
  }

  function Step(s: Shared, a: Action): Shared {
    match a
    case BeginCreate(t, id) =>
      var port := FirstFree(s.allocatedPorts, SSH_START, SSH_END);
      if t in s.calls || port.None? then s
      else s.(allocatedPorts := s.allocatedPorts + {port.value}, calls := s.calls[t := CreatePending(id, port.value)])
    case BeginStart(t, id) =>
      if t in s.calls || id !in s.table then s else s.(calls := s.calls[t := StartPending(s.table[id])])
    case BeginDelete(t, id) =>
      if t in s.calls || id !in s.table then s else s.(calls := s.calls[t := DeletePending(s.table[id], id)])
    case Grant(t, name) =>
      var port := FirstFree(s.allocatedPorts, SERVICE_START, SERVICE_END);
      if t !in s.calls || !s.calls[t].StartPending? || port.None? then s
      else
        s.(allocatedPorts := s.allocatedPorts + {port.value},
           calls := s.calls[t := GrantPending(s.calls[t].rec, name, port.value)])
    case Advance(t) =>
      if t !in s.calls then s
      else
        match s.calls[t] {
        case CreatePending(id, port) =>
          s.(records := s.records + [Record(id, port, map[])], table := s.table[id := |s.records|], calls := s.calls - {t})
        case GrantPending(rec, name, port) =>
          if rec >= |s.records| then s
          else
            var r := s.records[rec];
            s.(records := s.records[rec := r.(services := r.services[name := port])],
               calls := s.calls[t := StartPending(rec)])
        case DeletePending(rec, id) =>
          if rec >= |s.records| then s
          else
            s.(allocatedPorts := s.allocatedPorts - RecordPorts(s.records[rec]),
               released := s.released + {rec},
               calls := s.calls[t := RemovePending(id)])
        case RemovePending(id) => s.(table := s.table - {id}, calls := s.calls - {t})
        case StartPending(_) => s
        }
    case Leave(t) =>
      if t in s.calls && (s.calls[t].StartPending? || s.calls[t].DeletePending?) then s.(calls := s.calls - {t}) else s
  }

  function Run(s: Shared, actions: seq<Action>): Shared
    decreases |actions|
  {
    if actions == [] then s else Run(Step(s, actions[0]), actions[1..])
  }

  // ----- Who holds which port -----

  datatype Owner = InFlight(t: nat) | SshOf(rec: nat) | ServiceOf(rec: nat, name: string)

  /** A call holds the port it allocated; a record holds its ports until they are released. */
  predicate Owns(s: Shared, o: Owner, port: int) {
    match o
    case InFlight(t) => t in s.calls && (s.calls[t].CreatePending? || s.calls[t].GrantPending?) && s.calls[t].port == port
    case SshOf(rec) => rec < |s.records| && rec !in s.released && s.records[rec].sshPort == port
    case ServiceOf(rec, name) =>
      rec < |s.records| && rec !in s.released && name in s.records[rec].services && s.records[rec].services[name] == port
  }

  /** Owned ports are allocated and have one owner. */
  ghost predicate Unshared(s: Shared) {
    && (forall o, port :: Owns(s, o, port) ==> port in s.allocatedPorts)
    && (forall o, o', port :: Owns(s, o, port) && Owns(s, o', port) ==> o == o')
  }

  /** Calls and table entries refer to existing records of the right id. */
  ghost predicate Linked(s: Shared) {
    && (forall id :: id in s.table ==> s.table[id] < |s.records| && s.records[s.table[id]].id == id)
    && (forall t :: t in s.calls && s.calls[t].DeletePending? ==>
          s.calls[t].rec < |s.records| && s.records[s.calls[t].rec].id == s.calls[t].id)
    && (forall rec :: rec in s.released ==> rec < |s.records|)
  }

  predicate DeletesId(c: Call, id: string) {
    (c.DeletePending? || c.RemovePending?) && c.id == id
  }

  predicate DeletesIn(s: Shared, t: nat, id: string) {
    t in s.calls && DeletesId(s.calls[t], id)
  }

  ghost predicate DeleteInFlight(s: Shared, id: string) {
    exists t :: DeletesIn(s, t, id)
  }

  ghost predicate RemoveInFlight(s: Shared, id: string) {
    exists t :: t in s.calls && s.calls[t] == RemovePending(id)
  }

  /** At most one delete per id; what it is about to release is not released; a released record's
      table entry is about to be removed. */
  ghost predicate OneDelete(s: Shared) {
    && (forall t, t', id :: DeletesIn(s, t, id) && DeletesIn(s, t', id) ==> t == t')
    && (forall t :: t in s.calls && s.calls[t].DeletePending? ==> s.calls[t].rec !in s.released)
    && (forall id :: id in s.table && s.table[id] in s.released ==> RemoveInFlight(s, id))
  }

  /** No delete begins while another delete of the id is in flight. */
  ghost predicate NoOverlap(s: Shared, a: Action) {
    a.BeginDelete? ==> !DeleteInFlight(s, a.id)
  }

  /** A free port, or a port that from owned, passes to to; nothing else is gained, and no owned port is freed. */
  lemma UnsharedPasses(s: Shared, s': Shared, from: Owner, to: Owner, port: int)
    requires Unshared(s)
    requires forall o, p :: Owns(s', o, p) ==> (o == to && p == port) || (o != to && o != from && Owns(s, o, p))
    requires Owns(s, from, port) || port !in s.allocatedPorts
    requires s.allocatedPorts <= s'.allocatedPorts && port in s'.allocatedPorts
    ensures Unshared(s')
  {}

  /** What the steps keep as long as deletes of one id do not overlap. */
  ghost predicate Good(s: Shared) {
    Unshared(s) && Linked(s) && OneDelete(s)
  }

  /** When the deletes in flight stay, but for some that end before releasing anything. */
  lemma SameDeletes(s: Shared, s': Shared)
    requires OneDelete(s) && s'.table == s.table && s'.released == s.released
    requires forall t :: t in s'.calls && (s'.calls[t].DeletePending? || s'.calls[t].RemovePending?) ==>
      t in s.calls && s'.calls[t] == s.calls[t]
    requires forall t :: t in s.calls && s.calls[t].RemovePending? ==> t in s'.calls && s'.calls[t] == s.calls[t]
    ensures OneDelete(s')
  {
    assert forall t, id :: DeletesIn(s', t, id) ==> DeletesIn(s, t, id);
    forall id | id in s'.table && s'.table[id] in s'.released ensures RemoveInFlight(s', id) {
      var t :| t in s.calls && s.calls[t] == RemovePending(id);
      assert s'.calls[t] == RemovePending(id);
    }
  }

  // ----- One step -----

  /** A release of a record that is not yet released frees its own ports only. */
  lemma ReleaseFrees(s: Shared, t: nat)
    requires Unshared(s) && Linked(s) && t in s.calls && s.calls[t].DeletePending? && s.calls[t].rec !in s.released
    ensures Unshared(Step(s, Advance(t)))
  {
    var s', rec := Step(s, Advance(t)), s.calls[t].rec;
    forall o, p | Owns(s', o, p) ensures Owns(s, o, p) && p in s'.allocatedPorts {
      assert Owns(s, o, p);
      if p == s.records[rec].sshPort {
        assert Owns(s, SshOf(rec), p);
      } else if p in RecordPorts(s.records[rec]) {
        var name :| name in s.records[rec].services && s.records[rec].services[name] == p;
        assert Owns(s, ServiceOf(rec, name), p);
      }
    }
  }

  ghost predicate Releases(s: Shared, a: Action) {
    a.Advance? && a.t in s.calls && s.calls[a.t].DeletePending? && s.calls[a.t].rec < |s.records|
  }

  /** A release is of a record not released before, or of ports that nobody owns by now. */
  ghost predicate HarmlessRelease(s: Shared, a: Action) {
    Releases(s, a) ==>
      var rec := s.calls[a.t].rec;
      rec !in s.released || forall o, p :: Owns(s, o, p) ==> p !in RecordPorts(s.records[rec])
  }

  lemma ReleaseExact(s: Shared, a: Action)
    requires Unshared(s) && Linked(s) && Releases(s, a)
    ensures Unshared(Step(s, a)) <==> HarmlessRelease(s, a)
  {
    if s.calls[a.t].rec !in s.released {
      ReleaseFrees(s, a.t);
    } else {
      assert forall o, p :: Owns(Step(s, a), o, p) <==> Owns(s, o, p);
    }
  }

  /** Every step but a release keeps ports unshared: a port allocated was free, a port stored was in flight. */
  lemma OtherStepsKeepUnshared(s: Shared, a: Action)
    requires Unshared(s) && !Releases(s, a)
    ensures Unshared(Step(s, a))
  {
    var s' := Step(s, a);
    if s' != s {
      match a
      case BeginCreate(t, _) =>
        UnsharedPasses(s, s', InFlight(t), InFlight(t), FirstFree(s.allocatedPorts, SSH_START, SSH_END).value);
      case Grant(t, _) =>
        UnsharedPasses(s, s', InFlight(t), InFlight(t), FirstFree(s.allocatedPorts, SERVICE_START, SERVICE_END).value);
      case Advance(t) =>
        match s.calls[t] {
          case CreatePending(_, port) =>
            assert Owns(s, InFlight(t), port);
            UnsharedPasses(s, s', InFlight(t), SshOf(|s.records|), port);
          case GrantPending(rec, name, port) =>
            assert Owns(s, InFlight(t), port);
            UnsharedPasses(s, s', InFlight(t), ServiceOf(rec, name), port);
          case RemovePending(_) =>
            assert forall o, p :: Owns(s', o, p) <==> Owns(s, o, p);
        }
      case BeginStart(_, _) => assert forall o, p :: Owns(s', o, p) <==> Owns(s, o, p);
      case BeginDelete(_, _) => assert forall o, p :: Owns(s', o, p) <==> Owns(s, o, p);
      case Leave(_) => assert forall o, p :: Owns(s', o, p) <==> Owns(s, o, p);
    }
  }

  lemma LinkedStep(s: Shared, a: Action)
    requires Linked(s)
    ensures Linked(Step(s, a))
  {}

  /** Every step keeps ports unshared exactly when it is not a harmful release. */
  lemma UnsharedStep(s: Shared, a: Action)
    requires Unshared(s) && Linked(s)
    ensures Linked(Step(s, a)) && (Unshared(Step(s, a)) <==> HarmlessRelease(s, a))
  {
    LinkedStep(s, a);
    if Releases(s, a) {
      ReleaseExact(s, a);
    } else {
      OtherStepsKeepUnshared(s, a);
    }
  }

  ghost predicate UnsharedThroughout(s: Shared, actions: seq<Action>)
    decreases |actions|
  {
    Unshared(s) && (actions == [] || UnsharedThroughout(Step(s, actions[0]), actions[1..]))
  }

  ghost predicate HarmlessReleases(s: Shared, actions: seq<Action>)
    decreases |actions|
  {
    actions == [] || (HarmlessRelease(s, actions[0]) && HarmlessReleases(Step(s, actions[0]), actions[1..]))
  }

  /** In any interleaving ports are unshared at every moment exactly when every release is harmless. */
  lemma {:induction false} UnsharedIffHarmlessReleases(s: Shared, actions: seq<Action>)
    requires Unshared(s) && Linked(s)
    ensures UnsharedThroughout(s, actions) <==> HarmlessReleases(s, actions)
    decreases |actions|
  {
    if actions != [] {
      var s1 := Step(s, actions[0]);
      UnsharedStep(s, actions[0]);
      if Unshared(s1) {
        UnsharedIffHarmlessReleases(s1, actions[1..]);
      }
    }
  }

  // ----- One delete per id at a time -----

  lemma BeginDeleteKeeps(s: Shared, t: nat, id: string)
    requires OneDelete(s) && !DeleteInFlight(s, id)
    ensures OneDelete(Step(s, BeginDelete(t, id)))
  {
    var s' := Step(s, BeginDelete(t, id));
    if s' != s {
      assert forall u, i :: DeletesIn(s', u, i) <==> DeletesIn(s, u, i) || (u == t && i == id);
      assert !DeletesIn(s, t, id) && forall u :: !DeletesIn(s, u, id);
      forall i | i in s'.table && s'.table[i] in s'.released ensures RemoveInFlight(s', i) && i != id {
        var u :| u in s.calls && s.calls[u] == RemovePending(i);
        assert s'.calls[u] == RemovePending(i);
        assert DeletesIn(s, u, i);
      }
    }
  }

  lemma InsertKeeps(s: Shared, t: nat)
    requires OneDelete(s) && Linked(s) && t in s.calls && s.calls[t].CreatePending?
    ensures OneDelete(Step(s, Advance(t)))
  {
    var s' := Step(s, Advance(t));
    assert forall u, i :: DeletesIn(s', u, i) <==> DeletesIn(s, u, i);
    forall i | i in s'.table && s'.table[i] in s'.released ensures RemoveInFlight(s', i) {
      var u :| u in s.calls && s.calls[u] == RemovePending(i);
      assert s'.calls[u] == RemovePending(i);
    }
  }

  lemma ReleaseKeeps(s: Shared, t: nat)
    requires OneDelete(s) && Linked(s) && t in s.calls && s.calls[t].DeletePending?
    ensures OneDelete(Step(s, Advance(t)))
  {
    var s', c := Step(s, Advance(t)), s.calls[t];
    assert forall u, i :: DeletesIn(s', u, i) <==> DeletesIn(s, u, i);
    forall u | u in s'.calls && s'.calls[u].DeletePending? ensures s'.calls[u].rec !in s'.released {
      if s.calls[u].rec == c.rec {
        assert DeletesIn(s, u, c.id) && DeletesIn(s, t, c.id);
      }
    }
    forall i | i in s'.table && s'.table[i] in s'.released ensures RemoveInFlight(s', i) {
      if s.table[i] == c.rec {
        assert s'.calls[t] == RemovePending(i);
      } else {
        var u :| u in s.calls && s.calls[u] == RemovePending(i);
        assert s'.calls[u] == RemovePending(i);
      }
    }
  }

  lemma RemoveKeeps(s: Shared, t: nat)
    requires OneDelete(s) && t in s.calls && s.calls[t].RemovePending?
    ensures OneDelete(Step(s, Advance(t)))
  {
    var s' := Step(s, Advance(t));
    assert forall u, i :: DeletesIn(s', u, i) ==> DeletesIn(s, u, i);
    forall i | i in s'.table && s'.table[i] in s'.released ensures RemoveInFlight(s', i) {
      var u :| u in s.calls && s.calls[u] == RemovePending(i);
      assert s'.calls[u] == RemovePending(i);
    }
  }

  lemma OneDeleteStep(s: Shared, a: Action)
    requires OneDelete(s) && Linked(s) && NoOverlap(s, a)
    ensures OneDelete(Step(s, a))
  {
    var s' := Step(s, a);
    match a
    case BeginDelete(t, id) => BeginDeleteKeeps(s, t, id);
    case Advance(t) =>
      if t in s.calls {
        match s.calls[t] {
          case CreatePending(_, _) => InsertKeeps(s, t);
          case GrantPending(_, _, _) => SameDeletes(s, s');
          case DeletePending(_, _) => ReleaseKeeps(s, t);
          case RemovePending(_) => RemoveKeeps(s, t);
          case StartPending(_) =>
        }
      }
    case BeginCreate(_, _) => SameDeletes(s, s');
    case BeginStart(_, _) => SameDeletes(s, s');
    case Grant(_, _) => SameDeletes(s, s');
    case Leave(_) => SameDeletes(s, s');
  }

  /** Every step keeps ports unshared, as long as no delete begins while one of the same id is in flight. */
  lemma StepKeeps(s: Shared, a: Action)
    requires Good(s) && NoOverlap(s, a)
    ensures Good(Step(s, a)) && HarmlessRelease(s, a)
  {
    UnsharedStep(s, a);
    OneDeleteStep(s, a);
  }

  ghost predicate NeverOverlaps(s: Shared, actions: seq<Action>)
    decreases |actions|
  {
    actions == [] || (NoOverlap(s, actions[0]) && NeverOverlaps(Step(s, actions[0]), actions[1..]))
  }

  /** In every interleaving without overlapping deletes of one id, owned ports are allocated and have one owner. */
  lemma {:induction false} InterleavingsKeepPortsUnshared(s: Shared, actions: seq<Action>)
    requires Good(s) && NeverOverlaps(s, actions)
    ensures Good(Run(s, actions))
    decreases |actions|
  {
    if actions != [] {
      StepKeeps(s, actions[0]);
      InterleavingsKeepPortsUnshared(Step(s, actions[0]), actions[1..]);
    }
  }

  /** A listed workspace that is not being removed holds its ports, and holds them alone. */
  lemma ListedWorkspacesHoldTheirPorts(actions: seq<Action>, id: string)
    requires NeverOverlaps(NOTHING, actions)
    ensures var s := Run(NOTHING, actions);
      id in s.table && !RemoveInFlight(s, id) ==>
        s.table[id] < |s.records| && Owns(s, SshOf(s.table[id]), s.records[s.table[id]].sshPort)
        && s.records[s.table[id]].sshPort in s.allocatedPorts
        && forall o :: Owns(s, o, s.records[s.table[id]].sshPort) ==> o == SshOf(s.table[id])
  {
    InterleavingsKeepPortsUnshared(NOTHING, actions);
  }

  // ----- Overlapping deletes -----

  /** A whole creation by a thread that is not busy, on the given free port. */
  lemma CreationSteps(s: Shared, t: nat, id: string, port: int)
    requires t !in s.calls && FirstFree(s.allocatedPorts, SSH_START, SSH_END) == Some(port)
    ensures Step(Step(s, BeginCreate(t, id)), Advance(t)) == s.(
      allocatedPorts := s.allocatedPorts + {port}, records := s.records + [Record(id, port, map[])],
      table := s.table[id := |s.records|])
  {
    assert s.calls[t := CreatePending(id, port)] - {t} == s.calls;
  }

  /** "a" is created, two deletes look it up, the first releases its port, and "b" is created. */
  function ReusedWhileDeleting(): Shared {
    var created := Step(Step(NOTHING, BeginCreate(0, "a")), Advance(0));
    var lookedUp := Step(Step(created, BeginDelete(1, "a")), BeginDelete(2, "a"));
    Step(Step(Step(lookedUp, Advance(1)), BeginCreate(0, "b")), Advance(0))
  }

  /** The second delete releases the port of "a" again, which "b" holds by now, and "c" is created. */
  lemma OverlappingDeletesShareAPort()
    ensures var s := Step(Step(Step(ReusedWhileDeleting(), Advance(2)), BeginCreate(0, "c")), Advance(0));
      Owns(s, SshOf(1), SSH_START) && Owns(s, SshOf(2), SSH_START)
  {
    var port := SSH_START;
    assert FirstFree({}, SSH_START, SSH_END) == Some(port);
    var created := Step(Step(NOTHING, BeginCreate(0, "a")), Advance(0));
    CreationSteps(NOTHING, 0, "a", port);
    var lookedUp := Step(Step(created, BeginDelete(1, "a")), BeginDelete(2, "a"));
    var released := Step(lookedUp, Advance(1));
    FirstRelease(created, lookedUp, released);
    CreationSteps(released, 0, "b", port);
    var again := Step(ReusedWhileDeleting(), Advance(2));
    SecondRelease(ReusedWhileDeleting(), again);
    CreationSteps(again, 0, "c", port);
  }

  lemma FirstRelease(s1: Shared, s2: Shared, s3: Shared)
    requires s1 == Shared({SSH_START}, [Record("a", SSH_START, map[])], map["a" := 0], map[], {})
    requires s2 == Step(Step(s1, BeginDelete(1, "a")), BeginDelete(2, "a")) && s3 == Step(s2, Advance(1))
    ensures s3 == Shared({}, s1.records, s1.table, map[1 := RemovePending("a"), 2 := DeletePending(0, "a")], {0})
  {
    assert s2.calls == map[1 := DeletePending(0, "a"), 2 := DeletePending(0, "a")];
    assert RecordPorts(s1.records[0]) == {SSH_START};
    assert s3.allocatedPorts == {};
  }

  lemma SecondRelease(s4: Shared, s5: Shared)
    requires s4.allocatedPorts == {SSH_START} && 2 in s4.calls && s4.calls[2] == DeletePending(0, "a")
    requires |s4.records| == 2 && s4.records[0] == Record("a", SSH_START, map[]) && s4.released == {0}
    requires s5 == Step(s4, Advance(2))
    ensures s5.allocatedPorts == {} && s5.records == s4.records && s5.released == {0}
    ensures s5.calls.Keys == s4.calls.Keys
  {
    assert RecordPorts(s4.records[0]) == {SSH_START};
  }
}
