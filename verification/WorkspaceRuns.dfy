/**
 What every run of the workspace manager keeps: no port is shared, and the allocator's
 account is exact precisely as long as no record is overwritten.
 */
module WorkspaceRuns {
  import opened Results
  import opened Text
  import opened ServiceOrder
  import opened WorkspaceModel

  // ----- Who holds which port -----

  datatype Holder = Ssh(id: string) | Svc(id: string, name: string)

  predicate Holds(s: State, h: Holder, port: int) {
    h.id in s.live &&
    match h
    case Ssh(id) => s.live[id].sshPort == port
    case Svc(id, name) => name in s.live[id].services && s.live[id].services[name].mappedPort == port
  }

  predicate InRange(h: Holder, port: int) {
    match h
    case Ssh(_) => SSH_START <= port <= SSH_END
    case Svc(_, _) => SERVICE_START <= port <= SERVICE_END
  }

  /** Held ports are allocated, in their holder's range and held by nobody else. */
  ghost predicate Safe(s: State) {
    && (forall h, port :: Holds(s, h, port) ==> port in s.allocatedPorts && InRange(h, port))
    && (forall h, h', port :: Holds(s, h, port) && Holds(s, h', port) ==> h == h')
    && (forall id :: id in s.live ==> Accepted(s.live[id].command.services))
  }

  ghost predicate HeldBySome(s: State, port: int) {
    exists h :: Holds(s, h, port)
  }

  /** Nothing but held ports is allocated. */
  ghost predicate Exact(s: State) {
    forall port :: port in s.allocatedPorts ==> HeldBySome(s, port)
  }

  ghost predicate Leaked(s: State, port: int) {
    port in s.allocatedPorts && !HeldBySome(s, port)
  }

  /** From s to s' a free port was granted to h, and no other holding appeared. */
  ghost predicate Granted(s: State, s': State, h: Holder, port: int) {
    && port !in s.allocatedPorts && s'.allocatedPorts == s.allocatedPorts + {port} && InRange(h, port)
    && Holds(s', h, port)
    && forall h', p :: Holds(s', h', p) ==> (h' == h && p == port) || (h' != h && Holds(s, h', p))
  }

  lemma CreateGrants(providers: set<string>, s: State, cmd: Command, env: CreateEnv)
    requires ValidCommand(cmd) && FreeSSH(s).Some?
    ensures Granted(s, Create(providers, s, cmd, env), Ssh(cmd.workspaceId), FreeSSH(s).value)
    ensures forall h, p :: Holds(s, h, p) && h.id != cmd.workspaceId ==> Holds(Create(providers, s, cmd, env), h, p)
    ensures forall h, p :: Holds(Create(providers, s, cmd, env), h, p) && h.id == cmd.workspaceId ==> h.Ssh?
  {}

  lemma ServiceGrants(s: State, id: string, svc: ServiceDefinition, port: int, ok: bool)
    requires id in s.live && port !in s.allocatedPorts && SERVICE_START <= port <= SERVICE_END
    ensures Granted(s, GrantService(s, id, svc, port, ok), Svc(id, svc.name), port)
    ensures forall h, p :: Holds(s, h, p) && h != Svc(id, svc.name) ==> Holds(GrantService(s, id, svc, port, ok), h, p)
  {}

  lemma GrantKeepsSafe(s: State, s': State, h: Holder, port: int)
    requires Safe(s) && Granted(s, s', h, port)
    requires forall id :: id in s'.live ==> Accepted(s'.live[id].command.services)
    ensures Safe(s')
  {}

  /** After a grant the state is exact when it was and the holder had nothing before. */
  lemma GrantExact(s: State, s': State, h: Holder, port: int)
    requires Safe(s) && Granted(s, s', h, port)
    requires forall h', p :: Holds(s, h', p) && h' != h ==> Holds(s', h', p)
    ensures Exact(s') <==> Exact(s) && forall p :: !Holds(s, h, p)
  {}

  // ----- Every step -----

  /** Ports allocated before and after have no new holder; services of live workspaces stay accepted. */
  ghost predicate NoNewHolders(s: State, s': State) {
    forall h, p :: p in s.allocatedPorts && Holds(s', h, p) ==> Holds(s, h, p)
  }

  lemma CreateStep(providers: set<string>, s: State, cmd: Command, env: CreateEnv)
    requires Safe(s)
    ensures Safe(Create(providers, s, cmd, env)) && NoNewHolders(s, Create(providers, s, cmd, env))
    ensures s.allocatedPorts <= Create(providers, s, cmd, env).allocatedPorts
    ensures Exact(s) ==>
      (Exact(Create(providers, s, cmd, env))
       <==> !ValidCommand(cmd) || FreeSSH(s).None? || cmd.workspaceId !in s.live)
  {
    if ValidCommand(cmd) && FreeSSH(s).Some? {
      var s', h, port := Create(providers, s, cmd, env), Ssh(cmd.workspaceId), FreeSSH(s).value;
      CreateGrants(providers, s, cmd, env);
      GrantKeepsSafe(s, s', h, port);
      if cmd.workspaceId !in s.live {
        GrantExact(s, s', h, port);
      } else {
        var lost := s.live[cmd.workspaceId].sshPort;
        assert Holds(s, h, lost);
        assert forall h' :: !Holds(s', h', lost);
        assert Leaked(s', lost);
      }
    }
  }

  ghost function FreeServicePorts(s: State): set<int> {
    PortRange(SERVICE_START, SERVICE_END) - s.allocatedPorts
  }

  /** None of the services that will get a port already has a record. */
  ghost predicate NoneRecorded(s: State, id: string, ordered: seq<ServiceDefinition>)
    requires id in s.live
  {
    forall i :: 0 <= i < |ordered| && i < |FreeServicePorts(s)| ==> ordered[i].name !in s.live[id].services
  }

  lemma NoFreePortNoneLeft(s: State)
    ensures FreeService(s).None? <==> |FreeServicePorts(s)| == 0
    ensures FreeService(s).Some? ==> FreeService(s).value in FreeServicePorts(s)
  {}

  lemma StartOneStep(s: State, id: string, svc: ServiceDefinition, exec: ExecOracle, cancelled: CancelOracle)
    requires Safe(s) && id in s.live
    ensures var s' := StartOne(s, id, svc, exec, cancelled);
      && Safe(s') && NoNewHolders(s, s') && s.allocatedPorts <= s'.allocatedPorts
      && (Exact(s') <==> Exact(s) && (FreeService(s).Some? ==> svc.name !in s.live[id].services))
      && (FreeService(s).Some? ==> s'.live[id].services.Keys == s.live[id].services.Keys + {svc.name})
      && (FreeService(s).Some? ==> |FreeServicePorts(s')| == |FreeServicePorts(s)| - 1)
  {
    if FreeService(s).Some? {
      var port := FreeService(s).value;
      var s', h := StartOne(s, id, svc, exec, cancelled), Svc(id, svc.name);
      ServiceGrants(s, id, svc, port, Launches(exec, cancelled, svc));
      GrantKeepsSafe(s, s', h, port);
      GrantExact(s, s', h, port);
      if svc.name in s.live[id].services {
        assert Holds(s, h, s.live[id].services[svc.name].mappedPort);
      }
      assert FreeServicePorts(s') == FreeServicePorts(s) - {port};
    }
  }

  lemma {:induction false} StartAllStep(s: State, id: string, ordered: seq<ServiceDefinition>,
                                        exec: ExecOracle, cancelled: CancelOracle)
    requires Safe(s) && id in s.live && NoDup(ServiceNames(ordered))
    ensures var s' := StartAll(s, id, ordered, exec, cancelled);
      && Safe(s') && NoNewHolders(s, s') && s.allocatedPorts <= s'.allocatedPorts
      && (Exact(s') <==> Exact(s) && NoneRecorded(s, id, ordered))
    decreases |ordered|
  {
    if ordered != [] {
      var s1, rest := StartOne(s, id, ordered[0], exec, cancelled), ordered[1..];
      StartOneStep(s, id, ordered[0], exec, cancelled);
      assert NoDup(ServiceNames(rest)) by {
        assert ServiceNames(rest) == ServiceNames(ordered)[1..];
      }
      StartAllStep(s1, id, rest, exec, cancelled);
      NoFreePortNoneLeft(s);
      NoneRecordedShift(s, s1, id, ordered);
    }
  }

  lemma NoneRecordedShift(s: State, s1: State, id: string, ordered: seq<ServiceDefinition>)
    requires id in s.live && id in s1.live && ordered != [] && NoDup(ServiceNames(ordered))
    requires if |FreeServicePorts(s)| == 0 then s1 == s else
      && s1.live[id].services.Keys == s.live[id].services.Keys + {ordered[0].name}
      && |FreeServicePorts(s1)| == |FreeServicePorts(s)| - 1
    ensures NoneRecorded(s, id, ordered)
      <==> (|FreeServicePorts(s)| > 0 ==> ordered[0].name !in s.live[id].services) && NoneRecorded(s1, id, ordered[1..])
  {}

  lemma DeleteStep(providers: set<string>, s: State, id: string, destroyOk: bool)
    requires Safe(s)
    ensures Safe(Delete(providers, s, id, destroyOk)) && NoNewHolders(s, Delete(providers, s, id, destroyOk))
    ensures Exact(s) ==> Exact(Delete(providers, s, id, destroyOk))
  {
    var s' := Delete(providers, s, id, destroyOk);
    if id in s.live && s' != s {
      DeleteReleases(providers, s, id);
      forall p | p in s'.allocatedPorts && HeldBySome(s, p) ensures HeldBySome(s', p) {
        var h :| Holds(s, h, p);
        assert Holds(s', h, p);
      }
    }
  }

  /** A delete releases exactly the ports that the workspace and its services hold. */
  lemma DeleteReleases(providers: set<string>, s: State, id: string)
    requires Safe(s) && id in s.live && s.live[id].command.provider in providers
    ensures var s' := Delete(providers, s, id, true);
      && (forall h, p :: Holds(s', h, p) <==> Holds(s, h, p) && h.id != id)
      && (forall p :: p in s.allocatedPorts && p !in s'.allocatedPorts <==> exists h :: Holds(s, h, p) && h.id == id)
  {
    var w := s.live[id];
    forall p ensures p in PortsOf(w) <==> exists h :: Holds(s, h, p) && h.id == id {
      if p == w.sshPort {
        assert Holds(s, Ssh(id), p);
      } else if p in PortsOf(w) {
        var name :| name in w.services && w.services[name].mappedPort == p;
        assert Holds(s, Svc(id, name), p);
      }
    }
  }

  lemma StopStep(s: State, id: string)
    requires Safe(s)
    ensures Safe(Stop(s, id)) && NoNewHolders(s, Stop(s, id)) && (Exact(s) <==> Exact(Stop(s, id)))
  {
    var s' := Stop(s, id);
    assert forall h, p :: Holds(s', h, p) <==> Holds(s, h, p);
    forall p ensures HeldBySome(s', p) <==> HeldBySome(s, p) {
      if HeldBySome(s, p) {
        var h :| Holds(s, h, p);
        assert Holds(s', h, p);
      }
    }
  }

  lemma StartIsOrdered(providers: set<string>, s: State, id: string)
    requires Safe(s)
    ensures NoDup(ServiceNames(ServicesToStart(providers, s, id)))
  {
    if id in s.live {
      AcceptedStartOrder(s.live[id].command.services);
    }
  }

  /** The steps that lose no record: creating a new id, and starting services that have none yet. */
  ghost predicate CleanStep(providers: set<string>, s: State, op: Op) {
    match op
    case CreateOp(cmd, env) => !ValidCommand(cmd) || FreeSSH(s).None? || cmd.workspaceId !in s.live
    case StartOp(id, _, _) => id in s.live ==> NoneRecorded(s, id, ServicesToStart(providers, s, id))
    case StopOp(_) => true
    case DeleteOp(_, _) => true
  }

  lemma EveryStep(providers: set<string>, s: State, op: Op)
    requires Safe(s)
    ensures Safe(Step(providers, s, op)) && NoNewHolders(s, Step(providers, s, op))
    ensures Exact(s) ==> (Exact(Step(providers, s, op)) <==> CleanStep(providers, s, op))
  {
    match op
    case CreateOp(cmd, env) => CreateStep(providers, s, cmd, env);
    case StartOp(id, exec, cancelled) =>
      if id in s.live {
        StartIsOrdered(providers, s, id);
        StartAllStep(s, id, ServicesToStart(providers, s, id), exec, cancelled);
      }
    case StopOp(id) => StopStep(s, id);
    case DeleteOp(id, destroyOk) => DeleteStep(providers, s, id, destroyOk);
  }

  // ----- Every run -----

  /** In every run, whatever providers do, no two holders share a port. */
  lemma {:induction false} RunsAreSafe(providers: set<string>, s: State, ops: seq<Op>)
    requires Safe(s)
    ensures Safe(Run(providers, s, ops))
    decreases |ops|
  {
    if ops != [] {
      EveryStep(providers, s, ops[0]);
      RunsAreSafe(providers, Step(providers, s, ops[0]), ops[1..]);
    }
  }

  lemma InitialIsSafeAndExact()
    ensures Safe(INITIAL) && Exact(INITIAL)
  {}

  /** No live workspace whose provider is available holds the port. */
  ghost predicate NotReleasable(providers: set<string>, s: State, port: int) {
    && port in s.allocatedPorts
    && forall h :: Holds(s, h, port) ==> s.live[h.id].command.provider !in providers
  }

  lemma LeakedStep(providers: set<string>, s: State, op: Op, port: int)
    requires Safe(s) && Leaked(s, port)
    ensures Leaked(Step(providers, s, op), port)
  {
    EveryStep(providers, s, op);
    assert forall h :: !Holds(Step(providers, s, op), h, port);
    AllocatedStays(providers, s, op, port);
  }

  /** A step takes away a port's allocation only by deleting a workspace that holds it. */
  lemma AllocatedStays(providers: set<string>, s: State, op: Op, port: int)
    requires Safe(s) && NotReleasable(providers, s, port)
    ensures port in Step(providers, s, op).allocatedPorts
  {
    match op
    case CreateOp(cmd, env) =>
    case StartOp(id, exec, cancelled) =>
      if id in s.live {
        StartIsOrdered(providers, s, id);
        StartAllStep(s, id, ServicesToStart(providers, s, id), exec, cancelled);
      }
    case StopOp(id) =>
    case DeleteOp(id, destroyOk) =>
      if id in s.live && s.live[id].command.provider in providers {
        DeleteReleases(providers, s, id);
      }
  }

  /** A leaked port is never given back. */
  lemma {:induction false} LeakedForever(providers: set<string>, s: State, ops: seq<Op>, port: int)
    requires Safe(s) && Leaked(s, port)
    ensures Leaked(Run(providers, s, ops), port)
    decreases |ops|
  {
    if ops != [] {
      EveryStep(providers, s, ops[0]);
      LeakedStep(providers, s, ops[0], port);
      LeakedForever(providers, Step(providers, s, ops[0]), ops[1..], port);
    }
  }

  ghost predicate CleanRun(providers: set<string>, s: State, ops: seq<Op>)
    decreases |ops|
  {
    ops == [] || (CleanStep(providers, s, ops[0]) && CleanRun(providers, Step(providers, s, ops[0]), ops[1..]))
  }

  /** After a run the allocated ports are exactly the held ones if and only if every step was clean. */
  lemma {:induction false} ExactIffCleanRun(providers: set<string>, s: State, ops: seq<Op>)
    requires Safe(s) && Exact(s)
    ensures Exact(Run(providers, s, ops)) <==> CleanRun(providers, s, ops)
    decreases |ops|
  {
    if ops != [] {
      var s1 := Step(providers, s, ops[0]);
      EveryStep(providers, s, ops[0]);
      if Exact(s1) {
        ExactIffCleanRun(providers, s1, ops[1..]);
      } else {
        var port :| port in s1.allocatedPorts && !HeldBySome(s1, port);
        LeakedForever(providers, s1, ops[1..], port);
      }
    }
  }

  // ----- Consequences -----

  /** In an exact state nothing is allocated if and only if no workspace is live. */
  lemma EmptyTogether(s: State)
    requires Safe(s) && Exact(s)
    ensures s.allocatedPorts == {} <==> s.live == map[]
  {
    if s.live != map[] {
      var id :| id in s.live;
      assert Holds(s, Ssh(id), s.live[id].sshPort);
    } else {
      forall p ensures p !in s.allocatedPorts { assert !HeldBySome(s, p); }
    }
  }

  function SSHPorts(live: map<string, Workspace>, ids: set<string>): set<int>
    requires ids <= live.Keys
  {
    set id | id in ids :: live[id].sshPort
  }

  lemma {:induction false} OnePortEach(s: State, ids: set<string>)
    requires Safe(s) && ids <= s.live.Keys
    ensures |SSHPorts(s.live, ids)| == |ids|
  {
    if ids != {} {
      var id :| id in ids;
      OnePortEach(s, ids - {id});
      var port := s.live[id].sshPort;
      assert Holds(s, Ssh(id), port);
      assert port !in SSHPorts(s.live, ids - {id}) by {
        forall other | other in ids - {id} ensures s.live[other].sshPort != port {
          assert Holds(s, Ssh(other), s.live[other].sshPort);
        }
      }
      assert SSHPorts(s.live, ids) == SSHPorts(s.live, ids - {id}) + {port};
    }
  }

  /** At most 78 workspaces are live; in an exact state SSH allocation fails exactly when 78 are. */
  lemma SSHExhaustion(s: State)
    requires Safe(s)
    ensures |s.live| <= 78
    ensures |s.live| == 78 ==> FreeSSH(s).None?
    ensures Exact(s) ==> (FreeSSH(s).None? <==> |s.live| == 78)
  {
    var ports, range := SSHPorts(s.live, s.live.Keys), PortRange(SSH_START, SSH_END);
    OnePortEach(s, s.live.Keys);
    assert |ports| == |s.live|;
    PortRangeSize(SSH_START, SSH_END);
    forall id | id in s.live ensures s.live[id].sshPort in range && s.live[id].sshPort in s.allocatedPorts {
      assert Holds(s, Ssh(id), s.live[id].sshPort);
    }
    SubsetSize(ports, range);
    assert ports <= s.allocatedPorts;
    if Exact(s) && FreeSSH(s).None? {
      ExhaustedPortsHeld(s);
      assert ports == range;
    }
  }

  lemma ExhaustedPortsHeld(s: State)
    requires Safe(s) && Exact(s) && FreeSSH(s).None?
    ensures PortRange(SSH_START, SSH_END) <= SSHPorts(s.live, s.live.Keys)
  {
    forall p | p in PortRange(SSH_START, SSH_END) ensures p in SSHPorts(s.live, s.live.Keys) {
      assert HeldBySome(s, p);
      var h :| Holds(s, h, p);
      assert h.Ssh?;
    }
  }

  /** Starting from nothing: safety, and the exact account of the allocator, for every run. */
  lemma RunsFromInitial(providers: set<string>, ops: seq<Op>)
    ensures var s := Run(providers, INITIAL, ops);
      && Safe(s) && |s.live| <= 78
      && (Exact(s) <==> CleanRun(providers, INITIAL, ops))
      && (CleanRun(providers, INITIAL, ops) ==>
            (FreeSSH(s).None? <==> |s.live| == 78) && (s.allocatedPorts == {} <==> s.live == map[]))
  {
    InitialIsSafeAndExact();
    RunsAreSafe(providers, INITIAL, ops);
    ExactIffCleanRun(providers, INITIAL, ops);
    var s := Run(providers, INITIAL, ops);
    SSHExhaustion(s);
    if Exact(s) {
      EmptyTogether(s);
    }
  }

  /** Creating an id again forgets its first port, and deleting the workspace does not bring it back. */
  lemma RecreationLeaks(providers: set<string>, cmd: Command, env: CreateEnv)
    requires ValidCommand(cmd) && cmd.provider in providers
    ensures Run(providers, INITIAL, [CreateOp(cmd, env), CreateOp(cmd, env), DeleteOp(cmd.workspaceId, true)])
            == State({SSH_START}, map[])
  {
    var create, del := CreateOp(cmd, env), DeleteOp(cmd.workspaceId, true);
    var s1 := Create(providers, INITIAL, cmd, env);
    var s2 := Create(providers, s1, cmd, env);
    var s3 := Delete(providers, s2, cmd.workspaceId, true);
    assert FreeSSH(INITIAL) == Some(SSH_START);
    assert s1.allocatedPorts == {SSH_START};
    assert FreeSSH(s1) == Some(SSH_START + 1);
    assert PortsOf(s2.live[cmd.workspaceId]) == {SSH_START + 1};
    assert s3.allocatedPorts == {SSH_START};
    assert s3.live == map[];
    assert Run(providers, s2, [del]) == s3 by { assert [del][1..] == []; }
    assert [create, del][1..] == [del];
    assert Run(providers, s1, [create, del]) == s3;
    assert [create, create, del][1..] == [create, del];
  }

  lemma NotReleasableStep(providers: set<string>, s: State, op: Op, port: int)
    requires Safe(s) && NotReleasable(providers, s, port)
    ensures NotReleasable(providers, Step(providers, s, op), port)
  {
    var s' := Step(providers, s, op);
    EveryStep(providers, s, op);
    AllocatedStays(providers, s, op, port);
    forall h | Holds(s', h, port) ensures s'.live[h.id].command.provider !in providers {
      assert Holds(s, h, port);
    }
  }

  lemma {:induction false} NotReleasableForever(providers: set<string>, s: State, ops: seq<Op>, port: int)
    requires Safe(s) && NotReleasable(providers, s, port)
    ensures NotReleasable(providers, Run(providers, s, ops), port)
    decreases |ops|
  {
    if ops != [] {
      EveryStep(providers, s, ops[0]);
      NotReleasableStep(providers, s, ops[0], port);
      NotReleasableForever(providers, Step(providers, s, ops[0]), ops[1..], port);
    }
  }

  /** A workspace created for a provider that is not available keeps its SSH port allocated for ever. */
  lemma UnavailableProviderKeepsPort(providers: set<string>, s: State, cmd: Command, env: CreateEnv, ops: seq<Op>)
    requires Safe(s) && ValidCommand(cmd) && FreeSSH(s).Some? && cmd.provider !in providers
    ensures FreeSSH(s).value in Run(providers, Create(providers, s, cmd, env), ops).allocatedPorts
  {
    var s1, port := Create(providers, s, cmd, env), FreeSSH(s).value;
    CreateStep(providers, s, cmd, env);
    CreateGrants(providers, s, cmd, env);
    forall h | Holds(s1, h, port) ensures s1.live[h.id].command.provider !in providers {
      assert Holds(s1, Ssh(cmd.workspaceId), port);
    }
    NotReleasableForever(providers, s1, ops, port);
  }

  // ----- Giving a port back -----

  /** The operations give the port back. */
  ghost predicate FreedBy(providers: set<string>, s: State, port: int, ops: seq<Op>) {
    port !in Run(providers, s, ops).allocatedPorts
  }

  /** An allocated port can still be given back exactly when a workspace of an available provider holds it. */
  lemma FreedUnlessNotReleasable(providers: set<string>, s: State, port: int)
    requires Safe(s) && port in s.allocatedPorts
    ensures (exists ops :: FreedBy(providers, s, port, ops)) <==> !NotReleasable(providers, s, port)
  {
    if NotReleasable(providers, s, port) {
      forall ops ensures !FreedBy(providers, s, port, ops) {
        NotReleasableForever(providers, s, ops, port);
      }
    } else {
      var h :| Holds(s, h, port) && s.live[h.id].command.provider in providers;
      DeleteReleases(providers, s, h.id);
      assert [DeleteOp(h.id, true)][1..] == [];
      assert FreedBy(providers, s, port, [DeleteOp(h.id, true)]);
    }
  }

  // ----- A sufficient condition on the operations -----

  /** Creations have distinct ids, and each id is started at most once. */
  ghost predicate OnceEach(ops: seq<Op>) {
    && (forall i, j :: 0 <= i < j < |ops| && ops[i].CreateOp? && ops[j].CreateOp?
          ==> ops[i].cmd.workspaceId != ops[j].cmd.workspaceId)
    && (forall i, j :: 0 <= i < j < |ops| && ops[i].StartOp? && ops[j].StartOp? ==> ops[i].id != ops[j].id)
  }

  /** The ids still to be created are not live, and the live ones still to be started have no services. */
  ghost predicate Untried(s: State, ops: seq<Op>) {
    && (forall i :: 0 <= i < |ops| && ops[i].CreateOp? ==> ops[i].cmd.workspaceId !in s.live)
    && (forall i :: 0 <= i < |ops| && ops[i].StartOp? && ops[i].id in s.live ==> s.live[ops[i].id].services == map[])
  }

  /** Starting services changes the services of one record, and nothing else in any record. */
  lemma {:induction false} StartAllTouchesOne(s: State, id: string, ordered: seq<ServiceDefinition>,
                                              exec: ExecOracle, cancelled: CancelOracle)
    requires id in s.live
    ensures var s' := StartAll(s, id, ordered, exec, cancelled);
      && s'.live[id] == s.live[id].(services := s'.live[id].services)
      && forall i :: i in s.live && i != id ==> s'.live[i] == s.live[i]
    decreases |ordered|
  {
    if ordered != [] {
      StartAllTouchesOne(StartOne(s, id, ordered[0], exec, cancelled), id, ordered[1..], exec, cancelled);
    }
  }

  lemma UntriedStep(providers: set<string>, s: State, ops: seq<Op>)
    requires ops != [] && OnceEach(ops) && Untried(s, ops)
    ensures CleanStep(providers, s, ops[0])
    ensures OnceEach(ops[1..]) && Untried(Step(providers, s, ops[0]), ops[1..])
  {
    var rest := ops[1..];
    assert forall i :: 0 <= i < |rest| ==> rest[i] == ops[i+1];
    if ops[0].StartOp? && ops[0].id in s.live {
      StartAllTouchesOne(s, ops[0].id, ServicesToStart(providers, s, ops[0].id), ops[0].exec, ops[0].cancelled);
    }
  }

  lemma {:induction false} OnceEachIsClean(providers: set<string>, s: State, ops: seq<Op>)
    requires OnceEach(ops) && Untried(s, ops)
    ensures CleanRun(providers, s, ops)
    decreases |ops|
  {
    if ops != [] {
      UntriedStep(providers, s, ops);
      OnceEachIsClean(providers, Step(providers, s, ops[0]), ops[1..]);
    }
  }

  /** If no id is created twice or started twice, the account is exact after the run. */
  lemma ExactWhenOnceEach(providers: set<string>, ops: seq<Op>)
    requires OnceEach(ops)
    ensures Exact(Run(providers, INITIAL, ops))
  {
    OnceEachIsClean(providers, INITIAL, ops);
    RunsFromInitial(providers, ops);
  }
}
