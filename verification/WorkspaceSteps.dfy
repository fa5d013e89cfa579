/**
 What each operation of the workspace manager does to ports, records and statuses, as a
 caller sees it: every change has exactly the cause that is stated here.
 */
module WorkspaceSteps {
  import opened Results
  import opened Text
  import opened Graph
  import opened ServiceOrder
  import opened WorkspaceModel
  import opened WorkspaceRuns
  import Retry

  // ----- Creating -----

  /** The least SSH port that is not allocated. */
  ghost predicate LeastFreeSSH(s: State, port: int) {
    2222 <= port <= 2299 && port !in s.allocatedPorts && forall q :: 2222 <= q < port ==> q in s.allocatedPorts
  }

  /** The operation writes a new record for id. */
  ghost predicate Creates(s: State, op: Op, id: string) {
    && op.CreateOp? && op.cmd.workspaceId == id
    && id != "" && op.cmd.provider != "" && op.cmd.otherFields && Accepted(op.cmd.services)
    && exists port :: LeastFreeSSH(s, port)
  }

  /** Every call that the creation makes into the provider succeeds. */
  predicate ProviderServes(providers: set<string>, cmd: Command, env: CreateEnv) {
    cmd.provider in providers && env.session.Some? && env.startOk && env.sshOk
  }

  /** A creation takes the least free SSH port and writes one record, running or in error. */
  lemma CreateEffect(providers: set<string>, s: State, op: Op, id: string, port: int)
    requires Creates(s, op, id) && LeastFreeSSH(s, port)
    ensures var s' := Step(providers, s, op);
      && s'.allocatedPorts == s.allocatedPorts + {port}
      && s'.live.Keys == s.live.Keys + {id}
      && (forall i :: i in s.live && i != id ==> s'.live[i] == s.live[i])
      && s'.live[id].command == op.cmd && s'.live[id].sshPort == port && s'.live[id].services == map[]
      && (s'.live[id].status == Running <==> ProviderServes(providers, op.cmd, op.env))
      && (s'.live[id].status == Error <==> !ProviderServes(providers, op.cmd, op.env))
      && (op.cmd.provider in providers && op.env.session.Some? ==> s'.live[id].containerId == op.env.session.value)
      && (op.cmd.provider !in providers || op.env.session.None? ==> s'.live[id].containerId == "")
  {
    assert FreeSSH(s) == Some(port);
  }

  /** A create that is not valid, or finds no port, changes nothing. */
  lemma OtherCreatesDoNothing(providers: set<string>, s: State, op: Op)
    requires op.CreateOp? && !Creates(s, op, op.cmd.workspaceId)
    ensures Step(providers, s, op) == s
  {
    if FreeSSH(s).Some? {
      assert LeastFreeSSH(s, FreeSSH(s).value);
    }
  }

  /** In a safe state SSH ports are 2222 to 2299, and service ports 23000 to 30000. */
  lemma PortsInRange(s: State, id: string)
    requires Safe(s) && id in s.live
    ensures 2222 <= s.live[id].sshPort <= 2299
    ensures forall name :: name in s.live[id].services ==> 23000 <= s.live[id].services[name].mappedPort <= 30000
  {
    assert Holds(s, Ssh(id), s.live[id].sshPort);
    forall name | name in s.live[id].services ensures 23000 <= s.live[id].services[name].mappedPort <= 30000 {
      assert Holds(s, Svc(id, name), s.live[id].services[name].mappedPort);
    }
  }

  // ----- Deleting -----

  /** A delete of a live id whose provider is available and destroys the container. */
  predicate Removes(providers: set<string>, s: State, op: Op, id: string) {
    op.DeleteOp? && op.id == id && op.destroyOk && id in s.live && s.live[id].command.provider in providers
  }

  /** A live id stops being live exactly by such a delete. */
  lemma RemovalExact(providers: set<string>, s: State, op: Op, id: string)
    requires id in s.live
    ensures id !in Step(providers, s, op).live <==> Removes(providers, s, op, id)
  {}

  /** An id becomes live exactly by a creation. */
  lemma ArrivalExact(providers: set<string>, s: State, op: Op, id: string)
    requires id !in s.live
    ensures id in Step(providers, s, op).live <==> Creates(s, op, id)
  {
    if op.CreateOp? {
      if Creates(s, op, op.cmd.workspaceId) {
        var port :| LeastFreeSSH(s, port);
        CreateEffect(providers, s, op, op.cmd.workspaceId, port);
      } else {
        OtherCreatesDoNothing(providers, s, op);
      }
    }
  }

  /** A port stops being allocated exactly by such a delete of the workspace that holds it. */
  lemma ReleaseExact(providers: set<string>, s: State, op: Op, port: int)
    requires Safe(s) && port in s.allocatedPorts
    ensures port !in Step(providers, s, op).allocatedPorts
            <==> exists h :: Holds(s, h, port) && Removes(providers, s, op, h.id)
  {
    match op
    case DeleteOp(id, destroyOk) =>
      if Removes(providers, s, op, id) {
        DeleteReleases(providers, s, id);
      }
    case StartOp(id, exec, cancelled) => EveryStepKeepsPorts(providers, s, op);
    case CreateOp(_, _) =>
    case StopOp(_) =>
  }

  lemma EveryStepKeepsPorts(providers: set<string>, s: State, op: Op)
    requires Safe(s) && op.StartOp?
    ensures s.allocatedPorts <= Step(providers, s, op).allocatedPorts
  {
    if op.id in s.live {
      StartIsOrdered(providers, s, op.id);
      StartAllStep(s, op.id, ServicesToStart(providers, s, op.id), op.exec, op.cancelled);
    }
  }

  /** Every other delete changes nothing: an unknown id, an unavailable provider, a container not destroyed. */
  lemma OtherDeletesDoNothing(providers: set<string>, s: State, op: Op)
    requires op.DeleteOp? && !Removes(providers, s, op, op.id)
    ensures Step(providers, s, op) == s
  {}

  // ----- Statuses -----

  /** What a step leaves of a record that it does not create anew: all but the status after a stop, and
      the services after a start. */
  lemma RecordStep(providers: set<string>, s: State, op: Op, id: string)
    requires id in s.live && id in Step(providers, s, op).live && !Creates(s, op, id)
    ensures var w, w' := s.live[id], Step(providers, s, op).live[id];
      && w'.command == w.command && w'.containerId == w.containerId && w'.sshPort == w.sshPort
      && (w'.status == if op.StopOp? && op.id == id then Stopped else w.status)
      && (!(op.StartOp? && op.id == id) ==> w'.services == w.services)
  {
    match op
    case CreateOp(cmd, _) =>
      if cmd.workspaceId == id {
        OtherCreatesDoNothing(providers, s, op);
      }
    case StartOp(i, exec, cancelled) =>
      if i in s.live {
        StartAllTouchesOne(s, i, ServicesToStart(providers, s, i), exec, cancelled);
      }
    case StopOp(_) =>
    case DeleteOp(_, _) =>
  }

  /** A live workspace is running exactly since a creation that the provider served, with no stop after it; it is
      stopped exactly since a stop, with no creation after it. */
  lemma StatusStep(providers: set<string>, s: State, op: Op, id: string)
    requires id in Step(providers, s, op).live
    ensures var status := Step(providers, s, op).live[id].status;
      && (status == Running <==>
            (Creates(s, op, id) && ProviderServes(providers, op.cmd, op.env))
            || (!Creates(s, op, id) && !(op.StopOp? && op.id == id) && id in s.live && s.live[id].status == Running))
      && (status == Stopped <==>
            !Creates(s, op, id) && ((op.StopOp? && op.id == id) || (id in s.live && s.live[id].status == Stopped)))
  {
    if Creates(s, op, id) {
      var port :| LeastFreeSSH(s, port);
      CreateEffect(providers, s, op, id, port);
    } else {
      if id !in s.live { ArrivalExact(providers, s, op, id); }
      RecordStep(providers, s, op, id);
    }
  }

  lemma {:induction false} RunOneMore(providers: set<string>, s: State, ops: seq<Op>, op: Op)
    ensures Run(providers, s, ops + [op]) == Step(providers, Run(providers, s, ops), op)
    decreases |ops|
  {
    if ops == [] {
      assert ([] + [op])[1..] == [];
    } else {
      assert (ops + [op])[1..] == ops[1..] + [op];
      RunOneMore(providers, Step(providers, s, ops[0]), ops[1..], op);
    }
  }

  /** The k-th operation of the run creates id. */
  ghost predicate CreatesAt(providers: set<string>, ops: seq<Op>, k: int, id: string) {
    0 <= k < |ops| && Creates(Run(providers, INITIAL, ops[..k]), ops[k], id)
  }

  /** The k-th operation stops id, and no later one creates it. */
  ghost predicate StoppedSince(providers: set<string>, ops: seq<Op>, k: int, id: string) {
    && 0 <= k < |ops| && ops[k].StopOp? && ops[k].id == id
    && id in Run(providers, INITIAL, ops[..k]).live
    && forall j :: k < j < |ops| ==> !CreatesAt(providers, ops, j, id)
  }

  lemma PrefixOfPrefix(providers: set<string>, ops: seq<Op>, k: int, id: string)
    requires ops != [] && 0 <= k < |ops| - 1
    ensures ops[..|ops|-1][..k] == ops[..k]
    ensures CreatesAt(providers, ops[..|ops|-1], k, id) <==> CreatesAt(providers, ops, k, id)
  {
    assert ops[..|ops|-1][..k] == ops[..k];
  }

  lemma StoppedSinceStep(providers: set<string>, ops: seq<Op>, k: int, id: string)
    requires ops != []
    ensures var n := |ops| - 1;
      StoppedSince(providers, ops, k, id) <==>
      if k == n then ops[n].StopOp? && ops[n].id == id && id in Run(providers, INITIAL, ops[..n]).live
      else StoppedSince(providers, ops[..n], k, id) && !CreatesAt(providers, ops, n, id)
  {
    var n := |ops| - 1;
    if 0 <= k < n {
      PrefixOfPrefix(providers, ops, k, id);
      forall j | k < j < n ensures CreatesAt(providers, ops[..n], j, id) <==> CreatesAt(providers, ops, j, id) {
        PrefixOfPrefix(providers, ops, j, id);
      }
    }
  }

  /** In every run: a live workspace is stopped exactly when it was stopped while live and not created again since. */
  lemma {:induction false} StoppedInRuns(providers: set<string>, ops: seq<Op>, id: string)
    requires id in Run(providers, INITIAL, ops).live
    ensures Run(providers, INITIAL, ops).live[id].status == Stopped <==> exists k :: StoppedSince(providers, ops, k, id)
    decreases |ops|
  {
    if ops != [] {
      var n := |ops| - 1;
      var before, op := Run(providers, INITIAL, ops[..n]), ops[n];
      assert ops == ops[..n] + [op];
      RunOneMore(providers, INITIAL, ops[..n], op);
      StatusStep(providers, before, op, id);
      assert CreatesAt(providers, ops, n, id) <==> Creates(before, op, id);
      forall k
        ensures StoppedSince(providers, ops, k, id) <==>
          if k == n then op.StopOp? && op.id == id && id in before.live
          else StoppedSince(providers, ops[..n], k, id) && !CreatesAt(providers, ops, n, id)
      {
        StoppedSinceStep(providers, ops, k, id);
      }
      if id in before.live {
        StoppedInRuns(providers, ops[..n], id);
      } else {
        ArrivalExact(providers, before, op, id);
      }
      if op.StopOp? && op.id == id && id in before.live {
        assert StoppedSince(providers, ops, n, id);
      }
    }
  }

  // ----- Starting services -----

  /** One of the three attempts is made and succeeds. */
  predicate SucceedsInThree(exec: ExecOracle, cancelled: CancelOracle, name: string) {
    exec(name)(0).None?
    || (!cancelled(name)(1) && (exec(name)(1).None?
    || (!cancelled(name)(2) && exec(name)(2).None?)))
  }

  lemma LaunchesInThree(exec: ExecOracle, cancelled: CancelOracle, svc: ServiceDefinition)
    ensures Launches(exec, cancelled, svc) <==> SucceedsInThree(exec, cancelled, svc.name)
  {
    var e, c := exec(svc.name), cancelled(svc.name);
    if e(0).None? {
      assert Retry.Reached(e, c, 0);
    } else if !c(1) && e(1).None? {
      assert Retry.Reached(e, c, 1);
    } else if !c(1) && !c(2) && e(2).None? {
      assert Retry.Reached(e, c, 2);
    }
  }

  /** The ports are the least free service ports, in increasing order; fewer than wanted only if no others are free. */
  ghost predicate LeastServicePorts(s: State, wanted: nat, ports: seq<int>) {
    && |ports| <= wanted
    && (forall k :: 0 <= k < |ports| ==> 23000 <= ports[k] <= 30000 && ports[k] !in s.allocatedPorts)
    && (forall j, k :: 0 <= j < k < |ports| ==> ports[j] < ports[k])
    && (forall q, k :: 0 <= k < |ports| && 23000 <= q < ports[k] ==> q in s.allocatedPorts || q in ports)
    && (|ports| < wanted ==> forall q :: 23000 <= q <= 30000 ==> q in s.allocatedPorts || q in ports)
  }

  ghost predicate RecordedAs(w: Workspace, svc: ServiceDefinition, port: int, exec: ExecOracle, cancelled: CancelOracle) {
    && svc.name in w.services
    && w.services[svc.name].definition == svc && w.services[svc.name].mappedPort == port
    && (w.services[svc.name].status == ServiceRunning <==> SucceedsInThree(exec, cancelled, svc.name))
    && (w.services[svc.name].status == ServiceError <==> !SucceedsInThree(exec, cancelled, svc.name))
  }

  /** The first services get the ports, in their order; each is recorded as running or in error. */
  ghost predicate ServicesRecorded(w': Workspace, ordered: seq<ServiceDefinition>, ports: seq<int>,
                                   exec: ExecOracle, cancelled: CancelOracle) {
    && |ports| <= |ordered|
    && forall k :: 0 <= k < |ports| ==> RecordedAs(w', ordered[k], ports[k], exec, cancelled)
  }

  ghost predicate AmongFirst(ordered: seq<ServiceDefinition>, n: int, name: string) {
    exists k :: 0 <= k < n && k < |ordered| && ordered[k].name == name
  }

  /** The records of all names but those of the first n services are as before. */
  ghost predicate OthersKept(w: Workspace, w': Workspace, ordered: seq<ServiceDefinition>, n: int) {
    forall name :: !AmongFirst(ordered, n, name) ==>
      && (name in w'.services <==> name in w.services)
      && (name in w'.services && name in w.services ==> w'.services[name] == w.services[name])
  }

  /** Every service is reported, as running exactly if it got a port and an attempt succeeded. */
  ghost predicate ServicesReported(reports: map<string, bool>, ordered: seq<ServiceDefinition>, granted: nat,
                                   exec: ExecOracle, cancelled: CancelOracle) {
    && (forall name :: name in reports <==> name in ServiceNames(ordered))
    && forall k :: 0 <= k < |ordered| && ordered[k].name in reports ==>
         (reports[ordered[k].name] <==> k < granted && SucceedsInThree(exec, cancelled, ordered[k].name))
  }

  /** From s to s' the start loop went through ordered and granted the ports. */
  ghost predicate StartedWith(s: State, s': State, id: string, ordered: seq<ServiceDefinition>, ports: seq<int>,
                              exec: ExecOracle, cancelled: CancelOracle) {
    && id in s.live && id in s'.live
    && LeastServicePorts(s, |ordered|, ports) && s'.allocatedPorts == s.allocatedPorts + Elems(ports)
    && ServicesRecorded(s'.live[id], ordered, ports, exec, cancelled)
    && OthersKept(s.live[id], s'.live[id], ordered, |ports|)
  }

  lemma LeastPortFirst(s: State, s1: State, port: int, wanted: nat, rest: seq<int>)
    requires FreeService(s) == Some(port) && s1.allocatedPorts == s.allocatedPorts + {port}
    requires LeastServicePorts(s1, wanted, rest)
    ensures LeastServicePorts(s, wanted + 1, [port] + rest)
    ensures s1.allocatedPorts + Elems(rest) == s.allocatedPorts + Elems([port] + rest)
  {
    var ports := [port] + rest;
    assert forall q :: q in ports <==> q == port || q in rest;
  }

  lemma NamesOfRest(ordered: seq<ServiceDefinition>)
    requires ordered != [] && NoDup(ServiceNames(ordered))
    ensures NoDup(ServiceNames(ordered[1..])) && !AmongFirst(ordered[1..], |ordered| - 1, ordered[0].name)
    ensures ordered[0].name !in ServiceNames(ordered[1..])
    ensures forall name :: name in ServiceNames(ordered) <==> name == ordered[0].name || name in ServiceNames(ordered[1..])
  {
    var names := ServiceNames(ordered);
    assert names == [ordered[0].name] + ServiceNames(ordered[1..]);
    forall k | 0 <= k < |ordered| - 1 ensures ordered[1..][k].name != ordered[0].name {
      assert names[k+1] != names[0];
    }
  }

  lemma NotAmongFewer(ordered: seq<ServiceDefinition>, n: int, name: string)
    requires n <= |ordered| && !AmongFirst(ordered, |ordered|, name)
    ensures !AmongFirst(ordered, n, name)
  {}

  lemma AmongFirstStep(ordered: seq<ServiceDefinition>, n: int, name: string)
    requires ordered != [] && n >= 0
    ensures AmongFirst(ordered, n + 1, name) <==> name == ordered[0].name || AmongFirst(ordered[1..], n, name)
  {
    if k :| 0 <= k < n && k < |ordered| - 1 && ordered[1..][k].name == name {
      assert ordered[k+1].name == name;
    }
    if k :| 0 <= k < n + 1 && k < |ordered| && ordered[k].name == name {
      assert k > 0 ==> ordered[1..][k-1].name == name;
    }
  }

  lemma RecordedFirst(w1: Workspace, w': Workspace, ordered: seq<ServiceDefinition>, port: int, rest: seq<int>,
                      exec: ExecOracle, cancelled: CancelOracle)
    requires ordered != [] && !AmongFirst(ordered[1..], |rest|, ordered[0].name)
    requires RecordedAs(w1, ordered[0], port, exec, cancelled)
    requires ServicesRecorded(w', ordered[1..], rest, exec, cancelled) && OthersKept(w1, w', ordered[1..], |rest|)
    ensures ServicesRecorded(w', ordered, [port] + rest, exec, cancelled)
  {
    var ports := [port] + rest;
    forall k | 0 <= k < |ports| ensures RecordedAs(w', ordered[k], ports[k], exec, cancelled) {
      if k > 0 {
        assert RecordedAs(w', ordered[1..][k-1], rest[k-1], exec, cancelled);
      }
    }
  }

  lemma KeptFirst(w: Workspace, w1: Workspace, w': Workspace, ordered: seq<ServiceDefinition>, n: nat, m: ManagedService)
    requires ordered != [] && w1.services == w.services[ordered[0].name := m]
    requires OthersKept(w1, w', ordered[1..], n)
    ensures OthersKept(w, w', ordered, n + 1)
  {
    forall name | !AmongFirst(ordered, n + 1, name) ensures name != ordered[0].name && !AmongFirst(ordered[1..], n, name) {
      AmongFirstStep(ordered, n, name);
    }
  }

  lemma StartedFirst(s: State, s1: State, s': State, id: string, ordered: seq<ServiceDefinition>, port: int, more: seq<int>,
                     m: ManagedService, exec: ExecOracle, cancelled: CancelOracle)
    requires ordered != [] && NoDup(ServiceNames(ordered)) && id in s.live && id in s1.live
    requires FreeService(s) == Some(port) && s1.allocatedPorts == s.allocatedPorts + {port}
    requires s1.live[id].services == s.live[id].services[ordered[0].name := m]
    requires RecordedAs(s1.live[id], ordered[0], port, exec, cancelled)
    requires StartedWith(s1, s', id, ordered[1..], more, exec, cancelled)
    ensures StartedWith(s, s', id, ordered, [port] + more, exec, cancelled)
  {
    NamesOfRest(ordered);
    NotAmongFewer(ordered[1..], |more|, ordered[0].name);
    LeastPortFirst(s, s1, port, |ordered| - 1, more);
    RecordedFirst(s1.live[id], s'.live[id], ordered, port, more, exec, cancelled);
    KeptFirst(s.live[id], s1.live[id], s'.live[id], ordered, |more|, m);
  }

  lemma ReportedFirst(reports: map<string, bool>, ordered: seq<ServiceDefinition>, granted: nat,
                      exec: ExecOracle, cancelled: CancelOracle)
    requires ordered != [] && NoDup(ServiceNames(ordered))
    requires ServicesReported(reports, ordered[1..], granted, exec, cancelled)
    ensures ServicesReported(map[ordered[0].name := SucceedsInThree(exec, cancelled, ordered[0].name)] + reports,
                             ordered, granted + 1, exec, cancelled)
  {
    NamesOfRest(ordered);
    assert forall k :: 1 <= k < |ordered| ==> ordered[1..][k-1] == ordered[k];
  }

  /** Without a free service port the loop records nothing and reports an error for every service. */
  lemma {:induction false} NoPortEffect(s: State, id: string, ordered: seq<ServiceDefinition>,
                                        exec: ExecOracle, cancelled: CancelOracle)
    requires id in s.live && FreeService(s).None?
    ensures StartAll(s, id, ordered, exec, cancelled) == s
    ensures forall name :: name in Reports(s, id, ordered, exec, cancelled) <==> name in ServiceNames(ordered)
    ensures forall name :: name in Reports(s, id, ordered, exec, cancelled) ==>
      !Reports(s, id, ordered, exec, cancelled)[name]
    decreases |ordered|
  {
    if ordered != [] {
      NoPortEffect(s, id, ordered[1..], exec, cancelled);
      assert ServiceNames(ordered) == [ordered[0].name] + ServiceNames(ordered[1..]);
    }
  }

  lemma FirstGrant(s: State, id: string, svc: ServiceDefinition, exec: ExecOracle, cancelled: CancelOracle)
    returns (m: ManagedService)
    requires id in s.live && FreeService(s).Some?
    ensures var s1, port := StartOne(s, id, svc, exec, cancelled), FreeService(s).value;
      && s1.allocatedPorts == s.allocatedPorts + {port} && id in s1.live
      && s1.live[id].services == s.live[id].services[svc.name := m]
      && RecordedAs(s1.live[id], svc, port, exec, cancelled)
  {
    LaunchesInThree(exec, cancelled, svc);
    m := StartOne(s, id, svc, exec, cancelled).live[id].services[svc.name];
  }

  /** What the start loop does to the ports and to the record. */
  lemma {:induction false} StartAllEffect(s: State, id: string, ordered: seq<ServiceDefinition>,
                                          exec: ExecOracle, cancelled: CancelOracle)
    returns (ports: seq<int>)
    requires id in s.live && NoDup(ServiceNames(ordered))
    ensures StartedWith(s, StartAll(s, id, ordered, exec, cancelled), id, ordered, ports, exec, cancelled)
    ensures ServicesReported(Reports(s, id, ordered, exec, cancelled), ordered, |ports|, exec, cancelled)
    decreases |ordered|, 1
  {
    ports := [];
    if FreeService(s).None? {
      NoPortEffect(s, id, ordered, exec, cancelled);
      assert forall k :: 0 <= k < |ordered| ==> ServiceNames(ordered)[k] == ordered[k].name;
    } else if ordered != [] {
      ports := GrantEffect(s, id, ordered, exec, cancelled);
    }
  }

  lemma {:induction false} GrantEffect(s: State, id: string, ordered: seq<ServiceDefinition>,
                                       exec: ExecOracle, cancelled: CancelOracle)
    returns (ports: seq<int>)
    requires id in s.live && NoDup(ServiceNames(ordered)) && ordered != [] && FreeService(s).Some?
    ensures StartedWith(s, StartAll(s, id, ordered, exec, cancelled), id, ordered, ports, exec, cancelled)
    ensures ServicesReported(Reports(s, id, ordered, exec, cancelled), ordered, |ports|, exec, cancelled)
    decreases |ordered|, 0
  {
    var rest, port := ordered[1..], FreeService(s).value;
    var s1 := StartOne(s, id, ordered[0], exec, cancelled);
    var m := FirstGrant(s, id, ordered[0], exec, cancelled);
    LaunchesInThree(exec, cancelled, ordered[0]);
    NamesOfRest(ordered);
    var more := StartAllEffect(s1, id, rest, exec, cancelled);
    ports := [port] + more;
    StartedFirst(s, s1, StartAll(s1, id, rest, exec, cancelled), id, ordered, port, more, m, exec, cancelled);
    ReportedFirst(Reports(s1, id, rest, exec, cancelled), ordered, |more|, exec, cancelled);
  }

  /** The start loop runs for a live workspace with an available provider and no cycle among its services. */
  ghost predicate Starts(providers: set<string>, s: State, id: string) {
    && id in s.live && s.live[id].command.provider in providers
    && !Cyclic(ServiceGraph(s.live[id].command.services))
  }

  /** A start goes through the services in start order; every other start changes nothing. */
  lemma StartEffect(providers: set<string>, s: State, op: Op) returns (ordered: seq<ServiceDefinition>, ports: seq<int>)
    requires Safe(s) && op.StartOp?
    ensures !Starts(providers, s, op.id) ==> Step(providers, s, op) == s
    ensures Starts(providers, s, op.id) ==>
      && StartOrder(s.live[op.id].command.services) == Success(ordered)
      && StartedWith(s, Step(providers, s, op), op.id, ordered, ports, op.exec, op.cancelled)
      && ServicesReported(Reports(s, op.id, ordered, op.exec, op.cancelled), ordered, |ports|, op.exec, op.cancelled)
  {
    ordered, ports := [], [];
    if op.id in s.live {
      AcceptedStartOrder(s.live[op.id].command.services);
      if Starts(providers, s, op.id) {
        ordered := StartOrder(s.live[op.id].command.services).value;
        ports := StartAllEffect(s, op.id, ordered, op.exec, op.cancelled);
      }
    }
  }
}
