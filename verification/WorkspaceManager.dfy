/**
 The workspace manager's classes: a port allocator, workspace records on the heap, and
 the public operations. Each operation is proved to make the step of WorkspaceModel.
 Calls into a provider and cancellations are parameters; clock readings are left out.
 A Go map from K to bool is the set of the keys it maps to true.
 */
module WorkspaceManager {
  import opened Maps
  import opened Results
  import opened ServiceOrder
  import opened WorkspaceModel
  import opened WorkspaceSteps
  import Retry

  class PortAllocationRange {
    const sshStart: int
    const sshEnd: int
    const serviceStart: int
    const serviceEnd: int
    var allocatedPorts: set<int>

    constructor (sshStart: int, sshEnd: int, serviceStart: int, serviceEnd: int)
      ensures this.sshStart == sshStart && this.sshEnd == sshEnd
      ensures this.serviceStart == serviceStart && this.serviceEnd == serviceEnd
      ensures allocatedPorts == {}
    {
      this.sshStart, this.sshEnd := sshStart, sshEnd;
      this.serviceStart, this.serviceEnd := serviceStart, serviceEnd;
      allocatedPorts := {};
    }

    /** The least free port of the range is taken; the set changes only on success. */
    method AllocateSSHPort() returns (r: Option<int>)
      modifies this
      ensures r == FirstFree(old(allocatedPorts), sshStart, sshEnd)
      ensures allocatedPorts == old(allocatedPorts) + if r.Some? then {r.value} else {}
    {
      r := AllocateFrom(sshStart, sshEnd);
    }

    method AllocateServicePort() returns (r: Option<int>)
      modifies this
      ensures r == FirstFree(old(allocatedPorts), serviceStart, serviceEnd)
      ensures allocatedPorts == old(allocatedPorts) + if r.Some? then {r.value} else {}
    {
      r := AllocateFrom(serviceStart, serviceEnd);
    }

    /** The loop that both allocations run. */
    method AllocateFrom(lo: int, hi: int) returns (r: Option<int>)
      modifies this
      ensures r == FirstFree(old(allocatedPorts), lo, hi)
      ensures allocatedPorts == old(allocatedPorts) + if r.Some? then {r.value} else {}
    {
      var port := lo;
      while port <= hi
        invariant FirstFree(allocatedPorts, lo, hi) == FirstFree(allocatedPorts, port, hi)
        invariant allocatedPorts == old(allocatedPorts)
        decreases hi - port
      {
        if port !in allocatedPorts {
          allocatedPorts := allocatedPorts + {port};
          return Some(port);
        }
        port := port + 1;
      }
      r := None;
    }

    method ReleasePort(port: int)
      modifies this
      ensures allocatedPorts == old(allocatedPorts) - {port}
    {
      allocatedPorts := allocatedPorts - {port};
    }
  }

  class ManagedWorkspace {
    const command: Command
    const sshPort: int
    var containerId: string
    var status: WorkspaceStatus
    var services: map<string, ManagedService>

    constructor (command: Command, sshPort: int)
      ensures View() == Workspace(command, "", Creating, map[], sshPort)
    {
      this.command, this.sshPort := command, sshPort;
      containerId, status, services := "", Creating, map[];
    }

    function View(): Workspace
      reads this
    {
      Workspace(command, containerId, status, services, sshPort)
    }
  }

  datatype CreateReply = Rejected | NoSSHPort | Created(status: WorkspaceStatus, containerId: string, sshPort: int)

  ghost function CreateAnswer(providers: set<string>, s: State, cmd: Command, env: CreateEnv): CreateReply {
    if !ValidCommand(cmd) then Rejected
    else if FreeSSH(s).None? then NoSSHPort
    else if CreatedStatus(providers, cmd, env) == Running then Created(Running, env.session.value, FreeSSH(s).value)
    else Created(Error, "", 0)
  }

  /** What the caller of a creation is told, and what the record says. */
  lemma CreateAnswered(providers: set<string>, s: State, cmd: Command, env: CreateEnv)
    ensures var s', r, op := Create(providers, s, cmd, env), CreateAnswer(providers, s, cmd, env), CreateOp(cmd, env);
      var id := cmd.workspaceId;
      && (r.Created? <==> Creates(s, op, id))
      && (r.NoSSHPort? <==>
            id != "" && cmd.provider != "" && cmd.otherFields && Accepted(cmd.services)
            && forall port :: 2222 <= port <= 2299 ==> port in s.allocatedPorts)
      && (!r.Created? ==> s' == s)
      && (r.Created? ==> id in s'.live && (r.status == Running <==> ProviderServes(providers, cmd, env)))
      && (r.Created? && r.status == Running ==>
            && s'.live[id].status == Running && r.sshPort == s'.live[id].sshPort
            && r.containerId == s'.live[id].containerId == env.session.value)
      && (r.Created? && r.status != Running ==>
            && r == Created(Error, "", 0) && s'.live[id].status == Error
            && s'.live[id].sshPort in s'.allocatedPorts - s.allocatedPorts)
  {
    var op := CreateOp(cmd, env);
    if Creates(s, op, cmd.workspaceId) {
      var port :| LeastFreeSSH(s, port);
      CreateEffect(providers, s, op, cmd.workspaceId, port);
      assert FreeSSH(s) == Some(port);
    } else {
      OtherCreatesDoNothing(providers, s, op);
      if FreeSSH(s).Some? {
        assert LeastFreeSSH(s, FreeSSH(s).value);
      }
    }
  }

  datatype StartReply =
    | UnknownWorkspace
    | NoProvider
    | CircularDependency(name: string)
    | ServicesStarted(reports: map<string, bool>)

  datatype Reply = Done | NotFound | ProviderUnavailable | ProviderFailed

  /** One turn of the start loop unfolds one service of the model's recursion. */
  lemma StartAllTurn(s: State, id: string, ordered: seq<ServiceDefinition>, k: nat,
                     exec: ExecOracle, cancelled: CancelOracle, reports: map<string, bool>)
    requires id in s.live && k < |ordered|
    ensures var svc, next := ordered[k], StartOne(s, id, ordered[k], exec, cancelled);
      && StartAll(s, id, ordered[k..], exec, cancelled) == StartAll(next, id, ordered[k+1..], exec, cancelled)
      && reports + Reports(s, id, ordered[k..], exec, cancelled)
         == reports[svc.name := FreeService(s).Some? && Launches(exec, cancelled, svc)]
            + Reports(next, id, ordered[k+1..], exec, cancelled)
  {
    var svc, next := ordered[k], StartOne(s, id, ordered[k], exec, cancelled);
    assert ordered[k..][0] == svc && ordered[k..][1..] == ordered[k+1..];
    MergeShift(reports, svc.name, FreeService(s).Some? && Launches(exec, cancelled, svc),
               Reports(next, id, ordered[k+1..], exec, cancelled));
  }

  class WorkspaceManager {
    const providers: set<string>
    const portRange: PortAllocationRange
    var workspaces: map<string, ManagedWorkspace>

    /** No two ids share a record, and the allocator has the manager's ranges. */
    ghost predicate Valid()
      reads this
    {
      && (forall a, b :: a in workspaces && b in workspaces && a != b ==> workspaces[a] != workspaces[b])
      && portRange.sshStart == SSH_START && portRange.sshEnd == SSH_END
      && portRange.serviceStart == SERVICE_START && portRange.serviceEnd == SERVICE_END
    }

    ghost function Live(): map<string, Workspace>
      reads this, workspaces.Values
    {
      map id | id in workspaces :: workspaces[id].View()
    }

    /** When only the record of id may have changed, the view is the old one updated at id. */
    lemma OnlyOneChanged(before: map<string, Workspace>, id: string)
      requires id in workspaces && before.Keys == workspaces.Keys
      requires forall i :: i in workspaces && i != id ==> workspaces[i].View() == before[i]
      ensures Live() == before[id := workspaces[id].View()]
    {}

    ghost function View(): State
      reads this, portRange, workspaces.Values
    {
      State(portRange.allocatedPorts, Live())
    }

    constructor (providers: set<string>)
      ensures Valid() && View() == INITIAL && this.providers == providers && fresh(portRange)
    {
      this.providers := providers;
      portRange := new PortAllocationRange(SSH_START, SSH_END, SERVICE_START, SERVICE_END);
      workspaces := map[];
    }

    method CreateWorkspace(cmd: Command, env: CreateEnv) returns (reply: CreateReply)
      requires Valid()
      modifies this, portRange
      ensures Valid() && View() == Create(providers, old(View()), cmd, env)
      ensures reply == CreateAnswer(providers, old(View()), cmd, env)
      ensures reply.Created? ==> (reply.status == Running <==> ProviderServes(providers, cmd, env))
    {
      CreateAnswered(providers, View(), cmd, env);
      var fault := ValidateServices(cmd.services);
      if cmd.workspaceId == "" || cmd.provider == "" || !cmd.otherFields || fault.Some? {
        return Rejected;
      }
      var sshPort := portRange.AllocateSSHPort();
      if sshPort.None? {
        return NoSSHPort;
      }
      reply := AddWorkspace(cmd, env, sshPort.value);
    }

    /** The creation from the allocated port on: a new record, and the provider calls. */
    method AddWorkspace(cmd: Command, env: CreateEnv, sshPort: int) returns (reply: CreateReply)
      requires Valid()
      modifies this`workspaces
      ensures Valid() && Live() == old(Live())[cmd.workspaceId := CreatedWorkspace(providers, cmd, env, sshPort)]
      ensures reply ==
        if CreatedStatus(providers, cmd, env) == Running
        then Created(Running, env.session.value, sshPort) else Created(Error, "", 0)
    {
      ghost var live := Live();
      var workspace := new ManagedWorkspace(cmd, sshPort);
      InsertWorkspace(cmd.workspaceId, workspace);
      ghost var inserted := Live();
      reply := ProvisionWorkspace(workspace, cmd, env);
      OnlyOneChanged(inserted, cmd.workspaceId);
      UpdateTwice(live, cmd.workspaceId, Workspace(cmd, "", Creating, map[], sshPort), workspace.View());
    }

    method InsertWorkspace(id: string, workspace: ManagedWorkspace)
      requires Valid() && workspace !in workspaces.Values
      modifies this`workspaces
      ensures Valid() && workspaces == old(workspaces)[id := workspace]
      ensures Live() == old(Live())[id := workspace.View()]
    {
      workspaces := workspaces[id := workspace];
    }

    /** The provider calls of a creation, and the status they leave in the record. */
    method ProvisionWorkspace(workspace: ManagedWorkspace, cmd: Command, env: CreateEnv) returns (reply: CreateReply)
      requires workspace.command == cmd && workspace.containerId == ""
      modifies workspace
      ensures workspace.View() == old(workspace.View()).(
        status := CreatedStatus(providers, cmd, env), containerId := CreatedContainer(providers, cmd, env))
      ensures reply ==
        if CreatedStatus(providers, cmd, env) == Running
        then Created(Running, env.session.value, workspace.sshPort) else Created(Error, "", 0)
    {
      if cmd.provider !in providers {
        workspace.status := Error;
        return Created(Error, "", 0);
      }
      if env.session.None? {
        workspace.status := Error;
        return Created(Error, "", 0);
      }
      workspace.containerId := env.session.value;
      if !env.startOk {
        workspace.status := Error;
        return Created(Error, "", 0);
      }
      if !env.sshOk {
        workspace.status := Error;
        return Created(Error, "", 0);
      }
      workspace.status := Running;
      reply := Created(Running, workspace.containerId, workspace.sshPort);
    }

    method StartServices(id: string, exec: ExecOracle, cancelled: CancelOracle) returns (reply: StartReply)
      requires Valid()
      modifies portRange, workspaces.Values
      ensures Valid() && View() == WorkspaceModel.StartServices(providers, old(View()), id, exec, cancelled)
      ensures reply ==
        if id !in workspaces then UnknownWorkspace
        else if workspaces[id].command.provider !in providers then NoProvider
        else match StartOrder(workspaces[id].command.services)
             case Failure(name) => CircularDependency(name)
             case Success(ordered) => ServicesStarted(Reports(old(View()), id, ordered, exec, cancelled))
    {
      if id !in workspaces {
        return UnknownWorkspace;
      }
      var workspace := workspaces[id];
      if workspace.command.provider !in providers {
        return NoProvider;
      }
      var order := ResolveServiceDependencies(workspace.command.services);
      if order.Failure? {
        return CircularDependency(order.error);
      }
      ghost var before := View();
      var reports := StartInOrder(workspace, order.value, exec, cancelled, before, id);
      OnlyOneChanged(before.live, id);
      reply := ServicesStarted(reports);
    }

    /** The start loop; s is the manager's state when it begins. */
    method StartInOrder(workspace: ManagedWorkspace, ordered: seq<ServiceDefinition>, exec: ExecOracle,
                        cancelled: CancelOracle, ghost s: State, ghost id: string)
      returns (reports: map<string, bool>)
      requires Valid() && id in s.live && s.live[id] == workspace.View() && s.allocatedPorts == portRange.allocatedPorts
      modifies portRange, workspace
      ensures StartAll(s, id, ordered, exec, cancelled) == Changed(s, id, workspace)
      ensures reports == Reports(s, id, ordered, exec, cancelled)
    {
      reports := map[];
      ghost var now := s;
      for k := 0 to |ordered|
        invariant now == Changed(s, id, workspace)
        invariant StartAll(s, id, ordered, exec, cancelled) == StartAll(now, id, ordered[k..], exec, cancelled)
        invariant Reports(s, id, ordered, exec, cancelled) == reports + Reports(now, id, ordered[k..], exec, cancelled)
      {
        var svc := ordered[k];
        ghost var next := StartOne(now, id, svc, exec, cancelled);
        StartAllTurn(now, id, ordered, k, exec, cancelled, reports);
        var running, _, _ := StartService(workspace, svc, exec, cancelled, s, id);
        reports := reports[svc.name := running];
        now := next;
      }
    }

    /** s with the present ports and the present contents of one workspace. */
    ghost function Changed(s: State, id: string, workspace: ManagedWorkspace): (s': State)
      reads portRange, workspace
      ensures id in s'.live
    {
      State(portRange.allocatedPorts, s.live[id := workspace.View()])
    }

    /** One turn of the start loop: a port, a record, and the attempts to start the service. */
    method StartService(workspace: ManagedWorkspace, svc: ServiceDefinition, exec: ExecOracle,
                        cancelled: CancelOracle, ghost s: State, ghost id: string)
      returns (running: bool, attempts: nat, slept: nat)
      requires Valid()
      modifies portRange, workspace
      ensures Changed(s, id, workspace) == StartOne(old(Changed(s, id, workspace)), id, svc, exec, cancelled)
      ensures running <==> FreeService(old(Changed(s, id, workspace))).Some? && Launches(exec, cancelled, svc)
      ensures attempts <= 3
      ensures slept == if attempts <= 1 then 0 else if attempts == 2 then 1_000_000_000 else 3_000_000_000
    {
      ghost var before := Changed(s, id, workspace);
      var mappedPort := portRange.AllocateServicePort();
      if mappedPort.None? {
        return false, 0, 0;
      }
      var record := ManagedService(svc, mappedPort.value, ServiceStarting);
      workspace.services := workspace.services[svc.name := record];
      var outcome;
      outcome, attempts, slept := Retry.StartServiceWithRetry(MAX_RETRIES, BACKOFF, exec(svc.name), cancelled(svc.name));
      Retry.WaitsOfOneSecond(attempts);
      running := outcome.Started?;
      record := record.(status := if running then ServiceRunning else ServiceError);
      ghost var services := before.live[id].services;
      assert workspace.services[svc.name := record] == services[svc.name := record];
      workspace.services := workspace.services[svc.name := record];
      UpdateTwice(s.live, id, before.live[id], workspace.View());
    }

    method StopWorkspace(id: string, stopOk: bool) returns (reply: Reply)
      requires Valid()
      modifies workspaces.Values
      ensures Valid() && View() == Stop(old(View()), id)
      ensures reply ==
        if id !in workspaces then NotFound
        else if workspaces[id].command.provider !in providers then ProviderUnavailable
        else if !stopOk then ProviderFailed else Done
    {
      if id !in workspaces {
        return NotFound;
      }
      ghost var live := Live();
      var workspace := workspaces[id];
      workspace.status := Stopped;
      OnlyOneChanged(live, id);
      if workspace.command.provider !in providers {
        return ProviderUnavailable;
      }
      if !stopOk {
        return ProviderFailed;
      }
      reply := Done;
    }

    method DeleteWorkspace(id: string, destroyOk: bool) returns (reply: Reply)
      requires Valid()
      modifies this, portRange
      ensures Valid() && View() == Delete(providers, old(View()), id, destroyOk)
      ensures reply != Done ==> View() == old(View())
      ensures reply ==
        if id !in old(workspaces) then NotFound
        else if old(workspaces)[id].command.provider !in providers then ProviderUnavailable
        else if !destroyOk then ProviderFailed else Done
    {
      if id !in workspaces {
        return NotFound;
      }
      var workspace := workspaces[id];
      if workspace.command.provider !in providers {
        return ProviderUnavailable;
      }
      if !destroyOk {
        return ProviderFailed;
      }
      ghost var live := Live();
      ReleasePorts(workspace);
      workspaces := workspaces - {id};
      assert Live() == live - {id};
      reply := Done;
    }

    /** Give back the SSH port and the services' ports, in whatever order the map is iterated. */
    method ReleasePorts(workspace: ManagedWorkspace)
      modifies portRange
      ensures portRange.allocatedPorts == old(portRange.allocatedPorts) - PortsOf(workspace.View())
    {
      ghost var ports := portRange.allocatedPorts;
      var services := workspace.services;
      portRange.ReleasePort(workspace.sshPort);
      var rest := services.Keys;
      while rest != {}
        invariant rest <= services.Keys
        invariant portRange.allocatedPorts == ports - {workspace.sshPort}
          - (set name | name in services.Keys - rest :: services[name].mappedPort)
      {
        var name :| name in rest;
        rest := rest - {name};
        portRange.ReleasePort(services[name].mappedPort);
      }
    }
  }
}
