/**
 The workspace manager as a state machine over values: which ports are marked allocated
 and which workspaces are live. Each public operation is one atomic step; what providers,
 commands and cancellations do is a parameter of the step.
 */
module WorkspaceModel {
  import opened Results
  import opened Text
  import opened ServiceOrder
  import Retry

  const SSH_START := 2222
  const SSH_END := 2299
  const SERVICE_START := 23000
  const SERVICE_END := 30000

  const MAX_RETRIES := 3
  const BACKOFF := 1_000_000_000

  datatype ServiceStatus = ServiceStarting | ServiceRunning | ServiceError

  datatype ManagedService = ManagedService(definition: ServiceDefinition, mappedPort: int, status: ServiceStatus)

  datatype WorkspaceStatus = Creating | Running | Stopped | Error

  /** otherFields says that the remaining required fields of the create command are present. */
  datatype Command = Command(workspaceId: string, provider: string, services: seq<ServiceDefinition>, otherFields: bool)

  datatype Workspace = Workspace(
    command: Command,
    containerId: string,
    status: WorkspaceStatus,
    services: map<string, ManagedService>,
    sshPort: int)

  datatype State = State(allocatedPorts: set<int>, live: map<string, Workspace>)

  const INITIAL := State({}, map[])

  // ----- Ports -----

  /** The least port from lo to hi that is not allocated. */
  function FirstFree(allocatedPorts: set<int>, lo: int, hi: int): (r: Option<int>)
    ensures r.Some? ==> lo <= r.value <= hi && r.value !in allocatedPorts
    ensures r.Some? ==> forall q :: lo <= q < r.value ==> q in allocatedPorts
    ensures r.None? <==> forall q :: lo <= q <= hi ==> q in allocatedPorts
    decreases hi - lo
  {
    if lo > hi then None
    else if lo !in allocatedPorts then Some(lo)
    else FirstFree(allocatedPorts, lo + 1, hi)
  }

  predicate Within(port: int, lo: int, hi: int) {
    lo <= port <= hi
  }

  function PortRange(lo: int, hi: int): set<int> {
    set port | lo <= port <= hi && Within(port, lo, hi)
  }

  lemma {:induction false} PortRangeSize(lo: int, hi: int)
    requires lo <= hi + 1
    ensures |PortRange(lo, hi)| == hi - lo + 1
    decreases hi - lo
  {
    if lo <= hi {
      PortRangeSize(lo + 1, hi);
      assert forall p :: Within(p, lo, hi) <==> p == lo || Within(p, lo + 1, hi);
      assert PortRange(lo, hi) == PortRange(lo + 1, hi) + {lo};
    }
  }

  function FreeSSH(s: State): Option<int> {
    FirstFree(s.allocatedPorts, SSH_START, SSH_END)
  }

  function FreeService(s: State): Option<int> {
    FirstFree(s.allocatedPorts, SERVICE_START, SERVICE_END)
  }

  // ----- Operations -----

  /** What the provider does while a workspace is created: the new session's id, starting it, setting up SSH. */
  datatype CreateEnv = CreateEnv(session: Option<string>, startOk: bool, sshOk: bool)

  ghost predicate ValidCommand(cmd: Command) {
    cmd.workspaceId != "" && cmd.provider != "" && cmd.otherFields && Accepted(cmd.services)
  }

  function CreatedStatus(providers: set<string>, cmd: Command, env: CreateEnv): WorkspaceStatus {
    if cmd.provider in providers && env.session.Some? && env.startOk && env.sshOk then Running else Error
  }

  function CreatedContainer(providers: set<string>, cmd: Command, env: CreateEnv): string {
    if cmd.provider in providers && env.session.Some? then env.session.value else ""
  }

  /** The record that a creation leaves, whatever the provider did. */
  function CreatedWorkspace(providers: set<string>, cmd: Command, env: CreateEnv, sshPort: int): Workspace {
    Workspace(cmd, CreatedContainer(providers, cmd, env), CreatedStatus(providers, cmd, env), map[], sshPort)
  }

  ghost function Create(providers: set<string>, s: State, cmd: Command, env: CreateEnv): State {
    if !ValidCommand(cmd) || FreeSSH(s).None? then s
    else
      var port := FreeSSH(s).value;
      State(s.allocatedPorts + {port}, s.live[cmd.workspaceId := CreatedWorkspace(providers, cmd, env, port)])
  }

  /** For every service, the errors of its start attempts and the waits that are cancelled. */
  type ExecOracle = string -> nat -> Option<string>
  type CancelOracle = string -> nat -> bool

  ghost predicate Launches(exec: ExecOracle, cancelled: CancelOracle, svc: ServiceDefinition) {
    Retry.Succeeds(exec(svc.name), cancelled(svc.name), MAX_RETRIES)
  }

  /** One turn of the start loop for a service that gets a port. */
  function GrantService(s: State, id: string, svc: ServiceDefinition, port: int, ok: bool): State
    requires id in s.live
  {
    var w := s.live[id];
    var m := ManagedService(svc, port, if ok then ServiceRunning else ServiceError);
    State(s.allocatedPorts + {port}, s.live[id := w.(services := w.services[svc.name := m])])
  }

  ghost function StartOne(s: State, id: string, svc: ServiceDefinition, exec: ExecOracle, cancelled: CancelOracle): State
    requires id in s.live
  {
    if FreeService(s).None? then s
    else GrantService(s, id, svc, FreeService(s).value, Launches(exec, cancelled, svc))
  }

  ghost function StartAll(s: State, id: string, ordered: seq<ServiceDefinition>,
                          exec: ExecOracle, cancelled: CancelOracle): (s': State)
    requires id in s.live
    ensures s'.live.Keys == s.live.Keys
    ensures forall i :: i in s.live ==> s'.live[i].command == s.live[i].command && s'.live[i].sshPort == s.live[i].sshPort
    decreases |ordered|
  {
    if ordered == [] then s
    else StartAll(StartOne(s, id, ordered[0], exec, cancelled), id, ordered[1..], exec, cancelled)
  }

  /** The services that StartServices goes through: none on one of its early error returns. */
  function ServicesToStart(providers: set<string>, s: State, id: string): seq<ServiceDefinition> {
    if id !in s.live || s.live[id].command.provider !in providers then []
    else
      match StartOrder(s.live[id].command.services)
      case Failure(_) => []
      case Success(ordered) => ordered
  }

  ghost function StartServices(providers: set<string>, s: State, id: string,
                               exec: ExecOracle, cancelled: CancelOracle): State {
    if id !in s.live then s else StartAll(s, id, ServicesToStart(providers, s, id), exec, cancelled)
  }

  /** The status reported for each service: running, or an error when it got no port or did not start. */
  ghost function Reports(s: State, id: string, ordered: seq<ServiceDefinition>,
                         exec: ExecOracle, cancelled: CancelOracle): map<string, bool>
    requires id in s.live
    decreases |ordered|
  {
    if ordered == [] then map[]
    else
      map[ordered[0].name := FreeService(s).Some? && Launches(exec, cancelled, ordered[0])]
      + Reports(StartOne(s, id, ordered[0], exec, cancelled), id, ordered[1..], exec, cancelled)
  }

  function Stop(s: State, id: string): State {
    if id !in s.live then s else s.(live := s.live[id := s.live[id].(status := Stopped)])
  }

  function PortsOf(w: Workspace): set<int> {
    {w.sshPort} + set name | name in w.services :: w.services[name].mappedPort
  }

  function Delete(providers: set<string>, s: State, id: string, destroyOk: bool): State {
    if id !in s.live || s.live[id].command.provider !in providers || !destroyOk then s
    else State(s.allocatedPorts - PortsOf(s.live[id]), s.live - {id})
  }

  datatype Op =
    | CreateOp(cmd: Command, env: CreateEnv)
    | StartOp(id: string, exec: ExecOracle, cancelled: CancelOracle)
    | StopOp(id: string)
    | DeleteOp(id: string, destroyOk: bool)

  ghost function Step(providers: set<string>, s: State, op: Op): State {
    match op
    case CreateOp(cmd, env) => Create(providers, s, cmd, env)
    case StartOp(id, exec, cancelled) => StartServices(providers, s, id, exec, cancelled)
    case StopOp(id) => Stop(s, id)
    case DeleteOp(id, destroyOk) => Delete(providers, s, id, destroyOk)
  }

  ghost function Run(providers: set<string>, s: State, ops: seq<Op>): State
    decreases |ops|
  {
    if ops == [] then s else Run(providers, Step(providers, s, ops[0]), ops[1..])
  }
}
