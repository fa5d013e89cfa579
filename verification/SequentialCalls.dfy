/**
 Calls that do not overlap: running the locked sections of one call after another takes the
 shared state to what the atomic operation of WorkspaceModel makes of it.
 */
module SequentialCalls {
  import opened Results
  import opened Text
  import opened ServiceOrder
  import opened WorkspaceModel
  import I = WorkspaceInterleavings

  function PortsByService(w: Workspace): map<string, int> {
    map name | name in w.services :: w.services[name].mappedPort
  }

  ghost predicate RecordMatches(s: I.Shared, m: State, id: string) {
    && id in s.table && id in m.live && s.table[id] < |s.records|
    && s.records[s.table[id]].sshPort == m.live[id].sshPort
    && s.records[s.table[id]].services == PortsByService(m.live[id])
  }

  /** The same ports are allocated, and the listed records are those of the live workspaces. */
  ghost predicate SamePorts(s: I.Shared, m: State) {
    && I.Linked(s) && s.allocatedPorts == m.allocatedPorts && s.table.Keys == m.live.Keys
    && forall id :: id in s.table ==> RecordMatches(s, m, id)
  }

  /** No call is in flight. */
  ghost predicate Matches(s: I.Shared, m: State) {
    s.calls == map[] && SamePorts(s, m)
  }

  lemma InitiallyMatches()
    ensures Matches(I.NOTHING, INITIAL)
  {}

  lemma RunOne(s: I.Shared, a: I.Action)
    ensures I.Run(s, [a]) == I.Step(s, a)
  {
    assert [a][1..] == [];
  }

  lemma RunTwo(s: I.Shared, a: I.Action, b: I.Action)
    ensures I.Run(s, [a, b]) == I.Step(I.Step(s, a), b)
  {
    assert [a, b][1..] == [b];
    RunOne(I.Step(s, a), b);
  }

  lemma RunThree(s: I.Shared, a: I.Action, b: I.Action, c: I.Action)
    ensures I.Run(s, [a, b, c]) == I.Step(I.Step(I.Step(s, a), b), c)
  {
    assert [a, b, c][1..] == [b, c];
    RunTwo(I.Step(s, a), b, c);
  }

  lemma TwoMore(s: I.Shared, a: I.Action, b: I.Action, rest: seq<I.Action>)
    ensures I.Run(s, [a, b] + rest) == I.Run(I.Step(I.Step(s, a), b), rest)
  {
    assert ([a, b] + rest)[1..] == [b] + rest && ([b] + rest)[1..] == rest;
  }

  lemma CreateAlone(providers: set<string>, s: I.Shared, m: State, cmd: Command, env: CreateEnv, t: nat)
    requires Matches(s, m) && ValidCommand(cmd)
    ensures Matches(I.Run(s, [I.BeginCreate(t, cmd.workspaceId), I.Advance(t)]), Create(providers, m, cmd, env))
  {
    var id := cmd.workspaceId;
    RunTwo(s, I.BeginCreate(t, id), I.Advance(t));
    if FreeSSH(m).Some? {
      I.CreationSteps(s, t, id, FreeSSH(m).value);
      var s', m' := I.Step(I.Step(s, I.BeginCreate(t, id)), I.Advance(t)), Create(providers, m, cmd, env);
      assert s'.records[s'.table[id]] == I.Record(id, FreeSSH(m).value, map[]);
      assert PortsByService(m'.live[id]) == map[];
      forall i | i in s'.table ensures RecordMatches(s', m', i) {
        assert i != id ==> RecordMatches(s, m, i);
      }
    }
  }

  lemma PortsOfRecord(s: I.Shared, m: State, id: string)
    requires RecordMatches(s, m, id)
    ensures I.RecordPorts(s.records[s.table[id]]) == PortsOf(m.live[id])
  {
    var r, w := s.records[s.table[id]], m.live[id];
    forall p ensures p in I.RecordPorts(r) <==> p in PortsOf(w) {
      if p in PortsOf(w) && p != w.sshPort {
        var name :| name in w.services && w.services[name].mappedPort == p;
        assert name in r.services && r.services[name] == p;
      }
      if p in I.RecordPorts(r) && p != r.sshPort {
        var name :| name in r.services && r.services[name] == p;
        assert name in w.services && w.services[name].mappedPort == p;
      }
    }
  }

  lemma DeleteAlone(providers: set<string>, s: I.Shared, m: State, id: string, t: nat)
    requires Matches(s, m) && id in m.live && m.live[id].command.provider in providers
    ensures Matches(I.Run(s, [I.BeginDelete(t, id), I.Advance(t), I.Advance(t)]), Delete(providers, m, id, true))
    ensures Matches(I.Run(s, [I.BeginDelete(t, id), I.Leave(t)]), Delete(providers, m, id, false))
  {
    var s1 := I.Step(s, I.BeginDelete(t, id));
    assert RecordMatches(s, m, id);
    PortsOfRecord(s, m, id);
    RunTwo(s, I.BeginDelete(t, id), I.Leave(t));
    RunThree(s, I.BeginDelete(t, id), I.Advance(t), I.Advance(t));
    assert s1.calls - {t} == map[];
    assert I.Step(s1, I.Leave(t)) == s;
    var s2 := I.Step(s1, I.Advance(t));
    var s3, m' := I.Step(s2, I.Advance(t)), Delete(providers, m, id, true);
    assert s3.calls == map[];
    I.LinkedStep(s, I.BeginDelete(t, id));
    I.LinkedStep(s1, I.Advance(t));
    I.LinkedStep(s2, I.Advance(t));
    forall i | i in s3.table ensures RecordMatches(s3, m', i) {
      assert RecordMatches(s, m, i);
    }
  }

  // ----- Starting services -----

  /** The turns of the start loop for the services in their order, then its end. */
  function StartTurns(t: nat, ordered: seq<ServiceDefinition>): seq<I.Action> {
    if ordered == [] then [I.Leave(t)]
    else [I.Grant(t, ordered[0].name), I.Advance(t)] + StartTurns(t, ordered[1..])
  }

  /** The start of id by thread t, alone, between two turns. */
  ghost predicate Starting(s: I.Shared, m: State, t: nat, id: string) {
    id in s.table && s.calls == map[t := I.StartPending(s.table[id])] && SamePorts(s, m)
  }

  /** A turn that gets a port marks it and records it. */
  lemma TurnSteps(s: I.Shared, t: nat, rec: nat, name: string, port: int)
    requires s.calls == map[t := I.StartPending(rec)] && rec < |s.records|
    requires FirstFree(s.allocatedPorts, SERVICE_START, SERVICE_END) == Some(port)
    ensures I.Step(I.Step(s, I.Grant(t, name)), I.Advance(t)) == s.(
      allocatedPorts := s.allocatedPorts + {port},
      records := s.records[rec := s.records[rec].(services := s.records[rec].services[name := port])])
  {
    assert s.calls[t := I.GrantPending(rec, name, port)][t := I.StartPending(rec)] == s.calls;
  }

  lemma ServiceAdded(w: Workspace, name: string, m: ManagedService)
    ensures PortsByService(w.(services := w.services[name := m])) == PortsByService(w)[name := m.mappedPort]
  {}

  lemma TurnMatches(s: I.Shared, m: State, id: string, svc: ServiceDefinition, port: int, ok: bool)
    requires SamePorts(s, m) && id in s.table
    ensures var rec := s.table[id];
      rec < |s.records| &&
      SamePorts(s.(allocatedPorts := s.allocatedPorts + {port},
                   records := s.records[rec := s.records[rec].(services := s.records[rec].services[svc.name := port])]),
                GrantService(m, id, svc, port, ok))
  {
    var rec, m' := s.table[id], GrantService(m, id, svc, port, ok);
    assert RecordMatches(s, m, id);
    var s' := s.(allocatedPorts := s.allocatedPorts + {port},
                 records := s.records[rec := s.records[rec].(services := s.records[rec].services[svc.name := port])]);
    ServiceAdded(m.live[id], svc.name, m'.live[id].services[svc.name]);
    forall i | i in s'.table ensures RecordMatches(s', m', i) {
      assert RecordMatches(s, m, i);
    }
  }

  lemma TurnAlone(s: I.Shared, m: State, t: nat, id: string, svc: ServiceDefinition,
                  exec: ExecOracle, cancelled: CancelOracle)
    requires Starting(s, m, t, id)
    ensures Starting(I.Step(I.Step(s, I.Grant(t, svc.name)), I.Advance(t)), StartOne(m, id, svc, exec, cancelled), t, id)
  {
    if FreeService(m).Some? {
      TurnMatches(s, m, id, svc, FreeService(m).value, Launches(exec, cancelled, svc));
      TurnSteps(s, t, s.table[id], svc.name, FreeService(m).value);
    }
  }

  lemma {:induction false} TurnsAlone(s: I.Shared, m: State, t: nat, id: string, ordered: seq<ServiceDefinition>,
                                      exec: ExecOracle, cancelled: CancelOracle)
    requires Starting(s, m, t, id)
    ensures id in m.live && Matches(I.Run(s, StartTurns(t, ordered)), StartAll(m, id, ordered, exec, cancelled))
    decreases |ordered|
  {
    var turns := StartTurns(t, ordered);
    if ordered == [] {
      assert turns[1..] == [];
      assert s.calls - {t} == map[];
      I.LinkedStep(s, I.Leave(t));
      var s' := I.Step(s, I.Leave(t));
      forall i | i in s'.table ensures RecordMatches(s', m, i) {
        assert RecordMatches(s, m, i);
      }
    } else {
      assert RecordMatches(s, m, id);
      TurnAlone(s, m, t, id, ordered[0], exec, cancelled);
      TwoMore(s, I.Grant(t, ordered[0].name), I.Advance(t), StartTurns(t, ordered[1..]));
      TurnsAlone(I.Step(I.Step(s, I.Grant(t, ordered[0].name)), I.Advance(t)), StartOne(m, id, ordered[0], exec, cancelled),
                 t, id, ordered[1..], exec, cancelled);
    }
  }

  lemma StartAlone(providers: set<string>, s: I.Shared, m: State, id: string, t: nat,
                   exec: ExecOracle, cancelled: CancelOracle)
    requires Matches(s, m) && id in m.live
    ensures Matches(I.Run(s, [I.BeginStart(t, id)] + StartTurns(t, ServicesToStart(providers, m, id))),
                    StartServices(providers, m, id, exec, cancelled))
  {
    var ordered := ServicesToStart(providers, m, id);
    var s1 := I.Step(s, I.BeginStart(t, id));
    assert RecordMatches(s, m, id);
    I.LinkedStep(s, I.BeginStart(t, id));
    forall i | i in s1.table ensures RecordMatches(s1, m, i) {
      assert RecordMatches(s, m, i);
    }
    TurnsAlone(s1, m, t, id, ordered, exec, cancelled);
    assert ([I.BeginStart(t, id)] + StartTurns(t, ordered))[1..] == StartTurns(t, ordered);
  }
}
