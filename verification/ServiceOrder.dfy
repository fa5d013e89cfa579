/**
 Service lists of a workspace: the validation of a create command's services, and
 the order in which the workspace manager starts them.
 */
module ServiceOrder {
  import opened Results
  import opened Text
  import opened Graph
  import opened DepthFirst
  import opened WalkOrder

  datatype ServiceDefinition = ServiceDefinition(name: string, command: string, port: int, dependsOn: seq<string>)

  /** The Go zero value, which reading a missing key of the service map gives. */
  const NO_SERVICE := ServiceDefinition("", "", 0, [])

  // ----- Validation -----

  datatype ServiceFault =
    | NameRequired
    | DuplicateName(name: string)
    | CommandRequired(name: string)
    | PortRequired(name: string)
    | UndefinedDependency(name: string, dep: string)

  ghost predicate Defines(services: seq<ServiceDefinition>, name: string) {
    exists i :: 0 <= i < |services| && services[i].name == name
  }

  ghost predicate Duplicate(services: seq<ServiceDefinition>, i: nat) {
    i < |services| && Defines(services[..i], services[i].name)
  }

  /** The i-th service passes every check. */
  ghost predicate ServiceOk(services: seq<ServiceDefinition>, i: nat) {
    && i < |services|
    && services[i].name != "" && !Duplicate(services, i)
    && services[i].command != "" && services[i].port != 0
    && forall d :: d in services[i].dependsOn ==> Defines(services, d)
  }

  ghost predicate Accepted(services: seq<ServiceDefinition>) {
    forall i :: 0 <= i < |services| ==> ServiceOk(services, i)
  }

  /** fault is the first failing check of the i-th service, which is the first failing service. */
  ghost predicate FirstFault(services: seq<ServiceDefinition>, i: nat, fault: ServiceFault) {
    && i < |services|
    && (forall j :: 0 <= j < i ==> ServiceOk(services, j))
    && var s := services[i];
       match fault
       case NameRequired => s.name == ""
       case DuplicateName(n) => n == s.name != "" && Duplicate(services, i)
       case CommandRequired(n) => n == s.name != "" && !Duplicate(services, i) && s.command == ""
       case PortRequired(n) => n == s.name != "" && !Duplicate(services, i) && s.command != "" && s.port == 0
       case UndefinedDependency(n, d) =>
         && n == s.name != "" && !Duplicate(services, i) && s.command != "" && s.port != 0
         && exists k :: 0 <= k < |s.dependsOn| && s.dependsOn[k] == d && !Defines(services, d)
              && forall m :: 0 <= m < k ==> Defines(services, s.dependsOn[m])
  }

  method ValidateServices(services: seq<ServiceDefinition>) returns (fault: Option<ServiceFault>)
    ensures fault.None? <==> Accepted(services)
    ensures fault.Some? ==> exists i: nat :: FirstFault(services, i, fault.value)
  {
    var seenNames: set<string> := {};
    for i := 0 to |services|
      invariant forall j :: 0 <= j < i ==> ServiceOk(services, j)
      invariant forall n :: n in seenNames <==> Defines(services[..i], n)
    {
      fault := ValidateService(services, i, seenNames);
      if fault.Some? {
        assert !ServiceOk(services, i);
        return;
      }
      seenNames := seenNames + {services[i].name};
      DefinesOneMore(services, i);
    }
    fault := None;
  }

  /** What validation accepts, service by service. */
  lemma AcceptedExactly(services: seq<ServiceDefinition>)
    ensures Accepted(services) <==> AllGiven(services) && AllDistinct(services) && AllDefined(services)
  {
    if Accepted(services) {
      forall s | s in services ensures s.name != "" && s.command != "" && s.port != 0 {
        var i :| 0 <= i < |services| && services[i] == s;
        assert ServiceOk(services, i);
      }
      forall i, j | 0 <= i < j < |services| ensures services[i].name != services[j].name {
        assert ServiceOk(services, j);
        assert services[..j][i].name == services[i].name;
      }
      forall s, d | s in services && d in s.dependsOn ensures exists t :: t in services && t.name == d {
        var i :| 0 <= i < |services| && services[i] == s;
        assert ServiceOk(services, i);
        var j :| 0 <= j < |services| && services[j].name == d;
        assert services[j] in services;
      }
    }
    if AllGiven(services) && AllDistinct(services) && AllDefined(services) {
      forall i: nat | i < |services| ensures ServiceOk(services, i) {
        assert services[i] in services;
        forall d | d in services[i].dependsOn ensures Defines(services, d) {
          var t :| t in services && t.name == d;
          var j :| 0 <= j < |services| && services[j] == t;
        }
      }
    }
  }

  predicate AllGiven(services: seq<ServiceDefinition>) {
    forall s :: s in services ==> s.name != "" && s.command != "" && s.port != 0
  }

  predicate AllDistinct(services: seq<ServiceDefinition>) {
    forall i, j :: 0 <= i < j < |services| ==> services[i].name != services[j].name
  }

  predicate AllDefined(services: seq<ServiceDefinition>) {
    forall s, d :: s in services && d in s.dependsOn ==> exists t :: t in services && t.name == d
  }

  /** Only one fault is the first one. */
  lemma FaultUnique(services: seq<ServiceDefinition>, i: nat, fault: ServiceFault, j: nat, fault': ServiceFault)
    requires FirstFault(services, i, fault) && FirstFault(services, j, fault')
    ensures i == j && fault == fault'
  {
    assert !ServiceOk(services, i) && !ServiceOk(services, j);
  }

  lemma DefinesOneMore(services: seq<ServiceDefinition>, i: nat)
    requires i < |services|
    ensures forall n :: Defines(services[..i+1], n) <==> Defines(services[..i], n) || n == services[i].name
  {}

  /** The body of the validation loop for the i-th service; seenNames are the names before it. */
  method ValidateService(services: seq<ServiceDefinition>, i: nat, seenNames: set<string>)
    returns (fault: Option<ServiceFault>)
    requires i < |services| && forall j :: 0 <= j < i ==> ServiceOk(services, j)
    requires forall n :: n in seenNames <==> Defines(services[..i], n)
    ensures fault.None? <==> ServiceOk(services, i)
    ensures fault.Some? ==> FirstFault(services, i, fault.value)
  {
    var svc := services[i];
    if svc.name == "" {
      return Some(NameRequired);
    }
    if svc.name in seenNames {
      return Some(DuplicateName(svc.name));
    }
    if svc.command == "" {
      return Some(CommandRequired(svc.name));
    }
    if svc.port == 0 {
      return Some(PortRequired(svc.name));
    }
    var seen := seenNames + {svc.name};
    DefinesOneMore(services, i);
    for k := 0 to |svc.dependsOn|
      invariant forall m :: 0 <= m < k ==> Defines(services, svc.dependsOn[m])
    {
      var dep := svc.dependsOn[k];
      var found := dep in seen || dep == svc.name;
      if found {
        assert Defines(services[..i+1], dep);
        var j :| 0 <= j <= i && services[..i+1][j].name == dep;
        assert services[j].name == dep;
      } else {
        found := FindService(services, dep);
      }
      if !found {
        return Some(UndefinedDependency(svc.name, dep));
      }
    }
    fault := None;
  }

  method FindService(services: seq<ServiceDefinition>, name: string) returns (found: bool)
    ensures found <==> Defines(services, name)
  {
    for i := 0 to |services|
      invariant forall j :: 0 <= j < i ==> services[j].name != name
    {
      if services[i].name == name {
        return true;
      }
    }
    found := false;
  }

  // ----- Start order -----

  function ServiceNames(services: seq<ServiceDefinition>): (r: seq<string>)
    ensures |r| == |services| && forall i :: 0 <= i < |r| ==> r[i] == services[i].name
  {
    seq(|services|, i requires 0 <= i < |services| => services[i].name)
  }

  /** The dependency graph; of two services with one name the later one counts. */
  function ServiceGraph(services: seq<ServiceDefinition>): (g: Adjacency)
    ensures g.Keys == Elems(ServiceNames(services))
  {
    if services == [] then map[]
    else
      var n := |services| - 1;
      assert ServiceNames(services) == ServiceNames(services[..n]) + [services[n].name];
      ServiceGraph(services[..n])[services[n].name := services[n].dependsOn]
  }

  function ServiceMap(services: seq<ServiceDefinition>): (m: map<string, ServiceDefinition>)
    ensures m.Keys == Elems(ServiceNames(services))
    ensures forall name :: name in m ==> m[name] in services && m[name].name == name
    ensures forall name :: name in m ==> m[name].dependsOn == ServiceGraph(services)[name]
  {
    if services == [] then map[]
    else
      var n := |services| - 1;
      assert ServiceNames(services) == ServiceNames(services[..n]) + [services[n].name];
      assert services == services[..n] + [services[n]];
      ServiceMap(services[..n])[services[n].name := services[n]]
  }

  function Lookup(m: map<string, ServiceDefinition>, name: string): ServiceDefinition {
    if name in m then m[name] else NO_SERVICE
  }

  function LookupAll(m: map<string, ServiceDefinition>, names: seq<string>): (r: seq<ServiceDefinition>)
    ensures |r| == |names| && forall i :: 0 <= i < |r| ==> r[i] == Lookup(m, names[i])
  {
    seq(|names|, i requires 0 <= i < |names| => Lookup(m, names[i]))
  }

  /** The start order: the checking walk over the service graph from the services in list order. */
  function StartOrder(services: seq<ServiceDefinition>): Result<seq<ServiceDefinition>, string> {
    RootsAreNames(ServiceGraph(services), ServiceNames(services));
    match VisitAll(ServiceGraph(services), ServiceNames(services), START)
    case Failure(e) => Failure(e)
    case Success(w) => Success(LookupAll(ServiceMap(services), w.order))
  }

  /** The captured state of the recursive closure that resolves service dependencies. */
  class DependencyVisitor {
    const depGraph: Adjacency
    const serviceMap: map<string, ServiceDefinition>
    var visited: set<string>
    var visiting: set<string>
    var result: seq<ServiceDefinition>
    ghost var order: seq<string>  // the names of result

    ghost function State(): Walk
      reads this
    {
      Walk(visited, visiting, order)
    }

    ghost predicate Valid()
      reads this
    {
      result == LookupAll(serviceMap, order)
    }

    constructor (depGraph: Adjacency, serviceMap: map<string, ServiceDefinition>)
      ensures this.depGraph == depGraph && this.serviceMap == serviceMap
      ensures Valid() && State() == START
    {
      this.depGraph, this.serviceMap := depGraph, serviceMap;
      visited, visiting, result, order := {}, {}, [], [];
    }

    method VisitName(name: string) returns (err: Option<string>)
      requires Valid() && name in Names(depGraph)
      modifies this
      ensures Valid()
      ensures match Visit(depGraph, name, old(State()))
              case Success(w) => err.None? && State() == w
              case Failure(e) => err == Some(e)
      decreases Names(depGraph) - visited - visiting
    {
      if name in visited {
        return None;
      }
      if name in visiting {
        return Some(name);
      }
      visiting := visiting + {name};
      var deps := Succ(depGraph, name);
      ghost var w := State();
      SuccAreNames(depGraph, name);
      for k := 0 to |deps|
        invariant Valid() && State().visiting == w.visiting && w.visited <= State().visited
        invariant VisitAll(depGraph, deps, w) == VisitAll(depGraph, deps[k..], State())
      {
        err := VisitName(deps[k]);
        if err.Some? {
          return;
        }
        assert deps[k..][1..] == deps[k+1..];
      }
      visiting := visiting - {name};
      visited := visited + {name};
      result := result + [Lookup(serviceMap, name)];
      order := order + [name];
      err := None;
    }
  }

  method BuildGraph(services: seq<ServiceDefinition>)
    returns (depGraph: Adjacency, serviceMap: map<string, ServiceDefinition>)
    ensures depGraph == ServiceGraph(services) && serviceMap == ServiceMap(services)
  {
    depGraph, serviceMap := map[], map[];
    for i := 0 to |services|
      invariant depGraph == ServiceGraph(services[..i]) && serviceMap == ServiceMap(services[..i])
    {
      assert services[..i+1][..i] == services[..i];
      depGraph := depGraph[services[i].name := services[i].dependsOn];
      serviceMap := serviceMap[services[i].name := services[i]];
    }
    assert services[..|services|] == services;
  }

  lemma StartOrderOf(services: seq<ServiceDefinition>, w: Walk)
    requires var names := ServiceNames(services);
      && (forall name :: name in names ==> name in Names(ServiceGraph(services)))
      && VisitAll(ServiceGraph(services), names, START) == VisitAll(ServiceGraph(services), names[|services|..], w)
    ensures StartOrder(services) == Success(LookupAll(ServiceMap(services), w.order))
  {
    assert ServiceNames(services)[|services|..] == [];
  }

  lemma VisitAllFrom(g: Adjacency, names: seq<string>, i: nat, w: Walk)
    requires (forall name :: name in names ==> name in Names(g)) && i < |names|
    ensures VisitAll(g, names[i..], w) == match Visit(g, names[i], w)
                                          case Failure(e) => Failure(e)
                                          case Success(v) => VisitAll(g, names[i+1..], v)
  {
    assert names[i..][0] == names[i] && names[i..][1..] == names[i+1..];
  }

  method ResolveServiceDependencies(services: seq<ServiceDefinition>)
    returns (r: Result<seq<ServiceDefinition>, string>)
    ensures r == StartOrder(services)
    ensures r.Failure? <==> Cyclic(ServiceGraph(services))
  {
    StartOrderDecidesCycles(services);
    if |services| == 0 {
      return Success(services);
    }
    var depGraph, serviceMap := BuildGraph(services);
    var names := ServiceNames(services);
    RootsAreNames(depGraph, names);
    var visitor := new DependencyVisitor(depGraph, serviceMap);
    for i := 0 to |services|
      invariant fresh(visitor) && visitor.Valid()
      invariant VisitAll(depGraph, names, START) == VisitAll(depGraph, names[i..], visitor.State())
    {
      VisitAllFrom(depGraph, names, i, visitor.State());
      var err := visitor.VisitName(services[i].name);
      if err.Some? {
        return Failure(err.value);
      }
    }
    StartOrderOf(services, visitor.State());
    r := Success(visitor.result);
  }

  // ----- What the start order means -----

  /** For every list, accepted or not, the order fails exactly on a cycle and names one of its members. */
  lemma StartOrderDecidesCycles(services: seq<ServiceDefinition>)
    ensures StartOrder(services).Failure? <==> Cyclic(ServiceGraph(services))
    ensures StartOrder(services).Failure? ==> OnCycle(ServiceGraph(services), StartOrder(services).error)
  {
    CheckedWalkDecidesCycles(ServiceGraph(services), ServiceNames(services));
  }

  lemma AcceptedNamesDistinct(services: seq<ServiceDefinition>)
    requires Accepted(services)
    ensures NoDup(ServiceNames(services)) && NoDup(services)
  {
    forall i, j | 0 <= i < j < |services| ensures services[i].name != services[j].name {
      assert ServiceOk(services, j);
      assert services[..j][i].name == services[i].name;
    }
  }

  /** Of the services of one name the graph and the map hold the last. */
  lemma {:induction false} LastServiceMapped(services: seq<ServiceDefinition>, i: nat)
    requires i < |services| && forall j :: i < j < |services| ==> services[j].name != services[i].name
    ensures Lookup(ServiceMap(services), services[i].name) == services[i]
    ensures Succ(ServiceGraph(services), services[i].name) == services[i].dependsOn
    decreases |services|
  {
    var n := |services| - 1;
    if i < n {
      LastServiceMapped(services[..n], i);
    }
  }

  lemma NamesDiffer(services: seq<ServiceDefinition>, i: nat, j: nat)
    requires NoDup(ServiceNames(services)) && i < j < |services|
    ensures services[i].name != services[j].name
  {
    assert ServiceNames(services)[i] != ServiceNames(services)[j];
  }

  /** With distinct names the graph and the map hold every service. */
  lemma EveryServiceMapped(services: seq<ServiceDefinition>, i: nat)
    requires NoDup(ServiceNames(services)) && i < |services|
    ensures Lookup(ServiceMap(services), services[i].name) == services[i]
    ensures Succ(ServiceGraph(services), services[i].name) == services[i].dependsOn
  {
    forall j | i < j < |services| ensures services[j].name != services[i].name {
      NamesDiffer(services, i, j);
    }
    LastServiceMapped(services, i);
  }

  lemma AcceptedDefinesAll(services: seq<ServiceDefinition>)
    requires Accepted(services)
    ensures Names(ServiceGraph(services)) == Elems(ServiceNames(services))
  {
    var g := ServiceGraph(services);
    AcceptedNamesDistinct(services);
    forall x, d | x in g && d in g[x] ensures d in g {
      assert x in ServiceNames(services);
      var i :| 0 <= i < |services| && services[i].name == x;
      EveryServiceMapped(services, i);
      assert ServiceOk(services, i);
      var j :| 0 <= j < |services| && services[j].name == d;
      assert ServiceNames(services)[j] == d;
    }
  }

  /** Every name that service i of the list depends on is the name of an earlier service. */
  ghost predicate DependenciesEarlier(services: seq<ServiceDefinition>) {
    forall i, d :: 0 <= i < |services| && d in services[i].dependsOn ==> Defines(services[..i], d)
  }

  /**
   For every accepted list: the order exists exactly when no service depends on itself, directly or
   not; it is then a permutation of the list with every service after all it depends on.
   */
  lemma AcceptedStartOrder(services: seq<ServiceDefinition>)
    requires Accepted(services)
    ensures StartOrder(services).Failure? <==> Cyclic(ServiceGraph(services))
    ensures StartOrder(services).Success? ==>
      && multiset(StartOrder(services).value) == multiset(services)
      && NoDup(ServiceNames(StartOrder(services).value))
      && DependenciesEarlier(StartOrder(services).value)
  {
    StartOrderDecidesCycles(services);
    if StartOrder(services).Success? {
      var g, names := ServiceGraph(services), ServiceNames(services);
      CheckedWalkDecidesCycles(g, names);
      AcceptedDefinesAll(services);
      OrderedServices(services, VisitAll(g, names, START).value.order);
    }
  }

  lemma OrderedServices(services: seq<ServiceDefinition>, order: seq<string>)
    requires Accepted(services)
    requires TopoOrder(ServiceGraph(services), Elems(ServiceNames(services)), order)
    ensures var r := LookupAll(ServiceMap(services), order);
      && multiset(r) == multiset(services) && NoDup(ServiceNames(r)) && DependenciesEarlier(r)
  {
    AcceptedNamesDistinct(services);
    OrderLooksUp(services, order);
    SameServices(services, order);
    OrderedDependenciesEarlier(services, order);
  }

  lemma LooksUpAt(services: seq<ServiceDefinition>, order: seq<string>, k: nat)
    requires Elems(order) == Elems(ServiceNames(services)) && k < |order|
    ensures var s := LookupAll(ServiceMap(services), order)[k];
      s.name == order[k] && s.dependsOn == Succ(ServiceGraph(services), order[k]) && s in services
  {}

  lemma OrderLooksUp(services: seq<ServiceDefinition>, order: seq<string>)
    requires Elems(order) == Elems(ServiceNames(services))
    ensures ServiceNames(LookupAll(ServiceMap(services), order)) == order
  {}

  lemma OrderedDependenciesEarlier(services: seq<ServiceDefinition>, order: seq<string>)
    requires Elems(order) == Elems(ServiceNames(services)) && DepsFirst(ServiceGraph(services), order)
    ensures DependenciesEarlier(LookupAll(ServiceMap(services), order))
  {
    var r := LookupAll(ServiceMap(services), order);
    forall i, d | 0 <= i < |r| && d in r[i].dependsOn ensures Defines(r[..i], d) {
      LooksUpAt(services, order, i);
      EarlierName(ServiceGraph(services), order, i, d);
      var j :| 0 <= j < i && order[j] == d;
      LooksUpAt(services, order, j);
      assert r[..i][j].name == d;
    }
  }

  lemma EarlierName(g: Adjacency, order: seq<string>, i: nat, d: string)
    requires DepsFirst(g, order) && i < |order| && d in Succ(g, order[i])
    ensures exists j :: 0 <= j < i && order[j] == d
  {}

  lemma SameServices(services: seq<ServiceDefinition>, order: seq<string>)
    requires NoDup(ServiceNames(services)) && NoDup(services) && NoDup(order)
    requires Elems(order) == Elems(ServiceNames(services))
    ensures multiset(LookupAll(ServiceMap(services), order)) == multiset(services)
  {
    var r := LookupAll(ServiceMap(services), order);
    forall k | 0 <= k < |order| ensures r[k].name == order[k] && r[k] in services {
      LooksUpAt(services, order, k);
    }
    forall s | s in services ensures s in r {
      var i :| 0 <= i < |services| && services[i] == s;
      EveryServiceMapped(services, i);
      assert ServiceNames(services)[i] in Elems(order);
      var k :| 0 <= k < |order| && order[k] == s.name;
      assert r[k] == s;
    }
    assert Elems(r) == Elems(services);
    NoDupMultiset(r);
    NoDupMultiset(services);
  }

  /** x is the name of one of the first n services, or one of them needs it, directly or not. */
  ghost predicate NeededByFirst(services: seq<ServiceDefinition>, n: nat, x: string) {
    n <= |services| && Reachable(ServiceGraph(services), Elems(ServiceNames(services[..n])), x)
  }

  /** The names of a start order are those of the walk. */
  lemma StartOrderNames(services: seq<ServiceDefinition>)
    requires Accepted(services) && StartOrder(services).Success?
    ensures var g, names := ServiceGraph(services), ServiceNames(services);
      && (forall name :: name in names ==> name in Names(g)) && VisitAll(g, names, START).Success?
      && ServiceNames(StartOrder(services).value) == VisitAll(g, names, START).value.order
  {
    AcceptedDefinesAll(services);
    RootsAreNames(ServiceGraph(services), ServiceNames(services));
    CheckedWalkDecidesCycles(ServiceGraph(services), ServiceNames(services));
    OrderLooksUp(services, VisitAll(ServiceGraph(services), ServiceNames(services), START).value.order);
  }

  /** What the first services of the list need is started before all that they do not need. */
  lemma StartsInTurn(services: seq<ServiceDefinition>, n: nat, x: string, y: string)
    requires Accepted(services) && StartOrder(services).Success? && n <= |services|
    requires NeededByFirst(services, n, x)
    requires y in ServiceNames(services) && !NeededByFirst(services, n, y)
    ensures ListedBefore(ServiceNames(StartOrder(services).value), x, y)
  {
    StartOrderNames(services);
    assert ServiceNames(services[..n]) == ServiceNames(services)[..n];
    ReachRoot(ServiceGraph(services), Elems(ServiceNames(services)), y);
    RootsInTurn(ServiceGraph(services), ServiceNames(services), n, x, y);
  }

  /** Before a service, what its first dependencies need is started before all that neither they nor earlier
      services need. */
  lemma DependenciesStartInTurn(services: seq<ServiceDefinition>, i: nat, m: nat, x: string, y: string)
    requires Accepted(services) && StartOrder(services).Success? && i < |services| && m <= |services[i].dependsOn|
    requires Reachable(ServiceGraph(services), Elems(ServiceNames(services)[..i] + services[i].dependsOn[..m]), x)
    requires !Reachable(ServiceGraph(services), Elems(ServiceNames(services)[..i] + services[i].dependsOn[..m]), y)
    requires y in ServiceNames(services)
    ensures ListedBefore(ServiceNames(StartOrder(services).value), x, y)
  {
    StartOrderNames(services);
    AcceptedNamesDistinct(services);
    EveryServiceMapped(services, i);
    DependenciesInTurn(ServiceGraph(services), ServiceNames(services), i, m, x, y);
  }

  lemma NamesInOwnOrder(services: seq<ServiceDefinition>)
    requires Accepted(services) && DependenciesEarlier(services)
    ensures NoDup(ServiceNames(services)) && DepsFirst(ServiceGraph(services), ServiceNames(services))
  {
    var names := ServiceNames(services);
    AcceptedNamesDistinct(services);
    forall i, d | 0 <= i < |names| && d in Succ(ServiceGraph(services), names[i]) ensures d in names[..i] {
      EveryServiceMapped(services, i);
      assert Defines(services[..i], d);
      var j :| 0 <= j < i && services[..i][j].name == d;
      assert names[..i][j] == d;
    }
  }

  lemma NamesLookUpServices(services: seq<ServiceDefinition>)
    requires NoDup(ServiceNames(services))
    ensures LookupAll(ServiceMap(services), ServiceNames(services)) == services
  {
    forall i | 0 <= i < |services| ensures Lookup(ServiceMap(services), ServiceNames(services)[i]) == services[i] {
      EveryServiceMapped(services, i);
    }
  }

  /** A list in which every service comes after its dependencies is started as it stands. */
  lemma OrderedListIsKept(services: seq<ServiceDefinition>)
    requires Accepted(services) && DependenciesEarlier(services)
    ensures StartOrder(services) == Success(services)
  {
    var names := ServiceNames(services);
    NamesInOwnOrder(services);
    RootsAreNames(ServiceGraph(services), names);
    OwnOrder(ServiceGraph(services), names, |names|);
    assert names[..|names|] == names;
    NamesLookUpServices(services);
  }

  /** Validation lets a service depend on itself; the order then fails. */
  lemma SelfDependencyAccepted(s: ServiceDefinition)
    requires s.name != "" && s.command != "" && s.port != 0 && s.dependsOn == [s.name]
    ensures Accepted([s]) && StartOrder([s]) == Failure(s.name)
  {
    var services := [s];
    assert services[0].name == s.name;
    assert !Defines(services[..0], s.name);
    assert ServiceNames(services) == [s.name];
    assert services[..0] == [];
    assert ServiceGraph(services) == map[s.name := [s.name]];
    var w := Walk({}, {s.name}, []);
    assert START.(visiting := START.visiting + {s.name}) == w;
    assert VisitAll(ServiceGraph(services), [s.name], w) == Failure(s.name);
    assert Visit(ServiceGraph(services), s.name, START) == Failure(s.name);
  }
}
