/**
 The orchestrator's dependency order: a depth-first post-order without a cycle check,
 started from the keys of a service map in whatever order Go iterates them.
 */
module Orchestrator {
  import opened Text
  import opened Graph
  import opened Results
  import opened DepthFirst

  datatype Service = Service(command: string, dependsOn: seq<string>)

  function DependsOn(services: map<string, Service>): Adjacency {
    map name | name in services :: services[name].dependsOn
  }

  /** The captured state of the recursive closure. */
  class PostOrderVisitor {
    const depGraph: Adjacency
    var visited: set<string>
    var result: seq<string>

    ghost function State(): Trail
      reads this
    {
      Trail(visited, result)
    }

    constructor (depGraph: Adjacency)
      ensures this.depGraph == depGraph && State() == EMPTY
    {
      this.depGraph := depGraph;
      visited, result := {}, [];
    }

    method VisitName(name: string)
      requires name in Names(depGraph)
      modifies this
      ensures State() == Post(depGraph, name, old(State()))
      decreases Names(depGraph) - visited
    {
      if name in visited {
        return;
      }
      visited := visited + {name};
      var deps := Succ(depGraph, name);
      ghost var t := State();
      SuccAreNames(depGraph, name);
      for k := 0 to |deps|
        invariant t.visited <= visited
        invariant PostAll(depGraph, deps, t) == PostAll(depGraph, deps[k..], State())
      {
        VisitName(deps[k]);
        assert deps[k..][1..] == deps[k+1..];
      }
      result := result + [name];
    }
  }

  method BuildGraph(services: map<string, Service>) returns (depGraph: Adjacency)
    ensures depGraph == DependsOn(services)
  {
    depGraph := map[];
    var rest := services.Keys;
    while rest != {}
      invariant rest <= services.Keys && depGraph.Keys == services.Keys - rest
      invariant forall name :: name in depGraph ==> depGraph[name] == services[name].dependsOn
    {
      var name :| name in rest;
      rest := rest - {name};
      depGraph := depGraph[name := services[name].dependsOn];
    }
  }

  /**
   Every declared service and every name mentioned as a dependency is listed once, whatever order
   roots the map was iterated in; the order is topological exactly when the graph is acyclic, and
   then the one the workspace manager's checking resolver gives from the same roots.
   */
  method ResolveDependencies(services: map<string, Service>) returns (order: seq<string>, ghost roots: seq<string>)
    ensures NoDup(roots) && Elems(roots) == services.Keys
    ensures order == PostAll(DependsOn(services), roots, EMPTY).order
    ensures NoDup(order) && Elems(order) == Names(DependsOn(services))
    ensures DepsFirst(DependsOn(services), order) <==> !Cyclic(DependsOn(services))
    ensures match VisitAll(DependsOn(services), roots, START)
            case Success(w) => order == w.order
            case Failure(_) => !DepsFirst(DependsOn(services), order)
  {
    var depGraph := BuildGraph(services);
    roots := [];
    var visitor := new PostOrderVisitor(depGraph);
    var rest := services.Keys;
    while rest != {}
      invariant fresh(visitor)
      invariant rest <= services.Keys && Elems(roots) == services.Keys - rest && NoDup(roots)
      invariant forall n :: n in roots ==> n in Names(depGraph)
      invariant visitor.State() == PostAll(depGraph, roots, EMPTY)
    {
      var name :| name in rest;
      rest := rest - {name};
      PostAllOneMore(depGraph, roots, name, EMPTY);
      assert Elems(roots + [name]) == Elems(roots) + {name};
      roots := roots + [name];
      if name !in visitor.visited {
        visitor.VisitName(name);
      }
    }
    order := visitor.result;
    UncheckedWalkListsAll(depGraph, roots);
    CheckedWalkDecidesCycles(depGraph, roots);
  }

  lemma {:induction false} PostAllOneMore(g: Adjacency, names: seq<string>, name: string, t: Trail)
    requires name in Names(g) && forall n :: n in names ==> n in Names(g)
    ensures PostAll(g, names + [name], t) == Post(g, name, PostAll(g, names, t))
    decreases |names|
  {
    var longer := names + [name];
    if names == [] {
      assert longer[1..] == [];
    } else {
      assert longer[1..] == names[1..] + [name];
      PostAllOneMore(g, names[1..], name, Post(g, names[0], t));
    }
  }
}
