/**
 The plugin registry and its dependency resolver: a worklist closure over the declared
 dependencies followed by Kahn's algorithm with an alphabetically sorted queue.
 */
module PluginRegistry {
  import opened Results
  import opened Text
  import opened Graph
  import opened BreadthFirst
  import opened TopoSort
  import opened PluginResolution

  // ----- The graph that the worklist phase builds -----

  /** graph[d] lists c once for each of the first degree[c] entries of c's dependencies that is d. */
  ghost predicate EdgesRecorded(plugins: Plugins, graph: Adjacency, degree: map<string, int>) {
    && (forall c :: c in degree ==> c in plugins && 0 <= degree[c] <= |plugins[c].dependencies|)
    && (forall d, c {:trigger EdgeRecorded(plugins, graph, degree, d, c)} :: EdgeRecorded(plugins, graph, degree, d, c))
  }

  ghost predicate EdgeRecorded(plugins: Plugins, graph: Adjacency, degree: map<string, int>, d: string, c: string) {
    multiset(Succ(graph, d))[c] == EdgeCount(plugins, degree, d, c)
  }

  ghost function EdgeCount(plugins: Plugins, degree: map<string, int>, d: string, c: string): nat {
    if c in degree && c in plugins && 0 <= degree[c] <= |plugins[c].dependencies|
    then multiset(plugins[c].dependencies[..degree[c]])[d] else 0
  }

  lemma RecordEdge(plugins: Plugins, graph: Adjacency, degree: map<string, int>, c: string)
    requires EdgesRecorded(plugins, graph, degree)
    requires c in degree && degree[c] < |plugins[c].dependencies|
    ensures
      var d := plugins[c].dependencies[degree[c]];
      EdgesRecorded(plugins, graph[d := Succ(graph, d) + [c]], degree[c := degree[c] + 1])
  {
    var d := plugins[c].dependencies[degree[c]];
    var graph', degree' := graph[d := Succ(graph, d) + [c]], degree[c := degree[c] + 1];
    forall e, b ensures EdgeRecorded(plugins, graph', degree', e, b) {
      assert EdgeRecorded(plugins, graph, degree, e, b);
      TakeOneMore(plugins[c].dependencies, degree[c], e);
      AppendOne(Succ(graph, d), c, b);
    }
  }

  lemma TakeOneMore(s: seq<string>, k: nat, x: string)
    requires k < |s|
    ensures multiset(s[..k+1])[x] == multiset(s[..k])[x] + if s[k] == x then 1 else 0
  {
    TakeNext(s, k);
  }

  lemma TakeNext(s: seq<string>, k: nat)
    requires k < |s|
    ensures s[..k+1] == s[..k] + [s[k]]
  {}

  lemma TakeAll(s: seq<string>)
    ensures s[..|s|] == s
  {}

  lemma HeadAndRest(s: seq<string>)
    requires s != []
    ensures s == [s[0]] + s[1..]
  {}

  lemma AppendOne(s: seq<string>, y: string, x: string)
    ensures multiset(s + [y])[x] == multiset(s)[x] + if y == x then 1 else 0
  {}

  /** A name is first seen with degree 0, which records no edge. */
  lemma NewName(plugins: Plugins, graph: Adjacency, degree: map<string, int>, c: string)
    requires EdgesRecorded(plugins, graph, degree)
    requires c in plugins && (c in degree ==> degree[c] == 0)
    ensures EdgesRecorded(plugins, graph, degree[c := 0])
  {
    var degree' := degree[c := 0];
    forall e, b ensures EdgeRecorded(plugins, graph, degree', e, b) {
      assert EdgeRecorded(plugins, graph, degree, e, b);
    }
  }

  /** The worklist phase is complete: every needed plugin is known with all its edges. */
  ghost predicate Collected(plugins: Plugins, names: seq<string>, graph: Adjacency,
                            degree: map<string, int>, all: set<string>) {
    && EdgesRecorded(plugins, graph, degree)
    && degree.Keys == all
    && Closed(DependencyGraph(plugins), all)
    && all == NeededPlugins(plugins, names)
    && AllNeededRegistered(plugins, names)
    && forall c :: c in degree ==> degree[c] == |plugins[c].dependencies|
  }

  /** Registered dependencies of members of reach are members of reach. */
  ghost predicate ClosedInside(plugins: Plugins, reach: set<string>) {
    forall x, d :: x in reach && x in plugins && d in plugins[x].dependencies && d in plugins ==> d in reach
  }

  lemma NeededClosed(plugins: Plugins, names: seq<string>)
    ensures ClosedInside(plugins, NeededPlugins(plugins, names))
    ensures forall x :: x in names && x in plugins ==> x in NeededPlugins(plugins, names)
  {
    var g, reach := DependencyGraph(plugins), NeededPlugins(plugins, names);
    forall x, d | x in reach && d in plugins[x].dependencies && d in plugins ensures d in reach {
      ReachStep(g, Elems(names), x, d);
    }
    forall x | x in names && x in plugins ensures x in reach {
      ReachRoot(g, Elems(names), x);
    }
  }

  /** The state of the worklist phase between two turns. */
  ghost predicate Recorded(plugins: Plugins, reach: set<string>, graph: Adjacency,
                           degree: map<string, int>, all: set<string>) {
    && EdgesRecorded(plugins, graph, degree)
    && degree.Keys == all <= reach
  }

  ghost predicate Finished(plugins: Plugins, degree: map<string, int>, all: set<string>, x: string) {
    && x in plugins && x in degree
    && degree[x] == |plugins[x].dependencies|
    && forall d :: d in plugins[x].dependencies ==> d in all
  }

  /** A turn of the worklist for current, with the dependencies in seen looked at and k of them counted:
      the new names are known with degree 0 and queued, once each. */
  ghost predicate Turned(current: string, k: int, seen: seq<string>,
                         toProcess0: seq<string>, degree0: map<string, int>, all0: set<string>,
                         toProcess: seq<string>, degree: map<string, int>, all: set<string>) {
    && toProcess == toProcess0 + Fresh(seen, all0)
    && (forall x :: x in all <==> x in all0 || x in seen)
    && (forall x :: x in all ==> x in degree)
    && (forall x :: x in all && x in degree ==> degree[x] == DegreeInTurn(current, k, degree0, all0, x))
  }

  ghost function DegreeInTurn(current: string, k: int, degree0: map<string, int>, all0: set<string>, x: string): int {
    if x == current then k else if x in all0 && x in degree0 then degree0[x] else 0
  }

  lemma TurnSees(current: string, k: int, seen: seq<string>, dep: string,
                 toProcess0: seq<string>, degree0: map<string, int>, all0: set<string>,
                 toProcess: seq<string>, degree: map<string, int>, all: set<string>)
    requires Turned(current, k, seen, toProcess0, degree0, all0, toProcess, degree, all) && current in all0
    ensures
      if dep in all then Turned(current, k, seen + [dep], toProcess0, degree0, all0, toProcess, degree, all)
      else Turned(current, k, seen + [dep], toProcess0, degree0, all0, toProcess + [dep], degree[dep := 0], all + {dep})
  {
    FreshOneMore(seen, dep, all0);
  }

  lemma TurnCounts(current: string, k: int, seen: seq<string>,
                   toProcess0: seq<string>, degree0: map<string, int>, all0: set<string>,
                   toProcess: seq<string>, degree: map<string, int>, all: set<string>)
    requires Turned(current, k, seen, toProcess0, degree0, all0, toProcess, degree, all)
    ensures Turned(current, k + 1, seen, toProcess0, degree0, all0, toProcess, degree[current := k + 1], all)
  {}

  /** The state of the worklist phase within the turn of current, after k of its dependencies. */
  ghost predicate InTurn(plugins: Plugins, reach: set<string>, current: string, k: int,
                         toProcess0: seq<string>, degree0: map<string, int>, all0: set<string>,
                         toProcess: seq<string>, graph: Adjacency, degree: map<string, int>, all: set<string>) {
    && current in plugins && current in all0 && 0 <= k <= |plugins[current].dependencies|
    && Recorded(plugins, reach, graph, degree, all)
    && Turned(current, k, plugins[current].dependencies[..k], toProcess0, degree0, all0, toProcess, degree, all)
  }

  lemma KnownDependency(plugins: Plugins, reach: set<string>, current: string, k: int,
                        toProcess0: seq<string>, degree0: map<string, int>, all0: set<string>,
                        toProcess: seq<string>, graph: Adjacency, degree: map<string, int>, all: set<string>, dep: string)
    requires InTurn(plugins, reach, current, k, toProcess0, degree0, all0, toProcess, graph, degree, all)
    requires k < |plugins[current].dependencies| && dep == plugins[current].dependencies[k] && dep in all
    ensures current in degree
    ensures InTurn(plugins, reach, current, k + 1, toProcess0, degree0, all0, toProcess,
                   graph[dep := Succ(graph, dep) + [current]], degree[current := degree[current] + 1], all)
  {
    var deps := plugins[current].dependencies;
    TakeNext(deps, k);
    TurnSees(current, k, deps[..k], dep, toProcess0, degree0, all0, toProcess, degree, all);
    TurnCounts(current, k, deps[..k+1], toProcess0, degree0, all0, toProcess, degree, all);
    assert degree[current] == k;
    RecordEdge(plugins, graph, degree, current);
  }

  lemma NewDependency(plugins: Plugins, reach: set<string>, current: string, k: int,
                      toProcess0: seq<string>, degree0: map<string, int>, all0: set<string>,
                      toProcess: seq<string>, graph: Adjacency, degree: map<string, int>, all: set<string>, dep: string)
    requires InTurn(plugins, reach, current, k, toProcess0, degree0, all0, toProcess, graph, degree, all)
    requires k < |plugins[current].dependencies| && dep == plugins[current].dependencies[k] && dep !in all
    requires dep in plugins && dep in reach
    ensures current in degree && current != dep
    ensures InTurn(plugins, reach, current, k + 1, toProcess0, degree0, all0, toProcess + [dep],
                   graph[dep := Succ(graph, dep) + [current]],
                   degree[dep := 0][current := degree[dep := 0][current] + 1], all + {dep})
  {
    var deps, degree' := plugins[current].dependencies, degree[dep := 0];
    TakeNext(deps, k);
    TurnSees(current, k, deps[..k], dep, toProcess0, degree0, all0, toProcess, degree, all);
    TurnCounts(current, k, deps[..k+1], toProcess0, degree0, all0, toProcess + [dep], degree', all + {dep});
    assert degree[current] == k;
    NewEdge(plugins, graph, degree, current, dep);
  }

  lemma NewEdge(plugins: Plugins, graph: Adjacency, degree: map<string, int>, current: string, dep: string)
    requires EdgesRecorded(plugins, graph, degree) && dep in plugins && dep !in degree
    requires current in degree && degree[current] < |plugins[current].dependencies|
    requires plugins[current].dependencies[degree[current]] == dep
    ensures EdgesRecorded(plugins, graph[dep := Succ(graph, dep) + [current]],
                          degree[dep := 0][current := degree[dep := 0][current] + 1])
  {
    NewName(plugins, graph, degree, dep);
    RecordEdge(plugins, graph, degree[dep := 0], current);
  }

  lemma TurnEnds(plugins: Plugins, reach: set<string>, current: string,
                 toProcess0: seq<string>, degree0: map<string, int>, all0: set<string>,
                 toProcess: seq<string>, graph: Adjacency, degree: map<string, int>, all: set<string>)
    requires current in plugins
    requires InTurn(plugins, reach, current, |plugins[current].dependencies|, toProcess0, degree0, all0,
                    toProcess, graph, degree, all)
    requires forall j :: 0 <= j < |plugins[current].dependencies| ==> plugins[current].dependencies[j] in plugins
    ensures forall d :: d in plugins[current].dependencies ==> d in plugins
    ensures Recorded(plugins, reach, graph, degree, all)
    ensures Turned(current, |plugins[current].dependencies|, plugins[current].dependencies,
                   toProcess0, degree0, all0, toProcess, degree, all)
  {
    TakeAll(plugins[current].dependencies);
  }

  lemma FirstMissing(plugins: Plugins, deps: seq<string>, k: nat)
    requires k < |deps| && deps[k] !in plugins && forall j :: 0 <= j < k ==> deps[j] in plugins
    ensures FirstUnregistered(plugins, deps, deps[k])
  {}

  lemma TurnStarts(plugins: Plugins, reach: set<string>, current: string,
                   toProcess: seq<string>, graph: Adjacency, degree: map<string, int>, all: set<string>)
    requires Recorded(plugins, reach, graph, degree, all) && current in all && degree[current] == 0
    ensures InTurn(plugins, reach, current, 0, toProcess, degree, all, toProcess, graph, degree, all)
  {
    assert toProcess + Fresh([], all) == toProcess;
  }

  /** The names dealt with so far are in breadth-first order, no dependency of theirs is missing,
      and the worklist holds what comes next in that order. */
  ghost predicate InOrder(plugins: Plugins, names: seq<string>, done: seq<string>, toProcess: seq<string>) {
    var g := DependencyGraph(plugins);
    && InBreadthFirstOrder(g, names, done)
    && (forall d :: d in SuccessorsOf(g, done) ==> d in plugins)
    && Follows(g, names, done, toProcess)
  }

  lemma TurnFollows(plugins: Plugins, names: seq<string>, done: seq<string>, current: string,
                    rest: seq<string>, all: set<string>)
    requires InOrder(plugins, names, done, [current] + rest) && current !in done && current in plugins
    requires forall x :: x in all <==> x in done || x == current || x in rest
    ensures forall dep :: FirstUnregistered(plugins, plugins[current].dependencies, dep) ==>
      MissingAfter(plugins, names, done, dep, current)
    ensures (forall d :: d in plugins[current].dependencies ==> d in plugins) ==>
      InOrder(plugins, names, done + [current], rest + Fresh(plugins[current].dependencies, all))
  {
    var g := DependencyGraph(plugins);
    assert all == Elems(done) + {current} + Elems(rest);
    FollowTurn(g, names, done, current, rest, all);
    ExtendOrder(g, names, done, current);
    NextCameUp(g, names, done, current);
  }

  /** Every known name is finished, or waits in the worklist with no edge counted. */
  ghost predicate Sweeping(plugins: Plugins, done: seq<string>, toProcess: seq<string>,
                           degree: map<string, int>, all: set<string>) {
    && (forall x :: x in all <==> x in done || x in toProcess)
    && (forall x :: x in all ==> x in degree)
    && (forall x :: x in toProcess && x !in done && x in degree ==> degree[x] == 0)
    && (forall x :: x in done ==> Finished(plugins, degree, all, x))
  }

  lemma SweepSkips(plugins: Plugins, names: seq<string>, done: seq<string>, current: string, rest: seq<string>,
                   degree: map<string, int>, all: set<string>)
    requires Sweeping(plugins, done, [current] + rest, degree, all) && current in done
    requires InOrder(plugins, names, done, [current] + rest)
    ensures Sweeping(plugins, done, rest, degree, all) && InOrder(plugins, names, done, rest)
  {
    assert ([current] + rest)[1..] == rest;
  }

  lemma SweepTurns(plugins: Plugins, done: seq<string>, current: string, rest: seq<string>,
                   degree: map<string, int>, all: set<string>,
                   toProcess': seq<string>, degree': map<string, int>, all': set<string>)
    requires current in plugins && current !in done && Sweeping(plugins, done, [current] + rest, degree, all)
    requires Turned(current, |plugins[current].dependencies|, plugins[current].dependencies,
                    rest, degree, all, toProcess', degree', all')
    ensures Sweeping(plugins, done + [current], toProcess', degree', all') && all <= all'
  {
    forall x | x in done + [current] ensures Finished(plugins, degree', all', x) {
      if x != current { assert Finished(plugins, degree, all, x); }
    }
  }

  lemma CollectedAll(plugins: Plugins, names: seq<string>, graph: Adjacency,
                     degree: map<string, int>, all: set<string>)
    requires Recorded(plugins, NeededPlugins(plugins, names), graph, degree, all) && Elems(names) <= all
    requires forall x :: x in all ==> Finished(plugins, degree, all, x)
    ensures Collected(plugins, names, graph, degree, all)
  {
    var g := DependencyGraph(plugins);
    assert Closed(g, all) by {
      forall x, y | x in all && y in Succ(g, x) ensures y in all {
        assert Finished(plugins, degree, all, x);
      }
    }
    forall x | Needed(plugins, names, x) ensures x in all {
      ReachableInside(g, all, Elems(names), x);
    }
  }

  // ----- Kahn's algorithm -----

  /**
   The bookkeeping for x once the names in done are listed, while the degrees of the dependents in left
   are still to be lowered: its degree counts its unmet dependencies, it waits for nothing once listed,
   and it is queued, once, when it is not listed and has degree 0.
   */
  ghost predicate NameTracked(g: Adjacency, all: set<string>, degree: map<string, int>, done: seq<string>,
                              left: seq<string>, queue: seq<string>, x: string) {
    && (x in all ==> x in degree && degree[x] == Pending(Succ(g, x), done) + multiset(left)[x])
    && (x in all && x in degree && x in done ==> degree[x] == 0)
    && multiset(queue)[x] == if x in all && x in degree && x !in done && degree[x] == 0 then 1 else 0
  }

  ghost predicate Tracked(g: Adjacency, all: set<string>, degree: map<string, int>, done: seq<string>,
                          left: seq<string>, queue: seq<string>) {
    && degree.Keys == all
    && forall x {:trigger NameTracked(g, all, degree, done, left, queue, x)} ::
         NameTracked(g, all, degree, done, left, queue, x)
  }

  lemma HeadIsFirstReady(g: Adjacency, all: set<string>, degree: map<string, int>, order: seq<string>, queue: seq<string>)
    requires queue != [] && Sorted(queue) && Tracked(g, all, degree, order, [], queue)
    ensures FirstReady(g, all, order, queue[0])
  {
    assert NameTracked(g, all, degree, order, [], queue, queue[0]);
    assert multiset(queue)[queue[0]] > 0;
    PendingZero(Succ(g, queue[0]), order);
    forall y | Ready(g, all, order, y) ensures !Less(y, queue[0]) {
      PendingZero(Succ(g, y), order);
      assert NameTracked(g, all, degree, order, [], queue, y);
      assert y in queue;
      LessIrreflexive(y);
    }
  }

  lemma NothingReady(g: Adjacency, all: set<string>, degree: map<string, int>, order: seq<string>)
    requires Tracked(g, all, degree, order, [], [])
    ensures forall x :: !Ready(g, all, order, x)
  {
    forall x ensures !Ready(g, all, order, x) {
      assert NameTracked(g, all, degree, order, [], [], x);
      PendingZero(Succ(g, x), order);
    }
  }

  lemma GreedyExtend(g: Adjacency, all: set<string>, order: seq<string>, x: string)
    requires Greedy(g, all, order) && FirstReady(g, all, order, x)
    ensures Greedy(g, all, order + [x])
  {
    var longer := order + [x];
    forall i | 0 <= i < |longer| ensures FirstReady(g, all, longer[..i], longer[i]) {
      if i < |order| {
        assert longer[..i] == order[..i];
      } else {
        assert longer[..i] == order;
      }
    }
  }

  lemma GreedyFits(g: Adjacency, all: set<string>, order: seq<string>)
    requires Greedy(g, all, order)
    ensures |order| <= |all|
  {
    GreedyIsOrdered(g, all, order);
    NoDupSize(order);
    SubsetSize(Elems(order), all);
  }

  /** graph holds the dependencies of all, reversed, with multiplicity. */
  ghost predicate Reversed(g: Adjacency, all: set<string>, graph: Adjacency) {
    forall d, c {:trigger EdgeReversed(g, all, graph, d, c)} :: EdgeReversed(g, all, graph, d, c)
  }

  ghost predicate EdgeReversed(g: Adjacency, all: set<string>, graph: Adjacency, d: string, c: string) {
    multiset(Succ(graph, d))[c] == if c in all then multiset(Succ(g, c))[d] else 0
  }

  lemma CollectedReversed(plugins: Plugins, names: seq<string>, graph: Adjacency,
                          degree: map<string, int>, all: set<string>)
    requires Collected(plugins, names, graph, degree, all)
    ensures Reversed(DependencyGraph(plugins), all, graph)
  {
    var g := DependencyGraph(plugins);
    forall d, c ensures EdgeReversed(g, all, graph, d, c) {
      assert EdgeRecorded(plugins, graph, degree, d, c);
      if c in all {
        assert plugins[c].dependencies[..degree[c]] == plugins[c].dependencies;
      }
    }
  }

  /** Listing the head of the queue leaves its dependents, with multiplicity, to be lowered. */
  lemma ListHead(g: Adjacency, all: set<string>, graph: Adjacency, degree: map<string, int>,
                 order: seq<string>, queue: seq<string>)
    requires Reversed(g, all, graph) && queue != [] && Tracked(g, all, degree, order, [], queue)
    ensures Tracked(g, all, degree, order + [queue[0]], Succ(graph, queue[0]), queue[1..])
    ensures forall x :: x in Succ(graph, queue[0]) ==> x in all
  {
    var c := queue[0];
    assert queue == [c] + queue[1..];
    assert NameTracked(g, all, degree, order, [], queue, c);
    assert multiset(queue)[c] == 1;
    forall x ensures NameTracked(g, all, degree, order + [c], Succ(graph, c), queue[1..], x) {
      assert NameTracked(g, all, degree, order, [], queue, x);
      assert EdgeReversed(g, all, graph, c, x);
      PendingDrop(Succ(g, x), order, c);
      PendingZero(Succ(g, x), order);
    }
    forall x | x in Succ(graph, c) ensures x in all {
      assert EdgeReversed(g, all, graph, c, x);
    }
  }

  /** One decrement keeps the bookkeeping; the dependent joins the queue when its degree reaches 0. */
  lemma LowerOne(g: Adjacency, all: set<string>, degree: map<string, int>, done: seq<string>,
                 x: string, rest: seq<string>, queue: seq<string>)
    requires x in all && Tracked(g, all, degree, done, [x] + rest, queue)
    ensures Tracked(g, all, degree[x := degree[x] - 1], done, rest, if degree[x] == 1 then queue + [x] else queue)
  {
    var degree' := degree[x := degree[x] - 1];
    var queue' := if degree[x] == 1 then queue + [x] else queue;
    assert NameTracked(g, all, degree, done, [x] + rest, queue, x);
    assert multiset([x] + rest)[x] > 0;
    forall y ensures NameTracked(g, all, degree', done, rest, queue', y) {
      assert NameTracked(g, all, degree, done, [x] + rest, queue, y);
      AppendOne(queue, x, y);
    }
  }

  class Registry {
    var plugins: Plugins

    constructor ()
      ensures plugins == map[]
    {
      plugins := map[];
    }

    method AddPlugin(name: string, plugin: Plugin)
      modifies this
      ensures plugins == old(plugins)[name := plugin]
    {
      plugins := plugins[name := plugin];
    }

    method GetPlugin(name: string) returns (r: Option<Plugin>)
      ensures r == if name in plugins then Some(plugins[name]) else None
    {
      r := if name in plugins then Some(plugins[name]) else None;
    }

    method ResolveDependencies(names: seq<string>) returns (r: Resolution)
      ensures Answers(plugins, names, r)
    {
      var err, graph, degree, all := CollectPlugins(names);
      if err.Some? {
        return err.value;
      }
      CollectedReversed(plugins, names, graph, degree, all);
      var order := SortPlugins(DependencyGraph(plugins), graph, degree, all);
      StuckMeansCycle(DependencyGraph(plugins), all, order);
      GreedyIsOrdered(DependencyGraph(plugins), all, order);
      NoDupSize(order);
      SubsetSize(Elems(order), all);
      if |order| != |all| {
        return Circular;
      }
      GreedyIsLeast(DependencyGraph(plugins), all, order);
      return Resolved(order);
    }

    /** The worklist phase: the transitive closure, reverse edges and in-degrees. */
    method CollectPlugins(names: seq<string>)
      returns (err: Option<Resolution>, graph: Adjacency, degree: map<string, int>, all: set<string>)
      ensures err.Some? ==> !err.value.Circular? && !err.value.Resolved? && Answers(plugins, names, err.value)
      ensures err.None? ==> Collected(plugins, names, graph, degree, all)
    {
      graph, degree, all := map[], map[], {};
      for i := 0 to |names|
        invariant AllRequestedRegistered(plugins, names[..i])
        invariant all == Elems(names[..i]) == degree.Keys
        invariant EdgesRecorded(plugins, graph, degree)
        invariant forall c :: c in degree ==> degree[c] == 0
      {
        if names[i] !in plugins {
          return Some(PluginNotFound(names[i])), graph, degree, all;
        }
        assert names[..i+1] == names[..i] + [names[i]];
        NewName(plugins, graph, degree, names[i]);
        all := all + {names[i]};
        degree := degree[names[i] := 0];
      }
      assert names[..|names|] == names;
      NeededClosed(plugins, names);
      err, graph, degree, all := CloseOver(names, NeededPlugins(plugins, names), graph, degree, all);
      if err.None? {
        CollectedAll(plugins, names, graph, degree, all);
      }
    }

    method CloseOver(names: seq<string>, ghost reach: set<string>,
                     graph0: Adjacency, degree0: map<string, int>, all0: set<string>)
      returns (err: Option<Resolution>, graph: Adjacency, degree: map<string, int>, all: set<string>)
      requires ClosedInside(plugins, reach)
      requires Recorded(plugins, reach, graph0, degree0, all0) && all0 == Elems(names)
      requires forall c :: c in degree0 ==> degree0[c] == 0
      ensures err.Some? ==> exists done, dep, user ::
        err == Some(DependencyNotFound(dep, user)) && user in reach && MissingAfter(plugins, names, done, dep, user)
      ensures err.None? ==> Recorded(plugins, reach, graph, degree, all) && Elems(names) <= all
      ensures err.None? ==> forall x :: x in all ==> Finished(plugins, degree, all, x)
    {
      graph, degree, all := graph0, degree0, all0;
      var toProcess := names;
      var processed: set<string> := {};
      ghost var done: seq<string> := [];
      FollowStart(DependencyGraph(plugins), names);
      while |toProcess| > 0
        invariant Recorded(plugins, reach, graph, degree, all) && all0 <= all
        invariant forall x :: x in processed <==> x in done
        invariant Sweeping(plugins, done, toProcess, degree, all)
        invariant InOrder(plugins, names, done, toProcess)
        decreases plugins.Keys - processed, |toProcess|
      {
        var current := toProcess[0];
        HeadAndRest(toProcess);
        toProcess := toProcess[1..];
        if current in processed {
          SweepSkips(plugins, names, done, current, toProcess, degree, all);
        } else {
          processed := processed + {current};
          TurnFollows(plugins, names, done, current, toProcess, all);
          ghost var rest, all1, degree1 := toProcess, all, degree;
          err, toProcess, graph, degree, all := AddDependencies(reach, current, toProcess, graph, degree, all);
          if err.Some? {
            return;
          }
          SweepTurns(plugins, done, current, rest, degree1, all1, toProcess, degree, all);
          done := done + [current];
        }
      }
      err := None;
    }

    /** One turn of the worklist: record every dependency of current and queue the new names. */
    method AddDependencies(ghost reach: set<string>, current: string, toProcess0: seq<string>,
                           graph0: Adjacency, degree0: map<string, int>, all0: set<string>)
      returns (err: Option<Resolution>, toProcess: seq<string>,
               graph: Adjacency, degree: map<string, int>, all: set<string>)
      requires ClosedInside(plugins, reach)
      requires Recorded(plugins, reach, graph0, degree0, all0)
      requires current in all0 && degree0[current] == 0
      ensures err.Some? ==> exists dep ::
        err == Some(DependencyNotFound(dep, current)) && FirstUnregistered(plugins, plugins[current].dependencies, dep)
      ensures err.None? ==> forall d :: d in plugins[current].dependencies ==> d in plugins
      ensures err.None? ==> Recorded(plugins, reach, graph, degree, all)
      ensures err.None? ==>
        Turned(current, |plugins[current].dependencies|, plugins[current].dependencies,
               toProcess0, degree0, all0, toProcess, degree, all)
    {
      err, toProcess, graph, degree, all := None, toProcess0, graph0, degree0, all0;
      var deps := plugins[current].dependencies;
      TurnStarts(plugins, reach, current, toProcess, graph, degree, all);
      for k := 0 to |deps|
        invariant InTurn(plugins, reach, current, k, toProcess0, degree0, all0, toProcess, graph, degree, all)
        invariant forall j :: 0 <= j < k ==> deps[j] in plugins
      {
        var dep := deps[k];
        if dep !in plugins {
          FirstMissing(plugins, deps, k);
          err := Some(DependencyNotFound(dep, current));
          return;
        }
        if dep in all {
          KnownDependency(plugins, reach, current, k, toProcess0, degree0, all0, toProcess, graph, degree, all, dep);
        } else {
          NewDependency(plugins, reach, current, k, toProcess0, degree0, all0, toProcess, graph, degree, all, dep);
          all := all + {dep};
          degree := degree[dep := 0];
          toProcess := toProcess + [dep];
        }
        graph := graph[dep := Succ(graph, dep) + [current]];
        degree := degree[current := degree[current] + 1];
      }
      TurnEnds(plugins, reach, current, toProcess0, degree0, all0, toProcess, graph, degree, all);
    }

    /** Kahn's algorithm: repeatedly list the first name of the sorted queue of names without unmet dependencies. */
    static method SortPlugins(ghost g: Adjacency, graph: Adjacency, degree0: map<string, int>, all: set<string>)
      returns (order: seq<string>)
      requires Reversed(g, all, graph) && degree0.Keys == all
      requires forall x :: x in all ==> degree0[x] == |Succ(g, x)|
      ensures Greedy(g, all, order)
      ensures forall x :: !Ready(g, all, order, x)
    {
      var degree := degree0;
      order := [];
      var queue := InitialQueue(g, degree0, all);
      while |queue| > 0
        invariant Greedy(g, all, order) && |order| <= |all|
        invariant Tracked(g, all, degree, order, [], queue)
        decreases |all| - |order|
      {
        queue := SortQueue(g, all, degree, order, queue);
        var current := queue[0];
        HeadIsFirstReady(g, all, degree, order, queue);
        GreedyExtend(g, all, order, current);
        GreedyFits(g, all, order + [current]);
        ListHead(g, all, graph, degree, order, queue);
        queue := queue[1..];
        order := order + [current];
        degree, queue := ReleaseDependents(g, all, order, Succ(graph, current), degree, queue);
      }
      assert queue == [];
      NothingReady(g, all, degree, order);
    }

    /** The names without dependencies, in whatever order the map is iterated. */
    static method InitialQueue(ghost g: Adjacency, degree: map<string, int>, all: set<string>) returns (queue: seq<string>)
      requires degree.Keys == all && forall x :: x in all ==> degree[x] == |Succ(g, x)|
      ensures Tracked(g, all, degree, [], [], queue)
    {
      queue := [];
      var rest := all;
      while rest != {}
        invariant rest <= all
        invariant forall x :: multiset(queue)[x] == if x in all - rest && degree[x] == 0 then 1 else 0
      {
        var name :| name in rest;
        rest := rest - {name};
        if degree[name] == 0 {
          queue := queue + [name];
        }
      }
      forall x ensures NameTracked(g, all, degree, [], [], queue, x) {
        PendingAll(Succ(g, x));
      }
    }

    static method SortQueue(ghost g: Adjacency, ghost all: set<string>, ghost degree: map<string, int>,
                            ghost order: seq<string>, queue0: seq<string>)
      returns (queue: seq<string>)
      requires Tracked(g, all, degree, order, [], queue0)
      ensures Tracked(g, all, degree, order, [], queue) && Sorted(queue) && |queue| == |queue0|
    {
      queue := Sort(queue0);
      assert |multiset(queue)| == |multiset(queue0)|;
      forall x ensures NameTracked(g, all, degree, order, [], queue, x) {
        assert NameTracked(g, all, degree, order, [], queue0, x);
      }
    }

    /** Lower the degrees of the dependents of a listed name, once per recorded edge. */
    static method ReleaseDependents(ghost g: Adjacency, ghost all: set<string>, ghost done: seq<string>,
                                    dependents: seq<string>, degree0: map<string, int>, queue0: seq<string>)
      returns (degree: map<string, int>, queue: seq<string>)
      requires Tracked(g, all, degree0, done, dependents, queue0)
      requires forall x :: x in dependents ==> x in all
      ensures Tracked(g, all, degree, done, [], queue)
    {
      degree, queue := degree0, queue0;
      assert dependents[0..] == dependents;
      for k := 0 to |dependents|
        invariant Tracked(g, all, degree, done, dependents[k..], queue)
      {
        var dependent := dependents[k];
        assert dependents[k..] == [dependent] + dependents[k+1..];
        LowerOne(g, all, degree, done, dependent, dependents[k+1..], queue);
        var lowered := degree[dependent] - 1;
        degree := degree[dependent := lowered];
        if lowered == 0 {
          queue := queue + [dependent];
        }
      }
      assert dependents[|dependents|..] == [];
    }
  }
}
