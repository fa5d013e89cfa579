/**
 Plugins, the answers of the dependency resolver, and what those answers depend on.
 */
module PluginResolution {
  import opened Results
  import opened Text
  import opened Graph
  import opened BreadthFirst
  import opened TopoSort

  datatype Plugin = Plugin(
    name: string,
    version: string,
    description: string,
    repository: string,
    path: string,
    dependencies: seq<string>,
    metadata: map<string, string>)

  /** The resolver's answer: an order, or one of its three error messages. */
  datatype Resolution =
    | Resolved(order: seq<string>)
    | PluginNotFound(name: string)
    | DependencyNotFound(dep: string, user: string)
    | Circular

  type Plugins = map<string, Plugin>

  function DependencyGraph(plugins: Plugins): Adjacency {
    map name | name in plugins :: plugins[name].dependencies
  }

  /** name is requested, or a requested plugin needs it, directly or not. */
  ghost predicate Needed(plugins: Plugins, names: seq<string>, name: string) {
    Reachable(DependencyGraph(plugins), Elems(names), name)
  }

  ghost predicate AllRequestedRegistered(plugins: Plugins, names: seq<string>) {
    forall name :: name in names ==> name in plugins
  }

  ghost predicate AllNeededRegistered(plugins: Plugins, names: seq<string>) {
    forall name :: Needed(plugins, names, name) ==> name in plugins
  }

  /** The closure of the request, as a set of registered names. */
  ghost function NeededPlugins(plugins: Plugins, names: seq<string>): set<string> {
    set name | name in plugins && Needed(plugins, names, name)
  }

  ghost predicate NeededCycle(plugins: Plugins, names: seq<string>) {
    exists name :: Needed(plugins, names, name) && OnCycle(DependencyGraph(plugins), name)
  }

  /** In the breadth-first order from the request, done comes before user, its members have registered
      dependencies only, and dep is the first of user's dependencies that is not registered. */
  ghost predicate MissingAfter(plugins: Plugins, names: seq<string>, done: seq<string>, dep: string, user: string) {
    var g := DependencyGraph(plugins);
    && InBreadthFirstOrder(g, names, done + [user])
    && (forall d :: d in SuccessorsOf(g, done) ==> d in plugins)
    && FirstUnregistered(plugins, Succ(g, user), dep)
  }

  ghost predicate FirstUnregistered(plugins: Plugins, deps: seq<string>, dep: string) {
    dep !in plugins && exists k :: 0 <= k < |deps| && deps[k] == dep && forall j :: 0 <= j < k ==> deps[j] in plugins
  }

  /** What ResolveDependencies promises for each of its answers. */
  ghost predicate Answers(plugins: Plugins, names: seq<string>, r: Resolution) {
    match r
    case PluginNotFound(name) =>
      exists i :: 0 <= i < |names| && names[i] == name && name !in plugins
        && AllRequestedRegistered(plugins, names[..i])
    case DependencyNotFound(dep, user) =>
      && AllRequestedRegistered(plugins, names)
      && Needed(plugins, names, user)
      && exists done :: MissingAfter(plugins, names, done, dep, user)
    case Circular =>
      AllNeededRegistered(plugins, names) && NeededCycle(plugins, names)
    case Resolved(order) =>
      && AllNeededRegistered(plugins, names) && !NeededCycle(plugins, names)
      && LeastTopoOrder(DependencyGraph(plugins), NeededPlugins(plugins, names), order)
  }

  /** The kind of answer is decided by which names are registered and by cycles alone. */
  lemma OutcomeTrichotomy(plugins: Plugins, names: seq<string>, r: Resolution)
    requires Answers(plugins, names, r)
    ensures r.PluginNotFound? <==> !AllRequestedRegistered(plugins, names)
    ensures r.PluginNotFound? || r.DependencyNotFound? <==> !AllNeededRegistered(plugins, names)
    ensures r.Circular? <==> AllNeededRegistered(plugins, names) && NeededCycle(plugins, names)
    ensures r.Resolved? <==> AllNeededRegistered(plugins, names) && !NeededCycle(plugins, names)
  {
    match r
    case PluginNotFound(name) =>
      ReachRoot(DependencyGraph(plugins), Elems(names), name);
      assert Needed(plugins, names, name);
    case DependencyNotFound(dep, user) =>
      var done :| MissingAfter(plugins, names, done, dep, user);
      ReachStep(DependencyGraph(plugins), Elems(names), user, dep);
      assert Needed(plugins, names, dep);
    case Circular => RequestedAreNeeded(plugins, names);
    case Resolved(_) => RequestedAreNeeded(plugins, names);
  }

  lemma SuccessorsInclude(g: Adjacency, done: seq<string>, i: nat, d: string)
    requires i < |done| && d in Succ(g, done[i])
    ensures d in SuccessorsOf(g, done)
    decreases |done|
  {
    if i < |done| - 1 {
      SuccessorsInclude(g, done[..|done|-1], i, d);
    }
  }

  /** The missing dependency that is named is the first one in breadth-first order. */
  lemma MissingUnique(plugins: Plugins, names: seq<string>, done: seq<string>, dep: string, user: string,
                      done': seq<string>, dep': string, user': string)
    requires MissingAfter(plugins, names, done, dep, user) && MissingAfter(plugins, names, done', dep', user')
    requires |done| <= |done'|
    ensures dep == dep' && user == user'
  {
    var g := DependencyGraph(plugins);
    var a, b := done + [user], done' + [user'];
    OrdersAgree(g, names, a, b);
    assert b[|done|] == a[|done|] == user;
    if |done| < |done'| {
      assert done'[|done|] == user;
      SuccessorsInclude(g, done', |done|, dep);
    }
  }

  /** For each registry and request there is only one answer. */
  lemma AnswerUnique(plugins: Plugins, names: seq<string>, r: Resolution, r': Resolution)
    requires Answers(plugins, names, r) && Answers(plugins, names, r')
    ensures r == r'
  {
    OutcomeTrichotomy(plugins, names, r);
    OutcomeTrichotomy(plugins, names, r');
    match r
    case PluginNotFound(_) =>
    case DependencyNotFound(dep, user) =>
      var done :| MissingAfter(plugins, names, done, dep, user);
      var done' :| MissingAfter(plugins, names, done', r'.dep, r'.user);
      if |done| <= |done'| {
        MissingUnique(plugins, names, done, dep, user, done', r'.dep, r'.user);
      } else {
        MissingUnique(plugins, names, done', r'.dep, r'.user, done, dep, user);
      }
    case Circular =>
    case Resolved(order) =>
      LeastTopoOrderUnique(DependencyGraph(plugins), NeededPlugins(plugins, names), order, r'.order);
  }

  lemma RequestedAreNeeded(plugins: Plugins, names: seq<string>)
    requires AllNeededRegistered(plugins, names)
    ensures AllRequestedRegistered(plugins, names)
  {
    forall name | name in names ensures name in plugins {
      ReachRoot(DependencyGraph(plugins), Elems(names), name);
      assert Needed(plugins, names, name);
    }
  }

  /** What a resolved order holds: the closure of the request once each, dependencies strictly first. */
  lemma ResolvedOrderHolds(plugins: Plugins, names: seq<string>, order: seq<string>)
    requires Answers(plugins, names, Resolved(order))
    ensures forall name :: name in order <==> Needed(plugins, names, name)
    ensures NoDup(order)
    ensures forall i, d :: 0 <= i < |order| && order[i] in plugins && d in plugins[order[i]].dependencies
              ==> d in order[..i] && d !in order[i..]
    ensures forall t :: TopoOrder(DependencyGraph(plugins), NeededPlugins(plugins, names), t) ==> AtMost(order, t)
  {
    var g := DependencyGraph(plugins);
    forall name ensures name in order <==> Needed(plugins, names, name) {
      assert name in order <==> name in NeededPlugins(plugins, names);
    }
    forall i, d | 0 <= i < |order| && order[i] in plugins && d in plugins[order[i]].dependencies
      ensures d in order[..i] && d !in order[i..]
    {
      assert d in Succ(g, order[i]);
      var j :| 0 <= j < i && order[j] == d;
    }
  }

  /** Any other topological order of the closure has, where it first differs, a name that comes later in the alphabet. */
  lemma ResolvedOrderAlphabetical(plugins: Plugins, names: seq<string>, order: seq<string>, other: seq<string>)
    requires Answers(plugins, names, Resolved(order))
    requires TopoOrder(DependencyGraph(plugins), NeededPlugins(plugins, names), other) && other != order
    ensures exists i :: 0 <= i < |order| && i < |other| && order[..i] == other[..i] && Before(order[i], other[i])
  {
    assert AtMost(order, other);
    var i: nat :| SmallerAt(order, other, i);
    LessIsBefore(order[i], other[i]);
  }

  // ----- What the answer depends on -----

  /** Two registries agree on a name: both or neither know it, with the same set of dependencies. */
  ghost predicate AgreeOn(plugins: Plugins, plugins': Plugins, name: string) {
    && (name in plugins <==> name in plugins')
    && Elems(Succ(DependencyGraph(plugins), name)) == Elems(Succ(DependencyGraph(plugins'), name))
  }

  ghost predicate AgreeOnNeeded(plugins: Plugins, plugins': Plugins, names: seq<string>) {
    forall name {:trigger AgreeOn(plugins, plugins', name)} ::
      Needed(plugins, names, name) ==> AgreeOn(plugins, plugins', name)
  }

  lemma {:induction false} PathTransfers(plugins: Plugins, plugins': Plugins, names: seq<string>, p: seq<string>)
    requires AgreeOnNeeded(plugins, plugins', names)
    requires IsPath(DependencyGraph(plugins), p) && Needed(plugins, names, p[0])
    ensures IsPath(DependencyGraph(plugins'), p)
    ensures Needed(plugins, names, p[|p|-1])
  {
    var g, g' := DependencyGraph(plugins), DependencyGraph(plugins');
    if |p| > 1 {
      PathTail(g, p);
      ReachStep(g, Elems(names), p[0], p[1]);
      PathTransfers(plugins, plugins', names, p[1..]);
      assert AgreeOn(plugins, plugins', p[0]);
      assert p[1] in Elems(Succ(g, p[0]));
      forall i | 0 <= i < |p| - 1 ensures Edge(g', p, i) {
        assert i > 0 ==> Edge(g', p[1..], i - 1);
      }
    }
  }

  lemma NeededTransfers(plugins: Plugins, plugins': Plugins, names: seq<string>, names': seq<string>, name: string)
    requires AgreeOnNeeded(plugins, plugins', names) && Elems(names) == Elems(names')
    requires Needed(plugins, names, name)
    ensures Needed(plugins', names', name)
  {
    var p :| PathFromTo(DependencyGraph(plugins), p, Elems(names), name);
    ReachRoot(DependencyGraph(plugins), Elems(names), p[0]);
    PathTransfers(plugins, plugins', names, p);
    assert PathFromTo(DependencyGraph(plugins'), p, Elems(names'), name);
  }

  /** Agreement on what one request needs is agreement on what the other needs. */
  lemma AgreementSymmetric(plugins: Plugins, plugins': Plugins, names: seq<string>, names': seq<string>)
    requires AgreeOnNeeded(plugins, plugins', names) && Elems(names) == Elems(names')
    ensures AgreeOnNeeded(plugins', plugins, names')
  {
    forall name | Needed(plugins', names', name) ensures AgreeOn(plugins', plugins, name) {
      var p :| PathFromTo(DependencyGraph(plugins'), p, Elems(names'), name);
      ReachRoot(DependencyGraph(plugins), Elems(names), p[0]);
      PathComesBack(plugins, plugins', names, p);
      assert AgreeOn(plugins, plugins', name);
    }
  }

  lemma {:induction false} PathComesBack(plugins: Plugins, plugins': Plugins, names: seq<string>, p: seq<string>)
    requires AgreeOnNeeded(plugins, plugins', names)
    requires IsPath(DependencyGraph(plugins'), p) && Needed(plugins, names, p[0])
    ensures Needed(plugins, names, p[|p|-1])
  {
    if |p| > 1 {
      PathTail(DependencyGraph(plugins'), p);
      assert AgreeOn(plugins, plugins', p[0]);
      assert p[1] in Elems(Succ(DependencyGraph(plugins'), p[0]));
      assert p[1] in Elems(Succ(DependencyGraph(plugins), p[0]));
      ReachStep(DependencyGraph(plugins), Elems(names), p[0], p[1]);
      PathComesBack(plugins, plugins', names, p[1..]);
    }
  }

  lemma CycleTransfers(plugins: Plugins, plugins': Plugins, names: seq<string>, names': seq<string>)
    requires AgreeOnNeeded(plugins, plugins', names) && Elems(names) == Elems(names')
    requires NeededCycle(plugins, names)
    ensures NeededCycle(plugins', names')
  {
    var name :| Needed(plugins, names, name) && OnCycle(DependencyGraph(plugins), name);
    var p :| CycleAt(DependencyGraph(plugins), p, name);
    PathTransfers(plugins, plugins', names, p);
    assert CycleAt(DependencyGraph(plugins'), p, name);
    NeededTransfers(plugins, plugins', names, names', name);
  }

  lemma TopoOrderTransfers(plugins: Plugins, plugins': Plugins, names: seq<string>, order: seq<string>)
    requires AgreeOnNeeded(plugins, plugins', names)
    requires TopoOrder(DependencyGraph(plugins), NeededPlugins(plugins, names), order)
    ensures TopoOrder(DependencyGraph(plugins'), NeededPlugins(plugins, names), order)
  {
    var g, g' := DependencyGraph(plugins), DependencyGraph(plugins');
    forall i, d | 0 <= i < |order| && d in Succ(g', order[i]) ensures d in order[..i] {
      assert order[i] in Elems(order);
      assert AgreeOn(plugins, plugins', order[i]);
      assert d in Elems(Succ(g', order[i]));
      assert d in Elems(Succ(g, order[i]));
    }
  }

  /**
   The answer depends only on the set of requested names and on which needed names are registered
   with which set of dependencies: the order of requests, repeated requests, repeated or reordered
   dependencies, other plugins and map iteration order cannot change the kind of answer or the order.
   */
  lemma AnswerDependsOnRelationOnly(plugins: Plugins, plugins': Plugins, names: seq<string>, names': seq<string>,
                                    r: Resolution, r': Resolution)
    requires AgreeOnNeeded(plugins, plugins', names) && Elems(names) == Elems(names')
    requires Answers(plugins, names, r) && Answers(plugins', names', r')
    ensures r.PluginNotFound? <==> r'.PluginNotFound?
    ensures r.DependencyNotFound? <==> r'.DependencyNotFound?
    ensures r.Circular? <==> r'.Circular?
    ensures r.Resolved? ==> r' == r
  {
    AgreementSymmetric(plugins, plugins', names, names');
    OutcomeTrichotomy(plugins, names, r);
    OutcomeTrichotomy(plugins', names', r');
    SameRegistered(plugins, plugins', names, names');
    SameRegistered(plugins', plugins, names', names);
    if NeededCycle(plugins, names) { CycleTransfers(plugins, plugins', names, names'); }
    if NeededCycle(plugins', names') { CycleTransfers(plugins', plugins, names', names); }
    if r.Resolved? {
      SameLeastOrder(plugins, plugins', names, names', r.order, r'.order);
    }
  }

  lemma SameRegistered(plugins: Plugins, plugins': Plugins, names: seq<string>, names': seq<string>)
    requires AgreeOnNeeded(plugins, plugins', names) && AgreeOnNeeded(plugins', plugins, names')
    requires Elems(names) == Elems(names')
    ensures AllNeededRegistered(plugins', names') ==> AllNeededRegistered(plugins, names)
    ensures AllRequestedRegistered(plugins', names') ==> AllRequestedRegistered(plugins, names)
    ensures NeededPlugins(plugins, names) == NeededPlugins(plugins', names')
  {
    forall name | Needed(plugins, names, name)
      ensures Needed(plugins', names', name) && (name in plugins <==> name in plugins')
    {
      NeededTransfers(plugins, plugins', names, names', name);
      assert AgreeOn(plugins, plugins', name);
    }
    forall name | Needed(plugins', names', name)
      ensures Needed(plugins, names, name) && (name in plugins <==> name in plugins')
    {
      NeededTransfers(plugins', plugins, names', names, name);
      assert AgreeOn(plugins, plugins', name);
    }
    forall name | name in names ensures Needed(plugins, names, name) && name in names' {
      ReachRoot(DependencyGraph(plugins), Elems(names), name);
      assert name in Elems(names');
    }
  }

  lemma SameLeastOrder(plugins: Plugins, plugins': Plugins, names: seq<string>, names': seq<string>,
                       order: seq<string>, order': seq<string>)
    requires AgreeOnNeeded(plugins, plugins', names) && AgreeOnNeeded(plugins', plugins, names')
    requires NeededPlugins(plugins, names) == NeededPlugins(plugins', names')
    requires LeastTopoOrder(DependencyGraph(plugins), NeededPlugins(plugins, names), order)
    requires LeastTopoOrder(DependencyGraph(plugins'), NeededPlugins(plugins', names'), order')
    ensures order == order'
  {
    TopoOrderTransfers(plugins, plugins', names, order);
    TopoOrderTransfers(plugins', plugins, names', order');
    AtMostAntisymmetric(order, order');
  }
}
