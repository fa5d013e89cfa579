/**
 Finite directed graphs given by adjacency lists: paths, reachability and cycles,
 and the two facts that tie topological orders to the absence of cycles.
 */
module Graph {
  import opened Text

  type Adjacency = map<string, seq<string>>

  /** The successors of x; none when x has no list (reading a missing Go map key gives nil). */
  function Succ(g: Adjacency, x: string): seq<string> {
    if x in g then g[x] else []
  }

  ghost predicate Edge(g: Adjacency, p: seq<string>, i: int) {
    0 <= i < |p| - 1 && p[i+1] in Succ(g, p[i])
  }

  ghost predicate IsPath(g: Adjacency, p: seq<string>) {
    p != [] && forall i {:trigger Edge(g, p, i)} :: 0 <= i < |p| - 1 ==> Edge(g, p, i)
  }

  lemma PathTail(g: Adjacency, p: seq<string>)
    requires IsPath(g, p) && |p| > 1
    ensures IsPath(g, p[1..]) && p[1] in Succ(g, p[0])
    ensures p[1..][|p[1..]|-1] == p[|p|-1]
  {
    assert Edge(g, p, 0);
    forall i | 0 <= i < |p[1..]| - 1 ensures Edge(g, p[1..], i) {
      assert Edge(g, p, i + 1);
    }
  }

  lemma PathExtend(g: Adjacency, p: seq<string>, y: string)
    requires IsPath(g, p) && y in Succ(g, p[|p|-1])
    ensures IsPath(g, p + [y])
  {
    forall i | 0 <= i < |p| ensures Edge(g, p + [y], i) {
      assert i < |p| - 1 ==> Edge(g, p, i);
    }
  }

  lemma PathDrop(g: Adjacency, p: seq<string>, k: nat)
    requires IsPath(g, p) && k < |p|
    ensures IsPath(g, p[k..])
  {
    forall i | 0 <= i < |p[k..]| - 1 ensures Edge(g, p[k..], i) {
      assert Edge(g, p, i + k);
    }
  }

  ghost predicate PathFromTo(g: Adjacency, p: seq<string>, roots: set<string>, x: string) {
    IsPath(g, p) && p[0] in roots && p[|p|-1] == x
  }

  ghost predicate Reachable(g: Adjacency, roots: set<string>, x: string) {
    exists p :: PathFromTo(g, p, roots, x)
  }

  /** A closed walk of at least one edge that starts at x; a self-loop is one. */
  ghost predicate CycleAt(g: Adjacency, p: seq<string>, x: string) {
    |p| >= 2 && PathFromTo(g, p, {x}, x)
  }

  ghost predicate OnCycle(g: Adjacency, x: string) {
    exists p :: CycleAt(g, p, x)
  }

  ghost predicate Cyclic(g: Adjacency) {
    exists x :: OnCycle(g, x)
  }

  lemma ReachRoot(g: Adjacency, roots: set<string>, x: string)
    requires x in roots
    ensures Reachable(g, roots, x)
  {
    assert PathFromTo(g, [x], roots, x);
  }

  lemma ReachStep(g: Adjacency, roots: set<string>, x: string, y: string)
    requires Reachable(g, roots, x) && y in Succ(g, x)
    ensures Reachable(g, roots, y)
  {
    var p :| PathFromTo(g, p, roots, x);
    PathExtend(g, p, y);
    assert PathFromTo(g, p + [y], roots, y);
  }

  ghost predicate Closed(g: Adjacency, s: set<string>) {
    forall x, y :: x in s && y in Succ(g, x) ==> y in s
  }

  lemma {:induction false} PathStaysInside(g: Adjacency, s: set<string>, p: seq<string>)
    requires Closed(g, s) && IsPath(g, p) && p[0] in s
    ensures forall x :: x in p ==> x in s
  {
    if |p| > 1 {
      PathTail(g, p);
      PathStaysInside(g, s, p[1..]);
      assert p == [p[0]] + p[1..];
    }
  }

  lemma ReachableInside(g: Adjacency, s: set<string>, roots: set<string>, x: string)
    requires Closed(g, s) && roots <= s && Reachable(g, roots, x)
    ensures x in s
  {
    var p :| PathFromTo(g, p, roots, x);
    PathStaysInside(g, s, p);
  }

  // ----- Topological orders -----

  /** Every successor of a listed name is listed before it. */
  ghost predicate DepsFirst(g: Adjacency, order: seq<string>) {
    forall i, d :: 0 <= i < |order| && d in Succ(g, order[i]) ==> d in order[..i]
  }

  /** order lists the members of s once each, dependencies first. */
  ghost predicate TopoOrder(g: Adjacency, s: set<string>, order: seq<string>) {
    NoDup(order) && Elems(order) == s && DepsFirst(g, order)
  }

  /** Walking an edge moves to the left in a dependencies-first order. */
  lemma {:induction false} PathMovesLeft(g: Adjacency, order: seq<string>, p: seq<string>, i: nat)
    requires NoDup(order) && DepsFirst(g, order)
    requires IsPath(g, p) && i < |order| && order[i] == p[0]
    ensures p[|p|-1] in order[..i+1]
    ensures |p| > 1 ==> p[|p|-1] in order[..i]
  {
    if |p| > 1 {
      PathTail(g, p);
      assert p[1] in order[..i];
      var j :| 0 <= j < i && order[j] == p[1];
      PathMovesLeft(g, order, p[1..], j);
    }
  }

  lemma OrderedHasNoCycle(g: Adjacency, order: seq<string>, x: string)
    requires NoDup(order) && DepsFirst(g, order) && x in order
    ensures !OnCycle(g, x)
  {
    forall p | CycleAt(g, p, x) ensures false {
      var i :| 0 <= i < |order| && order[i] == x;
      PathMovesLeft(g, order, p, i);
    }
  }

  /** x waits for some member of s. */
  ghost predicate Blocked(g: Adjacency, s: set<string>, x: string) {
    exists y :: y in Succ(g, x) && y in s
  }

  ghost predicate AllBlocked(g: Adjacency, s: set<string>) {
    forall x {:trigger Blocked(g, s, x)} :: x in s ==> Blocked(g, s, x)
  }

  /** If every member of a finite non-empty set has a successor in the set, the set holds a cycle. */
  lemma EveryOneBlockedMeansCycle(g: Adjacency, s: set<string>)
    requires s != {}
    requires AllBlocked(g, s)
    ensures exists x :: x in s && OnCycle(g, x)
  {
    var x :| x in s;
    WalkUntilRepeat(g, s, [x]);
  }

  lemma {:induction false} WalkUntilRepeat(g: Adjacency, s: set<string>, p: seq<string>)
    requires AllBlocked(g, s)
    requires IsPath(g, p) && Elems(p) <= s
    ensures exists x :: x in s && OnCycle(g, x)
    decreases s - Elems(p)
  {
    var last := p[|p|-1];
    assert last in Elems(p);
    assert Blocked(g, s, last);
    var y :| y in Succ(g, last) && y in s;
    if y in p {
      var i :| 0 <= i < |p| && p[i] == y;
      PathDrop(g, p, i);
      PathExtend(g, p[i..], y);
      assert CycleAt(g, p[i..] + [y], y);
    } else {
      PathExtend(g, p, y);
      assert Elems(p + [y]) == Elems(p) + {y};
      WalkUntilRepeat(g, s, p + [y]);
    }
  }
}
