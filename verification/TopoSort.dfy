/**
 Greedy topological orders: at every position stands the alphabetically first name
 whose dependencies have all been listed. The resolver's queue computes such an
 order; here it is shown to be the alphabetically least of all topological orders,
 and to get stuck exactly on a cycle.
 */
module TopoSort {
  import opened Text
  import opened Graph

  /** x may come next after the names in done. */
  ghost predicate Ready(g: Adjacency, all: set<string>, done: seq<string>, x: string) {
    x in all && x !in done && forall d :: d in Succ(g, x) ==> d in done
  }

  /** x may come next and no name before it in the alphabet may. */
  ghost predicate FirstReady(g: Adjacency, all: set<string>, done: seq<string>, x: string) {
    Ready(g, all, done, x) && forall y :: Ready(g, all, done, y) ==> !Less(y, x)
  }

  ghost predicate Greedy(g: Adjacency, all: set<string>, order: seq<string>) {
    forall i :: 0 <= i < |order| ==> FirstReady(g, all, order[..i], order[i])
  }

  /** a is b, or a has the smaller name at the first place where they differ. */
  ghost predicate AtMost(a: seq<string>, b: seq<string>) {
    a == b || exists i :: SmallerAt(a, b, i)
  }

  ghost predicate SmallerAt(a: seq<string>, b: seq<string>, i: nat) {
    i < |a| && i < |b| && a[..i] == b[..i] && Less(a[i], b[i])
  }

  ghost predicate LeastTopoOrder(g: Adjacency, all: set<string>, order: seq<string>) {
    TopoOrder(g, all, order) && forall t :: TopoOrder(g, all, t) ==> AtMost(order, t)
  }

  lemma GreedyIsOrdered(g: Adjacency, all: set<string>, order: seq<string>)
    requires Greedy(g, all, order)
    ensures NoDup(order) && Elems(order) <= all && DepsFirst(g, order)
  {}

  /** In any topological order the name at place i is ready after the i names before it. */
  lemma TopoElementReady(g: Adjacency, all: set<string>, t: seq<string>, i: nat)
    requires TopoOrder(g, all, t) && i < |t|
    ensures Ready(g, all, t[..i], t[i])
  {}

  lemma {:induction false} GreedyAtMost(g: Adjacency, all: set<string>, order: seq<string>, t: seq<string>, k: nat)
    requires Greedy(g, all, order) && TopoOrder(g, all, order) && TopoOrder(g, all, t)
    requires k <= |order| && k <= |t| && order[..k] == t[..k]
    ensures AtMost(order, t)
    decreases |order| - k
  {
    assert |order| == |t| by {
      NoDupSize(order);
      NoDupSize(t);
    }
    if k == |order| {
      assert order[..k] == order && t[..k] == t;
    } else {
      TopoElementReady(g, all, t, k);
      assert FirstReady(g, all, order[..k], order[k]);
      LessTotal(order[k], t[k]);
      if order[k] == t[k] {
        assert order[..k+1] == order[..k] + [order[k]] && t[..k+1] == t[..k] + [t[k]];
        GreedyAtMost(g, all, order, t, k + 1);
      } else {
        assert SmallerAt(order, t, k);
      }
    }
  }

  lemma GreedyIsLeast(g: Adjacency, all: set<string>, order: seq<string>)
    requires Greedy(g, all, order) && Elems(order) == all
    ensures LeastTopoOrder(g, all, order)
  {
    GreedyIsOrdered(g, all, order);
    forall t | TopoOrder(g, all, t) ensures AtMost(order, t) {
      GreedyAtMost(g, all, order, t, 0);
    }
  }

  lemma SmallerOneWay(a: seq<string>, b: seq<string>, i: nat, j: nat)
    requires SmallerAt(a, b, i) && j < |a| && j < |b|
    ensures !SmallerAt(b, a, j)
  {
    LessIrreflexive(a[i]);
    if i == j {
      LessAsymmetric(a[i], b[i]);
    } else if i < j {
      assert a[..j][i] != b[..j][i];
    } else {
      assert a[..i][j] == b[..i][j];
      LessIrreflexive(a[j]);
    }
  }

  lemma AtMostAntisymmetric(a: seq<string>, b: seq<string>)
    requires AtMost(a, b) && AtMost(b, a)
    ensures a == b
  {
    if a != b {
      var i: nat :| SmallerAt(a, b, i);
      forall j: nat | j < |a| && j < |b| ensures !SmallerAt(b, a, j) {
        SmallerOneWay(a, b, i, j);
      }
    }
  }

  lemma LeastTopoOrderUnique(g: Adjacency, all: set<string>, a: seq<string>, b: seq<string>)
    requires LeastTopoOrder(g, all, a) && LeastTopoOrder(g, all, b)
    ensures a == b
  {
    AtMostAntisymmetric(a, b);
  }

  /** A greedy order that cannot be continued but leaves names out leaves out a cycle. */
  lemma StuckMeansCycle(g: Adjacency, all: set<string>, order: seq<string>)
    requires Greedy(g, all, order) && Closed(g, all)
    requires forall x :: !Ready(g, all, order, x)
    ensures Elems(order) == all <==> !(exists x :: x in all && OnCycle(g, x))
  {
    GreedyIsOrdered(g, all, order);
    var rest := all - Elems(order);
    if rest != {} {
      forall x | x in rest ensures Blocked(g, rest, x) {
        assert !Ready(g, all, order, x);
        var d :| d in Succ(g, x) && d !in order;
        assert d in rest;
      }
      EveryOneBlockedMeansCycle(g, rest);
    } else {
      forall x | x in all ensures x in order && !OnCycle(g, x) {
        assert x !in rest;
        OrderedHasNoCycle(g, order, x);
      }
    }
  }

  // ----- Counting unmet dependencies -----

  /** The number of entries of deps, with repetitions, that are not in done. */
  function Pending(deps: seq<string>, done: seq<string>): nat {
    if deps == [] then 0
    else (if deps[0] in done then 0 else 1) + Pending(deps[1..], done)
  }

  lemma {:induction false} PendingZero(deps: seq<string>, done: seq<string>)
    ensures Pending(deps, done) == 0 <==> forall d :: d in deps ==> d in done
  {
    if deps != [] {
      PendingZero(deps[1..], done);
      assert deps == [deps[0]] + deps[1..];
    }
  }

  lemma {:induction false} PendingAll(deps: seq<string>)
    ensures Pending(deps, []) == |deps|
  {
    if deps != [] {
      PendingAll(deps[1..]);
    }
  }

  /** Listing c meets as many entries of deps as deps has occurrences of c. */
  lemma {:induction false} PendingDrop(deps: seq<string>, done: seq<string>, c: string)
    requires c !in done
    ensures Pending(deps, done) == Pending(deps, done + [c]) + multiset(deps)[c]
  {
    if deps != [] {
      PendingDrop(deps[1..], done, c);
      assert deps == [deps[0]] + deps[1..];
    }
  }
}
