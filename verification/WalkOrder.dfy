/**
 Which of the topological orders the depth-first walk gives: the roots are taken in turn, and before
 each of them its dependencies in turn.
 */
module WalkOrder {
  import opened Results
  import opened Text
  import opened Graph
  import opened DepthFirst

  // ----- What a walk has visited -----

  /** x is listed before y. */
  ghost predicate ListedBefore(order: seq<string>, x: string, y: string) {
    exists i, j :: 0 <= i < j < |order| && order[i] == x && order[j] == y
  }

  lemma {:induction false} VisitReaches(g: Adjacency, name: string, w: Walk, roots: set<string>)
    requires name in Names(g) && Visit(g, name, w).Success?
    requires Reachable(g, roots, name) && forall x :: x in w.visited ==> Reachable(g, roots, x)
    ensures forall x :: x in Visit(g, name, w).value.visited ==> Reachable(g, roots, x)
    decreases Names(g) - w.visited - w.visiting, 0, 0
  {
    if name !in w.visited {
      forall d | d in Succ(g, name) ensures Reachable(g, roots, d) {
        ReachStep(g, roots, name, d);
      }
      VisitAllReaches(g, Succ(g, name), w.(visiting := w.visiting + {name}), roots);
    }
  }

  lemma {:induction false} VisitAllReaches(g: Adjacency, names: seq<string>, w: Walk, roots: set<string>)
    requires (forall name :: name in names ==> name in Names(g)) && VisitAll(g, names, w).Success?
    requires forall name :: name in names ==> Reachable(g, roots, name)
    requires forall x :: x in w.visited ==> Reachable(g, roots, x)
    ensures forall x :: x in VisitAll(g, names, w).value.visited ==> Reachable(g, roots, x)
    decreases Names(g) - w.visited - w.visiting, 1, |names|
  {
    if names != [] {
      VisitReaches(g, names[0], w, roots);
      VisitAllReaches(g, names[1..], Visit(g, names[0], w).value, roots);
    }
  }

  /** A walk that succeeds has visited exactly what its roots reach. */
  lemma VisitedIsReachable(g: Adjacency, roots: seq<string>)
    requires (forall r :: r in roots ==> r in Names(g)) && VisitAll(g, roots, START).Success?
    ensures var w := VisitAll(g, roots, START).value;
      Consistent(g, w) && forall x :: x in w.visited <==> Reachable(g, Elems(roots), x)
  {
    var w := VisitAll(g, roots, START).value;
    VisitAllConsistent(g, roots, START);
    forall r | r in roots ensures Reachable(g, Elems(roots), r) {
      ReachRoot(g, Elems(roots), r);
    }
    VisitAllReaches(g, roots, START, Elems(roots));
    assert Closed(g, w.visited) by {
      forall x, d | x in w.visited && d in Succ(g, x) ensures d in w.visited {
        var i :| 0 <= i < |w.order| && w.order[i] == x;
        assert d in w.order[..i];
      }
    }
    forall x | Reachable(g, Elems(roots), x) ensures x in w.visited {
      ReachableInside(g, w.visited, Elems(roots), x);
    }
  }

  // ----- Roots in turn -----

  lemma {:induction false} VisitAllInTurn(g: Adjacency, a: seq<string>, b: seq<string>, w: Walk)
    requires forall name :: name in a + b ==> name in Names(g)
    ensures VisitAll(g, a + b, w) == match VisitAll(g, a, w)
                                     case Failure(e) => Failure(e)
                                     case Success(v) => VisitAll(g, b, v)
    decreases |a|
  {
    if a == [] {
      assert a + b == b;
    } else {
      assert (a + b)[0] == a[0] && (a + b)[1..] == a[1..] + b;
      if Visit(g, a[0], w).Success? {
        VisitAllInTurn(g, a[1..], b, Visit(g, a[0], w).value);
      }
    }
  }

  lemma {:induction false} VisitExtends(g: Adjacency, name: string, w: Walk)
    requires name in Names(g) && Visit(g, name, w).Success?
    ensures w.order <= Visit(g, name, w).value.order
    decreases Names(g) - w.visited - w.visiting, 0, 0
  {
    if name !in w.visited {
      VisitAllExtends(g, Succ(g, name), w.(visiting := w.visiting + {name}));
    }
  }

  lemma {:induction false} VisitAllExtends(g: Adjacency, names: seq<string>, w: Walk)
    requires (forall name :: name in names ==> name in Names(g)) && VisitAll(g, names, w).Success?
    ensures w.order <= VisitAll(g, names, w).value.order
    decreases Names(g) - w.visited - w.visiting, 1, |names|
  {
    if names != [] {
      VisitExtends(g, names[0], w);
      VisitAllExtends(g, names[1..], Visit(g, names[0], w).value);
    }
  }

  /** What the first roots reach is listed before everything that they do not reach. */
  lemma RootsInTurn(g: Adjacency, roots: seq<string>, n: nat, x: string, y: string)
    requires (forall r :: r in roots ==> r in Names(g)) && VisitAll(g, roots, START).Success? && n <= |roots|
    requires Reachable(g, Elems(roots[..n]), x)
    requires Reachable(g, Elems(roots), y) && !Reachable(g, Elems(roots[..n]), y)
    ensures ListedBefore(VisitAll(g, roots, START).value.order, x, y)
  {
    assert roots == roots[..n] + roots[n..];
    VisitAllInTurn(g, roots[..n], roots[n..], START);
    var v, w := VisitAll(g, roots[..n], START).value, VisitAll(g, roots, START).value;
    VisitAllExtends(g, roots[n..], v);
    VisitedIsReachable(g, roots[..n]);
    VisitedIsReachable(g, roots);
    assert x in Elems(v.order) && y !in Elems(v.order) && y in Elems(w.order);
    var i :| 0 <= i < |v.order| && v.order[i] == x;
    var j :| 0 <= j < |w.order| && w.order[j] == y;
    assert w.order[i] == x;
    assert forall k :: 0 <= k < |v.order| ==> w.order[k] == v.order[k];
  }

  // ----- Dependencies in turn, before their dependent -----

  /** When everything is visited, visiting changes nothing. */
  lemma {:induction false} VisitAllDone(g: Adjacency, names: seq<string>, w: Walk)
    requires forall name :: name in names ==> name in Names(g) && name in w.visited
    ensures VisitAll(g, names, w) == Success(w)
    decreases |names|
  {
    if names != [] {
      VisitAllDone(g, names[1..], w);
    }
  }

  /** A visit that succeeds does the same with fewer names on the stack. */
  lemma {:induction false} VisitWithFewer(g: Adjacency, name: string, w: Walk, visiting: set<string>)
    requires name in Names(g) && Visit(g, name, w).Success? && visiting <= w.visiting
    ensures Visit(g, name, w.(visiting := visiting)) == Success(Visit(g, name, w).value.(visiting := visiting))
    decreases Names(g) - w.visited - w.visiting, 0, 0
  {
    if name !in w.visited {
      VisitAllWithFewer(g, Succ(g, name), w.(visiting := w.visiting + {name}), visiting + {name});
      assert visiting + {name} - {name} == visiting;
    }
  }

  lemma {:induction false} VisitAllWithFewer(g: Adjacency, names: seq<string>, w: Walk, visiting: set<string>)
    requires (forall name :: name in names ==> name in Names(g)) && VisitAll(g, names, w).Success?
    requires visiting <= w.visiting
    ensures VisitAll(g, names, w.(visiting := visiting)) == Success(VisitAll(g, names, w).value.(visiting := visiting))
    decreases Names(g) - w.visited - w.visiting, 1, |names|
  {
    if names != [] {
      VisitWithFewer(g, names[0], w, visiting);
      VisitAllWithFewer(g, names[1..], Visit(g, names[0], w).value, visiting);
    }
  }

  /** Visiting a name is visiting its dependencies in turn and then the name. */
  lemma DependenciesThenName(g: Adjacency, name: string, w: Walk)
    requires name in Names(g) && Consistent(g, w) && w.visiting == {} && Visit(g, name, w).Success?
    requires forall d :: d in Succ(g, name) ==> d in Names(g)
    ensures VisitAll(g, Succ(g, name) + [name], w) == Visit(g, name, w)
  {
    var deps := Succ(g, name);
    VisitAllInTurn(g, deps, [name], w);
    if name in w.visited {
      forall d | d in deps ensures d in w.visited {
        var i :| 0 <= i < |w.order| && w.order[i] == name;
        assert d in w.order[..i];
      }
      VisitAllDone(g, deps, w);
    } else {
      var inner := w.(visiting := {name});
      assert w.visiting + {name} == {name};
      VisitAllWithFewer(g, deps, inner, {});
      VisitAllConsistent(g, deps, inner);
      var v := VisitAll(g, deps, inner).value;
      VisitAllDone(g, deps, v);
      assert v.(visiting := {}).(visiting := {} + {name}) == v;
      assert v.visiting - {name} == {};
    }
    assert [name][1..] == [];
  }

  /** A part of the roots can be exchanged for one that has the same effect where it stands. */
  lemma PartExchanged(g: Adjacency, before: seq<string>, part: seq<string>, other: seq<string>, after: seq<string>)
    requires forall r :: r in before || r in part || r in other || r in after ==> r in Names(g)
    requires VisitAll(g, before, START).Success? ==>
      VisitAll(g, part, VisitAll(g, before, START).value) == VisitAll(g, other, VisitAll(g, before, START).value)
    ensures VisitAll(g, before + (part + after), START) == VisitAll(g, before + (other + after), START)
  {
    VisitAllInTurn(g, before, part + after, START);
    VisitAllInTurn(g, before, other + after, START);
    if VisitAll(g, before, START).Success? {
      VisitAllInTurn(g, part, after, VisitAll(g, before, START).value);
      VisitAllInTurn(g, other, after, VisitAll(g, before, START).value);
    }
  }

  lemma OneRoot(g: Adjacency, name: string, w: Walk)
    requires name in Names(g)
    ensures VisitAll(g, [name], w) == Visit(g, name, w)
  {
    assert [name][1..] == [];
  }

  lemma RootParts(roots: seq<string>, deps: seq<string>, i: nat)
    requires i < |roots|
    ensures roots == roots[..i] + ([roots[i]] + roots[i+1..])
    ensures roots[..i] + (deps + roots[i..]) == roots[..i] + ((deps + [roots[i]]) + roots[i+1..])
  {
    assert roots[i..] == [roots[i]] + roots[i+1..];
  }

  lemma PrefixSucceeds(g: Adjacency, roots: seq<string>, i: nat)
    requires (forall r :: r in roots ==> r in Names(g)) && VisitAll(g, roots, START).Success? && i < |roots|
    ensures VisitAll(g, roots[..i], START).Success?
    ensures Visit(g, roots[i], VisitAll(g, roots[..i], START).value).Success?
  {
    RootParts(roots, [], i);
    VisitAllInTurn(g, roots[..i], [roots[i]] + roots[i+1..], START);
  }

  /** The order is the same with the dependencies of a root listed as roots before it. */
  lemma RootsExpanded(g: Adjacency, roots: seq<string>, i: nat)
    requires (forall r :: r in roots ==> r in Names(g)) && VisitAll(g, roots, START).Success? && i < |roots|
    requires forall d :: d in Succ(g, roots[i]) ==> d in Names(g)
    ensures VisitAll(g, roots[..i] + (Succ(g, roots[i]) + roots[i..]), START) == VisitAll(g, roots, START)
  {
    PrefixSucceeds(g, roots, i);
    VisitAllConsistent(g, roots[..i], START);
    var w := VisitAll(g, roots[..i], START).value;
    DependenciesThenName(g, roots[i], w);
    OneRoot(g, roots[i], w);
    PartExchanged(g, roots[..i], Succ(g, roots[i]) + [roots[i]], [roots[i]], roots[i+1..]);
    RootParts(roots, Succ(g, roots[i]), i);
  }

  lemma Inserted(roots: seq<string>, deps: seq<string>, i: nat, m: nat)
    requires i <= |roots| && m <= |deps|
    ensures var longer := roots[..i] + (deps + roots[i..]);
      longer[..i+m] == roots[..i] + deps[..m] && forall x :: x in longer <==> x in roots || x in deps
  {
    assert roots == roots[..i] + roots[i..];
  }

  /** What the roots before the i-th, or the first of its dependencies, reach is listed before everything
      that they do not reach. */
  lemma DependenciesInTurn(g: Adjacency, roots: seq<string>, i: nat, m: nat, x: string, y: string)
    requires (forall r :: r in roots ==> r in Names(g)) && VisitAll(g, roots, START).Success? && i < |roots|
    requires m <= |Succ(g, roots[i])|
    requires Reachable(g, Elems(roots[..i] + Succ(g, roots[i])[..m]), x)
    requires y in roots && !Reachable(g, Elems(roots[..i] + Succ(g, roots[i])[..m]), y)
    ensures ListedBefore(VisitAll(g, roots, START).value.order, x, y)
  {
    var deps := Succ(g, roots[i]);
    SuccAreNames(g, roots[i]);
    RootsExpanded(g, roots, i);
    var longer := roots[..i] + (deps + roots[i..]);
    Inserted(roots, deps, i, m);
    ReachRoot(g, Elems(longer), y);
    RootsInTurn(g, longer, i + m, x, y);
  }

  /** A name whose dependencies are all visited is next. */
  lemma VisitNext(g: Adjacency, name: string, w: Walk)
    requires name in Names(g) && name !in w.visited && w.visiting == {}
    requires forall d :: d in Succ(g, name) ==> d in Names(g) && d in w.visited
    ensures VisitAll(g, [name], w) == Success(Walk(w.visited + {name}, {}, w.order + [name]))
  {
    assert w.visiting + {name} == {name} && {name} - {name} == {};
    VisitAllDone(g, Succ(g, name), w.(visiting := {name}));
    assert [name][1..] == [];
  }

  /** Names in an order that has dependencies first are listed in that order. */
  lemma {:induction false} OwnOrder(g: Adjacency, roots: seq<string>, n: nat)
    requires NoDup(roots) && DepsFirst(g, roots) && n <= |roots|
    requires forall r :: r in roots ==> r in Names(g)
    ensures VisitAll(g, roots[..n], START) == Success(Walk(Elems(roots[..n]), {}, roots[..n]))
  {
    if n == 0 {
      assert roots[..0] == [] && Elems(roots[..0]) == {};
    } else {
      var name, before := roots[n-1], roots[..n-1];
      var w := Walk(Elems(before), {}, before);
      OwnOrder(g, roots, n - 1);
      assert roots[..n] == before + [name];
      VisitAllInTurn(g, before, [name], START);
      SuccAreNames(g, name);
      forall d | d in Succ(g, name) ensures d in w.visited {
        assert d in before;
      }
      assert name !in before;
      VisitNext(g, name, w);
      assert Elems(roots[..n]) == Elems(before) + {name};
    }
  }
}
