/**
 The two depth-first dependency orders of the program as functions: the workspace
 manager's, which reports a cycle (Visit), and the orchestrator's, which does not
 check (Post). Both leave unchecked how deep the graph is and which names it defines.
 */
module DepthFirst {
  import opened Results
  import opened Text
  import opened Graph

  /** Every name the graph mentions. */
  function Names(g: Adjacency): set<string> {
    g.Keys + set x, d | x in g && d in g[x] :: d
  }

  lemma SuccAreNames(g: Adjacency, name: string)
    ensures forall d :: d in Succ(g, name) ==> d in Names(g)
  {}

  // ----- With cycle check -----

  /** order lists the finished names; visiting are the names on the recursion stack. */
  datatype Walk = Walk(visited: set<string>, visiting: set<string>, order: seq<string>)

  /** One call of the checking visit; the error is the name found on the recursion stack. */
  function Visit(g: Adjacency, name: string, w: Walk): (r: Result<Walk, string>)
    requires name in Names(g)
    ensures r.Success? ==> r.value.visiting == w.visiting && w.visited <= r.value.visited
    decreases Names(g) - w.visited - w.visiting, 0, 0
  {
    if name in w.visited then Success(w)
    else if name in w.visiting then Failure(name)
    else
      match VisitAll(g, Succ(g, name), w.(visiting := w.visiting + {name}))
      case Failure(e) => Failure(e)
      case Success(v) => Success(Walk(v.visited + {name}, v.visiting - {name}, v.order + [name]))
  }

  function VisitAll(g: Adjacency, names: seq<string>, w: Walk): (r: Result<Walk, string>)
    requires forall name :: name in names ==> name in Names(g)
    ensures r.Success? ==> r.value.visiting == w.visiting && w.visited <= r.value.visited
    decreases Names(g) - w.visited - w.visiting, 1, |names|
  {
    if names == [] then Success(w)
    else
      match Visit(g, names[0], w)
      case Failure(e) => Failure(e)
      case Success(v) => VisitAll(g, names[1..], v)
  }

  const START := Walk({}, {}, [])

  // ----- Without cycle check -----

  datatype Trail = Trail(visited: set<string>, order: seq<string>)

  function Post(g: Adjacency, name: string, t: Trail): (r: Trail)
    requires name in Names(g)
    ensures t.visited + {name} <= r.visited
    decreases Names(g) - t.visited, 0, 0
  {
    if name in t.visited then t
    else
      var u := PostAll(g, Succ(g, name), t.(visited := t.visited + {name}));
      u.(order := u.order + [name])
  }

  function PostAll(g: Adjacency, names: seq<string>, t: Trail): (r: Trail)
    requires forall name :: name in names ==> name in Names(g)
    ensures t.visited + Elems(names) <= r.visited
    decreases Names(g) - t.visited, 1, |names|
  {
    if names == [] then t
    else PostAll(g, names[1..], Post(g, names[0], t))
  }

  // ----- The checking walk succeeds with an order, dependencies first -----

  ghost predicate Consistent(g: Adjacency, w: Walk) {
    && w.visited == Elems(w.order)
    && NoDup(w.order) && DepsFirst(g, w.order)
    && w.visited !! w.visiting
    && w.visited + w.visiting <= Names(g)
  }

  lemma FinishName(g: Adjacency, v: Walk, name: string)
    requires Consistent(g, v) && name in v.visiting && forall d :: d in Succ(g, name) ==> d in v.visited
    ensures Consistent(g, Walk(v.visited + {name}, v.visiting - {name}, v.order + [name]))
  {
    var longer := v.order + [name];
    forall i, d | 0 <= i < |longer| && d in Succ(g, longer[i]) ensures d in longer[..i] {
      assert longer[..i] == if i < |v.order| then v.order[..i] else v.order;
    }
    assert Elems(longer) == v.visited + {name};
  }

  lemma {:induction false} VisitConsistent(g: Adjacency, name: string, w: Walk)
    requires name in Names(g) && Consistent(g, w) && Visit(g, name, w).Success?
    ensures Consistent(g, Visit(g, name, w).value)
    ensures name in Visit(g, name, w).value.visited
    decreases Names(g) - w.visited - w.visiting, 0, 0
  {
    if name !in w.visited {
      var w' := w.(visiting := w.visiting + {name});
      VisitAllConsistent(g, Succ(g, name), w');
      FinishName(g, VisitAll(g, Succ(g, name), w').value, name);
    }
  }

  lemma {:induction false} VisitAllConsistent(g: Adjacency, names: seq<string>, w: Walk)
    requires (forall name :: name in names ==> name in Names(g)) && Consistent(g, w)
    requires VisitAll(g, names, w).Success?
    ensures Consistent(g, VisitAll(g, names, w).value)
    ensures forall name :: name in names ==> name in VisitAll(g, names, w).value.visited
    decreases Names(g) - w.visited - w.visiting, 1, |names|
  {
    if names != [] {
      VisitConsistent(g, names[0], w);
      VisitAllConsistent(g, names[1..], Visit(g, names[0], w).value);
      assert names == [names[0]] + names[1..];
    }
  }

  // ----- The checking walk fails only on a cycle -----

  /** The names being visited, in call order: each depends on the next, the last one on next. */
  ghost predicate Stack(g: Adjacency, visiting: set<string>, stack: seq<string>, next: string) {
    && Elems(stack) == visiting
    && (stack != [] ==> IsPath(g, stack) && next in Succ(g, stack[|stack|-1]))
  }

  lemma {:induction false} VisitFailsOnCycle(g: Adjacency, name: string, w: Walk, stack: seq<string>)
    requires name in Names(g) && Visit(g, name, w).Failure?
    requires Stack(g, w.visiting, stack, name)
    ensures OnCycle(g, Visit(g, name, w).error)
    decreases Names(g) - w.visited - w.visiting, 0, 0
  {
    if name in w.visiting {
      assert name in Elems(stack);
      var i :| 0 <= i < |stack| && stack[i] == name;
      PathDrop(g, stack, i);
      PathExtend(g, stack[i..], name);
      assert CycleAt(g, stack[i..] + [name], name);
    } else {
      if stack == [] {
        assert IsPath(g, [name]);
      } else {
        PathExtend(g, stack, name);
      }
      assert Elems(stack + [name]) == w.visiting + {name};
      assert [] + [name] == [name];
      VisitAllFailsOnCycle(g, Succ(g, name), w.(visiting := w.visiting + {name}), stack + [name]);
    }
  }

  lemma {:induction false} VisitAllFailsOnCycle(g: Adjacency, names: seq<string>, w: Walk, stack: seq<string>)
    requires (forall name :: name in names ==> name in Names(g)) && VisitAll(g, names, w).Failure?
    requires Elems(stack) == w.visiting
    requires forall name :: name in names ==> Stack(g, w.visiting, stack, name)
    ensures OnCycle(g, VisitAll(g, names, w).error)
    decreases Names(g) - w.visited - w.visiting, 1, |names|
  {
    if Visit(g, names[0], w).Failure? {
      VisitFailsOnCycle(g, names[0], w, stack);
    } else {
      VisitAllFailsOnCycle(g, names[1..], Visit(g, names[0], w).value, stack);
    }
  }

  /** A name on a cycle has a successor, so it is a key of the graph. */
  lemma CycleHasKey(g: Adjacency, x: string)
    requires OnCycle(g, x)
    ensures x in g
  {
    var p :| CycleAt(g, p, x);
    assert Edge(g, p, 0);
  }

  /** Started from all keys, the checking walk fails exactly on cyclic graphs, naming a member of a cycle. */
  lemma CheckedWalkDecidesCycles(g: Adjacency, roots: seq<string>)
    requires Elems(roots) == g.Keys
    ensures VisitAll(g, roots, START).Failure? <==> Cyclic(g)
    ensures VisitAll(g, roots, START).Failure? ==> OnCycle(g, VisitAll(g, roots, START).error)
    ensures VisitAll(g, roots, START).Success? ==> TopoOrder(g, Names(g), VisitAll(g, roots, START).value.order)
  {
    RootsAreNames(g, roots);
    if VisitAll(g, roots, START).Failure? {
      VisitAllFailsOnCycle(g, roots, START, []);
    } else {
      VisitAllConsistent(g, roots, START);
      var w := VisitAll(g, roots, START).value;
      forall x | x in Names(g) ensures x in w.order {
        VisitedIsClosed(g, w, roots, x);
      }
      assert Elems(w.order) == Names(g);
      forall x ensures !OnCycle(g, x) {
        if x in w.order {
          OrderedHasNoCycle(g, w.order, x);
        } else if OnCycle(g, x) {
          CycleHasKey(g, x);
        }
      }
    }
  }

  lemma RootsAreNames(g: Adjacency, roots: seq<string>)
    requires Elems(roots) == g.Keys
    ensures forall name :: name in roots ==> name in Names(g)
  {}

  lemma VisitedIsClosed(g: Adjacency, w: Walk, roots: seq<string>, x: string)
    requires Consistent(g, w) && Elems(roots) == g.Keys && x in Names(g)
    requires forall name :: name in roots ==> name in w.visited
    ensures x in w.visited
  {
    if x in g {
      assert x in Elems(roots);
    } else {
      var y :| y in g && x in g[y];
      assert y in Elems(roots);
      assert y in Elems(w.order);
      var i :| 0 <= i < |w.order| && w.order[i] == y;
      assert x in w.order[..i];
      assert x in Elems(w.order);
    }
  }

  // ----- The unchecked walk follows the checking one -----

  /** The unchecked walk marks a name on entry, so what it has seen is what is visited or on the stack. */
  function Unchecked(w: Walk): Trail {
    Trail(w.visited + w.visiting, w.order)
  }

  lemma {:induction false} VisitRefinesPost(g: Adjacency, name: string, w: Walk)
    requires name in Names(g) && w.visited !! w.visiting && Visit(g, name, w).Success?
    ensures Post(g, name, Unchecked(w)) == Unchecked(Visit(g, name, w).value)
    ensures Visit(g, name, w).value.visited !! w.visiting
    decreases Names(g) - w.visited - w.visiting, 0, 0
  {
    if name !in w.visited {
      var w' := w.(visiting := w.visiting + {name});
      VisitAllRefinesPostAll(g, Succ(g, name), w');
      assert Unchecked(w') == Unchecked(w).(visited := Unchecked(w).visited + {name});
      var v := VisitAll(g, Succ(g, name), w').value;
      assert v.visited + {name} + (v.visiting - {name}) == v.visited + v.visiting;
    }
  }

  lemma {:induction false} VisitAllRefinesPostAll(g: Adjacency, names: seq<string>, w: Walk)
    requires forall name :: name in names ==> name in Names(g)
    requires w.visited !! w.visiting && VisitAll(g, names, w).Success?
    ensures PostAll(g, names, Unchecked(w)) == Unchecked(VisitAll(g, names, w).value)
    ensures VisitAll(g, names, w).value.visited !! w.visiting
    decreases Names(g) - w.visited - w.visiting, 1, |names|
  {
    if names != [] {
      VisitRefinesPost(g, names[0], w);
      VisitAllRefinesPostAll(g, names[1..], Visit(g, names[0], w).value);
    }
  }

  // ----- What the unchecked walk lists on any graph -----

  /** Everything seen is listed once, except the names in open, which are still on the stack. */
  ghost predicate Listed(g: Adjacency, t: Trail, open: set<string>) {
    && open <= t.visited <= Names(g)
    && NoDup(t.order) && Elems(t.order) == t.visited - open
    && forall x, d :: x in t.order && d in Succ(g, x) ==> d in t.visited
  }

  lemma {:induction false} PostListed(g: Adjacency, name: string, t: Trail, open: set<string>)
    requires name in Names(g) && Listed(g, t, open)
    ensures Listed(g, Post(g, name, t), open)
    decreases Names(g) - t.visited, 0, 0
  {
    if name !in t.visited {
      var t' := t.(visited := t.visited + {name});
      PostAllListed(g, Succ(g, name), t', open + {name});
      var u := PostAll(g, Succ(g, name), t');
      assert name in t'.visited && name in u.visited && name !in Elems(u.order);
      assert Elems(u.order) == u.visited - (open + {name});
      assert Elems(u.order + [name]) == Elems(u.order) + {name};
      forall d | d in Succ(g, name) ensures d in u.visited { assert d in Elems(Succ(g, name)); }
      assert Elems(u.order + [name]) == u.visited - open;
    }
  }

  lemma {:induction false} PostAllListed(g: Adjacency, names: seq<string>, t: Trail, open: set<string>)
    requires (forall name :: name in names ==> name in Names(g)) && Listed(g, t, open)
    ensures Listed(g, PostAll(g, names, t), open)
    decreases Names(g) - t.visited, 1, |names|
  {
    if names != [] {
      PostListed(g, names[0], t, open);
      PostAllListed(g, names[1..], Post(g, names[0], t), open);
    }
  }

  const EMPTY := Trail({}, [])

  /**
   Started from all keys in any order, the unchecked walk lists every name of the graph once, cyclic or
   not; its list puts dependencies first exactly when the graph is acyclic, and is then the checking walk's.
   */
  lemma UncheckedWalkListsAll(g: Adjacency, roots: seq<string>)
    requires Elems(roots) == g.Keys
    ensures var order := PostAll(g, roots, EMPTY).order;
      && NoDup(order) && Elems(order) == Names(g)
      && (DepsFirst(g, order) <==> !Cyclic(g))
      && (VisitAll(g, roots, START).Success? ==> order == VisitAll(g, roots, START).value.order)
  {
    RootsAreNames(g, roots);
    PostAllListed(g, roots, EMPTY, {});
    var t := PostAll(g, roots, EMPTY);
    forall x | x in Names(g) ensures x in t.visited {
      if x !in g {
        var y :| y in g && x in g[y];
        assert y in Elems(t.order) && x in Succ(g, y);
      }
    }
    CheckedWalkDecidesCycles(g, roots);
    if VisitAll(g, roots, START).Success? {
      assert Unchecked(START) == EMPTY;
      VisitAllRefinesPostAll(g, roots, START);
    } else {
      var x :| OnCycle(g, x);
      CycleHasKey(g, x);
      assert x in Elems(t.order);
      if DepsFirst(g, t.order) {
        OrderedHasNoCycle(g, t.order, x);
      }
    }
  }
}
