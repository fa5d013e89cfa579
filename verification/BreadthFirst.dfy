/**
 Breadth-first orders of a graph from a list of roots, and the worklist bookkeeping that
 follows them.
 */
module BreadthFirst {
  import opened Text
  import opened Graph

  // ----- Orders -----

  /** The successors of the names in done, name after name. */
  function SuccessorsOf(g: Adjacency, done: seq<string>): seq<string> {
    if done == [] then [] else SuccessorsOf(g, done[..|done|-1]) + Succ(g, done[|done|-1])
  }

  /** What has come up once the names in done are dealt with: the roots and their successors. */
  function CameUp(g: Adjacency, roots: seq<string>, done: seq<string>): seq<string> {
    roots + SuccessorsOf(g, done)
  }

  /** x is the first entry of l that is not in done. */
  ghost predicate FirstNew(l: seq<string>, done: seq<string>, x: string) {
    x !in done && exists k :: 0 <= k < |l| && l[k] == x && forall j :: 0 <= j < k ==> l[j] in done
  }

  /** Every name is the first new one among all that came up before it. */
  ghost predicate InBreadthFirstOrder(g: Adjacency, roots: seq<string>, order: seq<string>) {
    forall i {:trigger order[..i]} :: 0 <= i < |order| ==> FirstNew(CameUp(g, roots, order[..i]), order[..i], order[i])
  }

  lemma FirstNewUnique(l: seq<string>, done: seq<string>, x: string, y: string)
    requires FirstNew(l, done, x) && FirstNew(l, done, y)
    ensures x == y
  {}

  lemma PrefixInOrder(g: Adjacency, roots: seq<string>, order: seq<string>, n: nat)
    requires InBreadthFirstOrder(g, roots, order) && n <= |order|
    ensures InBreadthFirstOrder(g, roots, order[..n])
  {
    forall i | 0 <= i < n
      ensures FirstNew(CameUp(g, roots, order[..n][..i]), order[..n][..i], order[..n][i])
    {
      assert order[..n][..i] == order[..i];
    }
  }

  lemma ExtendOrder(g: Adjacency, roots: seq<string>, order: seq<string>, x: string)
    requires InBreadthFirstOrder(g, roots, order) && FirstNew(CameUp(g, roots, order), order, x)
    ensures InBreadthFirstOrder(g, roots, order + [x])
  {
    var longer := order + [x];
    forall i | 0 <= i < |longer| ensures FirstNew(CameUp(g, roots, longer[..i]), longer[..i], longer[i]) {
      if i < |order| {
        assert longer[..i] == order[..i];
      } else {
        assert longer[..i] == order;
      }
    }
  }

  /** There is only one breadth-first order of each length. */
  lemma {:induction false} OrdersAgree(g: Adjacency, roots: seq<string>, a: seq<string>, b: seq<string>)
    requires InBreadthFirstOrder(g, roots, a) && InBreadthFirstOrder(g, roots, b) && |a| <= |b|
    ensures a == b[..|a|]
    decreases |a|
  {
    if a != [] {
      var n := |a| - 1;
      PrefixInOrder(g, roots, a, n);
      OrdersAgree(g, roots, a[..n], b);
      FirstNewUnique(CameUp(g, roots, a[..n]), a[..n], a[n], b[n]);
      assert a == a[..n] + [a[n]] && b[..|a|] == b[..n] + [b[n]];
    }
  }

  // ----- The worklist -----

  /** The entries of l that are not seen, each at its first occurrence. */
  function Fresh(l: seq<string>, seen: set<string>): (r: seq<string>)
    ensures forall x :: x in r <==> x in l && x !in seen
  {
    if l == [] then []
    else
      assert l == [l[0]] + l[1..];
      if l[0] in seen then Fresh(l[1..], seen) else [l[0]] + Fresh(l[1..], seen + {l[0]})
  }

  lemma {:induction false} FreshConcat(a: seq<string>, b: seq<string>, seen: set<string>)
    ensures Fresh(a + b, seen) == Fresh(a, seen) + Fresh(b, seen + Elems(a))
  {
    if a == [] {
      assert a + b == b && seen + Elems(a) == seen;
    } else {
      assert (a + b)[1..] == a[1..] + b;
      assert a == [a[0]] + a[1..];
      var seen' := if a[0] in seen then seen else seen + {a[0]};
      FreshConcat(a[1..], b, seen');
      assert seen' + Elems(a[1..]) == seen + Elems(a);
    }
  }

  lemma FreshOneMore(l: seq<string>, x: string, seen: set<string>)
    ensures Fresh(l + [x], seen) == Fresh(l, seen) + if x in seen + Elems(l) then [] else [x]
  {
    FreshConcat(l, [x], seen);
  }

  lemma {:induction false} FreshTwice(l: seq<string>, seen: set<string>)
    ensures Fresh(Fresh(l, seen), seen) == Fresh(l, seen)
  {
    if l != [] {
      if l[0] in seen {
        FreshTwice(l[1..], seen);
      } else {
        FreshTwice(l[1..], seen + {l[0]});
        assert Fresh(l, seen)[1..] == Fresh(l[1..], seen + {l[0]});
      }
    }
  }

  /** The head of the fresh entries is the first new one, and the rest are fresh once it is seen. */
  lemma {:induction false} FreshHead(l: seq<string>, done: seq<string>, seen: set<string>)
    requires Fresh(l, seen) != [] && seen == Elems(done)
    ensures FirstNew(l, done, Fresh(l, seen)[0])
    ensures Fresh(l, seen + {Fresh(l, seen)[0]}) == Fresh(l, seen)[1..]
  {
    var x := Fresh(l, seen)[0];
    if l[0] in seen {
      FreshHead(l[1..], done, seen);
      var k :| 0 <= k < |l[1..]| && l[1..][k] == x && forall j :: 0 <= j < k ==> l[1..][j] in done;
      forall j | 0 <= j < k + 1 ensures l[j] in done {
        assert j > 0 ==> l[j] == l[1..][j-1];
      }
      assert l[k+1] == x;
    } else {
      assert l[0] == x;
    }
  }

  /** Lists with the same fresh entries still have them when the same names are appended, or only the fresh ones. */
  lemma FreshAppend(l: seq<string>, l': seq<string>, more: seq<string>, seen: set<string>)
    requires Fresh(l, seen) == Fresh(l', seen)
    ensures Fresh(l + more, seen) == Fresh(l' + Fresh(more, seen + Elems(l')), seen)
  {
    assert forall x :: x in seen + Elems(l) <==> x in seen || x in Fresh(l, seen);
    assert forall x :: x in seen + Elems(l') <==> x in seen || x in Fresh(l', seen);
    assert seen + Elems(l) == seen + Elems(l');
    FreshConcat(l, more, seen);
    FreshConcat(l', Fresh(more, seen + Elems(l')), seen);
    FreshTwice(more, seen + Elems(l'));
  }

  /** What is still new in the worklist is what is still new of all that came up. */
  ghost predicate Follows(g: Adjacency, roots: seq<string>, done: seq<string>, toProcess: seq<string>) {
    Fresh(CameUp(g, roots, done), Elems(done)) == Fresh(toProcess, Elems(done))
  }

  lemma FollowStart(g: Adjacency, roots: seq<string>)
    ensures Follows(g, roots, [], roots)
  {
    assert CameUp(g, roots, []) == roots;
  }

  /** A turn for a new head: it is next in the order, and its unseen successors join at the end. */
  lemma FollowTurn(g: Adjacency, roots: seq<string>, done: seq<string>, current: string,
                   rest: seq<string>, all: set<string>)
    requires Follows(g, roots, done, [current] + rest) && current !in done
    requires all == Elems(done) + {current} + Elems(rest)
    ensures FirstNew(CameUp(g, roots, done), done, current)
    ensures Follows(g, roots, done + [current], rest + Fresh(Succ(g, current), all))
  {
    var l := CameUp(g, roots, done);
    var seen := Elems(done) + {current};
    assert Fresh([current] + rest, Elems(done)) == [current] + Fresh(rest, seen) by {
      assert ([current] + rest)[1..] == rest;
    }
    FreshHead(l, done, Elems(done));
    FreshAppend(l, rest, Succ(g, current), seen);
    assert Elems(done + [current]) == seen;
    NextCameUp(g, roots, done, current);
  }

  lemma NextCameUp(g: Adjacency, roots: seq<string>, done: seq<string>, x: string)
    ensures CameUp(g, roots, done + [x]) == CameUp(g, roots, done) + Succ(g, x)
    ensures SuccessorsOf(g, done + [x]) == SuccessorsOf(g, done) + Succ(g, x)
  {
    assert (done + [x])[..|done|] == done;
  }
}
