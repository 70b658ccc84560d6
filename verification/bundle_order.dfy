/** The order in which a bundle visits its modules: depth first, dependencies before dependents. */
module BundleOrder {
  import opened Graph
  import Sequences

  /** Dependency lists by path; a path stands for its file. */
  type Path = Id
  type Dependencies = map<Path, seq<Path>>

  predicate Closed(g: Dependencies) {
    forall p, i :: p in g && 0 <= i < |g[p]| ==> g[p][i] in g
  }

  function GraphOf(g: Dependencies): Digraph {
    map p | p in g :: set d | d in g[p]
  }

  /** `visit`: the visited set after, and the modules added in order. */
  function Visit(g: Dependencies, p: Path, visited: set<Path>): (r: (set<Path>, seq<Path>))
    requires Closed(g) && p in g
    ensures visited <= r.0
    decreases g.Keys - visited, 0
  {
    if p in visited then (visited, [])
    else
      assert g.Keys - (visited + {p}) < g.Keys - visited by { assert p in g.Keys - visited; }
      var r := VisitAll(g, g[p], visited + {p});
      (r.0, r.1 + [p])
  }

  function VisitAll(g: Dependencies, ps: seq<Path>, visited: set<Path>): (r: (set<Path>, seq<Path>))
    requires Closed(g) && forall i :: 0 <= i < |ps| ==> ps[i] in g
    ensures visited <= r.0
    decreases g.Keys - visited, 1, |ps|
  {
    if ps == [] then (visited, [])
    else
      var a := Visit(g, ps[0], visited);
      var b := VisitAll(g, ps[1..], a.0);
      (b.0, a.1 + b.1)
  }

  // ----- Order -----

  /** Each module's dependencies come before it, but for those that depend on it in turn. */
  ghost predicate DependenciesFirst(g: Dependencies, order: seq<Path>) {
    forall k :: 0 <= k < |order| ==> PlacedAfter(g, order[k], order[..k])
  }

  ghost predicate PlacedAfter(g: Dependencies, x: Path, before: seq<Path>) {
    forall y :: Edge(GraphOf(g), x, y) ==> y in before || Reaches(GraphOf(g), y, x)
  }

  /** A visit in progress: the modules added so far, among those visited; the rest of the visited ones
      are being visited, and each leads to `p`. */
  ghost predicate Visiting(g: Dependencies, p: Path, visited: set<Path>, order: seq<Path>) {
    && visited <= g.Keys && Sequences.Elements(order) <= visited && Sequences.Distinct(order)
    && DependenciesFirst(g, order)
    && (forall a :: a in visited && a !in order ==> Reaches(GraphOf(g), a, p))
    && (forall x, y :: x in order && Edge(GraphOf(g), x, y) ==> y in visited)
  }

  /** What a visit adds: nothing twice, dependencies first, only what the start reaches. */
  ghost predicate Added(g: Dependencies, visited: set<Path>, order: seq<Path>, visited': set<Path>, added: seq<Path>) {
    && visited' <= g.Keys && Sequences.Elements(order + added) <= visited' && Sequences.Distinct(order + added)
    && DependenciesFirst(g, order + added)
    && visited' == visited + Sequences.Elements(added) && (forall x :: x in added ==> x !in visited)
    && (forall x, y :: x in order + added && Edge(GraphOf(g), x, y) ==> y in visited')
  }

  lemma {:induction false} VisitAdds(g: Dependencies, p: Path, visited: set<Path>, order: seq<Path>)
    requires Closed(g) && p in g && Visiting(g, p, visited, order)
    ensures var r := Visit(g, p, visited); p in r.0 && Added(g, visited, order, r.0, r.1)
    ensures forall x :: x in Visit(g, p, visited).1 ==> x == p || Reaches(GraphOf(g), p, x)
    decreases g.Keys - visited, 0
  {
    if p in visited {
      assert order + [] == order;
    } else {
      assert g.Keys - (visited + {p}) < g.Keys - visited by { assert p in g.Keys - visited; }
      var r := VisitAll(g, g[p], visited + {p});
      VisitAllAdds(g, p, 0, visited + {p}, order);
      assert g[p][0..] == g[p];
      AddLast(g, p, visited, order, r.0, r.1);
    }
  }

  /** After its dependencies, the module itself. */
  lemma AddLast(g: Dependencies, p: Path, visited: set<Path>, order: seq<Path>, visited': set<Path>, added: seq<Path>)
    requires Closed(g) && p in g && p !in visited && Visiting(g, p, visited, order)
    requires Added(g, visited + {p}, order, visited', added)
    requires forall i :: 0 <= i < |g[p]| ==> g[p][i] in visited'
    ensures Added(g, visited, order, visited', added + [p])
  {
    var all := order + added;
    assert order + (added + [p]) == all + [p];
    forall y | Edge(GraphOf(g), p, y) ensures y in visited' && (y in all || Reaches(GraphOf(g), y, p)) {
      if y == p {
        EdgeReaches(GraphOf(g), p, p);
      } else if y !in added {
        assert y in visited;
      }
    }
    forall k | 0 <= k < |all + [p]| ensures PlacedAfter(g, (all + [p])[k], (all + [p])[..k]) {
      if k < |all| {
        assert (all + [p])[..k] == all[..k];
        assert PlacedAfter(g, all[k], all[..k]);
      } else {
        assert (all + [p])[..k] == all;
      }
    }
  }

  lemma {:induction false} VisitAllAdds(g: Dependencies, p: Path, i: nat, visited: set<Path>, order: seq<Path>)
    requires Closed(g) && p in g && i <= |g[p]|
    requires p in visited && p !in order
    requires visited <= g.Keys && Sequences.Elements(order) <= visited && Sequences.Distinct(order) && DependenciesFirst(g, order)
    requires forall a :: a in visited && a !in order ==> a == p || Reaches(GraphOf(g), a, p)
    requires forall x, y :: x in order && Edge(GraphOf(g), x, y) ==> y in visited
    ensures var r := VisitAll(g, g[p][i..], visited);
      Added(g, visited, order, r.0, r.1) && forall j :: i <= j < |g[p]| ==> g[p][j] in r.0
    ensures forall x :: x in VisitAll(g, g[p][i..], visited).1 ==> Reaches(GraphOf(g), p, x)
    decreases g.Keys - visited, 1, |g[p]| - i
  {
    if i == |g[p]| {
      assert order + [] == order;
    } else {
      var d := g[p][i];
      assert Edge(GraphOf(g), p, d);
      EdgeReaches(GraphOf(g), p, d);
      forall a | a in visited && a !in order ensures Reaches(GraphOf(g), a, d) {
        if a != p {
          ReachesStep(GraphOf(g), a, p, d);
        }
      }
      VisitAdds(g, d, visited, order);
      var a := Visit(g, d, visited);
      assert g[p][i..][1..] == g[p][i + 1..];
      forall x | x in a.1 ensures Reaches(GraphOf(g), p, x) {
        if x != d {
          StepReaches(GraphOf(g), p, d, x);
        }
      }
      VisitAllAdds(g, p, i + 1, a.0, order + a.1);
      var b := VisitAll(g, g[p][i + 1..], a.0);
      assert order + (a.1 + b.1) == (order + a.1) + b.1;
    }
  }

  // ----- Whole bundles -----

  function Order(g: Dependencies, root: Path): seq<Path>
    requires Closed(g) && root in g
  {
    Visit(g, root, {}).1
  }

  /** A bundle has every module its root reaches exactly once, each after its dependencies unless they
      depend on it in turn. */
  lemma BundleOrdered(g: Dependencies, root: Path)
    requires Closed(g) && root in g
    ensures Sequences.Distinct(Order(g, root)) && DependenciesFirst(g, Order(g, root))
    ensures forall x :: x in Order(g, root) <==> x == root || Reaches(GraphOf(g), root, x)
  {
    var r := Visit(g, root, {});
    VisitAdds(g, root, {}, []);
    assert [] + r.1 == r.1;
    assert r.0 == Sequences.Elements(r.1);
    forall x | Reaches(GraphOf(g), root, x) ensures x in r.1 {
      var p :| IsPath(GraphOf(g), p) && p[0] == root && p[|p| - 1] == x;
      ClosedSetHolds(GraphOf(g), r.0, p);
    }
  }

  /** On acyclic dependencies: every dependency comes before, without exception. */
  lemma BundleOrderedAcyclic(g: Dependencies, root: Path, k: nat, y: Path)
    requires Closed(g) && root in g && !Cyclic(GraphOf(g))
    requires k < |Order(g, root)| && Edge(GraphOf(g), Order(g, root)[k], y)
    ensures exists j :: 0 <= j < k && Order(g, root)[j] == y
  {
    var order := Order(g, root);
    BundleOrdered(g, root);
    assert PlacedAfter(g, order[k], order[..k]);
    if Reaches(GraphOf(g), y, order[k]) {
      StepReaches(GraphOf(g), order[k], y, order[k]);
    }
  }

  /** The visit depends only on the lists of the modules in a closed part of the graph. */
  ghost predicate AgreeOn(g: Dependencies, g': Dependencies, part: set<Path>) {
    && part <= g.Keys && part <= g'.Keys
    && (forall p :: p in part ==> g[p] == g'[p])
    && (forall p, i :: p in part && 0 <= i < |g[p]| ==> g[p][i] in part)
  }

  lemma {:induction false} VisitsAgree(g: Dependencies, g': Dependencies, part: set<Path>, p: Path, visited: set<Path>)
    requires Closed(g) && Closed(g') && AgreeOn(g, g', part) && p in part && visited <= part
    ensures Visit(g, p, visited) == Visit(g', p, visited) && Visit(g, p, visited).0 <= part
    decreases part - visited, 0
  {
    if p !in visited {
      assert part - (visited + {p}) < part - visited by { assert p in part - visited; }
      VisitAllsAgree(g, g', part, g[p], visited + {p});
    }
  }

  lemma {:induction false} VisitAllsAgree(g: Dependencies, g': Dependencies, part: set<Path>, ps: seq<Path>, visited: set<Path>)
    requires Closed(g) && Closed(g') && AgreeOn(g, g', part) && visited <= part
    requires forall i :: 0 <= i < |ps| ==> ps[i] in part
    ensures VisitAll(g, ps, visited) == VisitAll(g', ps, visited) && VisitAll(g, ps, visited).0 <= part
    decreases part - visited, 1, |ps|
  {
    if ps != [] {
      VisitsAgree(g, g', part, ps[0], visited);
      VisitAllsAgree(g, g', part, ps[1..], Visit(g, ps[0], visited).0);
    }
  }
}
