/** Finite directed graphs over numeric ids, and reachability by paths of length at least one. */
module Graph {
  type Id = int
  type Digraph = map<Id, set<Id>>

  predicate Edge(g: Digraph, x: Id, y: Id) {
    x in g && y in g[x]
  }

  predicate IsPath(g: Digraph, p: seq<Id>) {
    |p| >= 2 && forall i :: 0 <= i < |p| - 1 ==> Edge(g, p[i], p[i + 1])
  }

  /** There is a path with at least one edge from `x` to `y`. */
  ghost predicate Reaches(g: Digraph, x: Id, y: Id) {
    exists p: seq<Id> :: IsPath(g, p) && p[0] == x && p[|p| - 1] == y
  }

  ghost predicate Cyclic(g: Digraph) {
    exists x :: Reaches(g, x, x)
  }

  ghost predicate Subgraph(g: Digraph, g': Digraph) {
    forall x, y :: Edge(g, x, y) ==> Edge(g', x, y)
  }

  lemma EdgeReaches(g: Digraph, x: Id, y: Id)
    requires Edge(g, x, y)
    ensures Reaches(g, x, y)
  {
    assert IsPath(g, [x, y]);
  }

  lemma StepReaches(g: Digraph, x: Id, y: Id, z: Id)
    requires Edge(g, x, y) && Reaches(g, y, z)
    ensures Reaches(g, x, z)
  {
    var p :| IsPath(g, p) && p[0] == y && p[|p| - 1] == z;
    var q := [x] + p;
    assert forall i :: 1 <= i < |q| ==> q[i] == p[i - 1];
    assert IsPath(g, q) && q[|q| - 1] == z;
  }

  lemma ReachesStep(g: Digraph, x: Id, y: Id, z: Id)
    requires Reaches(g, x, y) && Edge(g, y, z)
    ensures Reaches(g, x, z)
  {
    var p :| IsPath(g, p) && p[0] == x && p[|p| - 1] == y;
    var q := p + [z];
    assert forall i :: 0 <= i < |p| ==> q[i] == p[i];
    assert IsPath(g, q) && q[|q| - 1] == z;
  }

  lemma SubgraphReaches(g: Digraph, g': Digraph, x: Id, y: Id)
    requires Subgraph(g, g') && Reaches(g, x, y)
    ensures Reaches(g', x, y)
  {
  }

  lemma TailIsPath(g: Digraph, p: seq<Id>)
    requires IsPath(g, p) && |p| > 2
    ensures IsPath(g, p[1..])
  {
  }

  /** A set closed under edges, except for edges to dead ends, holds the start of every
      edge of a path that starts in it; so no such path can end in `z` when no edge leaving the
      set's members goes to `z`. */
  lemma {:induction false} ClosedSetExcludes(g: Digraph, s: set<Id>, p: seq<Id>, z: Id)
    requires IsPath(g, p) && p[0] in s
    requires forall x, y :: x in s && Edge(g, x, y) ==> y != z && (y in g ==> y in s)
    ensures p[|p| - 1] != z
    decreases |p|
  {
    assert Edge(g, p[0], p[1]);
    if |p| > 2 {
      assert Edge(g, p[1], p[2]);
      TailIsPath(g, p);
      ClosedSetExcludes(g, s, p[1..], z);
    }
  }

  lemma {:induction false} ClosedSetHolds(g: Digraph, s: set<Id>, p: seq<Id>)
    requires IsPath(g, p) && p[0] in s
    requires forall x, y :: x in s && Edge(g, x, y) ==> y in s
    ensures p[|p| - 1] in s
    decreases |p|
  {
    assert Edge(g, p[0], p[1]);
    if |p| > 2 {
      TailIsPath(g, p);
      ClosedSetHolds(g, s, p[1..]);
    }
  }

  /** Along a path whose edges all lower a measure, the measure falls. */
  lemma {:induction false} RankFalls(g: Digraph, rank: Id -> nat, p: seq<Id>)
    requires IsPath(g, p)
    requires forall x, y :: Edge(g, x, y) ==> rank(x) > rank(y)
    ensures rank(p[0]) > rank(p[|p| - 1])
    decreases |p|
  {
    assert Edge(g, p[0], p[1]);
    if |p| > 2 {
      TailIsPath(g, p);
      RankFalls(g, rank, p[1..]);
    }
  }

  lemma RankedIsAcyclic(g: Digraph, rank: Id -> nat)
    requires forall x, y :: Edge(g, x, y) ==> rank(x) > rank(y)
    ensures !Cyclic(g)
  {
    forall x ensures !Reaches(g, x, x) {
      if Reaches(g, x, x) {
        var p :| IsPath(g, p) && p[0] == x && p[|p| - 1] == x;
        RankFalls(g, rank, p);
      }
    }
  }

  /** Walking a graph backwards. */
  lemma {:induction false} ReversedPath(g: Digraph, h: Digraph, p: seq<Id>)
    requires IsPath(g, p) && forall x, y :: Edge(g, x, y) ==> Edge(h, y, x)
    ensures Reaches(h, p[|p| - 1], p[0])
    decreases |p|
  {
    assert Edge(g, p[0], p[1]);
    if |p| == 2 {
      EdgeReaches(h, p[1], p[0]);
    } else {
      assert Edge(g, p[1], p[1 + 1]);
      TailIsPath(g, p);
      ReversedPath(g, h, p[1..]);
      ReachesStep(h, p[|p| - 1], p[1], p[0]);
    }
  }

  lemma ReversedReaches(g: Digraph, h: Digraph, x: Id, y: Id)
    requires forall x, y :: Edge(g, x, y) <==> Edge(h, y, x)
    ensures Reaches(g, x, y) <==> Reaches(h, y, x)
  {
    if Reaches(g, x, y) {
      var p :| IsPath(g, p) && p[0] == x && p[|p| - 1] == y;
      ReversedPath(g, h, p);
    }
    if Reaches(h, y, x) {
      var p :| IsPath(h, p) && p[0] == y && p[|p| - 1] == x;
      ReversedPath(h, g, p);
    }
  }
}
