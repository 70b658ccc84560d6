/** What a depth-first listing of modules looks like, said of the list alone: each module closes a block of
    what its dependencies brought in, in the order in which they are listed. */
module BundleListing {
  import opened Graph
  import opened BundleOrder
  import opened Sequences

  /** The places from lo up to hi are the blocks of those of `ds` that are new, in order; a dependency from
      before lo is not, nor one that is only placed later, since it is being visited itself. */
  ghost predicate Tiles(ds: seq<Path>, order: seq<Path>, start: seq<nat>, lo: nat, hi: nat)
    requires lo <= hi <= |order| == |start|
    decreases |ds|
  {
    if ds == [] then lo == hi
    else if ds[0] in order[..lo] || ds[0] !in order[..hi] then Tiles(ds[1..], order, start, lo, hi)
    else exists c :: lo <= c < hi && order[c] == ds[0] && start[c] == lo && Tiles(ds[1..], order, start, c + 1, hi)
  }

  /** The block of the k-th module starts at `start[k]` and ends with it. */
  ghost predicate Block(g: Dependencies, order: seq<Path>, start: seq<nat>, k: nat)
    requires k < |order| == |start|
  {
    start[k] <= k && order[k] in g && Tiles(g[order[k]], order, start, start[k], k)
  }

  ghost predicate Listing(g: Dependencies, order: seq<Path>, start: seq<nat>) {
    |start| == |order| && forall k :: 0 <= k < |order| ==> Block(g, order, start, k)
  }

  // ----- A visit makes a listing -----

  lemma {:induction false} TilesExtend(ds: seq<Path>, order: seq<Path>, start: seq<nat>, order': seq<Path>, start': seq<nat>,
                                       lo: nat, hi: nat)
    requires lo <= hi <= |order| == |start| && |order'| == |start'|
    requires order <= order' && start <= start' && Tiles(ds, order, start, lo, hi)
    ensures Tiles(ds, order', start', lo, hi)
    decreases |ds|
  {
    if ds != [] {
      assert order'[..lo] == order[..lo] && order'[..hi] == order[..hi];
      if ds[0] in order[..lo] || ds[0] !in order[..hi] {
        TilesExtend(ds[1..], order, start, order', start', lo, hi);
      } else {
        var c :| lo <= c < hi && order[c] == ds[0] && start[c] == lo && Tiles(ds[1..], order, start, c + 1, hi);
        TilesExtend(ds[1..], order, start, order', start', c + 1, hi);
      }
    }
  }

  lemma {:induction false} VisitIsNew(g: Dependencies, p: Path, visited: set<Path>)
    requires Closed(g) && p in g
    ensures var r := Visit(g, p, visited);
      r.0 == visited + Elements(r.1) && p in r.0 && (forall x :: x in r.1 ==> x !in visited && x in g)
    decreases g.Keys - visited, 0
  {
    if p !in visited {
      assert g.Keys - (visited + {p}) < g.Keys - visited by { assert p in g.Keys - visited; }
      VisitAllIsNew(g, g[p], visited + {p});
    }
  }

  lemma {:induction false} VisitAllIsNew(g: Dependencies, ps: seq<Path>, visited: set<Path>)
    requires Closed(g) && forall i :: 0 <= i < |ps| ==> ps[i] in g
    ensures var r := VisitAll(g, ps, visited);
      r.0 == visited + Elements(r.1) && (forall x :: x in r.1 ==> x !in visited && x in g)
    decreases g.Keys - visited, 1, |ps|
  {
    if ps != [] {
      VisitIsNew(g, ps[0], visited);
      VisitAllIsNew(g, ps[1..], Visit(g, ps[0], visited).0);
    }
  }

  lemma {:induction false} VisitLists(g: Dependencies, p: Path, visited: set<Path>, order: seq<Path>, start: seq<nat>)
    returns (start': seq<nat>)
    requires Closed(g) && p in g && Elements(order) <= visited && Listing(g, order, start)
    ensures start <= start' && Listing(g, order + Visit(g, p, visited).1, start')
    ensures var added := Visit(g, p, visited).1; p !in visited ==>
      |start'| == |order + added| && added != [] && added[|added| - 1] == p && start'[|start'| - 1] == |order|
    decreases g.Keys - visited, 0
  {
    if p in visited {
      assert order + [] == order;
      start' := start;
    } else {
      assert g.Keys - (visited + {p}) < g.Keys - visited by { assert p in g.Keys - visited; }
      var added := VisitAll(g, g[p], visited + {p}).1;
      var inner := VisitAllLists(g, g[p], visited + {p}, order, start);
      start' := inner + [|order|];
      assert order + (added + [p]) == order + added + [p];
      CloseBlock(g, p, order + added, inner, |order|);
    }
  }

  /** The module itself closes its block. */
  lemma CloseBlock(g: Dependencies, p: Path, order: seq<Path>, start: seq<nat>, lo: nat)
    requires Listing(g, order, start) && p in g && lo <= |order| && Tiles(g[p], order, start, lo, |order|)
    ensures Listing(g, order + [p], start + [lo])
  {
    var order', start' := order + [p], start + [lo];
    forall k | 0 <= k < |order'| ensures Block(g, order', start', k) {
      if k < |order| {
        assert Block(g, order, start, k);
        TilesExtend(g[order[k]], order, start, order', start', start[k], k);
      } else {
        TilesExtend(g[p], order, start, order', start', lo, |order|);
      }
    }
  }

  lemma {:induction false} VisitAllLists(g: Dependencies, ps: seq<Path>, visited: set<Path>, order: seq<Path>, start: seq<nat>)
    returns (start': seq<nat>)
    requires Closed(g) && (forall i :: 0 <= i < |ps| ==> ps[i] in g)
    requires Elements(order) <= visited && Listing(g, order, start)
    ensures var all := order + VisitAll(g, ps, visited).1;
      start <= start' && Listing(g, all, start') && Tiles(ps, all, start', |order|, |all|)
    decreases g.Keys - visited, 1, |ps|
  {
    if ps == [] {
      assert order + [] == order;
      start' := start;
    } else {
      var a := Visit(g, ps[0], visited);
      VisitIsNew(g, ps[0], visited);
      var middle := VisitLists(g, ps[0], visited, order, start);
      start' := VisitAllLists(g, ps[1..], a.0, order + a.1, middle);
      var b := VisitAll(g, ps[1..], a.0);
      VisitAllIsNew(g, ps[1..], a.0);
      assert order + (a.1 + b.1) == order + a.1 + b.1;
      FirstTile(g, ps, visited, order, a.1, b.1, middle, start');
    }
  }

  lemma FirstTile(g: Dependencies, ps: seq<Path>, visited: set<Path>, order: seq<Path>, first: seq<Path>, rest: seq<Path>,
                  middle: seq<nat>, start': seq<nat>)
    requires ps != [] && Elements(order) <= visited
    requires |middle| == |order + first| && middle <= start' && |start'| == |order + first + rest|
    requires Tiles(ps[1..], order + first + rest, start', |order + first|, |order + first + rest|)
    requires forall x :: x in first || x in rest ==> x !in visited
    requires if ps[0] in visited then first == []
      else first != [] && first[|first| - 1] == ps[0] && middle[|middle| - 1] == |order|
    ensures Tiles(ps, order + first + rest, start', |order|, |order + first + rest|)
  {
    var all := order + first + rest;
    assert all[..|order|] == order && all[..|all|] == all;
    if ps[0] in visited {
      assert all == order + rest && order + first == order;
      assert forall x :: x in all ==> x in order || x !in visited;
    } else {
      var c := |order + first| - 1;
      assert all[c] == ps[0] && start'[c] == |order|;
      assert ps[0] !in order;
    }
  }

  // ----- What a listing says about siblings -----

  predicate Before(order: seq<Path>, x: Path, y: Path) {
    exists a, b :: 0 <= a < b < |order| && order[a] == x && order[b] == y
  }

  /** x is one of the first n dependencies, or some of them leads to it. */
  ghost predicate From(g: Dependencies, ds: seq<Path>, n: nat, x: Path)
    requires n <= |ds|
  {
    exists m :: 0 <= m < n && (ds[m] == x || Reaches(GraphOf(g), ds[m], x))
  }

  ghost predicate Covered(g: Dependencies, order: seq<Path>, ds: seq<Path>, n: nat, base: nat, lo: nat)
    requires n <= |ds| && lo <= |order|
  {
    forall q :: base <= q < lo ==> From(g, ds, n, order[q])
  }

  ghost predicate Done(order: seq<Path>, ds: seq<Path>, n: nat, lo: nat, hi: nat)
    requires n <= |ds| && lo <= hi <= |order|
  {
    forall m :: 0 <= m < n ==> ds[m] in order[..lo] || ds[m] !in order[..hi]
  }

  /** What is in a block is reached from the module that closes it. */
  lemma {:induction false} BlockReached(g: Dependencies, order: seq<Path>, start: seq<nat>, k: nat, q: nat)
    requires Listing(g, order, start) && k < |order| && start[k] <= q < k
    ensures Reaches(GraphOf(g), order[k], order[q])
    decreases k, 1, 0
  {
    var p := order[k];
    assert Block(g, order, start, k) && g[p][0..] == g[p];
    var d := TileReached(g, order, start, g[p], start[k], k, q);
    assert Edge(GraphOf(g), p, d);
    EdgeReaches(GraphOf(g), p, d);
    if d != order[q] {
      StepReaches(GraphOf(g), p, d, order[q]);
    }
  }

  lemma {:induction false} TileReached(g: Dependencies, order: seq<Path>, start: seq<nat>, ds: seq<Path>, lo: nat, hi: nat, q: nat)
    returns (d: Path)
    requires Listing(g, order, start) && lo <= q < hi <= |order| && Tiles(ds, order, start, lo, hi)
    ensures d in ds && (d == order[q] || Reaches(GraphOf(g), d, order[q]))
    decreases hi, 0, |ds|
  {
    if ds[0] in order[..lo] || ds[0] !in order[..hi] {
      d := TileReached(g, order, start, ds[1..], lo, hi, q);
    } else {
      var c :| lo <= c < hi && order[c] == ds[0] && start[c] == lo && Tiles(ds[1..], order, start, c + 1, hi);
      if q <= c {
        d := ds[0];
        if q < c {
          BlockReached(g, order, start, c, q);
        }
      } else {
        d := TileReached(g, order, start, ds[1..], c + 1, hi, q);
      }
    }
  }

  /** Of two dependencies, the first in the list comes first, unless it is being visited itself or some
      dependency before the second leads to it. */
  ghost predicate InTurn(g: Dependencies, order: seq<Path>, hi: nat, ds: seq<Path>, i: nat, j: nat)
    requires i < j < |ds| && hi <= |order|
  {
    ds[i] !in order[..hi] || Before(order[..hi], ds[i], ds[j]) || From(g, ds, j, ds[j])
  }

  /** The tiles of `ds[n..]` from lo on, when those of the dependencies before make the places from base. */
  lemma {:induction false} TilesInTurn(g: Dependencies, order: seq<Path>, start: seq<nat>, ds: seq<Path>, n: nat,
                                       base: nat, lo: nat, hi: nat, i: nat, j: nat)
    requires Listing(g, order, start) && Distinct(order) && n <= |ds| && base <= lo <= hi <= |order|
    requires Tiles(ds[n..], order, start, lo, hi)
    requires Covered(g, order, ds, n, base, lo) && Done(order, ds, n, lo, hi)
    requires i < j < |ds| && n <= j && ds[j] in order[base..hi]
    ensures InTurn(g, order, hi, ds, i, j)
    decreases |ds| - n
  {
    if ds[n] in order[..lo] || ds[n] !in order[..hi] {
      if n == j {
        OldTile(g, order, ds, j, base, lo, hi);
      } else {
        OldStays(ds, n, order, start, lo, hi);
        SkipTile(g, order, ds, n, base, lo, hi);
        TilesInTurn(g, order, start, ds, n + 1, base, lo, hi, i, j);
      }
    } else {
      var c := EndOfTile(ds, n, order, start, lo, hi);
      if n == j {
        NewTile(order, ds, i, j, lo, hi, c);
      } else {
        NextTile(g, order, start, ds, n, base, lo, hi, c);
        TilesInTurn(g, order, start, ds, n + 1, base, c + 1, hi, i, j);
      }
    }
  }

  lemma OldStays(ds: seq<Path>, n: nat, order: seq<Path>, start: seq<nat>, lo: nat, hi: nat)
    requires n < |ds| && lo <= hi <= |order| == |start| && Tiles(ds[n..], order, start, lo, hi)
    requires ds[n] in order[..lo] || ds[n] !in order[..hi]
    ensures Tiles(ds[n + 1..], order, start, lo, hi)
  {
    assert ds[n..][1..] == ds[n + 1..];
  }

  lemma EndOfTile(ds: seq<Path>, n: nat, order: seq<Path>, start: seq<nat>, lo: nat, hi: nat) returns (c: nat)
    requires n < |ds| && lo <= hi <= |order| == |start| && Tiles(ds[n..], order, start, lo, hi)
    requires ds[n] !in order[..lo] && ds[n] in order[..hi]
    ensures lo <= c < hi && order[c] == ds[n] && start[c] == lo && Tiles(ds[n + 1..], order, start, c + 1, hi)
  {
    assert ds[n..][1..] == ds[n + 1..];
    c :| lo <= c < hi && order[c] == ds[n..][0] && start[c] == lo && Tiles(ds[n..][1..], order, start, c + 1, hi);
  }

  /** A dependency from before is in the block because of one before it in the list. */
  lemma OldTile(g: Dependencies, order: seq<Path>, ds: seq<Path>, j: nat, base: nat, lo: nat, hi: nat)
    requires j < |ds| && base <= lo <= hi <= |order| && Distinct(order) && Covered(g, order, ds, j, base, lo)
    requires ds[j] in order[base..hi] && (ds[j] in order[..lo] || ds[j] !in order[..hi])
    ensures From(g, ds, j, ds[j])
  {
    var q :| base <= q < hi && order[q] == ds[j];
    assert order[..hi][q] == ds[j];
    var q' :| 0 <= q' < lo && order[q'] == ds[j];
    assert q == q';
  }

  /** A new one comes after those before it in the list. */
  lemma NewTile(order: seq<Path>, ds: seq<Path>, i: nat, j: nat, lo: nat, hi: nat, c: nat)
    requires i < j < |ds| && lo <= c < hi <= |order| && order[c] == ds[j] && Done(order, ds, j, lo, hi)
    ensures ds[i] !in order[..hi] || Before(order[..hi], ds[i], ds[j])
  {
    if ds[i] in order[..hi] {
      var a :| 0 <= a < lo && order[a] == ds[i];
      assert order[..hi][a] == ds[i] && order[..hi][c] == ds[j];
    }
  }

  lemma SkipTile(g: Dependencies, order: seq<Path>, ds: seq<Path>, n: nat, base: nat, lo: nat, hi: nat)
    requires n < |ds| && base <= lo <= hi <= |order| && Covered(g, order, ds, n, base, lo) && Done(order, ds, n, lo, hi)
    requires ds[n] in order[..lo] || ds[n] !in order[..hi]
    ensures Covered(g, order, ds, n + 1, base, lo) && Done(order, ds, n + 1, lo, hi)
  {
    forall q | base <= q < lo ensures From(g, ds, n + 1, order[q]) {
      assert From(g, ds, n, order[q]);
    }
  }

  lemma NextTile(g: Dependencies, order: seq<Path>, start: seq<nat>, ds: seq<Path>, n: nat, base: nat, lo: nat, hi: nat, c: nat)
    requires Listing(g, order, start) && n < |ds| && base <= lo <= c < hi <= |order|
    requires order[c] == ds[n] && start[c] == lo
    requires Covered(g, order, ds, n, base, lo) && Done(order, ds, n, lo, hi)
    ensures Covered(g, order, ds, n + 1, base, c + 1) && Done(order, ds, n + 1, c + 1, hi)
  {
    forall q | base <= q < c + 1 ensures From(g, ds, n + 1, order[q]) {
      if q < lo {
        assert From(g, ds, n, order[q]);
      } else {
        if q < c {
          BlockReached(g, order, start, c, q);
        }
        assert ds[n] == order[q] || Reaches(GraphOf(g), ds[n], order[q]);
      }
    }
    forall m | 0 <= m < n + 1 ensures ds[m] in order[..c + 1] || ds[m] !in order[..hi] {
      if m == n {
        assert order[..c + 1][c] == ds[n];
      } else if ds[m] in order[..lo] {
        assert order[..lo] <= order[..c + 1];
      }
    }
  }

  // ----- Whole bundles -----

  /** In the block of the k-th module, its new dependencies come in turn. */
  ghost predicate BlockInTurn(g: Dependencies, order: seq<Path>, start: seq<nat>, k: nat)
    requires k < |order| == |start| && start[k] <= k && order[k] in g
  {
    forall i, j :: 0 <= i < j < |g[order[k]]| && g[order[k]][j] in order[start[k]..k] ==> InTurn(g, order, k, g[order[k]], i, j)
  }

  /** The dependencies of the root come in turn. */
  ghost predicate RootInTurn(g: Dependencies, root: Path, order: seq<Path>)
    requires root in g
  {
    forall i, j :: 0 <= i < j < |g[root]| ==> Before(order, g[root][i], g[root][j]) || From(g, g[root], j, g[root][j])
  }

  /** `start[k]`: how many modules were listed when the visit of the k-th began. */
  ghost predicate InBlocks(g: Dependencies, order: seq<Path>, start: seq<nat>) {
    && Listing(g, order, start) && order != [] && start[|order| - 1] == 0
    && forall k :: 0 <= k < |order| ==> Block(g, order, start, k) && BlockInTurn(g, order, start, k)
  }

  /** A depth-first listing from the root: exactly what it reaches, each once, each after its dependencies
      unless they depend on it in turn, and dependencies in turn. */
  ghost predicate DepthFirst(g: Dependencies, root: Path, order: seq<Path>)
    requires root in g
  {
    && Distinct(order) && order != [] && order[|order| - 1] == root
    && (forall x :: x in order <==> x == root || Reaches(GraphOf(g), root, x))
    && DependenciesFirst(g, order)
    && RootInTurn(g, root, order)
    && exists start :: InBlocks(g, order, start)
  }

  lemma ListingInTurn(g: Dependencies, order: seq<Path>, start: seq<nat>, k: nat)
    requires Listing(g, order, start) && Distinct(order) && k < |order|
    ensures Block(g, order, start, k) && BlockInTurn(g, order, start, k)
  {
    assert Block(g, order, start, k);
    var ds := g[order[k]];
    forall i, j | 0 <= i < j < |ds| && ds[j] in order[start[k]..k] ensures InTurn(g, order, k, ds, i, j) {
      assert ds[0..] == ds;
      TilesInTurn(g, order, start, ds, 0, start[k], start[k], k, i, j);
    }
  }

  lemma RootTurns(g: Dependencies, root: Path, order: seq<Path>, start: seq<nat>)
    requires Closed(g) && root in g && InBlocks(g, order, start) && Distinct(order) && order[|order| - 1] == root
    requires forall x :: x in order <==> x == root || Reaches(GraphOf(g), root, x)
    ensures RootInTurn(g, root, order)
  {
    var ds, k := g[root], |order| - 1;
    assert Block(g, order, start, k) && BlockInTurn(g, order, start, k);
    forall i, j | 0 <= i < j < |ds| ensures Before(order, ds[i], ds[j]) || From(g, ds, j, ds[j]) {
      RootTurn(g, root, order, start, i, j);
    }
  }

  lemma RootTurn(g: Dependencies, root: Path, order: seq<Path>, start: seq<nat>, i: nat, j: nat)
    requires Closed(g) && root in g && order != [] && |start| == |order| && Distinct(order) && order[|order| - 1] == root
    requires start[|order| - 1] == 0 && BlockInTurn(g, order, start, |order| - 1)
    requires forall x :: x in order <==> x == root || Reaches(GraphOf(g), root, x)
    requires i < j < |g[root]|
    ensures Before(order, g[root][i], g[root][j]) || From(g, g[root], j, g[root][j])
  {
    var ds, k := g[root], |order| - 1;
    assert Edge(GraphOf(g), root, ds[i]) && Edge(GraphOf(g), root, ds[j]);
    EdgeReaches(GraphOf(g), root, ds[i]);
    EdgeReaches(GraphOf(g), root, ds[j]);
    assert order == order[..k] + [root];
    if ds[i] != root {
      assert ds[i] in order[..k];
      if ds[j] == root {
        var a :| 0 <= a < k && order[a] == ds[i];
        assert order[k] == ds[j];
      } else {
        assert ds[j] in order[0..k];
        assert InTurn(g, order, k, ds, i, j);
        if Before(order[..k], ds[i], ds[j]) {
          var a, b :| 0 <= a < b < k && order[..k][a] == ds[i] && order[..k][b] == ds[j];
          assert order[a] == ds[i] && order[b] == ds[j];
        }
      }
    }
  }

  /** The order in which a bundle visits its modules is a depth-first listing. */
  lemma OrderIsDepthFirst(g: Dependencies, root: Path)
    requires Closed(g) && root in g
    ensures DepthFirst(g, root, Order(g, root))
  {
    var order := Order(g, root);
    BundleOrdered(g, root);
    var start := VisitLists(g, root, {}, [], []);
    assert [] + order == order;
    forall k | 0 <= k < |order| ensures Block(g, order, start, k) && BlockInTurn(g, order, start, k) {
      ListingInTurn(g, order, start, k);
    }
    RootTurns(g, root, order, start);
  }
}
