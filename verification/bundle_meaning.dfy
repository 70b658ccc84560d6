/** What a bundle of files on disk has to be, from how files parse and where requests lead alone; and that the
    cache gives it exactly when its table is current. */
module BundleMeaning {
  import opened Wrappers
  import opened BundleOrder
  import opened BundleListing
  import opened BundleTable
  import Graph
  import Sequences
  import SourceMapStack

  predicate Parses(w: Project, disk: Disk, x: Path) {
    disk(x).Some? && w.parse(disk(x).value, x).Parsed?
  }

  /** The file is missing, or parsing it throws. */
  predicate Broken(w: Project, disk: Disk, x: Path) {
    disk(x).None? || w.parse(disk(x).value, x).Throws?
  }

  function RequestsIn(w: Project, disk: Disk, x: Path): seq<string>
    requires Parses(w, disk, x)
  {
    w.parse(disk(x).value, x).requests
  }

  function SourceIn(w: Project, disk: Disk, x: Path): SourceMapStack.Source
    requires Parses(w, disk, x)
  {
    w.parse(disk(x).value, x).source
  }

  /** Some request of x leads to y. */
  ghost predicate Requests(w: Project, disk: Disk, x: Path, y: Path) {
    Parses(w, disk, x) && exists i :: 0 <= i < |RequestsIn(w, disk, x)| && w.resolve(RequestsIn(w, disk, x)[i], x) == Some(y)
  }

  ghost predicate Chain(w: Project, disk: Disk, r: seq<Path>) {
    |r| > 0 && forall i :: 0 <= i < |r| - 1 ==> Requests(w, disk, r[i], r[i + 1])
  }

  /** Requests lead from the entry to x. */
  ghost predicate Reached(w: Project, disk: Disk, entry: Path, x: Path) {
    exists r :: Chain(w, disk, r) && r[0] == entry && r[|r| - 1] == x
  }

  ghost predicate Loads(w: Project, disk: Disk, entry: Path) {
    Parses(w, disk, entry) && forall x :: Reached(w, disk, entry, x) ==> !Broken(w, disk, x)
  }

  /** The files that the requests of x lead to, in order, as far as they parse. */
  function Leads(w: Project, disk: Disk, x: Path, requests: seq<string>): seq<Path> {
    if requests == [] then []
    else
      var rest := Leads(w, disk, x, requests[1..]);
      match w.resolve(requests[0], x)
      case None => rest
      case Some(y) => if Parses(w, disk, y) then [y] + rest else rest
  }

  /** The dependencies of every file reached that parses. */
  ghost predicate RequestLists(w: Project, disk: Disk, entry: Path, g: Dependencies) {
    && (forall x :: x in g <==> Parses(w, disk, x) && Reached(w, disk, entry, x))
    && (forall x :: x in g ==> g[x] == Leads(w, disk, x, RequestsIn(w, disk, x)))
  }

  /** The bundle holds the sources of just the parsed files reached, in a depth-first listing. */
  ghost predicate Lists(w: Project, disk: Disk, entry: Path, order: seq<Path>, sources: seq<SourceMapStack.Source>) {
    && (exists g :: RequestLists(w, disk, entry, g) && entry in g && DepthFirst(g, entry, order))
    && (forall x :: x in order <==> Parses(w, disk, x) && Reached(w, disk, entry, x))
    && |sources| == |order|
    && (forall k :: 0 <= k < |order| ==> Parses(w, disk, order[k]) && sources[k] == SourceIn(w, disk, order[k]))
  }

  /** The bundle that the disk calls for: none if the entry is no module, or leads to a broken file. */
  ghost predicate Fits(w: Project, disk: Disk, entry: Path, bundle: Option<seq<SourceMapStack.Source>>) {
    && (bundle.Some? <==> Loads(w, disk, entry))
    && (bundle.Some? ==> exists order :: Lists(w, disk, entry, order, bundle.value))
  }

  // ----- What the loader computes, in these terms -----

  lemma {:induction false} RequestedMeans(w: Project, requests: seq<string>, p: Path, d: Path)
    ensures d in Requested(w, requests, p) <==> exists i :: 0 <= i < |requests| && w.resolve(requests[i], p) == Some(d)
    decreases |requests|
  {
    if requests != [] {
      RequestedMeans(w, requests[1..], p, d);
      if i :| 0 <= i < |requests| && w.resolve(requests[i], p) == Some(d) {
        assert i > 0 ==> requests[1..][i - 1] == requests[i];
      }
      if d in Requested(w, requests[1..], p) {
        var i :| 0 <= i < |requests[1..]| && w.resolve(requests[1..][i], p) == Some(d);
        assert requests[i + 1] == requests[1..][i];
      }
      if w.resolve(requests[0], p) == Some(d) {
        assert d in Requested(w, requests, p);
      }
    }
  }

  lemma AsksMeans(w: Project, disk: Disk, x: Path, y: Path)
    ensures Asks(w, disk, x, y) <==> Requests(w, disk, x, y)
  {
    if Parses(w, disk, x) {
      RequestedMeans(w, RequestsIn(w, disk, x), x, y);
    }
  }

  lemma RequestPathMeans(w: Project, disk: Disk, r: seq<Path>)
    ensures IsRequestPath(w, disk, r) <==> Chain(w, disk, r)
  {
    forall i | 0 <= i < |r| - 1 ensures Asks(w, disk, r[i], r[i + 1]) <==> Requests(w, disk, r[i], r[i + 1]) {
      AsksMeans(w, disk, r[i], r[i + 1]);
    }
  }

  /** Loading rejects if and only if requests lead to a broken file. */
  lemma RejectsMeans(w: Project, disk: Disk, p: Path)
    ensures Rejects(w, disk, p) <==> exists x :: Reached(w, disk, p, x) && Broken(w, disk, x)
  {
    if Rejects(w, disk, p) {
      var r :| IsRequestPath(w, disk, r) && r[0] == p && FileOf(w, disk, r[|r| - 1]).Throws?;
      RequestPathMeans(w, disk, r);
      assert Reached(w, disk, p, r[|r| - 1]);
    }
    if x :| Reached(w, disk, p, x) && Broken(w, disk, x) {
      var r :| Chain(w, disk, r) && r[0] == p && r[|r| - 1] == x;
      RequestPathMeans(w, disk, r);
    }
  }

  lemma {:induction false} LoadingMeans(w: Project, disk: Disk, x: Path, requests: seq<string>)
    ensures Loading(w, disk, Requested(w, requests, x)) == Leads(w, disk, x, requests)
    decreases |requests|
  {
    if requests != [] {
      LoadingMeans(w, disk, x, requests[1..]);
      var rest := Requested(w, requests[1..], x);
      match w.resolve(requests[0], x)
      case None =>
      case Some(y) =>
        assert ([y] + rest)[1..] == rest;
    }
  }

  /** Loading gives a module if and only if the file parses and requests lead to no broken one. */
  lemma SlotMeans(w: Project, disk: Disk, p: Path)
    ensures SlotOf(w, disk, p).Loaded? <==> Loads(w, disk, p)
    ensures SlotOf(w, disk, p).Loaded? ==>
      SlotOf(w, disk, p).entry.dependencies == Leads(w, disk, p, RequestsIn(w, disk, p))
      && SlotOf(w, disk, p).entry.source == SourceIn(w, disk, p)
  {
    RejectsMeans(w, disk, p);
    if Parses(w, disk, p) {
      LoadingMeans(w, disk, p, RequestsIn(w, disk, p));
    }
  }

  // ----- A new loader's table -----

  function GraphIn(t: Table): Graph.Digraph {
    GraphOf(DependenciesIn(t))
  }

  lemma EdgeMeans(w: Project, disk: Disk, t: Table, x: Path, y: Path)
    requires Consistent(w, disk, t) && x in t && t[x].Loaded?
    ensures Graph.Edge(GraphIn(t), x, y) <==> Requests(w, disk, x, y) && Parses(w, disk, y)
    ensures Graph.Edge(GraphIn(t), x, y) ==> y in t && t[y].Loaded?
  {
    assert t[x] == SlotOf(w, disk, x);
    AsksMeans(w, disk, x, y);
    LoadingMember(w, disk, RequestsOf(w, disk, x), y);
    ConsistentKept(w, disk, t);
    KeptClosed(w, disk, t);
    if Graph.Edge(GraphIn(t), x, y) {
      var i :| 0 <= i < |DependenciesIn(t)[x]| && DependenciesIn(t)[x][i] == y;
    }
  }

  lemma {:induction false} ChainIsPath(w: Project, disk: Disk, t: Table, r: seq<Path>)
    requires Consistent(w, disk, t) && Chain(w, disk, r) && |r| >= 2
    requires r[0] in t && t[r[0]].Loaded? && Parses(w, disk, r[|r| - 1])
    ensures Graph.IsPath(GraphIn(t), r)
    decreases |r|
  {
    var g := GraphIn(t);
    assert Requests(w, disk, r[0], r[0 + 1]);
    if |r| > 2 {
      assert Requests(w, disk, r[1], r[1 + 1]);
    }
    EdgeMeans(w, disk, t, r[0], r[1]);
    if |r| > 2 {
      forall i | 0 <= i < |r[1..]| - 1 ensures Requests(w, disk, r[1..][i], r[1..][i + 1]) {
        assert Requests(w, disk, r[i + 1], r[i + 1 + 1]);
      }
      ChainIsPath(w, disk, t, r[1..]);
      forall k | 0 <= k < |r| - 1 ensures Graph.Edge(g, r[k], r[k + 1]) {
        if k > 0 {
          assert Graph.Edge(g, r[1..][k - 1], r[1..][k - 1 + 1]);
        }
      }
    }
  }

  lemma PathIsChain(w: Project, disk: Disk, t: Table, r: seq<Path>)
    requires Consistent(w, disk, t) && Graph.IsPath(GraphIn(t), r)
    ensures Chain(w, disk, r) && Parses(w, disk, r[|r| - 1])
  {
    forall i | 0 <= i < |r| - 1 ensures Requests(w, disk, r[i], r[i + 1]) {
      assert Graph.Edge(GraphIn(t), r[i], r[i + 1]);
      EdgeMeans(w, disk, t, r[i], r[i + 1]);
    }
    assert Graph.Edge(GraphIn(t), r[|r| - 2], r[|r| - 2 + 1]);
    EdgeMeans(w, disk, t, r[|r| - 2], r[|r| - 1]);
  }

  /** What a loaded entry reaches in the table is what requests lead to and parses. */
  lemma ReachedMeans(w: Project, disk: Disk, t: Table, entry: Path, x: Path)
    requires Consistent(w, disk, t) && entry in t && t[entry].Loaded?
    ensures x == entry || Graph.Reaches(GraphIn(t), entry, x) <==> Parses(w, disk, x) && Reached(w, disk, entry, x)
  {
    assert t[entry] == SlotOf(w, disk, entry);
    assert Chain(w, disk, [entry]);
    if Graph.Reaches(GraphIn(t), entry, x) {
      var r :| Graph.IsPath(GraphIn(t), r) && r[0] == entry && r[|r| - 1] == x;
      PathIsChain(w, disk, t, r);
    }
    if Parses(w, disk, x) && Reached(w, disk, entry, x) && x != entry {
      var r :| Chain(w, disk, r) && r[0] == entry && r[|r| - 1] == x;
      ChainIsPath(w, disk, t, r);
    }
  }

  /** The part of the graph that the entry reaches. */
  function PartOf(g: Dependencies, order: seq<Path>): Dependencies
    requires forall i :: 0 <= i < |order| ==> order[i] in g
  {
    map x | x in Sequences.Elements(order) && x in g :: g[x]
  }

  lemma PartIsDepthFirst(g: Dependencies, entry: Path)
    requires Closed(g) && entry in g
    ensures forall i :: 0 <= i < |Order(g, entry)| ==> Order(g, entry)[i] in g
    ensures entry in PartOf(g, Order(g, entry)) && PartOf(g, Order(g, entry)).Keys == Sequences.Elements(Order(g, entry))
    ensures DepthFirst(PartOf(g, Order(g, entry)), entry, Order(g, entry))
  {
    OrderInside(g, entry);
    BundleOrdered(g, entry);
    var order := Order(g, entry);
    var part := PartOf(g, order);
    forall p, i | p in part && 0 <= i < |part[p]| ensures part[p][i] in part {
      var d := part[p][i];
      assert Graph.Edge(GraphOf(g), p, d);
      if p == entry {
        Graph.EdgeReaches(GraphOf(g), p, d);
      } else {
        Graph.ReachesStep(GraphOf(g), entry, p, d);
      }
      assert d in order;
      var k :| 0 <= k < |order| && order[k] == d;
    }
    VisitsAgree(g, part, part.Keys, entry, {});
    OrderIsDepthFirst(part, entry);
  }

  /** A new loader's bundle is the one that the disk calls for. */
  lemma ConsistentFits(w: Project, disk: Disk, t: Table, entry: Path)
    requires Consistent(w, disk, t) && entry in t
    ensures Closed(DependenciesIn(t)) && Fits(w, disk, entry, BundleOf(t, entry))
  {
    ConsistentKept(w, disk, t);
    KeptClosed(w, disk, t);
    SlotMeans(w, disk, entry);
    assert t[entry] == SlotOf(w, disk, entry);
    if t[entry].Loaded? {
      var g := DependenciesIn(t);
      var order := Order(g, entry);
      PartIsDepthFirst(g, entry);
      OrderListed(w, disk, t, entry);
      forall k | 0 <= k < |order|
        ensures Parses(w, disk, order[k]) && BundleOf(t, entry).value[k] == SourceIn(w, disk, order[k])
      {
        var x := order[k];
        assert x in order && x in g && t[x] == SlotOf(w, disk, x);
        SlotMeans(w, disk, x);
      }
      PartListsRequests(w, disk, t, entry);
      assert Lists(w, disk, entry, order, BundleOf(t, entry).value);
    }
  }

  lemma OrderListed(w: Project, disk: Disk, t: Table, entry: Path)
    requires Consistent(w, disk, t) && entry in t && t[entry].Loaded? && Closed(DependenciesIn(t))
    ensures forall x :: x in Order(DependenciesIn(t), entry) <==> Parses(w, disk, x) && Reached(w, disk, entry, x)
  {
    BundleOrdered(DependenciesIn(t), entry);
    forall x ensures x in Order(DependenciesIn(t), entry) <==> Parses(w, disk, x) && Reached(w, disk, entry, x) {
      ReachedMeans(w, disk, t, entry, x);
    }
  }

  lemma PartListsRequests(w: Project, disk: Disk, t: Table, entry: Path)
    requires Consistent(w, disk, t) && entry in t && t[entry].Loaded? && Closed(DependenciesIn(t))
    ensures forall i :: 0 <= i < |Order(DependenciesIn(t), entry)| ==> Order(DependenciesIn(t), entry)[i] in DependenciesIn(t)
    ensures RequestLists(w, disk, entry, PartOf(DependenciesIn(t), Order(DependenciesIn(t), entry)))
  {
    var g := DependenciesIn(t);
    PartIsDepthFirst(g, entry);
    OrderListed(w, disk, t, entry);
    var part := PartOf(g, Order(g, entry));
    forall x | x in part ensures Parses(w, disk, x) && part[x] == Leads(w, disk, x, RequestsIn(w, disk, x)) {
      assert t[x] == SlotOf(w, disk, x);
      SlotMeans(w, disk, x);
    }
  }

  /** The table has p, as a module if and only if it loads, and with it all that it leads to. */
  ghost predicate Complete(w: Project, disk: Disk, t: Table, p: Path) {
    && p in t && (t[p].Loaded? <==> Loads(w, disk, p))
    && (t[p].Loaded? ==> forall x :: Reached(w, disk, p, x) ==> x in t && (t[x].Loaded? <==> Parses(w, disk, x)))
  }

  lemma {:induction false} ChainHeld(w: Project, disk: Disk, t: Table, r: seq<Path>)
    requires Consistent(w, disk, t) && Chain(w, disk, r) && r[0] in t && t[r[0]].Loaded?
    ensures r[|r| - 1] in t && (t[r[|r| - 1]].Loaded? <==> Parses(w, disk, r[|r| - 1]))
    decreases |r|
  {
    ConsistentKept(w, disk, t);
    assert t[r[0]] == SlotOf(w, disk, r[0]) && EntryKept(w, disk, t, r[0], t[r[0]].entry);
    if |r| > 1 {
      assert Requests(w, disk, r[0], r[0 + 1]);
      AsksMeans(w, disk, r[0], r[1]);
      assert t[r[1]] == SlotOf(w, disk, r[1]);
      RejectsStep(w, disk, r[1]);
      if |r| > 2 {
        assert Requests(w, disk, r[1], r[1 + 1]);
        forall i | 0 <= i < |r[1..]| - 1 ensures Requests(w, disk, r[1..][i], r[1..][i + 1]) {
          assert Requests(w, disk, r[i + 1], r[i + 1 + 1]);
        }
        ChainHeld(w, disk, t, r[1..]);
      }
    }
  }

  lemma ConsistentComplete(w: Project, disk: Disk, t: Table, p: Path)
    requires Consistent(w, disk, t) && p in t
    ensures Complete(w, disk, t, p)
  {
    SlotMeans(w, disk, p);
    assert t[p] == SlotOf(w, disk, p);
    if t[p].Loaded? {
      forall x | Reached(w, disk, p, x) ensures x in t && (t[x].Loaded? <==> Parses(w, disk, x)) {
        var r :| Chain(w, disk, r) && r[0] == p && r[|r| - 1] == x;
        ChainHeld(w, disk, t, r);
      }
    }
  }

  // ----- The cache -----

  /** The bundle of a patched table is the one that the disk calls for if and only if the table is current. */
  lemma BundleFits(w: Project, disk: Disk, t: Table, entry: Path)
    requires Kept(w, disk, t) && Minimal(w, t, entry)
    ensures Closed(DependenciesIn(t)) && (Fits(w, disk, entry, BundleOf(t, entry)) <==> Current(w, disk, t, entry))
  {
    KeptClosed(w, disk, t);
    SlotMeans(w, disk, entry);
    if t[entry].Loaded? {
      if SlotsCurrent(w, disk, t) {
        KeptConsistent(w, disk, t);
        ConsistentFits(w, disk, t, entry);
      } else {
        var p :| p in t && !SlotCurrent(w, disk, p, t[p]);
        NoneRejected(w, disk, t, entry, p);
        if q :| q in t && FileOf(w, disk, q).Throws? {
          ThrowingRejects(w, disk, t, entry, q);
        } else {
          ModuleMissing(w, disk, t, entry, p);
        }
      }
    }
  }

  /** A file of the table that came to parse is missing from its bundle. */
  lemma ModuleMissing(w: Project, disk: Disk, t: Table, entry: Path, p: Path)
    requires Kept(w, disk, t) && NoneThrows(w, disk, t) && Minimal(w, t, entry) && t[entry].Loaded?
    requires Closed(DependenciesIn(t)) && p in t && t[p].NotAModule? && FileOf(w, disk, p).Parsed?
    ensures !Fits(w, disk, entry, BundleOf(t, entry))
  {
    var g := DependenciesIn(t);
    OrderInside(g, entry);
    if Fits(w, disk, entry, BundleOf(t, entry)) {
      var order :| Lists(w, disk, entry, order, BundleOf(t, entry).value);
      BundledAreListed(w, disk, t, entry, order, BundleOf(t, entry).value);
      HeldReached(w, disk, t, entry, p);
      BundleOrdered(g, entry);
      assert p in order && p !in Order(g, entry);
      MoreElements(Order(g, entry), order, p);
    }
  }

  lemma MoreElements(a: seq<Path>, b: seq<Path>, p: Path)
    requires Sequences.Distinct(a) && Sequences.Distinct(b) && p in b && p !in a && forall x :: x in a ==> x in b
    ensures |a| < |b|
  {
    var c, d := Sequences.Elements(a), Sequences.Elements(b);
    CountElements(a);
    CountElements(b);
    assert p in d && p !in c && c <= d;
    assert d == c + (d - c);
  }

  lemma HeldEdgeMeans(w: Project, disk: Disk, t: Table, x: Path, y: Path)
    requires Kept(w, disk, t) && NoneThrows(w, disk, t) && Graph.Edge(HeldGraph(w, t), x, y)
    ensures Requests(w, disk, x, y)
  {
    assert EntryKept(w, disk, t, x, t[x].entry);
    AsksMeans(w, disk, x, y);
  }

  /** What the table asked for is reached. */
  lemma HeldReached(w: Project, disk: Disk, t: Table, entry: Path, x: Path)
    requires Kept(w, disk, t) && NoneThrows(w, disk, t)
    requires x == entry || Graph.Reaches(HeldGraph(w, t), entry, x)
    ensures Reached(w, disk, entry, x)
  {
    if x == entry {
      assert Chain(w, disk, [entry]);
    } else {
      var r :| Graph.IsPath(HeldGraph(w, t), r) && r[0] == entry && r[|r| - 1] == x;
      forall i | 0 <= i < |r| - 1 ensures Requests(w, disk, r[i], r[i + 1]) {
        assert Graph.Edge(HeldGraph(w, t), r[i], r[i + 1]);
        HeldEdgeMeans(w, disk, t, r[i], r[i + 1]);
      }
      assert Chain(w, disk, r);
    }
  }

  lemma BundledAreListed(w: Project, disk: Disk, t: Table, entry: Path, order: seq<Path>, sources: seq<SourceMapStack.Source>)
    requires Kept(w, disk, t) && NoneThrows(w, disk, t) && Minimal(w, t, entry) && t[entry].Loaded?
    requires Closed(DependenciesIn(t)) && Lists(w, disk, entry, order, sources)
    ensures forall x :: x in Order(DependenciesIn(t), entry) ==> x in order
  {
    var g := DependenciesIn(t);
    BundleOrdered(g, entry);
    OrderInside(g, entry);
    DependenciesAreHeld(w, disk, t);
    forall x | x in Order(g, entry) ensures x in order {
      var i :| 0 <= i < |Order(g, entry)| && Order(g, entry)[i] == x;
      assert x in g && EntryKept(w, disk, t, x, t[x].entry);
      if x != entry {
        Graph.SubgraphReaches(GraphOf(g), HeldGraph(w, t), entry, x);
      }
      HeldReached(w, disk, t, entry, x);
    }
  }

  // ----- The order, in the simplest case -----

  /** The requests of the entry lead to different files without requests of their own. */
  ghost predicate OnlyLeaves(w: Project, disk: Disk, entry: Path, ds: seq<Path>) {
    && Parses(w, disk, entry) && |RequestsIn(w, disk, entry)| == |ds| && Sequences.Distinct(ds) && entry !in ds
    && (forall i :: 0 <= i < |ds| ==> w.resolve(RequestsIn(w, disk, entry)[i], entry) == Some(ds[i]))
    && (forall i :: 0 <= i < |ds| ==> Parses(w, disk, ds[i]) && RequestsIn(w, disk, ds[i]) == [])
  }

  /** Then these are bundled in the order in which they are requested, and the entry last. */
  lemma LeavesInTurn(w: Project, disk: Disk, entry: Path, ds: seq<Path>, order: seq<Path>, sources: seq<SourceMapStack.Source>)
    requires OnlyLeaves(w, disk, entry, ds) && Lists(w, disk, entry, order, sources)
    ensures order == ds + [entry]
  {
    var g :| RequestLists(w, disk, entry, g) && entry in g && DepthFirst(g, entry, order);
    LeadsToAll(w, disk, entry, RequestsIn(w, disk, entry), ds);
    LeavesReachNothing(w, disk, entry, ds, g);
    LeavesListed(g, entry, order, ds);
  }

  lemma LeavesListed(g: Dependencies, entry: Path, order: seq<Path>, ds: seq<Path>)
    requires entry in g && DepthFirst(g, entry, order) && g[entry] == ds && entry !in ds && Sequences.Distinct(ds)
    requires forall i, x :: 0 <= i < |ds| ==> !Graph.Reaches(GraphOf(g), ds[i], x)
    requires forall x :: Graph.Reaches(GraphOf(g), entry, x) ==> x in ds
    ensures order == ds + [entry]
  {
    var front := order[..|order| - 1];
    assert order == front + [entry];
    FrontIsLeaves(g, entry, order, ds);
    FrontInTurn(g, entry, order, ds);
    SameOrder(ds, front);
  }

  lemma FrontIsLeaves(g: Dependencies, entry: Path, order: seq<Path>, ds: seq<Path>)
    requires entry in g && DepthFirst(g, entry, order) && g[entry] == ds && entry !in ds
    requires forall x :: Graph.Reaches(GraphOf(g), entry, x) ==> x in ds
    ensures forall x :: x in ds <==> x in order[..|order| - 1]
  {
    var front := order[..|order| - 1];
    forall x ensures x in ds <==> x in front {
      if x in front {
        assert x in order;
      }
      if x in ds {
        assert Graph.Edge(GraphOf(g), entry, x);
        Graph.EdgeReaches(GraphOf(g), entry, x);
      }
    }
  }

  lemma FrontInTurn(g: Dependencies, entry: Path, order: seq<Path>, ds: seq<Path>)
    requires entry in g && g[entry] == ds && entry !in ds && Sequences.Distinct(ds) && RootInTurn(g, entry, order)
    requires order != [] && order[|order| - 1] == entry
    requires forall i, x :: 0 <= i < |ds| ==> !Graph.Reaches(GraphOf(g), ds[i], x)
    ensures forall i, j :: 0 <= i < j < |ds| ==> Before(order[..|order| - 1], ds[i], ds[j])
  {
    var front := order[..|order| - 1];
    forall i, j | 0 <= i < j < |ds| ensures Before(front, ds[i], ds[j]) {
      assert !From(g, ds, j, ds[j]);
      var a, b :| 0 <= a < b < |order| && order[a] == ds[i] && order[b] == ds[j];
      assert front[a] == ds[i] && front[b] == ds[j];
    }
  }

  lemma {:induction false} LeadsToAll(w: Project, disk: Disk, x: Path, requests: seq<string>, ds: seq<Path>)
    requires |requests| == |ds|
    requires forall i :: 0 <= i < |ds| ==> w.resolve(requests[i], x) == Some(ds[i]) && Parses(w, disk, ds[i])
    ensures Leads(w, disk, x, requests) == ds
  {
    if ds != [] {
      LeadsToAll(w, disk, x, requests[1..], ds[1..]);
    }
  }

  lemma LeavesReachNothing(w: Project, disk: Disk, entry: Path, ds: seq<Path>, g: Dependencies)
    requires OnlyLeaves(w, disk, entry, ds) && RequestLists(w, disk, entry, g) && entry in g && g[entry] == ds
    ensures forall i, x :: 0 <= i < |ds| ==> !Graph.Reaches(GraphOf(g), ds[i], x)
    ensures forall x :: Graph.Reaches(GraphOf(g), entry, x) ==> x in ds
  {
    var h := GraphOf(g);
    forall y, x | y in ds ensures !Graph.Edge(h, y, x) {
      var i :| 0 <= i < |ds| && ds[i] == y;
      assert y in g ==> g[y] == Leads(w, disk, y, []);
    }
    forall i, x | 0 <= i < |ds| ensures !Graph.Reaches(h, ds[i], x) {
      if r :| Graph.IsPath(h, r) && r[0] == ds[i] {
        assert Graph.Edge(h, r[0], r[0 + 1]);
      }
    }
    forall x | Graph.Reaches(h, entry, x) ensures x in ds {
      var r :| Graph.IsPath(h, r) && r[0] == entry && r[|r| - 1] == x;
      PathStays(h, entry, ds, r);
    }
  }

  lemma {:induction false} PathStays(h: Graph.Digraph, entry: Path, ds: seq<Path>, r: seq<Path>)
    requires Graph.IsPath(h, r) && r[0] == entry
    requires forall y, z :: (y == entry || y in ds) && Graph.Edge(h, y, z) ==> z in ds
    ensures r[|r| - 1] in ds
    decreases |r|
  {
    if |r| > 2 {
      var front := r[..|r| - 1];
      forall k | 0 <= k < |front| - 1 ensures Graph.Edge(h, front[k], front[k + 1]) {
        assert Graph.Edge(h, r[k], r[k + 1]);
      }
      PathStays(h, entry, ds, front);
    }
    assert Graph.Edge(h, r[|r| - 2], r[|r| - 2 + 1]);
  }

  lemma {:induction false} SameOrder(a: seq<Path>, b: seq<Path>)
    requires Sequences.Distinct(a) && Sequences.Distinct(b) && forall x :: x in a <==> x in b
    requires forall i, j :: 0 <= i < j < |a| ==> Before(b, a[i], a[j])
    ensures a == b
    decreases |a|
  {
    CountElements(a);
    CountElements(b);
    assert Sequences.Elements(a) == Sequences.Elements(b);
    if a != [] {
      FirstIsFirst(a, b);
      forall y ensures y in a[1..] <==> y in b[1..] {
        assert y in a <==> y == a[0] || y in a[1..];
        assert y in b <==> y == b[0] || y in b[1..];
      }
      forall i, j | 0 <= i < j < |a[1..]| ensures Before(b[1..], a[1..][i], a[1..][j]) {
        assert Before(b, a[i + 1], a[j + 1]);
        var p, q :| 0 <= p < q < |b| && b[p] == a[i + 1] && b[q] == a[j + 1];
        assert p > 0;
        assert b[1..][p - 1] == a[1..][i] && b[1..][q - 1] == a[1..][j];
      }
      SameOrder(a[1..], b[1..]);
    }
  }

  lemma FirstIsFirst(a: seq<Path>, b: seq<Path>)
    requires a != [] && b != [] && Sequences.Distinct(b) && forall x :: x in a <==> x in b
    requires forall i, j :: 0 <= i < j < |a| ==> Before(b, a[i], a[j])
    ensures a[0] == b[0]
  {
    var y := b[0];
    assert y in b;
    var m :| 0 <= m < |a| && a[m] == y;
    assert m > 0 ==> Before(b, a[0], a[m]);
  }
}
