/** The bundle cache: a loader that keeps parsed modules and is patched when a file changes, against a
    rebuild from disk. A bundle is the list of sources handed to the source-map builder. */
module BundleCache {
  import opened Wrappers
  import opened BundleTable
  import BundleMeaning
  import Sequences
  import Graph
  import BundleOrder
  import SourceMapStack

  type Path = BundleOrder.Path
  type Source = SourceMapStack.Source

  /** `scope` is closed under requests, and within it they lead strictly down. */
  ghost predicate Ranked(w: Project, disk: Disk, scope: iset<Path>, rank: Path -> nat) {
    forall p, i :: p in scope && 0 <= i < |RequestsOf(w, disk, p)| ==>
      RequestsOf(w, disk, p)[i] in scope && rank(RequestsOf(w, disk, p)[i]) < rank(p)
  }

  /** Loading the entry ends: in a circle of requests the original's promises wait for each other. What
      the entry does not lead to does not matter. */
  ghost predicate Loadable(w: Project, disk: Disk, entry: Path) {
    exists scope, rank :: Ranked(w, disk, scope, rank) && entry in scope
  }

  ghost predicate Below(ps: seq<Path>, scope: iset<Path>, rank: Path -> nat, bound: nat) {
    forall i :: 0 <= i < |ps| ==> ps[i] in scope && rank(ps[i]) < bound
  }

  ghost predicate AllIn(ps: seq<Path>, n: nat, t: Table)
    requires n <= |ps|
  {
    forall i :: 0 <= i < n ==> ps[i] in t
  }

  // ----- Loading -----

  datatype Update = Updated | NotUpdated | Threw

  class ModuleLoader {
    const w: Project
    var modules: Table

    constructor (w: Project)
      ensures this.w == w && modules == map[]
    {
      this.w := w;
      modules := map[];
    }

    /** Loads the file at p and everything it requests, unless that was done before. */
    method AddModuleAndDependencies(disk: Disk, p: Path, ghost scope: iset<Path>, ghost rank: Path -> nat)
      requires Ranked(w, disk, scope, rank) && p in scope
      requires Consistent(w, disk, modules)
      modifies this
      ensures Consistent(w, disk, modules) && p in modules
      ensures old(modules.Keys) <= modules.Keys
      ensures forall q :: q in modules && q !in old(modules) ==> q == p || Graph.Reaches(RequestGraph(w, disk, modules), p, q)
      ensures BundleMeaning.Complete(w, disk, modules, p)
      decreases rank(p), 3
    {
      if p in modules {
        BundleMeaning.ConsistentComplete(w, disk, modules, p);
        return;
      }
      match FileOf(w, disk, p)
      case Throws =>
        StoreLeaf(w, disk, modules, p);
        modules := modules[p := Rejected];
      case NoModule =>
        StoreLeaf(w, disk, modules, p);
        modules := modules[p := NotAModule];
      case Parsed(requests, source) =>
        AddParsed(disk, p, requests, source, scope, rank);
      BundleMeaning.ConsistentComplete(w, disk, modules, p);
    }

    /** Loads what the file requests, then settles its slot. */
    method AddParsed(disk: Disk, p: Path, requests: seq<string>, source: Source, ghost scope: iset<Path>, ghost rank: Path -> nat)
      requires Ranked(w, disk, scope, rank) && p in scope
      requires Consistent(w, disk, modules) && p !in modules && FileOf(w, disk, p) == Parsed(requests, source)
      modifies this
      ensures Consistent(w, disk, modules) && p in modules
      ensures old(modules.Keys) <= modules.Keys
      ensures forall q :: q in modules && q !in old(modules) ==> q == p || Graph.Reaches(RequestGraph(w, disk, modules), p, q)
      decreases rank(p), 2
    {
      var requested := Requested(w, requests, p);
      assert requested == RequestsOf(w, disk, p);
      AddRequested(disk, requested, scope, rank, rank(p));
      var before := modules;
      SettledIsSlot(w, disk, before, p);
      modules := modules[p := Settled(modules, requested, requests, source)];
      ReachThrough(w, disk, before, modules, old(modules.Keys), p);
    }

    /** Loads a list of files that rank below `bound`. */
    method AddRequested(disk: Disk, requested: seq<Path>, ghost scope: iset<Path>, ghost rank: Path -> nat, ghost bound: nat)
      requires Ranked(w, disk, scope, rank) && Consistent(w, disk, modules)
      requires Below(requested, scope, rank, bound)
      modifies this
      ensures Consistent(w, disk, modules) && old(modules.Keys) <= modules.Keys && AllIn(requested, |requested|, modules)
      ensures NewFrom(w, disk, old(modules.Keys), modules, requested)
      decreases bound, 1
    {
      for i := 0 to |requested|
        invariant Consistent(w, disk, modules) && old(modules.Keys) <= modules.Keys && AllIn(requested, i, modules)
        invariant NewFrom(w, disk, old(modules.Keys), modules, requested)
      {
        AddRequest(disk, requested, i, old(modules.Keys), scope, rank, bound);
      }
    }

    /** The i-th request. */
    method AddRequest(disk: Disk, requested: seq<Path>, i: nat, ghost held: set<Path>, ghost scope: iset<Path>,
                      ghost rank: Path -> nat, ghost bound: nat)
      requires Ranked(w, disk, scope, rank) && Consistent(w, disk, modules)
      requires i < |requested| && Below(requested, scope, rank, bound) && AllIn(requested, i, modules)
      requires NewFrom(w, disk, held, modules, requested)
      modifies this
      ensures Consistent(w, disk, modules) && old(modules.Keys) <= modules.Keys && AllIn(requested, i + 1, modules)
      ensures NewFrom(w, disk, held, modules, requested)
      decreases bound, 0
    {
      var before := modules;
      AddModuleAndDependencies(disk, requested[i], scope, rank);
      FromMore(w, disk, before, modules, held, requested, i);
    }

    /** Patches a loaded module unless its requests changed or the content is no module. */
    method UpdateContent(p: Path, newContent: Content) returns (update: Update)
      requires p in modules && modules[p].Loaded?
      modifies this
      ensures update.Threw? <==> w.parse(newContent, p).Throws?
      ensures update.Updated? <==>
        w.parse(newContent, p).Parsed? && w.parse(newContent, p).requests == old(modules)[p].entry.requests
      ensures modules ==
        if update.Updated? then old(modules)[p := Loaded(old(modules)[p].entry.(source := w.parse(newContent, p).source))]
        else old(modules)
    {
      match w.parse(newContent, p)
      case Throws =>
        update := Threw;
      case NoModule =>
        update := NotUpdated;
      case Parsed(requests, source) =>
        if requests != modules[p].entry.requests {
          return NotUpdated;
        }
        modules := modules[p := Loaded(modules[p].entry.(requests := requests, source := source))];
        update := Updated;
    }
  }

  /** A file that parses to no module, or not at all, goes in at once. */
  lemma StoreLeaf(w: Project, disk: Disk, t: Table, p: Path)
    requires Consistent(w, disk, t) && p !in t && !FileOf(w, disk, p).Parsed?
    ensures Consistent(w, disk, t[p := if FileOf(w, disk, p).Throws? then Rejected else NotAModule])
  {
    RejectsStep(w, disk, p);
  }

  /** The file rejects if some file that it requests does. */
  function Settled(t: Table, requested: seq<Path>, requests: seq<string>, source: Source): Slot {
    if exists i :: 0 <= i < |requested| && requested[i] in t && t[requested[i]].Rejected? then Rejected
    else Loaded(Entry(requests, Held(t, requested), source))
  }

  /** A file goes in once what it requests is in. */
  lemma SettledIsSlot(w: Project, disk: Disk, t: Table, p: Path)
    requires Consistent(w, disk, t) && FileOf(w, disk, p).Parsed?
    requires forall i :: 0 <= i < |RequestsOf(w, disk, p)| ==> RequestsOf(w, disk, p)[i] in t
    ensures Settled(t, RequestsOf(w, disk, p), FileOf(w, disk, p).requests, FileOf(w, disk, p).source) == SlotOf(w, disk, p)
    ensures Consistent(w, disk, t[p := SlotOf(w, disk, p)])
  {
    var ps := RequestsOf(w, disk, p);
    RejectsStep(w, disk, p);
    if i :| 0 <= i < |ps| && t[ps[i]].Rejected? {
      var d := ps[i];
      assert t[d] == SlotOf(w, disk, d);
      RejectsStep(w, disk, d);
      assert d in ps && Rejects(w, disk, d);
    } else {
      SlotsOfRequests(w, disk, t, ps);
      HeldIsLoading(w, disk, t, ps);
    }
  }

  lemma SlotsOfRequests(w: Project, disk: Disk, t: Table, ps: seq<Path>)
    requires Consistent(w, disk, t)
    requires forall i :: 0 <= i < |ps| ==> ps[i] in t && !t[ps[i]].Rejected?
    ensures forall d :: d in ps ==> d in t && !Rejects(w, disk, d) && (t[d].Loaded? <==> FileOf(w, disk, d).Parsed?)
  {
    forall d | d in ps ensures d in t && !Rejects(w, disk, d) && (t[d].Loaded? <==> FileOf(w, disk, d).Parsed?) {
      var i :| 0 <= i < |ps| && ps[i] == d;
      assert t[d] == SlotOf(w, disk, d);
    }
  }

  // ----- Whatever is loaded was asked for -----

  /** An edge from every file of the table to what it requests. */
  function RequestGraph(w: Project, disk: Disk, t: Table): Graph.Digraph {
    map p | p in t :: Sequences.Elements(RequestsOf(w, disk, p))
  }

  /** q is in ps or reached from it. */
  ghost predicate FromSome(g: Graph.Digraph, ps: seq<Path>, q: Path) {
    exists j :: 0 <= j < |ps| && (q == ps[j] || Graph.Reaches(g, ps[j], q))
  }

  /** What is in the table and was not held before comes from ps. */
  ghost predicate NewFrom(w: Project, disk: Disk, held: set<Path>, t: Table, ps: seq<Path>) {
    forall q :: q in t && q !in held ==> FromSome(RequestGraph(w, disk, t), ps, q)
  }

  lemma FromMore(w: Project, disk: Disk, t: Table, t': Table, held: set<Path>, ps: seq<Path>, i: nat)
    requires t.Keys <= t'.Keys && i < |ps|
    requires NewFrom(w, disk, held, t, ps)
    requires forall q :: q in t' && q !in t ==> q == ps[i] || Graph.Reaches(RequestGraph(w, disk, t'), ps[i], q)
    ensures NewFrom(w, disk, held, t', ps)
  {
  }

  lemma ReachThrough(w: Project, disk: Disk, t: Table, t': Table, held: set<Path>, p: Path)
    requires t.Keys <= t'.Keys && t'.Keys == t.Keys + {p}
    requires NewFrom(w, disk, held, t, RequestsOf(w, disk, p))
    ensures forall q :: q in t' && q !in held ==> q == p || Graph.Reaches(RequestGraph(w, disk, t'), p, q)
  {
    var g, g', ps := RequestGraph(w, disk, t), RequestGraph(w, disk, t'), RequestsOf(w, disk, p);
    forall q | q in t && q !in held ensures Graph.Reaches(g', p, q) {
      var j :| 0 <= j < |ps| && (q == ps[j] || Graph.Reaches(g, ps[j], q));
      assert Graph.Edge(g', p, ps[j]);
      Graph.EdgeReaches(g', p, ps[j]);
      if q != ps[j] {
        Graph.SubgraphReaches(g, g', ps[j], q);
        Graph.StepReaches(g', p, ps[j], q);
      }
    }
  }

  /** Requests that lead on from a loaded module lead over loaded modules. */
  lemma {:induction false} RequestPathHeld(w: Project, disk: Disk, t: Table, r: seq<Path>)
    requires Consistent(w, disk, t) && Kept(w, disk, t)
    requires Graph.IsPath(RequestGraph(w, disk, t), r) && r[0] in t && t[r[0]].Loaded?
    ensures Graph.IsPath(HeldGraph(w, t), r)
    decreases |r|
  {
    var g, h := RequestGraph(w, disk, t), HeldGraph(w, t);
    assert Graph.Edge(g, r[0], r[0 + 1]);
    assert t[r[0]] == SlotOf(w, disk, r[0]) && EntryKept(w, disk, t, r[0], t[r[0]].entry);
    assert Graph.Edge(h, r[0], r[1]);
    if |r| > 2 {
      assert Graph.Edge(g, r[1], r[1 + 1]);
      assert t[r[1]] == SlotOf(w, disk, r[1]);
      Graph.TailIsPath(g, r);
      RequestPathHeld(w, disk, t, r[1..]);
      forall k | 0 <= k < |r| - 1 ensures Graph.Edge(h, r[k], r[k + 1]) {
        if k > 0 {
          assert Graph.Edge(h, r[1..][k - 1], r[1..][k - 1 + 1]);
        }
      }
    }
  }

  lemma LoadedMinimal(w: Project, disk: Disk, t: Table, entry: Path)
    requires Consistent(w, disk, t) && entry in t
    requires forall q :: q in t ==> q == entry || Graph.Reaches(RequestGraph(w, disk, t), entry, q)
    ensures Minimal(w, t, entry)
  {
    ConsistentKept(w, disk, t);
    if t[entry].Loaded? {
      forall q | q in t && q != entry ensures Graph.Reaches(HeldGraph(w, t), entry, q) {
        var r :| Graph.IsPath(RequestGraph(w, disk, t), r) && r[0] == entry && r[|r| - 1] == q;
        RequestPathHeld(w, disk, t, r);
      }
    }
  }

  // ----- The cache -----

  /** The bundle of a rebuild: t is what a new loader has from this disk. */
  ghost function Rebuild(w: Project, disk: Disk, t: Table, entry: Path): Option<seq<Source>>
    requires Consistent(w, disk, t) && entry in t
  {
    ConsistentKept(w, disk, t);
    KeptClosed(w, disk, t);
    BundleOf(t, entry)
  }

  class CachedBundle {
    const w: Project
    const entry: Path
    var loader: ModuleLoader?
    /** Set once a bundle was made, to the bundle or to a rejection. */
    var bundlePromise: Option<Option<seq<Source>>>

    constructor (w: Project, entry: Path)
      ensures this.w == w && this.entry == entry && loader == null && forall disk :: Valid(disk)
    {
      this.w, this.entry := w, entry;
      loader, bundlePromise := null, None;
    }

    /** The loader has a kept table, and the promise the bundle of that table, be it current or not. */
    ghost predicate Valid(disk: Disk)
      reads this, loader
    {
      && (loader != null ==> loader.w == w && Kept(w, disk, loader.modules) && Minimal(w, loader.modules, entry))
      && (bundlePromise.Some? ==> loader != null && Bundled(loader.modules, entry, bundlePromise.value))
    }

    /** What is returned is a rebuild's bundle if and only if the table in use is current; a loader that
        was just made is. */
    method GetBundle(disk: Disk) returns (bundle: Option<seq<Source>>)
      requires Valid(disk) && (loader == null ==> Loadable(w, disk, entry))
      modifies this
      ensures Valid(disk) && bundlePromise == Some(bundle) && loader != null
      ensures old(loader) != null ==> loader == old(loader)
      ensures old(loader) == null ==> fresh(loader) && Consistent(w, disk, loader.modules)
      ensures forall t :: Consistent(w, disk, t) && entry in t ==>
        (bundle == Rebuild(w, disk, t, entry) <==> Current(w, disk, loader.modules, entry))
      // the same, from how files parse and where requests lead alone
      ensures BundleMeaning.Fits(w, disk, entry, bundle) <==> Current(w, disk, loader.modules, entry)
      ensures old(loader) == null ==> BundleMeaning.Fits(w, disk, entry, bundle)
    {
      ghost var isNew := loader == null;
      if bundlePromise.None? {
        if loader == null {
          loader := Load(disk);
        }
        KeptClosed(w, disk, loader.modules);
        if loader.modules[entry].Loaded? {
          OrderInside(DependenciesIn(loader.modules), entry);
          var order := BundleOrder.Order(DependenciesIn(loader.modules), entry);
          bundlePromise := Some(Some(Sources(loader.modules, order)));
        } else {
          bundlePromise := Some(None);
        }
      }
      bundle := bundlePromise.value;
      TableExact(w, disk, loader.modules, entry);
      if isNew {
        ConsistentCurrent(w, disk, loader.modules, entry);
      }
    }

    method Load(disk: Disk) returns (loader: ModuleLoader)
      requires Loadable(w, disk, entry)
      ensures fresh(loader) && loader.w == w && Consistent(w, disk, loader.modules)
      ensures Kept(w, disk, loader.modules) && Minimal(w, loader.modules, entry)
    {
      ghost var scope, rank :| Ranked(w, disk, scope, rank) && entry in scope;
      loader := new ModuleLoader(w);
      loader.AddModuleAndDependencies(disk, entry, scope, rank);
      ConsistentKept(w, disk, loader.modules);
      LoadedMinimal(w, disk, loader.modules, entry);
    }

    /** The file at `path` now has the content `newContent`. An exception leaves loader and bundle in use;
        otherwise the bundle is dropped, and the loader too if it cannot be patched. A table that agreed
        with the disk and stays in use still does if and only if the push does not go stale. */
    method SetModuleContent(disk: Disk, path: Path, newContent: Content) returns (ok: bool)
      requires Valid(disk)
      modifies this, loader
      ensures Valid(Write(disk, path, newContent))
      ensures ok <==> !(old(loader) != null && PushThrows(w, old(loader.modules), path, newContent))
      ensures bundlePromise == if ok then None else old(bundlePromise)
      ensures old(loader) == null ==> loader == null
      ensures old(loader) != null ==>
        (loader == null || loader == old(loader))
        && Pushed(w, old(loader.modules), path, newContent) == if loader == null then None else Some(loader.modules)
      ensures loader != null && Consistent(w, disk, old(loader.modules)) ==>
        (Consistent(w, Write(disk, path, newContent), loader.modules) <==>
          !GoesStale(w, disk, old(loader.modules), path, newContent))
    {
      if loader == null {
        return true;
      }
      ghost var t := loader.modules;
      PushKeeps(w, disk, t, path, newContent, entry);
      if path in loader.modules && loader.modules[path].Rejected? {
        return false;
      }
      if path in loader.modules && loader.modules[path].Loaded? {
        var update := loader.UpdateContent(path, newContent);
        if update.Threw? {
          return false;
        }
        if update.NotUpdated? {
          loader := null;
        }
      }
      bundlePromise := None;
      return true;
    }
  }

  ghost predicate Bundled(t: Table, entry: Path, bundle: Option<seq<Source>>) {
    BundleOrder.Closed(DependenciesIn(t)) && entry in t && bundle == BundleOf(t, entry)
  }

  /** The bundle of a kept table against a rebuild, and against the disk. */
  lemma TableExact(w: Project, disk: Disk, t: Table, entry: Path)
    requires Kept(w, disk, t) && Minimal(w, t, entry)
    ensures BundleOrder.Closed(DependenciesIn(t))
    ensures forall t' :: Consistent(w, disk, t') && entry in t' ==>
      (BundleOf(t, entry) == Rebuild(w, disk, t', entry) <==> Current(w, disk, t, entry))
    ensures BundleMeaning.Fits(w, disk, entry, BundleOf(t, entry)) <==> Current(w, disk, t, entry)
  {
    BundleMeaning.BundleFits(w, disk, t, entry);
    forall t' | Consistent(w, disk, t') && entry in t'
      ensures BundleOf(t, entry) == Rebuild(w, disk, t', entry) <==> Current(w, disk, t, entry)
    {
      BundleExact(w, disk, t, t', entry);
    }
  }

  /** All that a push that leaves a table in use keeps. */
  lemma PushKeeps(w: Project, disk: Disk, t: Table, p: Path, content: Content, entry: Path)
    requires Kept(w, disk, t) && Minimal(w, t, entry)
    ensures Pushed(w, t, p, content).Some? ==>
      var disk', t' := Write(disk, p, content), Pushed(w, t, p, content).value;
      Kept(w, disk', t') && Minimal(w, t', entry)
      && (Consistent(w, disk, t) ==> (Consistent(w, disk', t') <==> !GoesStale(w, disk, t, p, content)))
  {
    if Pushed(w, t, p, content).Some? {
      PushedKept(w, disk, t, p, content);
      PushedMinimal(w, t, p, content, entry);
      if Consistent(w, disk, t) {
        PushedConsistent(w, disk, t, p, content);
      }
    }
  }

  // ----- Any sequence of calls -----

  /** A change reported to the cache, a file that goes away (which nobody reports), or a request. */
  datatype Call = Push(path: Path, content: Content) | Remove(path: Path) | Ask

  function AfterCall(disk: Disk, call: Call): Disk {
    match call
    case Push(p, content) => Write(disk, p, content)
    case Remove(p) => (q: Path) => if q == p then None else disk(q)
    case Ask => disk
  }

  function AfterCalls(disk: Disk, calls: seq<Call>): Disk {
    if calls == [] then disk else AfterCall(AfterCalls(disk, calls[..|calls| - 1]), calls[|calls| - 1])
  }

  /** Loading the entry does not reject, before or after, and no file that is no module becomes one. */
  ghost predicate SteadyCall(w: Project, entry: Path, disk: Disk, call: Call) {
    var disk' := AfterCall(disk, call);
    && !Rejects(w, disk, entry) && !Rejects(w, disk', entry)
    && forall q :: FileOf(w, disk, q).NoModule? ==> !FileOf(w, disk', q).Parsed?
  }

  ghost predicate Steady(w: Project, entry: Path, disk: Disk, calls: seq<Call>) {
    forall k :: 0 <= k < |calls| ==> SteadyCall(w, entry, AfterCalls(disk, calls[..k]), calls[k])
  }

  /** A table stays current as long as the entry can be loaded and no file newly becomes a module. */
  lemma CurrentStays(w: Project, disk: Disk, t: Table, call: Call, t': Table, entry: Path)
    requires Kept(w, AfterCall(disk, call), t') && Minimal(w, t', entry)
    requires t.Keys == t'.Keys && forall q :: q in t ==> (t[q].Loaded? <==> t'[q].Loaded?) && (t[q].NotAModule? <==> t'[q].NotAModule?)
    requires entry in t && Current(w, disk, t, entry) && SteadyCall(w, entry, disk, call)
    ensures Current(w, AfterCall(disk, call), t', entry)
  {
    var disk' := AfterCall(disk, call);
    RejectsStep(w, disk, entry);
    RejectsStep(w, disk', entry);
    if t'[entry].Loaded? {
      forall q | q in t' ensures SlotCurrent(w, disk', q, t'[q]) {
        assert SlotCurrent(w, disk, q, t[q]);
        NoneRejected(w, disk', t', entry, q);
        if FileOf(w, disk', q).Throws? {
          ThrowingRejects(w, disk', t', entry, q);
        }
      }
    }
  }

  /** A file that goes away leaves a kept table kept. */
  lemma RemovedKept(w: Project, disk: Disk, t: Table, p: Path)
    requires Kept(w, disk, t)
    ensures Kept(w, AfterCall(disk, Remove(p)), t)
  {
    var disk' := AfterCall(disk, Remove(p));
    forall q | q in t && t[q].Loaded? ensures EntryKept(w, disk', t, q, t[q].entry) {
      assert EntryKept(w, disk, t, q, t[q].entry);
    }
  }

  lemma ConsistentCurrent(w: Project, disk: Disk, t: Table, entry: Path)
    requires Consistent(w, disk, t) && entry in t
    ensures Current(w, disk, t, entry)
  {
    ConsistentKept(w, disk, t);
    KeptConsistent(w, disk, t);
  }

  lemma PushStays(w: Project, disk: Disk, t: Table, p: Path, content: Content, entry: Path)
    requires Kept(w, disk, t) && Minimal(w, t, entry) && Current(w, disk, t, entry)
    requires SteadyCall(w, entry, disk, Push(p, content)) && Pushed(w, t, p, content).Some?
    ensures var t' := Pushed(w, t, p, content).value; entry in t' && Current(w, Write(disk, p, content), t', entry)
  {
    PushKeeps(w, disk, t, p, content, entry);
    CurrentStays(w, disk, t, Push(p, content), Pushed(w, t, p, content).value, entry);
  }

  /** The cache's table, if it has one, is current. */
  ghost predicate UpToDate(cache: CachedBundle, disk: Disk)
    reads cache, cache.loader
    requires cache.Valid(disk)
  {
    cache.loader == null || Current(cache.w, disk, cache.loader.modules, cache.entry)
  }

  method Handle(cache: CachedBundle, disk: Disk, call: Call)
    requires cache.Valid(disk) && (call.Ask? ==> Loadable(cache.w, disk, cache.entry))
    modifies cache, cache.loader
    ensures cache.Valid(AfterCall(disk, call))
    ensures cache.loader == old(cache.loader) || cache.loader == null || fresh(cache.loader)
    ensures old(UpToDate(cache, disk)) && SteadyCall(cache.w, cache.entry, disk, call) ==>
      UpToDate(cache, AfterCall(disk, call))
  {
    ghost var t := if cache.loader != null then cache.loader.modules else map[];
    match call
    case Push(p, content) =>
      var ok := cache.SetModuleContent(disk, p, content);
      if cache.loader != null && Current(cache.w, disk, t, cache.entry) && SteadyCall(cache.w, cache.entry, disk, call) {
        PushStays(cache.w, disk, t, p, content, cache.entry);
      }
    case Remove(p) =>
      if cache.loader != null {
        RemovedKept(cache.w, disk, t, p);
        if Current(cache.w, disk, t, cache.entry) && SteadyCall(cache.w, cache.entry, disk, call) {
          CurrentStays(cache.w, disk, t, call, t, cache.entry);
        }
      }
    case Ask =>
      var bundle := cache.GetBundle(disk);
      if old(cache.loader) == null {
        ConsistentCurrent(cache.w, disk, cache.loader.modules, cache.entry);
      }
  }

  /** Whatever is pushed, removed and asked for in whatever order, the next bundle is a rebuild's if and
      only if the table is then current; and it is, if the entry could be loaded all along and no file
      newly became a module. */
  method Session(w: Project, entry: Path, disk: Disk, calls: seq<Call>) returns (cache: CachedBundle, bundle: Option<seq<Source>>)
    requires forall k :: 0 <= k <= |calls| && (k < |calls| ==> calls[k].Ask?) ==> Loadable(w, AfterCalls(disk, calls[..k]), entry)
    ensures fresh(cache) && cache.w == w && cache.entry == entry && cache.loader != null
    ensures cache.Valid(AfterCalls(disk, calls)) && cache.bundlePromise == Some(bundle)
    ensures forall t :: Consistent(w, AfterCalls(disk, calls), t) && entry in t ==>
      (bundle == Rebuild(w, AfterCalls(disk, calls), t, entry) <==>
        Current(w, AfterCalls(disk, calls), cache.loader.modules, entry))
    ensures BundleMeaning.Fits(w, AfterCalls(disk, calls), entry, bundle) <==>
      Current(w, AfterCalls(disk, calls), cache.loader.modules, entry)
    ensures Steady(w, entry, disk, calls) ==> BundleMeaning.Fits(w, AfterCalls(disk, calls), entry, bundle)
  {
    cache := new CachedBundle(w, entry);
    for k := 0 to |calls|
      invariant fresh(cache) && cache.w == w && cache.entry == entry && (cache.loader != null ==> fresh(cache.loader))
      invariant cache.Valid(AfterCalls(disk, calls[..k]))
      invariant Steady(w, entry, disk, calls) && cache.loader != null ==>
        Current(w, AfterCalls(disk, calls[..k]), cache.loader.modules, entry)
    {
      var before := AfterCalls(disk, calls[..k]);
      assert calls[..k + 1][..k] == calls[..k];
      assert AfterCalls(disk, calls[..k + 1]) == AfterCall(before, calls[k]);
      Handle(cache, before, calls[k]);
    }
    assert calls[..|calls|] == calls;
    ghost var isNew := cache.loader == null;
    bundle := cache.GetBundle(AfterCalls(disk, calls));
    if isNew {
      ConsistentCurrent(w, AfterCalls(disk, calls), cache.loader.modules, entry);
    }
  }

  // ----- The failing families occur -----

  /** A project of single files: an empty one is no module, one that starts with a zero throws. */
  function Plain(): Project {
    Project((c: Content, p: Path) =>
      if c == [] then NoModule else if c[0] == 0 then Throws else Parsed([], PlainSource(c)),
      (r: string, p: Path) => None)
  }

  function PlainSource(content: Content): Source {
    SourceMapStack.Source(content, [], [], 0)
  }

  function PlainBundle(content: Content): Option<seq<Source>> {
    if Plain().parse(content, 0).Parsed? then Some([PlainSource(content)]) else None
  }

  lemma PlainSlot(disk: Disk, p: Path)
    ensures FileOf(Plain(), disk, p).Throws? <==> Rejects(Plain(), disk, p)
    ensures FileOf(Plain(), disk, p).Throws? <==> SlotOf(Plain(), disk, p) == Rejected
    ensures FileOf(Plain(), disk, p).NoModule? <==> SlotOf(Plain(), disk, p) == NotAModule
    ensures FileOf(Plain(), disk, p).Parsed? ==>
      SlotOf(Plain(), disk, p) == Loaded(Entry([], [], FileOf(Plain(), disk, p).source))
  {
    RejectsStep(Plain(), disk, p);
  }

  lemma PlainLoadable(disk: Disk)
    ensures Loadable(Plain(), disk, 0)
  {
    assert Ranked(Plain(), disk, iset{0}, (p: Path) => 0);
  }

  lemma PlainRebuild(disk: Disk)
    requires disk(0).Some?
    ensures var t := map[0 := SlotOf(Plain(), disk, 0)];
      Consistent(Plain(), disk, t) && Rebuild(Plain(), disk, t, 0) == PlainBundle(disk(0).value)
  {
    var t := map[0 := SlotOf(Plain(), disk, 0)];
    PlainSlot(disk, 0);
    assert Consistent(Plain(), disk, t);
    if t[0].Loaded? {
      var g := DependenciesIn(t);
      assert g[0] == [] && BundleOrder.Closed(g);
      assert BundleOrder.VisitAll(g, [], {0}) == ({0}, []);
      assert BundleOrder.Visit(g, 0, {}) == ({0}, [] + [0]) by { assert {} + {0} == {0}; }
      assert BundleOrder.Order(g, 0) == [0];
      assert Sources(t, [0]) == [PlainSource(disk(0).value)];
    }
  }

  /** A pushed table is current unless a file that was loaded throws, or one that was not parses. */
  lemma PlainPush(disk: Disk, t: Table, after: Content)
    requires Consistent(Plain(), disk, t) && 0 in t && Pushed(Plain(), t, 0, after).Some?
    ensures var t' := Pushed(Plain(), t, 0, after).value;
      0 in t' && (Current(Plain(), Write(disk, 0, after), t', 0) <==> Follows(FileOf(Plain(), disk, 0), Plain().parse(after, 0)))
  {
    var disk', t' := Write(disk, 0, after), Pushed(Plain(), t, 0, after).value;
    PlainSlot(disk, 0);
    PlainSlot(disk', 0);
    if t'[0].Loaded? {
      forall q | q in t' && q != 0 ensures SlotCurrent(Plain(), disk', q, t'[q]) {
        PlainSlot(disk, q);
        PlainSlot(disk', q);
      }
    }
  }

  /** Neither has a file that was loaded come to throw, nor one that was not to parse. */
  predicate Follows(before: Outcome, after: Outcome) {
    if before.Parsed? then !after.Throws? else !after.Parsed?
  }

  /** Bundle a file, push a change of it, and bundle again: the bundle is a rebuild's if and only if the
      cache can follow the change. */
  method PlainSession(before: Content, after: Content) returns (bundle: Option<seq<Source>>)
    ensures bundle == PlainBundle(after) <==> Follows(Plain().parse(before, 0), Plain().parse(after, 0))
  {
    var disk: Disk := (q: Path) => if q == 0 then Some(before) else None;
    PlainLoadable(disk);
    var cache := new CachedBundle(Plain(), 0);
    bundle := cache.GetBundle(disk);
    bundle := PushAndBundle(cache, disk, after);
  }

  method PushAndBundle(cache: CachedBundle, disk: Disk, after: Content) returns (bundle: Option<seq<Source>>)
    requires cache.Valid(disk) && cache.w == Plain() && cache.entry == 0
    requires cache.loader != null && Consistent(Plain(), disk, cache.loader.modules)
    modifies cache, cache.loader
    ensures bundle == PlainBundle(after) <==> Follows(FileOf(Plain(), disk, 0), Plain().parse(after, 0))
  {
    var disk' := Write(disk, 0, after);
    PushPlain(cache, disk, after);
    PlainLoadable(disk');
    ghost var isNew := cache.loader == null;
    bundle := cache.GetBundle(disk');
    if isNew {
      ConsistentCurrent(Plain(), disk', cache.loader.modules, 0);
    }
    PlainRebuild(disk');
  }

  method PushPlain(cache: CachedBundle, disk: Disk, after: Content)
    requires cache.Valid(disk) && cache.w == Plain() && cache.entry == 0
    requires cache.loader != null && Consistent(Plain(), disk, cache.loader.modules)
    modifies cache, cache.loader
    ensures cache.Valid(Write(disk, 0, after)) && (cache.loader == null || cache.loader == old(cache.loader))
    ensures cache.loader == null ==> Follows(FileOf(Plain(), disk, 0), Plain().parse(after, 0))
    ensures cache.loader != null ==>
      0 in cache.loader.modules
      && (Current(Plain(), Write(disk, 0, after), cache.loader.modules, 0) <==>
            Follows(FileOf(Plain(), disk, 0), Plain().parse(after, 0)))
  {
    ghost var t := cache.loader.modules;
    var ok := cache.SetModuleContent(disk, 0, after);
    if cache.loader != null {
      PlainPush(disk, t, after);
    } else {
      PlainSlot(disk, 0);
    }
  }
}
