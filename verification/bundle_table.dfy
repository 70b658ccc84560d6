/** What the bundle cache's loader holds, against the files on disk: the table a rebuild would have, what
    a table that was patched still has in common with it, and exactly when both give the same bundle. */
module BundleTable {
  import opened Wrappers
  import opened Graph
  import opened BundleOrder
  import SourceMapStack
  import Sequences

  type Content = seq<byte>

  /** The state of all files; None for a missing one. */
  type Disk = Path -> Option<Content>

  /** What parsing a file gives: a module, nothing that looks like one, or an exception. */
  datatype Outcome = Parsed(requests: seq<string>, source: SourceMapStack.Source) | NoModule | Throws

  /** How files parse, and where requests lead (nowhere for `require`, `exports`, `module` and css). */
  datatype Project = Project(parse: (Content, Path) -> Outcome, resolve: (string, Path) -> Option<Path>)

  /** A loaded module; `dependencies` are those of its requested paths that are modules. */
  datatype Entry = Entry(requests: seq<string>, dependencies: seq<Path>, source: SourceMapStack.Source)

  /** What the loader's promise for a path settled to. */
  datatype Slot = Loaded(entry: Entry) | NotAModule | Rejected

  type Table = map<Path, Slot>

  /** Reading a missing file rejects like parsing a bad one. */
  function FileOf(w: Project, disk: Disk, p: Path): Outcome {
    match disk(p)
    case None => Throws
    case Some(content) => w.parse(content, p)
  }

  function Requested(w: Project, requests: seq<string>, p: Path): seq<Path> {
    if requests == [] then []
    else
      var rest := Requested(w, requests[1..], p);
      match w.resolve(requests[0], p)
      case None => rest
      case Some(d) => [d] + rest
  }

  /** The paths that loading p asks for next. */
  function RequestsOf(w: Project, disk: Disk, p: Path): seq<Path> {
    match FileOf(w, disk, p)
    case Parsed(requests, source) => Requested(w, requests, p)
    case _ => []
  }

  function Loading(w: Project, disk: Disk, ps: seq<Path>): seq<Path> {
    if ps == [] then []
    else if FileOf(w, disk, ps[0]).Parsed? then [ps[0]] + Loading(w, disk, ps[1..])
    else Loading(w, disk, ps[1..])
  }

  // ----- What a rebuild makes of the disk -----

  predicate Asks(w: Project, disk: Disk, x: Path, y: Path) {
    y in RequestsOf(w, disk, x)
  }

  ghost predicate IsRequestPath(w: Project, disk: Disk, r: seq<Path>) {
    |r| > 0 && forall i :: 0 <= i < |r| - 1 ==> Asks(w, disk, r[i], r[i + 1])
  }

  /** Loading p rejects: it asks, directly or not, for a file that throws. */
  ghost predicate Rejects(w: Project, disk: Disk, p: Path) {
    exists r :: IsRequestPath(w, disk, r) && r[0] == p && FileOf(w, disk, r[|r| - 1]).Throws?
  }

  lemma RejectsStep(w: Project, disk: Disk, p: Path)
    ensures Rejects(w, disk, p) <==>
      FileOf(w, disk, p).Throws? || exists d :: d in RequestsOf(w, disk, p) && Rejects(w, disk, d)
  {
    if Rejects(w, disk, p) {
      var r :| IsRequestPath(w, disk, r) && r[0] == p && FileOf(w, disk, r[|r| - 1]).Throws?;
      if |r| > 1 {
        var tail := r[1..];
        assert Asks(w, disk, r[0], r[0 + 1]);
        forall i | 0 <= i < |tail| - 1 ensures Asks(w, disk, tail[i], tail[i + 1]) {
          assert Asks(w, disk, r[i + 1], r[i + 1 + 1]);
        }
        assert IsRequestPath(w, disk, tail);
        assert Rejects(w, disk, r[1]);
      }
    }
    if FileOf(w, disk, p).Throws? {
      assert IsRequestPath(w, disk, [p]);
    }
    if d :| d in RequestsOf(w, disk, p) && Rejects(w, disk, d) {
      var r :| IsRequestPath(w, disk, r) && r[0] == d && FileOf(w, disk, r[|r| - 1]).Throws?;
      var longer := [p] + r;
      assert Asks(w, disk, p, d);
      forall i | 0 <= i < |longer| - 1 ensures Asks(w, disk, longer[i], longer[i + 1]) {
        if i > 0 {
          assert Asks(w, disk, r[i - 1], r[i - 1 + 1]);
        }
      }
      assert IsRequestPath(w, disk, longer);
    }
  }

  /** What loading p settles to. */
  ghost function SlotOf(w: Project, disk: Disk, p: Path): Slot {
    if Rejects(w, disk, p) then Rejected
    else
      match FileOf(w, disk, p)
      case Parsed(requests, source) => Loaded(Entry(requests, Loading(w, disk, Requested(w, requests, p)), source))
      case NoModule => NotAModule
      case Throws => Rejected
  }

  /** The table is what a new loader would have, from this disk. */
  ghost predicate Consistent(w: Project, disk: Disk, t: Table) {
    && (forall p :: p in t ==> t[p] == SlotOf(w, disk, p))
    && (forall p, i :: p in t && t[p].Loaded? && 0 <= i < |RequestsOf(w, disk, p)| ==> RequestsOf(w, disk, p)[i] in t)
  }

  // ----- Bundles of tables -----

  function DependenciesIn(t: Table): Dependencies {
    map p | p in t && t[p].Loaded? :: t[p].entry.dependencies
  }

  function Sources(t: Table, order: seq<Path>): seq<SourceMapStack.Source>
    requires forall i :: 0 <= i < |order| ==> order[i] in t && t[order[i]].Loaded?
  {
    seq(|order|, i requires 0 <= i < |order| => t[order[i]].entry.source)
  }

  /** The bundle a table gives; None where bundling rejects, since the entry is not a loaded module. */
  ghost function BundleOf(t: Table, entry: Path): Option<seq<SourceMapStack.Source>>
    requires Closed(DependenciesIn(t)) && entry in t
  {
    if !t[entry].Loaded? then None
    else
      OrderInside(DependenciesIn(t), entry);
      Some(Sources(t, Order(DependenciesIn(t), entry)))
  }

  lemma OrderInside(g: Dependencies, root: Path)
    requires Closed(g) && root in g
    ensures forall i :: 0 <= i < |Order(g, root)| ==> Order(g, root)[i] in g
  {
    VisitAdds(g, root, {}, []);
    assert [] + Order(g, root) == Order(g, root);
    forall i | 0 <= i < |Order(g, root)| ensures Order(g, root)[i] in g {
      assert Order(g, root)[i] in Sequences.Elements(Order(g, root));
    }
  }

  lemma {:induction false} LoadingMember(w: Project, disk: Disk, ps: seq<Path>, d: Path)
    ensures d in Loading(w, disk, ps) <==> d in ps && FileOf(w, disk, d).Parsed?
  {
    if ps != [] {
      LoadingMember(w, disk, ps[1..], d);
    }
  }

  // ----- What a patched table keeps -----

  /** The requested paths that a table holds as modules. */
  function Held(t: Table, ps: seq<Path>): seq<Path> {
    if ps == [] then []
    else if ps[0] in t && t[ps[0]].Loaded? then [ps[0]] + Held(t, ps[1..])
    else Held(t, ps[1..])
  }

  lemma {:induction false} HeldMember(t: Table, ps: seq<Path>, d: Path)
    ensures d in Held(t, ps) <==> d in ps && d in t && t[d].Loaded?
  {
    if ps != [] {
      HeldMember(t, ps[1..], d);
    }
  }

  /** A loaded module has what its file has, unless the file throws; the paths it requests are in the
      table, none of them rejected, and its dependencies are those that are modules there. */
  ghost predicate Kept(w: Project, disk: Disk, t: Table) {
    forall p :: p in t && t[p].Loaded? ==> EntryKept(w, disk, t, p, t[p].entry)
  }

  ghost predicate EntryKept(w: Project, disk: Disk, t: Table, p: Path, e: Entry) {
    && (FileOf(w, disk, p).Throws? || FileOf(w, disk, p) == Parsed(e.requests, e.source))
    && e.dependencies == Held(t, Requested(w, e.requests, p))
    && (forall d :: d in Requested(w, e.requests, p) ==> d in t && !t[d].Rejected?)
  }

  lemma KeptClosed(w: Project, disk: Disk, t: Table)
    requires Kept(w, disk, t)
    ensures Closed(DependenciesIn(t))
  {
    var g := DependenciesIn(t);
    forall p, i | p in g && 0 <= i < |g[p]| ensures g[p][i] in g {
      assert EntryKept(w, disk, t, p, t[p].entry);
      HeldMember(t, Requested(w, t[p].entry.requests, p), g[p][i]);
    }
  }

  /** The slots of a list are what the disk says: those held are those that load. */
  lemma {:induction false} HeldIsLoading(w: Project, disk: Disk, t: Table, ps: seq<Path>)
    requires forall d :: d in ps ==> d in t && (t[d].Loaded? <==> FileOf(w, disk, d).Parsed?)
    ensures Held(t, ps) == Loading(w, disk, ps)
  {
    if ps != [] {
      var d := ps[0];
      assert d in ps;
      HeldIsLoading(w, disk, t, ps[1..]);
    }
  }

  /** What a loader has just loaded is kept. */
  lemma ConsistentKept(w: Project, disk: Disk, t: Table)
    requires Consistent(w, disk, t)
    ensures Kept(w, disk, t)
  {
    forall p | p in t && t[p].Loaded? ensures EntryKept(w, disk, t, p, t[p].entry) {
      var ps := RequestsOf(w, disk, p);
      assert t[p] == SlotOf(w, disk, p);
      RejectsStep(w, disk, p);
      forall d | d in ps ensures d in t && !t[d].Rejected? && (t[d].Loaded? <==> FileOf(w, disk, d).Parsed?) {
        var i :| 0 <= i < |ps| && ps[i] == d;
        assert d in t && t[d] == SlotOf(w, disk, d);
        RejectsStep(w, disk, d);
      }
      HeldIsLoading(w, disk, t, ps);
    }
  }

  /** A slot is of the kind that a reload would give. */
  ghost predicate SlotCurrent(w: Project, disk: Disk, p: Path, slot: Slot) {
    match slot
    case Loaded(e) => !FileOf(w, disk, p).Throws?
    case NotAModule => FileOf(w, disk, p).NoModule?
    case Rejected => Rejects(w, disk, p)
  }

  ghost predicate SlotsCurrent(w: Project, disk: Disk, t: Table) {
    forall p :: p in t ==> SlotCurrent(w, disk, p, t[p])
  }

  /** Nothing that a loaded module leads to throws, if the slots are current. */
  lemma {:induction false} NothingThrows(w: Project, disk: Disk, t: Table, r: seq<Path>)
    requires Kept(w, disk, t) && SlotsCurrent(w, disk, t)
    requires IsRequestPath(w, disk, r) && r[0] in t && !t[r[0]].Rejected?
    ensures !FileOf(w, disk, r[|r| - 1]).Throws?
    decreases |r|
  {
    assert SlotCurrent(w, disk, r[0], t[r[0]]);
    if |r| > 1 {
      var tail := r[1..];
      assert Asks(w, disk, r[0], r[0 + 1]);
      assert EntryKept(w, disk, t, r[0], t[r[0]].entry);
      forall i | 0 <= i < |tail| - 1 ensures Asks(w, disk, tail[i], tail[i + 1]) {
        assert Asks(w, disk, r[i + 1], r[i + 1 + 1]);
      }
      NothingThrows(w, disk, t, tail);
    }
  }

  lemma CurrentDoesNotReject(w: Project, disk: Disk, t: Table, p: Path)
    requires Kept(w, disk, t) && SlotsCurrent(w, disk, t) && p in t && !t[p].Rejected?
    ensures !Rejects(w, disk, p)
  {
    if Rejects(w, disk, p) {
      var r :| IsRequestPath(w, disk, r) && r[0] == p && FileOf(w, disk, r[|r| - 1]).Throws?;
      NothingThrows(w, disk, t, r);
    }
  }

  /** A kept table is what a rebuild would have if and only if each slot is of the right kind. */
  lemma KeptConsistent(w: Project, disk: Disk, t: Table)
    requires Kept(w, disk, t)
    ensures Consistent(w, disk, t) <==> SlotsCurrent(w, disk, t)
  {
    if Consistent(w, disk, t) {
      ConsistentSlots(w, disk, t);
    }
    if SlotsCurrent(w, disk, t) {
      CurrentSlots(w, disk, t);
    }
  }

  lemma ConsistentSlots(w: Project, disk: Disk, t: Table)
    requires Consistent(w, disk, t)
    ensures SlotsCurrent(w, disk, t)
  {
    forall p | p in t ensures SlotCurrent(w, disk, p, t[p]) {
      assert t[p] == SlotOf(w, disk, p);
      RejectsStep(w, disk, p);
    }
  }

  lemma CurrentSlots(w: Project, disk: Disk, t: Table)
    requires Kept(w, disk, t) && SlotsCurrent(w, disk, t)
    ensures Consistent(w, disk, t)
  {
    forall p | p in t ensures t[p] == SlotOf(w, disk, p) {
      CurrentSlot(w, disk, t, p);
    }
    forall p, i | p in t && t[p].Loaded? && 0 <= i < |RequestsOf(w, disk, p)| ensures RequestsOf(w, disk, p)[i] in t {
      var e, d := t[p].entry, RequestsOf(w, disk, p)[i];
      assert SlotCurrent(w, disk, p, t[p]) && EntryKept(w, disk, t, p, e);
      assert d in Requested(w, e.requests, p);
    }
  }

  lemma CurrentSlot(w: Project, disk: Disk, t: Table, p: Path)
    requires Kept(w, disk, t) && SlotsCurrent(w, disk, t) && p in t
    ensures t[p] == SlotOf(w, disk, p)
  {
    assert SlotCurrent(w, disk, p, t[p]);
    if !t[p].Rejected? {
      CurrentDoesNotReject(w, disk, t, p);
    }
    if t[p].Loaded? {
      var ps := RequestsOf(w, disk, p);
      assert EntryKept(w, disk, t, p, t[p].entry);
      forall d | d in ps ensures d in t && (t[d].Loaded? <==> FileOf(w, disk, d).Parsed?) {
        assert SlotCurrent(w, disk, d, t[d]);
        assert t[d].Loaded? ==> EntryKept(w, disk, t, d, t[d].entry);
      }
      HeldIsLoading(w, disk, t, ps);
    }
  }

  /** Any two tables consistent with the same disk give the same bundle. */
  lemma BundlesAgree(w: Project, disk: Disk, t: Table, t': Table, entry: Path)
    requires Consistent(w, disk, t) && Consistent(w, disk, t') && entry in t && entry in t'
    ensures Closed(DependenciesIn(t)) && Closed(DependenciesIn(t')) && BundleOf(t, entry) == BundleOf(t', entry)
  {
    ConsistentKept(w, disk, t);
    ConsistentKept(w, disk, t');
    KeptClosed(w, disk, t);
    KeptClosed(w, disk, t');
    var g, g' := DependenciesIn(t), DependenciesIn(t');
    assert t[entry] == SlotOf(w, disk, entry) && t'[entry] == SlotOf(w, disk, entry);
    if t[entry].Loaded? {
      SameLists(w, disk, t, t');
      VisitsAgree(g, g', g.Keys * g'.Keys, entry, {});
      OrderInside(g, entry);
      OrderInside(g', entry);
      var order := Order(g, entry);
      forall i | 0 <= i < |order| ensures order[i] in g && order[i] in g' && t[order[i]] == t'[order[i]] {
        var x := order[i];
        assert x in g && Order(g', entry)[i] in g';
        assert t[x] == SlotOf(w, disk, x) && t'[x] == SlotOf(w, disk, x);
      }
      assert Sources(t, order) == Sources(t', order);
    }
  }

  lemma SameLists(w: Project, disk: Disk, t: Table, t': Table)
    requires Consistent(w, disk, t) && Consistent(w, disk, t')
    requires Closed(DependenciesIn(t)) && Closed(DependenciesIn(t'))
    ensures AgreeOn(DependenciesIn(t), DependenciesIn(t'), DependenciesIn(t).Keys * DependenciesIn(t').Keys)
  {
    var g, g' := DependenciesIn(t), DependenciesIn(t');
    forall p | p in g.Keys * g'.Keys ensures g[p] == g'[p] {
      assert t[p] == SlotOf(w, disk, p) && t'[p] == SlotOf(w, disk, p);
    }
  }

  // ----- Exactly when a patched table gives a rebuild's bundle -----

  /** An edge from every loaded module to what it requested. */
  function HeldGraph(w: Project, t: Table): Digraph {
    map p | p in t && t[p].Loaded? :: Sequences.Elements(Requested(w, t[p].entry.requests, p))
  }

  /** If the entry is loaded, everything was asked for on its behalf. */
  ghost predicate Minimal(w: Project, t: Table, entry: Path) {
    entry in t && (t[entry].Loaded? ==> forall q :: q in t ==> q == entry || Reaches(HeldGraph(w, t), entry, q))
  }

  /** The table gives what a rebuild would: with a loaded entry, if every slot is of the right kind;
      without, if the entry would not load either. */
  ghost predicate Current(w: Project, disk: Disk, t: Table, entry: Path)
    requires entry in t
  {
    if t[entry].Loaded? then SlotsCurrent(w, disk, t) else !SlotOf(w, disk, entry).Loaded?
  }

  /** A request path over loaded modules to a file that throws. */
  lemma {:induction false} HeldPathRejects(w: Project, disk: Disk, t: Table, r: seq<Path>)
    requires Kept(w, disk, t) && IsPath(HeldGraph(w, t), r) && FileOf(w, disk, r[|r| - 1]).Throws?
    ensures Rejects(w, disk, r[0])
    decreases |r|
  {
    var g := HeldGraph(w, t);
    RejectsStep(w, disk, r[0]);
    if !FileOf(w, disk, r[0]).Throws? {
      assert Edge(g, r[0], r[0 + 1]);
      assert EntryKept(w, disk, t, r[0], t[r[0]].entry);
      RejectsStep(w, disk, r[1]);
      if |r| > 2 {
        assert Edge(g, r[1], r[1 + 1]);
        TailIsPath(g, r);
        HeldPathRejects(w, disk, t, r[1..]);
      }
      assert r[1] in RequestsOf(w, disk, r[0]) && Rejects(w, disk, r[1]);
    }
  }

  /** The loaded modules' files do not throw. */
  ghost predicate NoneThrows(w: Project, disk: Disk, t: Table) {
    forall p :: p in t && t[p].Loaded? ==> !FileOf(w, disk, p).Throws?
  }

  /** If none does, a request path from a file that loads to one that parses is a path of dependencies in
      a rebuild. */
  lemma {:induction false} HeldPathCarries(w: Project, disk: Disk, t: Table, t': Table, r: seq<Path>)
    requires Kept(w, disk, t) && NoneThrows(w, disk, t) && Consistent(w, disk, t')
    requires IsPath(HeldGraph(w, t), r) && r[0] in t' && t'[r[0]].Loaded? && FileOf(w, disk, r[|r| - 1]).Parsed?
    ensures IsPath(GraphOf(DependenciesIn(t')), r)
    decreases |r|
  {
    var h, g := HeldGraph(w, t), GraphOf(DependenciesIn(t'));
    assert Edge(h, r[0], r[0 + 1]);
    if |r| > 2 {
      assert Edge(h, r[1], r[1 + 1]);
      assert EntryKept(w, disk, t, r[1], t[r[1]].entry);
    }
    HeldEdgeCarries(w, disk, t, t', r[0], r[1]);
    if |r| > 2 {
      TailIsPath(h, r);
      HeldPathCarries(w, disk, t, t', r[1..]);
      forall k | 0 <= k < |r| - 1 ensures Edge(g, r[k], r[k + 1]) {
        if k > 0 {
          assert Edge(g, r[1..][k - 1], r[1..][k - 1 + 1]);
        }
      }
    }
  }

  lemma HeldEdgeCarries(w: Project, disk: Disk, t: Table, t': Table, x: Path, y: Path)
    requires Kept(w, disk, t) && NoneThrows(w, disk, t) && Consistent(w, disk, t')
    requires Edge(HeldGraph(w, t), x, y) && x in t' && t'[x].Loaded? && FileOf(w, disk, y).Parsed?
    ensures Edge(GraphOf(DependenciesIn(t')), x, y) && y in t' && t'[y].Loaded?
  {
    assert EntryKept(w, disk, t, x, t[x].entry);
    var ps := RequestsOf(w, disk, x);
    assert t'[x] == SlotOf(w, disk, x);
    LoadingMember(w, disk, ps, y);
    RejectsStep(w, disk, x);
    var i :| 0 <= i < |ps| && ps[i] == y;
    assert t'[y] == SlotOf(w, disk, y);
  }

  lemma DependenciesAreHeld(w: Project, disk: Disk, t: Table)
    requires Kept(w, disk, t)
    ensures Subgraph(GraphOf(DependenciesIn(t)), HeldGraph(w, t))
  {
    forall x, y | Edge(GraphOf(DependenciesIn(t)), x, y) ensures Edge(HeldGraph(w, t), x, y) {
      assert EntryKept(w, disk, t, x, t[x].entry);
      HeldMember(t, Requested(w, t[x].entry.requests, x), y);
    }
  }

  /** With a loaded entry, no slot is rejected. */
  lemma NoneRejected(w: Project, disk: Disk, t: Table, entry: Path, q: Path)
    requires Kept(w, disk, t) && Minimal(w, t, entry) && t[entry].Loaded? && q in t
    ensures !t[q].Rejected?
  {
    if q != entry {
      var g := HeldGraph(w, t);
      var r :| IsPath(g, r) && r[0] == entry && r[|r| - 1] == q;
      var x := r[|r| - 2];
      assert Edge(g, x, r[|r| - 2 + 1]);
      assert EntryKept(w, disk, t, x, t[x].entry);
    }
  }

  /** The entry of a rebuild rejects if some file of a loaded entry's table throws. */
  lemma ThrowingRejects(w: Project, disk: Disk, t: Table, entry: Path, p: Path)
    requires Kept(w, disk, t) && Minimal(w, t, entry) && t[entry].Loaded?
    requires p in t && FileOf(w, disk, p).Throws?
    ensures Rejects(w, disk, entry)
  {
    if p == entry {
      RejectsStep(w, disk, entry);
    } else {
      var r :| IsPath(HeldGraph(w, t), r) && r[0] == entry && r[|r| - 1] == p;
      HeldPathRejects(w, disk, t, r);
    }
  }

  /** Whatever the patched table bundles, a rebuild bundles, and so it does a file that came to parse. */
  lemma BundledBoth(w: Project, disk: Disk, t: Table, t': Table, entry: Path, x: Path)
    requires Kept(w, disk, t) && NoneThrows(w, disk, t) && Consistent(w, disk, t')
    requires Closed(DependenciesIn(t')) && entry in t' && t'[entry].Loaded? && FileOf(w, disk, x).Parsed?
    requires x == entry || Reaches(HeldGraph(w, t), entry, x)
    ensures x in Order(DependenciesIn(t'), entry)
  {
    var g' := DependenciesIn(t');
    BundleOrdered(g', entry);
    if x != entry {
      var r :| IsPath(HeldGraph(w, t), r) && r[0] == entry && r[|r| - 1] == x;
      HeldPathCarries(w, disk, t, t', r);
    }
  }

  lemma {:induction false} CountElements(s: seq<Path>)
    requires Sequences.Distinct(s)
    ensures |Sequences.Elements(s)| == |s|
  {
    if s != [] {
      var front, last := s[..|s| - 1], s[|s| - 1];
      CountElements(front);
      assert Sequences.Elements(s) == Sequences.Elements(front) + {last};
    }
  }

  lemma LongerOrder(g: Dependencies, g': Dependencies, entry: Path, p: Path)
    requires Closed(g) && Closed(g') && entry in g && entry in g'
    requires forall x :: x in Order(g, entry) ==> x in Order(g', entry)
    requires p !in Order(g, entry) && p in Order(g', entry)
    ensures |Order(g, entry)| < |Order(g', entry)|
  {
    BundleOrdered(g, entry);
    BundleOrdered(g', entry);
    var a, b := Sequences.Elements(Order(g, entry)), Sequences.Elements(Order(g', entry));
    CountElements(Order(g, entry));
    CountElements(Order(g', entry));
    assert p in b && p !in a && a <= b;
    assert b == a + (b - a);
  }

  /** A file that the table holds as no module and that now parses: the rebuild's bundle is longer. */
  lemma NewModuleShows(w: Project, disk: Disk, t: Table, t': Table, entry: Path, p: Path)
    requires Kept(w, disk, t) && NoneThrows(w, disk, t) && Minimal(w, t, entry) && t[entry].Loaded?
    requires Consistent(w, disk, t') && Closed(DependenciesIn(t)) && Closed(DependenciesIn(t'))
    requires entry in t' && t'[entry].Loaded?
    requires p in t && t[p].NotAModule? && FileOf(w, disk, p).Parsed?
    ensures BundleOf(t, entry) != BundleOf(t', entry)
  {
    var g, g' := DependenciesIn(t), DependenciesIn(t');
    BundleOrdered(g, entry);
    OrderInside(g, entry);
    OrderInside(g', entry);
    DependenciesAreHeld(w, disk, t);
    forall x | x in Order(g, entry) ensures x in Order(g', entry) && x != p {
      var i :| 0 <= i < |Order(g, entry)| && Order(g, entry)[i] == x;
      assert x in g && EntryKept(w, disk, t, x, t[x].entry);
      if x != entry {
        SubgraphReaches(GraphOf(g), HeldGraph(w, t), entry, x);
      }
      BundledBoth(w, disk, t, t', entry, x);
    }
    BundledBoth(w, disk, t, t', entry, p);
    LongerOrder(g, g', entry, p);
    assert |BundleOf(t, entry).value| == |Order(g, entry)| && |BundleOf(t', entry).value| == |Order(g', entry)|;
  }

  /** With a loaded entry: the bundles differ as soon as one slot is of the wrong kind. */
  lemma WrongSlotShows(w: Project, disk: Disk, t: Table, t': Table, entry: Path, p: Path)
    requires Kept(w, disk, t) && Minimal(w, t, entry) && t[entry].Loaded?
    requires Consistent(w, disk, t') && entry in t' && Closed(DependenciesIn(t)) && Closed(DependenciesIn(t'))
    requires p in t && !SlotCurrent(w, disk, p, t[p])
    ensures BundleOf(t, entry) != BundleOf(t', entry)
  {
    NoneRejected(w, disk, t, entry, p);
    assert t'[entry] == SlotOf(w, disk, entry);
    if q :| q in t && FileOf(w, disk, q).Throws? {
      ThrowingRejects(w, disk, t, entry, q);
    } else if t'[entry].Loaded? {
      NewModuleShows(w, disk, t, t', entry, p);
    }
  }

  /** The exact condition: a kept table gives the bundle of a rebuild if and only if it is current. */
  lemma BundleExact(w: Project, disk: Disk, t: Table, t': Table, entry: Path)
    requires Kept(w, disk, t) && Minimal(w, t, entry) && Consistent(w, disk, t') && entry in t'
    ensures Closed(DependenciesIn(t)) && Closed(DependenciesIn(t'))
    ensures BundleOf(t, entry) == BundleOf(t', entry) <==> Current(w, disk, t, entry)
  {
    KeptClosed(w, disk, t);
    ConsistentKept(w, disk, t');
    KeptClosed(w, disk, t');
    assert t'[entry] == SlotOf(w, disk, entry);
    if t[entry].Loaded? {
      if SlotsCurrent(w, disk, t) {
        KeptConsistent(w, disk, t);
        BundlesAgree(w, disk, t, t', entry);
      } else {
        var p :| p in t && !SlotCurrent(w, disk, p, t[p]);
        WrongSlotShows(w, disk, t, t', entry, p);
      }
    }
  }

  // ----- Changing a file -----

  function Write(disk: Disk, p: Path, content: Content): Disk {
    (q: Path) => if q == p then Some(content) else disk(q)
  }

  /** What a push makes of the table; None where the loader is dropped. A file held as no module or
      rejected is not looked at, and an exception leaves everything as it is. */
  function Pushed(w: Project, t: Table, p: Path, content: Content): Option<Table> {
    if p !in t || !t[p].Loaded? then Some(t)
    else match w.parse(content, p)
      case Throws => Some(t)
      case NoModule => None
      case Parsed(requests, source) =>
        if requests != t[p].entry.requests then None
        else Some(t[p := Loaded(t[p].entry.(source := source))])
  }

  /** The push raises an exception, so that not even the cached bundle is dropped. */
  predicate PushThrows(w: Project, t: Table, p: Path, content: Content) {
    p in t && (t[p].Rejected? || (t[p].Loaded? && w.parse(content, p).Throws?))
  }

  lemma {:induction false} HeldSame(t: Table, t': Table, ps: seq<Path>)
    requires forall d :: d in ps ==> d in t && d in t' && (t[d].Loaded? <==> t'[d].Loaded?)
    ensures Held(t, ps) == Held(t', ps)
  {
    if ps != [] {
      var d := ps[0];
      assert d in ps;
      HeldSame(t, t', ps[1..]);
    }
  }

  /** Any push keeps what is kept. */
  lemma PushedKept(w: Project, disk: Disk, t: Table, p: Path, content: Content)
    requires Kept(w, disk, t) && Pushed(w, t, p, content).Some?
    ensures Kept(w, Write(disk, p, content), Pushed(w, t, p, content).value)
  {
    var disk', t' := Write(disk, p, content), Pushed(w, t, p, content).value;
    forall q | q in t' && t'[q].Loaded? ensures EntryKept(w, disk', t', q, t'[q].entry) {
      var e := t[q].entry;
      assert EntryKept(w, disk, t, q, e);
      forall d | d in Requested(w, e.requests, q)
        ensures d in t && d in t' && (t[d].Loaded? <==> t'[d].Loaded?) && !t'[d].Rejected?
      {
      }
      HeldSame(t, t', Requested(w, e.requests, q));
    }
  }

  lemma PushedMinimal(w: Project, t: Table, p: Path, content: Content, entry: Path)
    requires Minimal(w, t, entry) && Pushed(w, t, p, content).Some?
    ensures Minimal(w, Pushed(w, t, p, content).value, entry)
  {
    assert HeldGraph(w, Pushed(w, t, p, content).value) == HeldGraph(w, t);
  }

  /** The failing families of a push: a file held as no module that no longer is one; a loaded file that
      now throws; and any rejected file that would no longer reject. */
  ghost predicate GoesStale(w: Project, disk: Disk, t: Table, p: Path, content: Content) {
    || (p in t && t[p].NotAModule? && !w.parse(content, p).NoModule?)
    || (p in t && t[p].Loaded? && w.parse(content, p).Throws?)
    || exists q :: q in t && t[q].Rejected? && !Rejects(w, Write(disk, p, content), q)
  }

  /** A table that stays in use agrees with the changed disk if and only if the push is not stale. */
  lemma PushedConsistent(w: Project, disk: Disk, t: Table, p: Path, content: Content)
    requires Consistent(w, disk, t) && Pushed(w, t, p, content).Some?
    ensures Consistent(w, Write(disk, p, content), Pushed(w, t, p, content).value) <==> !GoesStale(w, disk, t, p, content)
  {
    var disk', t' := Write(disk, p, content), Pushed(w, t, p, content).value;
    ConsistentKept(w, disk, t);
    KeptConsistent(w, disk, t);
    PushedKept(w, disk, t, p, content);
    KeptConsistent(w, disk', t');
    if GoesStale(w, disk, t, p, content) {
      if q :| q in t && t[q].Rejected? && !Rejects(w, disk', q) {
        assert !SlotCurrent(w, disk', q, t'[q]);
      } else {
        assert !SlotCurrent(w, disk', p, t'[p]);
      }
    } else {
      forall q | q in t' ensures SlotCurrent(w, disk', q, t'[q]) {
        assert SlotCurrent(w, disk, q, t[q]);
      }
    }
  }
}
