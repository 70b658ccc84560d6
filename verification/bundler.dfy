/** Bundling a loaded module graph: sources appended in visiting order, their maps stacked. */
module Bundler {
  import opened Wrappers
  import opened SourceMapFormat
  import opened SourceMapStack
  import SourceMapBuilding
  import opened BundleOrder
  import opened BundleListing

  datatype LoadedModule = LoadedModule(dependencies: seq<Path>, source: Source)

  type Modules = map<Path, LoadedModule>

  function DependenciesOf(modules: Modules): Dependencies {
    map p | p in modules :: modules[p].dependencies
  }

  /** The sources of an order, one after the other. */
  function Texts(modules: Modules, order: seq<Path>): seq<byte>
    requires forall i :: 0 <= i < |order| ==> order[i] in modules
  {
    if order == [] then [] else Texts(modules, order[..|order| - 1]) + modules[order[|order| - 1]].source.content
  }

  ghost predicate Bundleable(modules: Modules, universe: set<string>) {
    && Closed(DependenciesOf(modules)) && |universe| <= 0x4000_0000
    && forall p :: p in modules ==> SourceFits(modules[p].source, universe)
  }

  ghost predicate SourceFits(s: Source, universe: set<string>) {
    && Readable(START, s.mappings, |s.sources|) && Fits(s)
    && s.sourceLines == Newlines(s.content) && ValidUpTo(s.mappings, |s.mappings|)
    && forall i :: 0 <= i < |s.sources| ==> s.sources[i] in universe
  }

  /** The maps of an order, each moved below the text before it. */
  ghost function Stacked(modules: Modules, order: seq<Path>, universe: set<string>): seq<NamedSegment>
    requires Bundleable(modules, universe) && forall i :: 0 <= i < |order| ==> order[i] in modules
  {
    if order == [] then [] else
      var p, front := order[|order| - 1], order[..|order| - 1];
      assert p in modules && SourceFits(modules[p].source, universe);
      var s := modules[p].source;
      Stacked(modules, front, universe) + Name(Decode(s.mappings).segments, s.sources, Newlines(Texts(modules, front)))
  }

  /** The text and the map that bundling the modules of an order gives. */
  ghost predicate IsBundle(modules: Modules, universe: set<string>, order: seq<Path>, comment: seq<byte>,
                           content: seq<byte>, mappings: seq<byte>, sources: seq<string>)
    requires Bundleable(modules, universe)
  {
    && (forall i :: 0 <= i < |order| ==> order[i] in modules)
    && content == Texts(modules, order) + comment + [NEWLINE]
    && FeedAll(START, mappings).Decoder? && FeedAll(START, mappings).standard
    && SegmentsInRange(FeedAll(START, mappings).segments, |sources|)
    && Name(FeedAll(START, mappings).segments, sources, 0) == Stacked(modules, order, universe)
    && FeedAll(START, mappings).line + 1 == Newlines(content)
  }

  class Bundle {
    const modules: Modules
    const builder: SourceMapBuilding.SourceMapBuilder
    var visited: set<Path>
    ghost const universe: set<string>
    ghost var order: seq<Path>

    constructor (modules: Modules, ghost universe: set<string>)
      requires Bundleable(modules, universe)
      ensures this.modules == modules && this.universe == universe && visited == {} && order == []
      ensures Valid() && fresh(builder.Repr())
    {
      this.modules, this.universe := modules, universe;
      builder := new SourceMapBuilding.SourceMapBuilder();
      visited, order := {}, [];
    }

    /** The builder holds exactly the modules added so far, in order. */
    ghost predicate Valid()
      reads this`order, builder, builder.outputBuffer, builder.outputBuffer.buffer, builder.mappings, builder.mappings.buffer
    {
      && Bundleable(modules, universe) && this !in builder.Repr() && builder.Valid()
      && (forall i :: 0 <= i < |builder.sources| ==> builder.sources[i] in universe)
      && (forall i :: 0 <= i < |order| ==> order[i] in modules)
      && builder.outputBuffer.Contents() == Texts(modules, order)
      && builder.Meaning() == Stacked(modules, order, universe)
    }

    /** Visits a module: its dependencies first, then its own source. */
    method VisitModule(p: Path)
      requires Valid() && p in modules
      modifies this, builder.Repr()
      ensures Valid() && fresh(builder.Repr() - old(builder.Repr()))
      ensures Visited(old(visited), old(order), Visit(DependenciesOf(modules), p, old(visited)))
      decreases modules.Keys - visited, 0
    {
      if p in visited {
        EmptyBack(order);
        return;
      }
      VisitUnfold(DependenciesOf(modules), p, visited, order);
      visited := visited + {p};
      VisitMarked(p);
    }

    /** A module newly marked as visited: its dependencies, then its own source. */
    method VisitMarked(p: Path)
      requires Valid() && p in modules
      modifies this, builder.Repr()
      ensures Valid() && fresh(builder.Repr() - old(builder.Repr()))
      ensures var g := DependenciesOf(modules); var r := VisitAll(g, g[p], old(visited));
        old(visited) <= visited && visited == r.0 && order == (old(order) + r.1) + [p]
      decreases modules.Keys - visited, 2
    {
      RequestedAreModules(modules, p);
      VisitDependencies(modules[p].dependencies);
      label Visited:
      assert Valid() && fresh(builder.Repr() - old(builder.Repr()));
      AddModule(p);
      assert fresh(builder.Repr() - old@Visited(builder.Repr()));
    }

    static lemma RequestedAreModules(modules: Modules, p: Path)
      requires Closed(DependenciesOf(modules)) && p in modules
      ensures forall i :: 0 <= i < |modules[p].dependencies| ==> modules[p].dependencies[i] in modules
    {
      assert DependenciesOf(modules)[p] == modules[p].dependencies;
    }

    static lemma VisitUnfold(g: Dependencies, p: Path, visited: set<Path>, order: seq<Path>)
      requires Closed(g) && p in g && p !in visited
      ensures g.Keys - (visited + {p}) < g.Keys - visited
      ensures var r := VisitAll(g, g[p], visited + {p});
        Visit(g, p, visited).0 == r.0 && order + Visit(g, p, visited).1 == (order + r.1) + [p]
    {
    }

    static lemma EmptyBack(a: seq<Path>)
      ensures a + [] == a
    {
    }

    ghost predicate Visited(visited0: set<Path>, order0: seq<Path>, r: (set<Path>, seq<Path>))
      reads this
    {
      visited0 <= visited && visited == r.0 && order == order0 + r.1
    }

    method VisitDependencies(ps: seq<Path>)
      requires Valid() && forall i :: 0 <= i < |ps| ==> ps[i] in modules
      modifies this, builder.Repr()
      ensures Valid() && fresh(builder.Repr() - old(builder.Repr()))
      ensures Visited(old(visited), old(order), VisitAll(DependenciesOf(modules), ps, old(visited)))
      decreases modules.Keys - visited, 1
    {
      ghost var g, order0, visited0 := DependenciesOf(modules), order, visited;
      ghost var all := VisitAll(g, ps, visited);
      assert ps[0..] == ps;
      for i := 0 to |ps|
        invariant Valid() && fresh(builder.Repr() - old(builder.Repr())) && visited0 <= visited
        invariant Remaining(g, ps[i..], visited, order) == (all.0, order0 + all.1)
      {
        RemainingStep(g, ps, i, visited, order);
        VisitModule(ps[i]);
      }
      EmptyBack(order);
    }

    /** What the loop over the dependencies will have done in the end. */
    static ghost function Remaining(g: Dependencies, ps: seq<Path>, visited: set<Path>, order: seq<Path>): (set<Path>, seq<Path>)
      requires Closed(g) && forall i :: 0 <= i < |ps| ==> ps[i] in g
    {
      (VisitAll(g, ps, visited).0, order + VisitAll(g, ps, visited).1)
    }

    static lemma RemainingStep(g: Dependencies, ps: seq<Path>, i: nat, visited: set<Path>, order: seq<Path>)
      requires Closed(g) && i < |ps| && forall j :: 0 <= j < |ps| ==> ps[j] in g
      ensures var a := Visit(g, ps[i], visited);
        Remaining(g, ps[i..], visited, order) == Remaining(g, ps[i + 1..], a.0, order + a.1)
    {
      assert ps[i..][1..] == ps[i + 1..];
      var a := Visit(g, ps[i], visited);
      var b := VisitAll(g, ps[i + 1..], a.0);
      assert order + (a.1 + b.1) == (order + a.1) + b.1;
    }

    method Run(root: Path, comment: seq<byte>) returns (content: seq<byte>, mappings: seq<byte>, sources: seq<string>)
      requires Valid() && root in modules && visited == {} && order == [] && NEWLINE !in comment
      modifies this, builder.Repr()
      ensures IsBundle(modules, universe, Order(DependenciesOf(modules), root), comment, content, mappings, sources)
    {
      VisitRoot(root);
      content, mappings, sources := Finish(comment);
    }

    method VisitRoot(root: Path)
      requires Valid() && root in modules && visited == {} && order == []
      modifies this, builder.Repr()
      ensures Valid() && fresh(builder.Repr() - old(builder.Repr()))
      ensures order == Order(DependenciesOf(modules), root)
    {
      EmptyFront(Order(DependenciesOf(modules), root));
      VisitModule(root);
    }

    /** The map, and the text with the comment line that carries it. */
    method Finish(comment: seq<byte>) returns (content: seq<byte>, mappings: seq<byte>, sources: seq<string>)
      requires Valid() && NEWLINE !in comment
      modifies builder.Repr()
      ensures IsBundle(modules, universe, order, comment, content, mappings, sources)
    {
      mappings := builder.mappings.ToBuffer();
      sources := builder.sources;
      builder.AddLine(comment);
      content := builder.outputBuffer.ToBuffer();
    }

    static lemma EmptyFront(order: seq<Path>)
      ensures [] + order == order
    {
    }

    method AddModule(p: Path)
      requires Valid() && p in modules
      modifies this`order, builder.Repr()
      ensures Valid() && fresh(builder.Repr() - old(builder.Repr()))
      ensures order == old(order) + [p]
    {
      assert SourceFits(modules[p].source, universe);
      var ok := builder.AddSource(modules[p].source, universe);
      order := order + [p];
      assert order[..|order| - 1] == old(order);
    }
  }

  /** The bundle of `root`: the text of every module it reaches, each once, after its dependencies and with
      siblings in turn, then one comment line; and a source map whose decoding is the modules' own maps,
      stacked. */
  method BundleWithDependencies(modules: Modules, root: Path, comment: seq<byte>, ghost universe: set<string>)
    returns (content: seq<byte>, mappings: seq<byte>, sources: seq<string>)
    requires Bundleable(modules, universe) && root in modules && NEWLINE !in comment
    ensures exists order ::
      (DepthFirst(map p | p in modules :: modules[p].dependencies, root, order)
       && IsBundle(modules, universe, order, comment, content, mappings, sources))
  {
    var bundle := new Bundle(modules, universe);
    content, mappings, sources := bundle.Run(root, comment);
    OrderIsDepthFirst(DependenciesOf(modules), root);
    assert DependenciesOf(modules) == map p | p in modules :: modules[p].dependencies;
  }
}
