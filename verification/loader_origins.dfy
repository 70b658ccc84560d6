/** Where errors and requests come from, in every state the module manager can reach. */
module LoaderOrigins {
  import opened Wrappers
  import opened Graph
  import opened LoaderState
  import opened LoaderRuns
  import opened LoaderTheorems

  /** An error names the load or the factory that failed: the module's own, or that of something the
      module depends on. */
  ghost predicate Blames(s: State, m: Id, e: Error) {
    && (e.Loading? ==> e.id in s.known)
    && (e.Factory? ==> e.id in s.h.log)
    && (m == e.id || Reaches(DeclaredGraph(s.h.declared), m, e.id))
  }

  ghost predicate Blamed(s: State) {
    forall m :: m in s.modules && s.modules[m].error.Some? ==> Blames(s, m, s.modules[m].error.value)
  }

  /** Somebody depends on d. */
  ghost predicate Wanted(s: State, d: Id) {
    exists m :: m in s.h.declared && Regular(d) in s.h.declared[m]
  }

  /** Nothing is asked for that no definition mentions. */
  ghost predicate OnlyWanted(s: State) {
    forall d :: d in s.known || d in s.h.requesting ==> Wanted(s, d)
  }

  /** Among the first n dependencies is the pseudo dependency on `exports`. */
  predicate HasExports(ds: seq<Dependency>, n: int) {
    exists i :: 0 <= i < n && i < |ds| && ds[i].Exports?
  }

  /** A module that has not failed gets its exports object passed in if and only if its dependencies
      examined so far say so. */
  ghost predicate ExportsNoted(s: State) {
    forall m :: m in s.modules && m in s.h.declared && (s.modules[m].error.None? || m in s.h.log) ==>
      (s.modules[m].exportsPassedIn <==> HasExports(s.h.declared[m], |s.h.declared[m]| - Pending(s.h.pending, m)))
  }

  ghost predicate Traced(s: State) {
    Blamed(s) && OnlyWanted(s) && ExportsNoted(s)
  }

  lemma DeclaredGrows(s: State, t: State)
    requires Grows(s, t)
    ensures Subgraph(DeclaredGraph(s.h.declared), DeclaredGraph(t.h.declared))
    ensures forall d :: Wanted(s, d) ==> Wanted(t, d)
  {
    forall d | Wanted(s, d) ensures Wanted(t, d) {
      var m :| m in s.h.declared && Regular(d) in s.h.declared[m];
      assert m in t.h.declared;
    }
  }

  /** What is blamed stays blamed as the state grows. */
  lemma BlamesGrow(s: State, t: State, m: Id, e: Error)
    requires Grows(s, t) && Blames(s, m, e)
    ensures Blames(t, m, e)
  {
    DeclaredGrows(s, t);
    if m != e.id {
      SubgraphReaches(DeclaredGraph(s.h.declared), DeclaredGraph(t.h.declared), m, e.id);
    }
  }

  lemma StepGrowsReachable(s: State, a: Step)
    requires Reachable(s) && Enabled(s, a)
    ensures Grows(s, Apply(s, a))
  {
    ReachableInv(s);
    StepGrows(s, a);
  }

  /** A step that gives no module an error, or another one. */
  lemma SameErrors(s: State, a: Step)
    requires Reachable(s) && Blamed(s) && Enabled(s, a)
    requires forall m :: m in Apply(s, a).modules && Apply(s, a).modules[m].error.Some? ==>
      m in s.modules && s.modules[m].error == Apply(s, a).modules[m].error
    ensures Blamed(Apply(s, a))
  {
    StepGrowsReachable(s, a);
    var t := Apply(s, a);
    forall m | m in t.modules && t.modules[m].error.Some? ensures Blames(t, m, t.modules[m].error.value) {
      BlamesGrow(s, t, m, t.modules[m].error.value);
    }
  }

  lemma FailLoadBlames(s: State, d: Id)
    requires Reachable(s) && Blamed(s) && Enabled(s, FailLoad(d))
    ensures Blamed(LoadFailed(s, d))
  {
    StepGrowsReachable(s, FailLoad(d));
    var t := LoadFailed(s, d);
    assert t.known == s.known;
    forall m | m in t.modules && t.modules[m].error.Some? ensures Blames(t, m, t.modules[m].error.value) {
      if m in s.modules {
        FailureSpreadsExactly(s, d, m);
        if m != d && Reaches(WaitGraph(s), m, d) {
          BlamesGrow(s, t, m, Loading(d));
        } else if m != d {
          BlamesGrow(s, t, m, t.modules[m].error.value);
        }
      }
    }
  }

  lemma PropagateBlames(s: State, m: Id)
    requires Reachable(s) && Blamed(s) && Enabled(s, Propagate(m))
    ensures Blamed(Propagated(s, m))
  {
    StepGrowsReachable(s, Propagate(m));
    var t, d := Propagated(s, m), Next(s, m).id;
    var e := s.modules[d].error.value;
    NextIsEdge(s, m);
    BlamesGrow(s, t, d, e);
    forall x | x in t.modules && t.modules[x].error.Some? ensures Blames(t, x, t.modules[x].error.value) {
      if x == m {
        if d == e.id {
          EdgeReaches(DeclaredGraph(t.h.declared), m, d);
        } else {
          StepReaches(DeclaredGraph(t.h.declared), m, d, e.id);
        }
      } else {
        BlamesGrow(s, t, x, t.modules[x].error.value);
      }
    }
  }

  lemma NextIsEdge(s: State, m: Id)
    requires Examining(s, m) && Next(s, m).Regular?
    ensures Edge(DeclaredGraph(s.h.declared), m, Next(s, m).id) && Wanted(s, Next(s, m).id)
  {
    var ds := s.h.declared[m];
    assert ds[|ds| - s.h.pending[m]].Target() == Next(s, m).id;
  }

  lemma EndFactoryBlames(s: State, m: Id, throws: bool)
    requires Reachable(s) && Blamed(s) && Enabled(s, EndFactory(m, throws))
    ensures Blamed(FactoryEnded(s, m, throws))
  {
    ReachableInv(s);
    StepGrowsReachable(s, EndFactory(m, throws));
    var t := FactoryEnded(s, m, throws);
    forall x | x in t.modules && t.modules[x].error.Some? ensures Blames(t, x, t.modules[x].error.value) {
      if x != m || !throws {
        BlamesGrow(s, t, x, t.modules[x].error.value);
      }
    }
  }

  lemma StepBlames(s: State, a: Step)
    requires Reachable(s) && Blamed(s) && Enabled(s, a)
    ensures Blamed(Apply(s, a))
  {
    match a
    case FailLoad(d) => FailLoadBlames(s, d);
    case Propagate(m) => PropagateBlames(s, m);
    case EndFactory(m, throws) => EndFactoryBlames(s, m, throws);
    case _ => SameErrors(s, a);
  }

  lemma StepWants(s: State, a: Step)
    requires Reachable(s) && OnlyWanted(s) && Enabled(s, a)
    ensures OnlyWanted(Apply(s, a))
  {
    StepGrowsReachable(s, a);
    var t := Apply(s, a);
    DeclaredGrows(s, t);
    forall d | d in t.known || d in t.h.requesting ensures Wanted(t, d) {
      if d !in s.known && d !in s.h.requesting {
        assert a.Await? && d == Next(s, a.m).id;
        NextIsEdge(s, a.m);
      }
    }
  }

  lemma OneMoreExamined(s: State, m: Id)
    requires Examining(s, m)
    ensures var ds, n := s.h.declared[m], |s.h.declared[m]| - s.h.pending[m];
      HasExports(ds, n + 1) <==> HasExports(ds, n) || Next(s, m).Exports?
  {
    var ds, n := s.h.declared[m], |s.h.declared[m]| - s.h.pending[m];
    if Next(s, m).Exports? {
      assert 0 <= n < n + 1 && n < |ds| && ds[n].Exports?;
    }
  }

  lemma ExamineExports(s: State, a: Step, m: Id)
    requires Reachable(s) && ExportsNoted(s) && Enabled(s, a) && (a == Satisfy(m) || a == Break(m) || a == Await(m))
    ensures ExportsNoted(Apply(s, a))
  {
    ReachableInv(s);
    ExaminingNotRun(s, m);
    OneMoreExamined(s, m);
    var t := Apply(s, a);
    assert t.h.declared == s.h.declared && Pending(t.h.pending, m) == Pending(s.h.pending, m) - 1;
    assert t.modules[m].exportsPassedIn <==> s.modules[m].exportsPassedIn || Next(s, m).Exports?;
    forall x | x in t.modules && x in t.h.declared && (t.modules[x].error.None? || x in t.h.log)
      ensures t.modules[x].exportsPassedIn <==> HasExports(t.h.declared[x], |t.h.declared[x]| - Pending(t.h.pending, x))
    {
      if x != m {
        assert SameNoted(s, t, x);
      }
    }
  }

  /** Nothing examined, and no failed module healed. */
  ghost predicate SameNoted(s: State, t: State, x: Id)
    requires x in t.modules
  {
    && x in s.modules && x in s.h.declared && x in t.h.declared
    && t.h.declared[x] == s.h.declared[x] && t.modules[x].exportsPassedIn == s.modules[x].exportsPassedIn
    && Pending(t.h.pending, x) == Pending(s.h.pending, x)
    && (t.modules[x].error.None? || x in t.h.log ==> s.modules[x].error.None? || x in s.h.log)
  }

  lemma KeepsExports(s: State, t: State)
    requires ExportsNoted(s)
    requires forall x :: x in t.modules && (t.modules[x].error.None? || x in t.h.log) ==> SameNoted(s, t, x)
    ensures ExportsNoted(t)
  {
  }

  lemma DefineExports(s: State, id: Id, deps: seq<Dependency>, eb: bool)
    requires Reachable(s) && ExportsNoted(s) && Enabled(s, Define(id, deps, eb))
    ensures ExportsNoted(Defined(s, id, deps, eb))
  {
    ReachableInv(s);
    var t := Defined(s, id, deps, eb);
    forall x | x in t.modules && x in t.h.declared && (t.modules[x].error.None? || x in t.h.log)
      ensures t.modules[x].exportsPassedIn <==> HasExports(t.h.declared[x], |t.h.declared[x]| - Pending(t.h.pending, x))
    {
      if x != id {
        assert SameNoted(s, t, x);
      }
    }
  }

  lemma FailLoadExports(s: State, d: Id)
    requires Reachable(s) && ExportsNoted(s) && Enabled(s, FailLoad(d))
    ensures ExportsNoted(LoadFailed(s, d))
  {
    ReachableInv(s);
    KeepsExports(s, LoadFailed(s, d));
  }

  lemma PropagateExports(s: State, m: Id)
    requires Reachable(s) && ExportsNoted(s) && Enabled(s, Propagate(m))
    ensures ExportsNoted(Propagated(s, m))
  {
    ReachableInv(s);
    ExaminingNotRun(s, m);
    KeepsExports(s, Propagated(s, m));
  }

  lemma BeginFactoryExports(s: State, m: Id)
    requires Reachable(s) && ExportsNoted(s) && Enabled(s, BeginFactory(m))
    ensures ExportsNoted(FactoryBegun(s, m))
  {
    ReachableInv(s);
    assert s.modules[m].error.None?;
    KeepsExports(s, FactoryBegun(s, m));
  }

  lemma EndFactoryExports(s: State, m: Id, throws: bool)
    requires Reachable(s) && ExportsNoted(s) && Enabled(s, EndFactory(m, throws))
    ensures ExportsNoted(FactoryEnded(s, m, throws))
  {
    ReachableInv(s);
    KeepsExports(s, FactoryEnded(s, m, throws));
  }

  lemma EndResolveExports(s: State, m: Id)
    requires Reachable(s) && ExportsNoted(s) && Enabled(s, EndResolve(m))
    ensures ExportsNoted(ResolveEnded(s, m))
  {
    ReachableInv(s);
    KeepsExports(s, ResolveEnded(s, m));
  }

  lemma DrainExports(s: State, x: Id)
    requires Reachable(s) && ExportsNoted(s) && Enabled(s, DrainOne(x))
    ensures ExportsNoted(Drained(s, x))
  {
    ReachableInv(s);
    KeepsExports(s, Drained(s, x));
  }

  /** Steps of bookkeeping. */
  lemma OtherExports(s: State, a: Step)
    requires Reachable(s) && ExportsNoted(s) && Enabled(s, a) && (a.Ask? || a.Restore?)
    ensures ExportsNoted(Apply(s, a))
  {
    ReachableInv(s);
    KeepsExports(s, Apply(s, a));
  }

  lemma StepExports(s: State, a: Step)
    requires Reachable(s) && ExportsNoted(s) && Enabled(s, a)
    ensures ExportsNoted(Apply(s, a))
  {
    match a
    case Satisfy(m) => ExamineExports(s, a, m);
    case Break(m) => ExamineExports(s, a, m);
    case Await(m) => ExamineExports(s, a, m);
    case Define(id, deps, eb) => DefineExports(s, id, deps, eb);
    case FailLoad(d) => FailLoadExports(s, d);
    case Propagate(m) => PropagateExports(s, m);
    case BeginFactory(m) => BeginFactoryExports(s, m);
    case EndFactory(m, throws) => EndFactoryExports(s, m, throws);
    case EndResolve(m) => EndResolveExports(s, m);
    case DrainOne(x) => DrainExports(s, x);
    case _ => OtherExports(s, a);
  }

  lemma {:induction false} RunTraced(r: seq<State>)
    requires IsRun(r) && r[0] == Initial()
    ensures Reachable(r[|r| - 1]) && Traced(r[|r| - 1])
  {
    if |r| == 1 {
      Stay(Initial());
    } else {
      RunTraced(r[..|r| - 1]);
      var n := |r| - 1;
      var a := StepOf(r[n - 1], r[n]);
      StepBlames(r[n - 1], a);
      StepWants(r[n - 1], a);
      StepExports(r[n - 1], a);
    }
  }

  /** Every error names the failed load or the throwing factory that it comes from, only what some definition
      depends on is asked for, and exports are passed in where the dependencies say so. */
  lemma ReachableTraced(s: State)
    requires Reachable(s)
    ensures Traced(s)
  {
    var r :| IsRun(r) && r[0] == Initial() && r[|r| - 1] == s;
    RunTraced(r);
  }

  /** At rest, whatever a module that has not failed depends on is defined or was asked for. */
  lemma DependenciesAsked(s: State, m: Id, d: Id)
    requires Reachable(s) && Quiescent(s) && m in s.modules && !Failed(s, m)
    requires m in s.h.declared && Regular(d) in s.h.declared[m]
    ensures d in s.modules || d in s.known
  {
    ReachableInv(s);
    if m in s.h.log {
      var k :| 0 <= k < |s.h.log| && s.h.log[k] == m;
      FactoriesInDependencyOrder(s, k, d);
      if Reaches(DeclaredGraph(s.h.declared), d, m) {
        var p :| IsPath(DeclaredGraph(s.h.declared), p) && p[0] == d && p[|p| - 1] == m;
        assert Edge(DeclaredGraph(s.h.declared), p[0], p[0 + 1]);
      }
    } else {
      var ds := s.h.declared[m];
      var i :| 0 <= i < |ds| && ds[i] == Regular(d);
      assert ExaminedUpTo(ds, |ds| - Pending(s.h.pending, m), s.h.log, s.h.broken, s.inverse, m);
      assert Resolved(s.h.log, s.h.broken, s.inverse, m, ds[i].id);
      if (m, d) in s.h.broken {
        var p :| IsPath(DeclaredGraph(s.h.declared), p) && p[0] == d && p[|p| - 1] == m;
        assert Edge(DeclaredGraph(s.h.declared), p[0], p[0 + 1]);
      }
    }
  }
}
