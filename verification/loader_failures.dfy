/** What a failure leaves behind: a module that waits for a failed one never runs, and the error that
    `_resolve` copies from a dependency does not reach those that wait already. */
module LoaderFailures {
  import opened Wrappers
  import opened Graph
  import opened LoaderState
  import opened LoaderRuns
  import opened LoaderTheorems

  /** m is recorded as waiting for d, which failed. */
  ghost predicate Stranded(s: State, m: Id, d: Id) {
    Failed(s, d) && m in List(s.inverse, d)
  }

  lemma StepStrands(s: State, a: Step, m: Id, d: Id)
    requires Inv(s) && Enabled(s, a) && Stranded(s, m, d)
    ensures Stranded(Apply(s, a), m, d)
  {
    match a
    case Await(x) => ListPush(s.inverse, Next(s, x).id, x, d);
    case FailLoad(x) => FailLoadStrands(s, x, m, d);
    case BeginFactory(x) => BeginFactoryStrands(s, x, m, d);
    case EndFactory(x, throws) => EndFactoryStrands(s, x, throws, m, d);
    case Propagate(x) => PropagateStrands(s, x, m, d);
    case _ =>
  }

  lemma BeginFactoryStrands(s: State, x: Id, m: Id, d: Id)
    requires Inv(s) && Enabled(s, BeginFactory(x)) && Stranded(s, m, d)
    ensures Stranded(FactoryBegun(s, x), m, d)
  {
  }

  lemma EndFactoryStrands(s: State, x: Id, throws: bool, m: Id, d: Id)
    requires Inv(s) && Enabled(s, EndFactory(x, throws)) && Stranded(s, m, d)
    ensures Stranded(FactoryEnded(s, x, throws), m, d)
  {
  }

  lemma PropagateStrands(s: State, x: Id, m: Id, d: Id)
    requires Enabled(s, Propagate(x)) && Stranded(s, m, d)
    ensures Stranded(Propagated(s, x), m, d)
  {
  }

  lemma FailLoadStrands(s: State, x: Id, m: Id, d: Id)
    requires Stranded(s, m, d)
    ensures Stranded(LoadFailed(s, x), m, d)
  {
  }

  lemma {:induction false} RunStrands(r: seq<State>, m: Id, d: Id)
    requires IsRun(r) && Inv(r[0]) && Stranded(r[0], m, d)
    ensures Inv(r[|r| - 1]) && Stranded(r[|r| - 1], m, d)
  {
    if |r| > 1 {
      RunStrands(r[..|r| - 1], m, d);
      var n := |r| - 1;
      var a := StepOf(r[n - 1], r[n]);
      StepKeeps(r[n - 1], a);
      StepStrands(r[n - 1], a, m, d);
    }
  }

  /** From then on its factory is never invoked, whatever happens. */
  lemma StrandedNeverRuns(s: State, t: State, m: Id, d: Id)
    requires Reachable(s) && Leads(s, t) && Stranded(s, m, d)
    ensures m !in t.h.log && Stranded(t, m, d)
  {
    ReachableInv(s);
    var r :| IsRun(r) && r[0] == s && r[|r| - 1] == t;
    RunStrands(r, m, d);
    WaitingMember(t, d, m);
  }

  // ----- Who is told -----

  /** Whoever waits for a failed module has an error itself. */
  ghost predicate Told(s: State) {
    forall x, m :: Failed(s, x) && m in List(s.inverse, x) ==> m in s.modules && s.modules[m].error.Some?
  }

  /** A step in which `_resolve` fails a module that others without an error wait for. */
  ghost predicate Untold(s: State, a: Step) {
    a.Propagate? && exists w :: w in List(s.inverse, a.m) && w in s.modules && s.modules[w].error.None?
  }

  /** Exactly these steps leave someone waiting for a failed module without an error. */
  lemma StepTells(s: State, a: Step)
    requires Inv(s) && Told(s) && Enabled(s, a)
    ensures Told(Apply(s, a)) <==> !Untold(s, a)
  {
    match a
    case Propagate(m) => PropagateTells(s, m);
    case FailLoad(d) => FailLoadTells(s, d);
    case EndFactory(m, throws) => EndFactoryTells(s, m, throws);
    case Await(m) => AwaitTells(s, m);
    case Define(id, deps, eb) => DefineTells(s, id, deps, eb);
    case Satisfy(m) => SatisfyTells(s, m);
    case Break(m) => BreakTells(s, m);
    case BeginFactory(m) => BeginFactoryTells(s, m);
    case DrainOne(x) => DrainTells(s, x);
    case Ask(d) => SameTells(s, Asked(s, d));
    case EndResolve(m) => SameTells(s, ResolveEnded(s, m));
    case Restore(active) => SameTells(s, Apply(s, a));
  }

  lemma PropagateTells(s: State, m: Id)
    requires Inv(s) && Told(s) && Enabled(s, Propagate(m))
    ensures Told(Propagated(s, m)) <==> !Untold(s, Propagate(m))
  {
    var t := Propagated(s, m);
    ExaminingNotRun(s, m);
    assert Failed(t, m);
    forall x, w | Failed(t, x) && w in List(t.inverse, x) && !Untold(s, Propagate(m))
      ensures w in t.modules && t.modules[w].error.Some?
    {
      WaitingMember(s, x, w);
    }
    if w :| w in List(s.inverse, m) && w in s.modules && s.modules[w].error.None? {
      SelfWait(s, m, w);
      assert t.modules[w].error.None?;
    }
  }

  lemma SelfWait(s: State, m: Id, w: Id)
    requires Inv(s) && w in List(s.inverse, m)
    ensures w != m
  {
  }

  lemma FailLoadTells(s: State, d: Id)
    requires Inv(s) && Told(s)
    ensures Told(LoadFailed(s, d))
  {
    var u, t := WithEmpty(s, d), LoadFailed(s, d);
    var g := InverseGraph(s.inverse);
    forall x, w | Failed(t, x) && w in List(t.inverse, x) ensures w in t.modules && t.modules[w].error.Some? {
      WaitingMember(s, x, w);
      assert Edge(g, x, w);
      if x == d {
        EdgeReaches(g, d, w);
      } else if Reaches(g, d, x) {
        ReachesStep(g, d, x, w);
      }
    }
  }

  lemma EndFactoryTells(s: State, m: Id, throws: bool)
    requires Inv(s) && Told(s) && Enabled(s, EndFactory(m, throws))
    ensures Told(FactoryEnded(s, m, throws))
  {
    var t := FactoryEnded(s, m, throws);
    forall x, w | Failed(t, x) && w in List(t.inverse, x) ensures w in t.modules && t.modules[w].error.Some? {
      assert Failed(s, x) && w in List(s.inverse, x);
    }
  }

  lemma AwaitTells(s: State, m: Id)
    requires Inv(s) && Told(s) && Enabled(s, Await(m))
    ensures Told(Awaiting(s, m))
  {
    var t, d := Awaiting(s, m), Next(s, m).id;
    forall x, w | Failed(t, x) && w in List(t.inverse, x) ensures w in t.modules && t.modules[w].error.Some? {
      assert x != d;
      assert Failed(s, x) && w in List(s.inverse, x);
    }
  }

  /** Told depends only on who failed, who waits, and the errors. */
  lemma SameTells(s: State, t: State)
    requires Told(s) && s.modules.Keys <= t.modules.Keys
    requires forall x :: Failed(t, x) ==> Failed(s, x)
    requires forall x :: List(t.inverse, x) == List(s.inverse, x)
    requires forall m :: m in s.modules ==> m in t.modules && t.modules[m].error == s.modules[m].error
    ensures Told(t)
  {
    forall x, w | Failed(t, x) && w in List(t.inverse, x) ensures w in t.modules && t.modules[w].error.Some? {
      assert Failed(s, x) && w in List(s.inverse, x);
    }
  }

  lemma DefineTells(s: State, id: Id, deps: seq<Dependency>, eb: bool)
    requires Inv(s) && Told(s) && Enabled(s, Define(id, deps, eb))
    ensures Told(Defined(s, id, deps, eb))
  {
    SameTells(s, Defined(s, id, deps, eb));
  }

  lemma SatisfyTells(s: State, m: Id)
    requires Told(s) && Enabled(s, Satisfy(m))
    ensures Told(Satisfied(s, m))
  {
    SameTells(s, Satisfied(s, m));
  }

  lemma BreakTells(s: State, m: Id)
    requires Told(s) && Enabled(s, Break(m))
    ensures Told(CycleBroken(s, m))
  {
    SameTells(s, CycleBroken(s, m));
  }

  lemma BeginFactoryTells(s: State, m: Id)
    requires Told(s) && Enabled(s, BeginFactory(m))
    ensures Told(FactoryBegun(s, m))
  {
    SameTells(s, FactoryBegun(s, m));
  }

  lemma DrainTells(s: State, x: Id)
    requires Told(s) && Enabled(s, DrainOne(x))
    ensures Told(Drained(s, x))
  {
    SameTells(s, Drained(s, x));
  }

  /** A move that is such a step. */
  ghost predicate MovesUntold(s: State, t: State) {
    exists a :: Enabled(s, a) && t == Apply(s, a) && Untold(s, a)
  }

  ghost predicate AllTold(r: seq<State>) {
    forall i :: 0 <= i < |r| ==> Told(r[i])
  }

  ghost predicate NeverUntold(r: seq<State>) {
    forall i :: 0 < i < |r| ==> !MovesUntold(r[i - 1], r[i])
  }

  /** Along any run from the start: everyone is told in every state if and only if `_resolve` never fails
      a module that others without an error wait for. */
  lemma {:induction false} RunTells(r: seq<State>)
    requires IsRun(r) && r[0] == Initial()
    ensures AllTold(r) <==> NeverUntold(r)
  {
    if |r| > 1 {
      var front, t := r[..|r| - 1], r[|r| - 1];
      assert r == front + [t];
      RunTells(front);
      LastTold(front, t);
      InitialInv();
      RunKeeps(front);
      assert Moves(front[|front| - 1], t);
      if AllTold(front) {
        MoveTells(front[|front| - 1], t);
      }
    }
  }

  lemma LastTold(front: seq<State>, t: State)
    requires |front| > 0
    ensures AllTold(front + [t]) <==> AllTold(front) && Told(t)
    ensures NeverUntold(front + [t]) <==> NeverUntold(front) && !MovesUntold(front[|front| - 1], t)
  {
    var r := front + [t];
    assert forall i :: 0 <= i < |front| ==> r[i] == front[i];
    assert r[|front|] == t;
    if AllTold(r) {
      forall i | 0 <= i < |front| ensures Told(front[i]) {
        assert Told(r[i]);
      }
    }
    if NeverUntold(r) {
      assert !MovesUntold(r[|front| - 1], r[|front|]);
      forall i | 0 < i < |front| ensures !MovesUntold(front[i - 1], front[i]) {
        assert !MovesUntold(r[i - 1], r[i]);
      }
    }
  }

  lemma MoveTells(s: State, t: State)
    requires Inv(s) && Told(s) && Moves(s, t)
    ensures Told(t) <==> !MovesUntold(s, t)
  {
    if MovesUntold(s, t) {
      var a :| Enabled(s, a) && t == Apply(s, a) && Untold(s, a);
      StepTells(s, a);
    } else {
      var a := StepOf(s, t);
      StepTells(s, a);
    }
  }

  // ----- It happens -----

  /** Module 6 asks for 3, which fails to load; 4 waits for 5; then 5 is defined and takes the error of
      its dependency 3. Module 4 has no error and will never run. */
  lemma StrandedWithoutError() returns (s: State)
    ensures Reachable(s) && Quiescent(s) && Stranded(s, 4, 5) && !Told(s)
    ensures 4 in s.modules && !s.modules[4].isComplete && s.modules[4].error.None?
  {
    Stay(Initial());
    s := DefineWaits(Initial(), 6, 3);
    s := LoadFails(s, 3);
    s := DefineWaits(s, 4, 5);
    assert 4 in List(s.inverse, 5) && s.modules[4].error.None? && !s.modules[4].isComplete;
    s := TakesError(s, 5, 3);
    assert Failed(s, 5) && 4 in List(s.inverse, 5);
  }

  lemma Take(s: State, a: Step) returns (t: State)
    requires Reachable(s) && Enabled(s, a)
    ensures Reachable(t) && t == Apply(s, a)
  {
    t := Apply(s, a);
    OneStep(s, a);
    LeadsOn(Initial(), s, t);
  }

  lemma Defines(s0: State, m: Id, d: Id) returns (s: State)
    requires Reachable(s0) && Quiescent(s0) && m !in s0.modules
    ensures Reachable(s) && s == Defined(s0, m, [Regular(d)], false)
    ensures s.h.pending == map[m := 1] && s.h.active == {m}
  {
    s := Take(s0, Define(m, [Regular(d)], false));
  }

  /** m is defined with the dependency d, which nobody has defined: it waits and asks for d. */
  lemma DefineWaits(s0: State, m: Id, d: Id) returns (s: State)
    requires Reachable(s0) && Quiescent(s0) && m !in s0.modules && d !in s0.modules && m != d
    ensures Reachable(s) && Quiescent(s) && s.known == s0.known + {d}
    ensures s.modules == s0.modules[m := Module(Some([Regular(d)]), 1, false, None, false, false)]
    ensures s.inverse == s0.inverse[d := List(s0.inverse, d) + [m]]
  {
    var s1 := Defines(s0, m, d);
    var s2 := Records(s1, m, d);
    s := Take(s2, Ask(d));
    s := Take(s, EndResolve(m));
    s := Take(s, Restore({}));
  }

  lemma Records(s0: State, m: Id, d: Id) returns (s: State)
    requires Reachable(s0) && m in s0.modules && d !in s0.modules && m in s0.h.declared && s0.h.declared[m] == [Regular(d)]
    requires s0.h.pending == map[m := 1] && s0.h.active == {m}
    ensures Reachable(s) && s == s0.(inverse := s0.inverse[d := List(s0.inverse, d) + [m]], h := s.h)
    ensures s.h == s0.h.(pending := map[m := 0], requesting := s0.h.requesting + {d}, rank := s.h.rank, keys := s.h.keys)
  {
    var g := LiveGraph(s0.modules);
    assert forall p :: IsPath(g, p) && p[0] == d ==> Edge(g, p[0], p[1]);
    s := Take(s0, Await(m));
  }

  /** The load of d fails, which nobody but its waiters knows. */
  lemma LoadFails(s0: State, d: Id) returns (s: State)
    requires Reachable(s0) && Quiescent(s0) && d in s0.known
    ensures Reachable(s) && Quiescent(s) && s.inverse == s0.inverse && s.modules.Keys == s0.modules.Keys + {d}
    ensures s.modules[d].isComplete && s.modules[d].error.Some?
  {
    s := Take(s0, FailLoad(d));
  }

  /** m is defined with the failed dependency d, and fails with its error. */
  lemma TakesError(s0: State, m: Id, d: Id) returns (s: State)
    requires Reachable(s0) && Quiescent(s0) && m !in s0.modules
    requires d in s0.modules && s0.modules[d].isComplete && s0.modules[d].error.Some?
    ensures Reachable(s) && Quiescent(s) && s.inverse == s0.inverse && Failed(s, m)
    ensures forall x :: x in s0.modules ==> x in s.modules && s.modules[x] == s0.modules[x]
  {
    ReachableInv(s0);
    var s1 := Defines(s0, m, d);
    var s2 := Copies(s1, m, d);
    s := Take(s2, Restore({}));
  }

  lemma Copies(s0: State, m: Id, d: Id) returns (s: State)
    requires Reachable(s0) && m in s0.modules && m in s0.h.declared && s0.h.declared[m] == [Regular(d)]
    requires s0.h.pending == map[m := 1] && s0.h.active == {m} && CompleteIn(s0, d) && s0.modules[d].error.Some?
    ensures Reachable(s) && s == s0.(modules := s.modules, h := s0.h.(pending := map[]))
    ensures s.modules.Keys == s0.modules.Keys && s.modules[m].isComplete && s.modules[m].error.Some?
    ensures forall x :: x in s0.modules && x != m ==> s.modules[x] == s0.modules[x]
  {
    s := Take(s0, Propagate(m));
    assert s.h.pending == map[];
  }
}
