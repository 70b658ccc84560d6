/** Runs of the module manager: sequences of enabled steps. */
module LoaderRuns {
  import Graph
  import opened LoaderState

  ghost predicate Moves(s: State, t: State) {
    exists a :: Enabled(s, a) && t == Apply(s, a)
  }

  ghost predicate IsRun(r: seq<State>) {
    |r| > 0 && forall i :: 0 < i < |r| ==> Moves(r[i - 1], r[i])
  }

  /** Some run leads from s to t. */
  ghost predicate Leads(s: State, t: State) {
    exists r :: IsRun(r) && r[0] == s && r[|r| - 1] == t
  }

  ghost predicate Reachable(s: State) {
    Leads(Initial(), s)
  }

  lemma Stay(s: State)
    ensures Leads(s, s)
  {
    assert IsRun([s]);
  }

  lemma OneStep(s: State, a: Step)
    requires Enabled(s, a)
    ensures Leads(s, Apply(s, a))
  {
    var t := Apply(s, a);
    assert Moves(s, t);
    assert IsRun([s, t]);
  }

  lemma StepOf(s: State, t: State) returns (a: Step)
    requires Moves(s, t)
    ensures Enabled(s, a) && t == Apply(s, a)
  {
    a :| Enabled(s, a) && t == Apply(s, a);
  }

  lemma LeadsOn(s: State, t: State, u: State)
    requires Leads(s, t) && Leads(t, u)
    ensures Leads(s, u)
  {
    var r :| IsRun(r) && r[0] == s && r[|r| - 1] == t;
    var q :| IsRun(q) && q[0] == t && q[|q| - 1] == u;
    var w := r + q[1..];
    forall i | 0 < i < |w| ensures Moves(w[i - 1], w[i]) {
      if i >= |r| {
        assert w[i] == q[i - |r| + 1] && w[i - 1] == q[i - |r|];
      }
    }
    assert w[|w| - 1] == u;
  }

  /** The invariant holds of every reachable state. */
  lemma {:induction false} RunKeeps(r: seq<State>)
    requires IsRun(r) && Inv(r[0])
    ensures Inv(r[|r| - 1])
  {
    if |r| > 1 {
      RunKeeps(r[..|r| - 1]);
      var n := |r| - 1;
      var a := StepOf(r[n - 1], r[n]);
      StepKeeps(r[n - 1], a);
    }
  }

  lemma ReachableInv(s: State)
    requires Reachable(s)
    ensures Inv(s)
  {
    InitialInv();
    var r :| IsRun(r) && r[0] == Initial() && r[|r| - 1] == s;
    RunKeeps(r);
  }

  /** What only ever grows: definitions, completion, failure, the log, given-up edges, requests. */
  ghost predicate Grows(s: State, t: State) {
    && s.modules.Keys <= t.modules.Keys
    && (forall m :: m in s.h.declared ==> m in t.h.declared && t.h.declared[m] == s.h.declared[m])
    && (forall m :: m in s.modules && m in t.modules && s.modules[m].isComplete ==> t.modules[m].isComplete)
    && (forall m :: m in s.modules && m in t.modules && s.modules[m].error.Some? ==> t.modules[m].error.Some?)
    && (forall m :: m in s.modules && m in t.modules ==> t.modules[m].hasErrorback == s.modules[m].hasErrorback)
    && s.h.log <= t.h.log
    && s.h.broken <= t.h.broken
    && s.known <= t.known
  }

  lemma StepGrows(s: State, a: Step)
    requires s.h.declared.Keys == s.modules.Keys && Enabled(s, a)
    ensures Grows(s, Apply(s, a)) && Apply(s, a).h.declared.Keys == Apply(s, a).modules.Keys
  {
    match a
    case FailLoad(d) => FailLoadGrows(s, d);
    case Propagate(m) => PropagateGrows(s, m);
    case Define(id, deps, eb) => DefineGrows(s, id, deps, eb);
    case BeginFactory(m) => FactoryGrows(s, m, false);
    case EndFactory(m, throws) => FactoryGrows(s, m, throws);
    case Restore(active) =>
    case _ =>
  }

  lemma DefineGrows(s: State, id: Graph.Id, deps: seq<Dependency>, eb: bool)
    requires s.h.declared.Keys == s.modules.Keys && id !in s.modules
    ensures Grows(s, Defined(s, id, deps, eb)) && Defined(s, id, deps, eb).h.declared.Keys == Defined(s, id, deps, eb).modules.Keys
  {
  }

  lemma PropagateGrows(s: State, m: Graph.Id)
    requires s.h.declared.Keys == s.modules.Keys && Enabled(s, Propagate(m))
    ensures Grows(s, Propagated(s, m)) && Propagated(s, m).h.declared.Keys == Propagated(s, m).modules.Keys
  {
  }

  lemma FailLoadGrows(s: State, d: Graph.Id)
    requires s.h.declared.Keys == s.modules.Keys
    ensures Grows(s, LoadFailed(s, d)) && LoadFailed(s, d).h.declared.Keys == LoadFailed(s, d).modules.Keys
  {
    var e := WithEmpty(s, d);
    assert Grows(s, e) && e.h.declared.Keys == e.modules.Keys;
    FailGrows(e, WaitersOf(e, d), Loading(d));
    GrowsTransitive(s, e, LoadFailed(s, d));
  }

  lemma FailGrows(s: State, failed: set<Graph.Id>, err: Error)
    requires s.h.declared.Keys == s.modules.Keys
    ensures Grows(s, Fail(s, failed, err)) && Fail(s, failed, err).modules.Keys == s.modules.Keys
  {
  }

  lemma FactoryGrows(s: State, m: Graph.Id, throws: bool)
    requires s.h.declared.Keys == s.modules.Keys && m in s.modules
    ensures Grows(s, FactoryBegun(s, m)) && FactoryBegun(s, m).modules.Keys == s.modules.Keys
    ensures Grows(s, FactoryEnded(s, m, throws)) && FactoryEnded(s, m, throws).modules.Keys == s.modules.Keys
  {
  }

  lemma {:induction false} RunGrows(r: seq<State>)
    requires IsRun(r) && r[0].h.declared.Keys == r[0].modules.Keys
    ensures Grows(r[0], r[|r| - 1]) && r[|r| - 1].h.declared.Keys == r[|r| - 1].modules.Keys
  {
    if |r| > 1 {
      RunGrows(r[..|r| - 1]);
      var n := |r| - 1;
      var a := StepOf(r[n - 1], r[n]);
      StepGrows(r[n - 1], a);
      GrowsTransitive(r[0], r[n - 1], r[n]);
    }
  }

  lemma GrowsTransitive(s: State, t: State, u: State)
    requires Grows(s, t) && Grows(t, u)
    ensures Grows(s, u)
  {
  }

  /** From any reachable state on, nothing defined, complete, failed, logged or asked for is undone. */
  lemma LeadsGrows(s: State, t: State)
    requires Reachable(s) && Leads(s, t)
    ensures Grows(s, t)
  {
    ReachableInv(s);
    var r :| IsRun(r) && r[0] == s && r[|r| - 1] == t;
    RunGrows(r);
  }
}
