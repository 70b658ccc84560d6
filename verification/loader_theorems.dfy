/** What holds in every state the module manager can reach: waiting is acyclic, nothing deadlocks,
    factories run once and in dependency order, failures spread exactly, and the cycle flag is exact. */
module LoaderTheorems {
  import opened Wrappers
  import opened Graph
  import opened LoaderState
  import opened LoaderRuns
  import Sequences

  /** Waiting never goes in a circle, whatever cycles the declared dependencies have. */
  lemma WaitingIsAcyclic(s: State)
    requires Reachable(s)
    ensures !Cyclic(WaitGraph(s))
  {
    ReachableInv(s);
    assert forall x, y :: Edge(WaitGraph(s), x, y) ==> y in s.inverse && x in s.inverse[y];
    RankedIsAcyclic(WaitGraph(s), s.h.rank);
  }

  /** No call is in progress. */
  ghost predicate Quiescent(s: State) {
    && s.h.pending == map[] && s.h.draining == multiset{} && s.h.active == {}
    && s.h.completing == {} && s.h.requesting == {}
  }

  /** A module failed to load, or depended on one that did, and never ran. */
  predicate Failed(s: State, x: Id) {
    x in s.modules && s.modules[x].error.Some? && x !in s.h.log
  }

  /** x will not wake its dependents: it is asked for but not defined, or it failed. */
  predicate Blocks(s: State, x: Id) {
    (x !in s.modules && x in s.known) || Failed(s, x)
  }

  /** An incomplete module waits for something. */
  lemma IncompleteWaits(s: State, m: Id) returns (d: Id)
    requires Inv(s) && Quiescent(s) && m in s.modules && !s.modules[m].isComplete
    ensures d in s.inverse && m in s.inverse[d] && Edge(WaitGraph(s), m, d)
    ensures s.h.rank(m) > s.h.rank(d) && d !in s.h.log && (d in s.modules || d in s.known)
  {
    assert Pending(s.h.pending, m) == 0;
    assert m in Waiting(s);
    d := WaitersWitness(s.inverse, s.h.keys, m);
  }

  lemma {:induction false} WaitersWitness(inverse: map<Id, seq<Id>>, keys: seq<Id>, x: Id) returns (d: Id)
    requires x in Waiters(inverse, keys)
    ensures d in keys && d in inverse && x in inverse[d]
  {
    d := keys[|keys| - 1];
    if x !in List(inverse, d) {
      d := WaitersWitness(inverse, keys[..|keys| - 1], x);
    }
  }

  /** No deadlock: with no call in progress, a module that has not failed is incomplete exactly when
      its chain of waiting ends at an id that was asked for and never defined, or at a failed module. */
  lemma StuckBehindBlock(s: State, m: Id)
    requires Reachable(s) && Quiescent(s) && m in s.modules && !Failed(s, m)
    ensures !s.modules[m].isComplete <==> exists x :: Reaches(WaitGraph(s), m, x) && Blocks(s, x)
  {
    ReachableInv(s);
    StuckBehindBlockInv(s, m);
  }

  lemma {:induction false} StuckBehindBlockInv(s: State, m: Id)
    requires Inv(s) && Quiescent(s) && m in s.modules && !Failed(s, m)
    ensures !s.modules[m].isComplete <==> exists x :: Reaches(WaitGraph(s), m, x) && Blocks(s, x)
    decreases s.h.rank(m)
  {
    if !s.modules[m].isComplete {
      var d := IncompleteWaits(s, m);
      EdgeReaches(WaitGraph(s), m, d);
      if !Blocks(s, d) {
        StuckBehindBlockInv(s, d);
        var x :| Reaches(WaitGraph(s), d, x) && Blocks(s, x);
        StepReaches(WaitGraph(s), m, d, x);
      }
    } else if x :| Reaches(WaitGraph(s), m, x) {
      var p :| IsPath(WaitGraph(s), p) && p[0] == m && p[|p| - 1] == x;
      assert Edge(WaitGraph(s), p[0], p[1]);
      WaitingMember(s, p[1], m);
      assert false;
    }
  }

  /** Every id a definition mentions as a regular dependency has been defined. */
  ghost predicate AllDefined(s: State) {
    forall m, d :: m in s.h.declared && Regular(d) in s.h.declared[m] ==> d in s.modules
  }

  /** Once every referenced id is defined and nothing failed, every factory has run exactly once,
      cyclic dependencies included. */
  lemma EverythingRuns(s: State)
    requires Reachable(s) && Quiescent(s) && AllDefined(s)
    requires forall x :: x in s.modules ==> !Failed(s, x)
    ensures forall m :: m in s.modules ==> s.modules[m].isComplete && m in s.h.log
    ensures Sequences.Distinct(s.h.log)
  {
    ReachableInv(s);
    forall m | m in s.modules ensures s.modules[m].isComplete {
      StuckBehindBlock(s, m);
      forall x | Reaches(WaitGraph(s), m, x) ensures x in s.modules {
        WaitedForIsDeclared(s, m, x);
      }
    }
  }

  /** Whatever ends a chain of waiting is somebody's regular dependency. */
  lemma WaitedForIsDeclared(s: State, m: Id, x: Id)
    requires Inv(s) && Reaches(WaitGraph(s), m, x)
    ensures exists y :: y in s.h.declared && Regular(x) in s.h.declared[y]
  {
    var p :| IsPath(WaitGraph(s), p) && p[0] == m && p[|p| - 1] == x;
    var y := p[|p| - 2];
    assert Edge(WaitGraph(s), y, p[|p| - 2 + 1]);
  }

  /** Factories run at most once and in dependency order: when one runs, each of its regular
      dependencies has run before, unless that dependency depends in turn on it. */
  lemma FactoriesInDependencyOrder(s: State, k: nat, d: Id)
    requires Reachable(s) && k < |s.h.log|
    ensures Sequences.Distinct(s.h.log) && s.h.log[k] in s.h.declared
    ensures Regular(d) in s.h.declared[s.h.log[k]] ==>
      (exists j :: 0 <= j < k && s.h.log[j] == d) || Reaches(DeclaredGraph(s.h.declared), d, s.h.log[k])
  {
    ReachableInv(s);
    var m := s.h.log[k];
    assert m in s.h.declared;
    if Regular(d) in s.h.declared[m] {
      assert d in s.h.log[..k] || (m, d) in s.h.broken;
      if d in s.h.log[..k] {
        var j :| 0 <= j < k && s.h.log[..k][j] == d;
        assert s.h.log[j] == d;
      }
    }
  }

  /** A given-up edge lies on a cycle of the declared dependencies. */
  lemma CycleThrough(s: State, m: Id, d: Id)
    requires Inv(s) && (m, d) in s.h.broken
    ensures Cyclic(DeclaredGraph(s.h.declared))
  {
    var ds := s.h.declared[m];
    var i :| 0 <= i < |ds| && ds[i] == Regular(d);
    assert ds[i].Target() == d;
    StepReaches(DeclaredGraph(s.h.declared), m, d, m);
  }

  /** One more than the place of x in the log, or 0. */
  function {:induction false} Place(log: seq<Id>, x: Id): (r: nat)
    ensures r <= |log|
    ensures r == 0 <==> x !in log
    ensures r > 0 ==> log[r - 1] == x
  {
    if log == [] then 0
    else if log[|log| - 1] == x then |log|
    else Place(log[..|log| - 1], x)
  }

  /** The cycle flag is exact: when everything ran, it is set if and only if the declared
      dependencies are cyclic, provided no module was defined under a reserved id. */
  lemma CycleFlagExact(s: State)
    requires Reachable(s)
    requires forall m :: m in s.modules ==> m in s.h.log
    requires 0 !in s.modules && 1 !in s.modules && 2 !in s.modules
    ensures s.hasCycle <==> Cyclic(DeclaredGraph(s.h.declared))
  {
    ReachableInv(s);
    if s.hasCycle {
      var e :| e in s.h.broken;
      CycleThrough(s, e.0, e.1);
    } else {
      OrderedIsAcyclic(s.h.declared, s.h.log);
    }
  }

  lemma OrderedIsAcyclic(declared: map<Id, seq<Dependency>>, log: seq<Id>)
    requires Ordered(declared, log, {}) && Sequences.Distinct(log)
    requires forall m :: m in declared ==> m in log
    requires 0 !in declared && 1 !in declared && 2 !in declared
    requires forall m :: m in log ==> m in declared
    ensures !Cyclic(DeclaredGraph(declared))
  {
    var g := DeclaredGraph(declared);
    var place := (x: Id) => Place(log, x);
    forall x, y | Edge(g, x, y) ensures place(x) > place(y) {
      var ds := declared[x];
      var i :| 0 <= i < |ds| && ds[i].Target() == y;
      var k := place(x) - 1;
      if ds[i].Regular? {
        assert Regular(y) in ds;
        var j :| 0 <= j < k && log[j] == y;
      }
    }
    RankedIsAcyclic(g, place);
  }

  /** The counter invariant: the counter of a module that has not failed is the number of its
      dependencies not examined yet plus its entries in all inverse lists, a list being drained
      included. */
  lemma CounterCountsWaits(s: State, m: Id)
    requires Reachable(s) && m in s.modules && !Failed(s, m)
    ensures s.modules[m].count == Pending(s.h.pending, m) + Waiters(s.inverse, s.h.keys)[m] + s.h.draining[m]
    ensures forall d :: d in s.inverse && s.inverse[d] != [] ==> d in s.h.keys
    ensures Sequences.Distinct(s.h.keys)
  {
    ReachableInv(s);
  }

  /** A load failure marks d and what is recorded as waiting for it, directly or not, and nothing else.
      Whatever it marks but d itself has not run, and depends on d. */
  lemma FailureSpreadsExactly(s: State, d: Id, m: Id)
    requires Reachable(s) && m in s.modules
    ensures m in LoadFailed(s, d).modules
    ensures LoadFailed(s, d).modules[m] ==
      if m == d || Reaches(WaitGraph(s), m, d) then s.modules[m].(isComplete := true, error := Some(Loading(d))) else s.modules[m]
    ensures m != d && Reaches(WaitGraph(s), m, d) ==> m !in s.h.log && Reaches(DeclaredGraph(s.h.declared), m, d)
  {
    ReachableInv(s);
    WaitersReversed(s);
    ReversedReaches(InverseGraph(s.inverse), WaitGraph(s), d, m);
    if Reaches(WaitGraph(s), m, d) {
      WaitingNotRun(s, m, d);
      WaitsAreDeclared(s);
      SubgraphReaches(WaitGraph(s), DeclaredGraph(s.h.declared), m, d);
    }
  }

  lemma WaitersReversed(s: State)
    requires Inv(s)
    ensures forall x, y :: Edge(InverseGraph(s.inverse), x, y) <==> Edge(WaitGraph(s), y, x)
  {
    forall x, y | Edge(InverseGraph(s.inverse), x, y) ensures Edge(WaitGraph(s), y, x) {
      WaitingMember(s, x, y);
    }
  }

  lemma WaitsAreDeclared(s: State)
    requires Inv(s)
    ensures Subgraph(WaitGraph(s), DeclaredGraph(s.h.declared))
  {
    forall m, d | Edge(WaitGraph(s), m, d) ensures Edge(DeclaredGraph(s.h.declared), m, d) {
      var ds := s.h.declared[m];
      var i :| 0 <= i < |ds| && ds[i] == Regular(d);
      assert ds[i].Target() == d;
    }
  }

  lemma WaitingNotRun(s: State, m: Id, d: Id)
    requires Inv(s) && Reaches(WaitGraph(s), m, d)
    ensures m !in s.h.log
  {
    var p :| IsPath(WaitGraph(s), p) && p[0] == m && p[|p| - 1] == d;
    assert Edge(WaitGraph(s), p[0], p[1]);
    WaitingMember(s, p[1], m);
  }

  // ----- Runs in which nothing fails -----

  /** A load fails, or a factory throws. */
  predicate Fails(a: Step) {
    a.FailLoad? || (a.EndFactory? && a.throws)
  }

  ghost predicate MovesCleanly(s: State, t: State) {
    exists a :: !Fails(a) && Enabled(s, a) && t == Apply(s, a)
  }

  ghost predicate IsCleanRun(r: seq<State>) {
    |r| > 0 && forall i :: 0 < i < |r| ==> MovesCleanly(r[i - 1], r[i])
  }

  ghost predicate NoErrors(s: State) {
    forall m :: m in s.modules ==> s.modules[m].error.None?
  }

  lemma StepStaysClean(s: State, a: Step)
    requires NoErrors(s) && Enabled(s, a) && !Fails(a)
    ensures NoErrors(Apply(s, a))
  {
  }

  lemma {:induction false} CleanRunKeeps(r: seq<State>)
    requires IsCleanRun(r) && r[0] == Initial()
    ensures Reachable(r[|r| - 1]) && NoErrors(r[|r| - 1])
  {
    if |r| == 1 {
      Stay(Initial());
    } else {
      CleanRunKeeps(r[..|r| - 1]);
      var s := r[|r| - 2];
      assert MovesCleanly(s, r[|r| - 2 + 1]);
      var a :| !Fails(a) && Enabled(s, a) && r[|r| - 1] == Apply(s, a);
      StepStaysClean(s, a);
      OneStep(s, a);
      LeadsOn(Initial(), s, r[|r| - 1]);
    }
  }

  ghost predicate CleanlyReachable(s: State) {
    exists r :: IsCleanRun(r) && r[0] == Initial() && r[|r| - 1] == s
  }

  lemma StepCleanly(s: State, a: Step)
    requires CleanlyReachable(s) && Enabled(s, a) && !Fails(a)
    ensures CleanlyReachable(Apply(s, a))
  {
    var r :| IsCleanRun(r) && r[0] == Initial() && r[|r| - 1] == s;
    assert MovesCleanly(s, Apply(s, a));
    assert IsCleanRun(r + [Apply(s, a)]);
  }

  lemma CleanlyReachableKeeps(s: State)
    requires CleanlyReachable(s)
    ensures NoErrors(s)
  {
    var r :| IsCleanRun(r) && r[0] == Initial() && r[|r| - 1] == s;
    CleanRunKeeps(r);
  }

  /** A run in which no load fails and no factory throws: once it is at rest with every referenced id
      defined, every factory has run, exactly once. */
  lemma CleanRunCompletes(r: seq<State>)
    requires IsCleanRun(r) && r[0] == Initial() && Quiescent(r[|r| - 1]) && AllDefined(r[|r| - 1])
    ensures var s := r[|r| - 1];
      Sequences.Distinct(s.h.log) && forall m :: m in s.modules ==> s.modules[m].isComplete && s.modules[m].error.None? && m in s.h.log
  {
    CleanRunKeeps(r);
    EverythingRuns(r[|r| - 1]);
  }
}
