/** The AMD module manager as a class over its own tables. Scripts and factories are the outside
    world: what loading an id does before `load` returns, and what a factory does while it runs. Each
    id is loaded, and each factory invoked, at most once, so a map from ids says it all; an id outside
    `scripts` loads asynchronously, and its arrival or failure is a later event. */
module ModuleManagement {
  import opened Wrappers
  import opened Graph
  import opened LoaderState
  import opened LoaderRuns
  import opened LoaderTheorems
  import LoaderOrigins
  import opened Sequences

  /** A definition arrives, explicit or matched to its script; or loading an id fails on every path, which
      only an id that was asked for can do. */
  datatype Event = Arrives(id: Id, deps: seq<Dependency>, hasErrorback: bool) | LoadFails(id: Id)

  datatype FactoryRun = FactoryRun(events: seq<Event>, throws: bool)

  /** No load fails. */
  predicate Quiet(events: seq<Event>) {
    forall i :: 0 <= i < |events| ==> events[i].Arrives?
  }

  /** Nor does one in what scripts and factories do, and no factory throws. */
  predicate QuietWorld(scripts: map<Id, seq<Event>>, factories: map<Id, FactoryRun>) {
    && (forall id :: id in scripts ==> Quiet(scripts[id]))
    && (forall id :: id in factories ==> Quiet(factories[id].events) && !factories[id].throws)
  }

  /** The event occurs, in the reports or in what some script or factory does. */
  ghost predicate Occurs(scripts: map<Id, seq<Event>>, factories: map<Id, FactoryRun>, reports: seq<Event>, e: Event) {
    || e in reports
    || (exists x :: x in scripts && e in scripts[x])
    || (exists x :: x in factories && e in factories[x].events)
  }

  predicate ArrivesIn(events: seq<Event>, id: Id) {
    exists i :: 0 <= i < |events| && events[i].Arrives? && events[i].id == id
  }

  /** Whatever some definition depends on is reported, or comes when it is loaded. */
  ghost predicate Provided(scripts: map<Id, seq<Event>>, factories: map<Id, FactoryRun>, reports: seq<Event>) {
    forall id, deps, hasErrorback, d ::
      Occurs(scripts, factories, reports, Arrives(id, deps, hasErrorback)) && Regular(d) in deps ==>
        ArrivesIn(reports, d) || (d in scripts && ArrivesIn(scripts[d], d))
  }

  class ModuleManager {
    const scripts: map<Id, seq<Event>>
    const factories: map<Id, FactoryRun>
    /** What the outside reports. */
    ghost const reports: seq<Event>
    /** No load is to fail and no factory to throw. */
    ghost const clean: bool

    var modules: map<Id, Module>
    var known: set<Id>
    var inverse: map<Id, seq<Id>>
    var hasDependencyCycle: bool
    ghost var h: History

    ghost function View(): State
      reads this
    {
      State(modules, known, inverse, hasDependencyCycle, h)
    }

    // Termination: loading an id and invoking a factory each use one up.

    ghost function Unloaded(): set<Id>
      reads this
    {
      scripts.Keys - known
    }

    ghost function Unrun(): set<Id>
      reads this
    {
      factories.Keys - Elements(h.log)
    }

    ghost function Incomplete(): set<Id>
      reads this
    {
      set m | m in modules && !modules[m].isComplete
    }

    /** No more outside code is left than these amounts; if as much is left, no module was defined and
        none became incomplete. */
    ghost predicate Consumes(unloaded: set<Id>, unrun: set<Id>, keys: set<Id>, incomplete: set<Id>)
      reads this
    {
      && Unloaded() <= unloaded && Unrun() <= unrun
      && (Unloaded() == unloaded && Unrun() == unrun ==> modules.Keys == keys && Incomplete() <= incomplete)
    }

    /** Every method finds the manager in a reachable state, with no request left unasked. */
    ghost predicate Callable()
      reads this
    {
      Reachable(View()) && Orderly(View()) && h.requesting == {}
    }

    ghost predicate Orderly(s: State) {
      Sourced(s) && (clean ==> CleanlyReachable(s) && QuietWorld(scripts, factories))
    }

    /** The event is reported from outside, by a script that was asked for, or by a factory that ran. */
    ghost predicate Told(s: State, e: Event) {
      || e in reports
      || (exists x :: x in s.known && x in scripts && e in scripts[x])
      || (exists x :: x in s.h.log && x in factories && e in factories[x].events)
    }

    /** Every module has the dependencies and the errorback that some event gave it, unless its load failed
        before it was ever defined. */
    ghost predicate Sourced(s: State) {
      forall m :: m in s.modules && m in s.h.declared ==>
        Told(s, Arrives(m, s.h.declared[m], s.modules[m].hasErrorback)) || NeverDefined(s, m)
    }

    static ghost predicate NeverDefined(s: State, m: Id) {
      && m in s.modules && m in s.h.declared && m in s.known
      && s.modules[m].error.Some? && !s.modules[m].hasErrorback && s.h.declared[m] == []
    }

    /** Every arrival among the events has led to a module. */
    static ghost predicate Heard(events: seq<Event>, s: State) {
      forall i :: 0 <= i < |events| && events[i].Arrives? ==> events[i].id in s.modules
    }

    static ghost predicate HasError(s: State, m: Id) {
      m in s.modules && s.modules[m].error.Some?
    }

    /** What was asked for or run between s and t has had its say: the arrivals are modules, a script that
        reports its own failure leaves an error, and so does a factory that throws. */
    ghost predicate Settled(s: State, t: State) {
      && (forall x :: x in t.known && x !in s.known && x in scripts ==>
            Heard(scripts[x], t) && (LoadFails(x) in scripts[x] ==> HasError(t, x)))
      && (forall x :: x in t.h.log && x !in s.h.log && x in factories ==>
            Heard(factories[x].events, t) && (factories[x].throws ==> HasError(t, x)))
    }

    ghost predicate Follows(s: State, t: State) {
      Leads(s, t) && Settled(s, t)
    }

    lemma FollowsOn(s: State, t: State, u: State)
      requires Reachable(s) && Follows(s, t) && Follows(t, u)
      ensures Follows(s, u) && Reachable(t) && Reachable(u)
    {
      LeadsOn(Initial(), s, t);
      LeadsOn(Initial(), t, u);
      LeadsOn(s, t, u);
      HeardGrows(t, u);
    }

    static lemma HeardGrows(t: State, u: State)
      requires Reachable(t) && Leads(t, u)
      ensures forall events :: Heard(events, t) ==> Heard(events, u)
      ensures forall x :: HasError(t, x) ==> HasError(u, x)
    {
      LeadsGrows(t, u);
    }

    lemma ToldGrows(s: State, t: State)
      requires Grows(s, t)
      ensures forall e :: Told(s, e) ==> Told(t, e)
    {
    }

    constructor (scripts: map<Id, seq<Event>>, factories: map<Id, FactoryRun>, ghost reports: seq<Event>, ghost clean: bool)
      requires clean ==> QuietWorld(scripts, factories)
      ensures this.scripts == scripts && this.factories == factories
      ensures this.reports == reports && this.clean == clean
      ensures View() == Initial() && Callable()
    {
      this.scripts, this.factories, this.reports, this.clean := scripts, factories, reports, clean;
      modules, known, inverse, hasDependencyCycle := map[], {}, map[], false;
      h := Initial().h;
      new;
      Stay(Initial());
      assert IsCleanRun([Initial()]);
    }

    /** Breadth-first search: is there a path of live dependencies from `fromId` to `toId`? */
    method HasDependencyPath(fromId: Id, toId: Id) returns (found: bool)
      ensures found <==> Reaches(LiveGraph(modules), fromId, toId)
    {
      ghost var g := LiveGraph(modules);
      if fromId !in modules {
        assert forall p :: IsPath(g, p) && p[0] == fromId ==> Edge(g, p[0], p[1]);
        return false;
      }
      var inQueue := {fromId};
      var queue := [fromId];
      while queue != []
        invariant fromId in inQueue && inQueue <= modules.Keys
        invariant Distinct(queue) && forall x :: x in queue ==> x in inQueue
        invariant forall x :: x in inQueue ==> x == fromId || Reaches(g, fromId, x)
        invariant forall x, y :: x in inQueue && x !in queue && Edge(g, x, y) ==> y != toId && (y in g ==> y in inQueue)
        decreases modules.Keys - inQueue, |queue|
      {
        var element := queue[0];
        ghost var before, rest := inQueue, queue[1..];
        queue := queue[1..];
        if modules[element].deps.Some? {
          var dependencies := modules[element].deps.value;
          for i := 0 to |dependencies|
            invariant fromId in inQueue && before <= inQueue <= modules.Keys
            invariant Distinct(queue) && rest <= queue && element !in queue && element in inQueue
            invariant forall x :: x in queue ==> x in inQueue
            invariant forall x :: x in inQueue ==> x in queue || x in before
            invariant inQueue == before ==> queue == rest
            invariant forall x :: x in inQueue ==> x == fromId || Reaches(g, fromId, x)
            invariant forall x, y :: x in inQueue && x !in queue && x != element && Edge(g, x, y) ==>
                        y != toId && (y in g ==> y in inQueue)
            invariant forall j :: 0 <= j < i ==>
              dependencies[j].Target() != toId && (dependencies[j].Target() in g ==> dependencies[j].Target() in inQueue)
          {
            var target := dependencies[i].Target();
            assert Edge(g, element, target);
            if element == fromId {
              EdgeReaches(g, fromId, target);
            } else {
              ReachesStep(g, fromId, element, target);
            }
            if target == toId {
              return true;
            }
            if target in modules && target !in inQueue {
              inQueue := inQueue + {target};
              queue := queue + [target];
            }
          }
        }
      }
      forall p | IsPath(g, p) && p[0] == fromId ensures p[|p| - 1] != toId {
        ClosedSetExcludes(g, inQueue, p, toId);
      }
      return false;
    }

    /** A call moves from s to t by steps and leaves the calls around it where they were. */
    ghost predicate Evolves(s: State, t: State) {
      Reachable(t) && Orderly(t) && Follows(s, t) && SameCalls(s.h, t.h) && t.h.pending == s.h.pending && t.h.active == s.h.active
    }

    static ghost predicate SameCalls(h: History, h': History) {
      h'.draining == h.draining && h'.completing == h.completing && h'.requesting == h.requesting
    }

    lemma TakeStep(s: State, a: Step)
      requires Reachable(s) && Orderly(s) && Enabled(s, a) && !(clean && Fails(a))
      requires a.Define? ==> Told(s, Arrives(a.id, a.deps, a.hasErrorback))
      ensures Reachable(Apply(s, a)) && Orderly(Apply(s, a)) && Leads(s, Apply(s, a))
    {
      OneStep(s, a);
      LeadsOn(Initial(), s, Apply(s, a));
      StepSourced(s, a);
      if clean {
        StepCleanly(s, a);
      }
    }

    lemma StepSourced(s: State, a: Step)
      requires Reachable(s) && Sourced(s) && Enabled(s, a)
      requires a.Define? ==> Told(s, Arrives(a.id, a.deps, a.hasErrorback))
      ensures Sourced(Apply(s, a))
    {
      var t := Apply(s, a);
      ReachableInv(s);
      StepGrows(s, a);
      ToldGrows(s, t);
      forall m | m in t.modules && m in t.h.declared
        ensures Told(t, Arrives(m, t.h.declared[m], t.modules[m].hasErrorback)) || NeverDefined(t, m)
      {
        if m !in s.modules {
          NewModule(s, a, m);
        }
      }
    }

    /** A module comes from a definition, or from a load that failed. */
    static lemma NewModule(s: State, a: Step, m: Id)
      requires Enabled(s, a) && m !in s.modules && m in Apply(s, a).modules && m in Apply(s, a).h.declared
      ensures a.Define? ==>
        m == a.id && Apply(s, a).h.declared[m] == a.deps && Apply(s, a).modules[m].hasErrorback == a.hasErrorback
      ensures !a.Define? ==> NeverDefined(Apply(s, a), m)
    {
    }

    /** Appends to the queue the ids not seen before, each once. */
    static method EnqueueUnseen(ids: seq<Id>, seen: set<Id>, queue: seq<Id>) returns (seen': set<Id>, queue': seq<Id>)
      requires Distinct(queue) && Elements(queue) <= seen
      ensures seen' == seen + Elements(ids)
      ensures Distinct(queue') && queue <= queue'
      ensures Elements(queue') == Elements(queue) + (Elements(ids) - seen)
      ensures seen' == seen ==> queue' == queue
    {
      seen', queue' := seen, queue;
      for i := 0 to |ids|
        invariant seen' == seen + Elements(ids[..i])
        invariant Distinct(queue') && queue <= queue' && Elements(queue') <= seen'
        invariant Elements(queue') == Elements(queue) + (Elements(ids[..i]) - seen)
        invariant seen' == seen ==> queue' == queue
      {
        assert ids[..i + 1] == ids[..i] + [ids[i]];
        if ids[i] !in seen' {
          queue' := queue' + [ids[i]];
          seen' := seen' + {ids[i]};
        }
      }
      assert ids[..|ids|] == ids;
    }

    /** The walk of `_onLoadError`: marks what it visits and calls errorbacks. */
    method NotifyDependents(failed: Id, err: Error) returns (ghost seen: set<Id>, notified: seq<Id>)
      requires failed in modules
      requires forall d, m :: m in List(inverse, d) ==> m in modules
      modifies this`modules
      ensures Walk(InverseGraph(inverse), modules.Keys, failed, seen, [])
      ensures modules == MarkFailed(old(modules), seen, err)
      ensures Distinct(notified)
      ensures forall m :: m in notified <==> m in seen && modules[m].hasErrorback
    {
      ghost var g, start := InverseGraph(inverse), modules;
      var seenModules := {failed};
      var queue := [failed];
      notified := [];
      assert modules == MarkFailed(start, seenModules - Elements(queue), err);
      while queue != []
        invariant Walk(g, start.Keys, failed, seenModules, queue)
        invariant modules == MarkFailed(start, seenModules - Elements(queue), err)
        invariant Distinct(notified)
        invariant forall x :: x in notified <==> x in seenModules - Elements(queue) && start[x].hasErrorback
        decreases start.Keys - seenModules, |queue|
      {
        var queueElement := queue[0];
        ghost var seen0, queue0 := seenModules, queue;
        queue := queue[1..];
        MarkOne(start, seen0 - Elements(queue0), queueElement, err);
        modules := modules[queueElement := modules[queueElement].(isComplete := true, error := Some(err))];
        if modules[queueElement].hasErrorback {
          notified := notified + [queueElement];
        }
        var inverseDeps := List(inverse, queueElement);
        seenModules, queue := EnqueueUnseen(inverseDeps, seenModules, queue);
        WalkStep(g, start.Keys, failed, seen0, queue0, inverseDeps, seenModules, queue);
      }
      seen := seenModules;
      assert seen - Elements(queue) == seen;
    }

    /** Loading `failed` failed: everything recorded as waiting for it, directly or not, fails with it.
        Returns the modules whose errorback was called, in order; if none was, the error is reported. */
    method OnLoadError(failed: Id) returns (notified: seq<Id>)
      requires Callable() && failed in known && !clean
      modifies this
      ensures View() == LoadFailed(old(View()), failed)
      ensures Evolves(old(View()), View())
      ensures Distinct(notified)
      ensures forall m :: m in notified <==> m in WaitersOf(View(), failed) && modules[m].hasErrorback
      // whether a waiter has one is what its definition said
      ensures forall m :: m in notified ==> m in h.declared && Told(View(), Arrives(m, h.declared[m], true))
      ensures forall m :: m in WaitersOf(View(), failed) && m !in notified ==>
        m in h.declared && (NeverDefined(View(), m) || Told(View(), Arrives(m, h.declared[m], false)))
    {
      ghost var s := View();
      WaitersAreDefined(s);
      TakeStep(s, FailLoad(failed));
      if failed !in modules {
        modules := modules[failed := Module(Some([]), 0, false, None, false, false)];
        h := WithEmpty(s, failed).h;
      }
      ghost var seen;
      seen, notified := NotifyDependents(failed, Loading(failed));
      WalkFindsWaiters(WithEmpty(s, failed), failed, seen);
      MarkEmpty(s, failed, seen);
      assert WaitersOf(View(), failed) == WaitersOf(WithEmpty(s, failed), failed);
      WaitersSourced(View(), failed);
    }

    lemma WaitersSourced(s: State, failed: Id)
      requires Reachable(s) && Sourced(s)
      ensures forall m :: m in WaitersOf(s, failed) ==>
        m in s.h.declared && (NeverDefined(s, m) || Told(s, Arrives(m, s.h.declared[m], s.modules[m].hasErrorback)))
    {
      ReachableInv(s);
    }

    static lemma WaitersAreDefined(s: State)
      requires Reachable(s)
      ensures forall d, m :: m in List(s.inverse, d) ==> m in s.modules
      ensures forall m :: m in s.h.draining ==> m in s.modules
    {
      ReachableInv(s);
      assert forall m :: m in s.h.draining ==> m in Waiting(s);
      forall d, m | m in List(s.inverse, d) ensures m in s.modules {
        WaitingMember(s, d, m);
      }
    }

    /** It is the same to fail an empty module as to create it failed. */
    static lemma MarkEmpty(s: State, failed: Id, seen: set<Id>)
      requires failed in seen
      ensures var empty := Module(Some([]), 0, false, None, false, false);
        MarkFailed(if failed in s.modules then s.modules else s.modules[failed := empty], seen, Loading(failed))
        == MarkFailed(WithEmpty(s, failed).modules, seen, Loading(failed))
    {
    }

    static lemma WalkFindsWaiters(s: State, failed: Id, seen: set<Id>)
      requires Walk(InverseGraph(s.inverse), s.modules.Keys, failed, seen, [])
      ensures WaitersOf(s, failed) == seen
    {
      var g := InverseGraph(s.inverse);
      forall x | Reaches(g, failed, x) ensures x in seen {
        var p :| IsPath(g, p) && p[0] == failed && p[|p| - 1] == x;
        ClosedSetHolds(g, seen, p);
      }
    }

    /** The queue walk from `from`: everything seen is reachable, what left the queue has its
        successors seen, and each id is enqueued at most once. */
    static ghost predicate Walk(g: Digraph, keys: set<Id>, from: Id, seen: set<Id>, queue: seq<Id>) {
      && from in seen && seen <= keys
      && Distinct(queue) && Elements(queue) <= seen
      && (forall x :: x in seen ==> x == from || Reaches(g, from, x))
      && (forall x, y :: x in seen - Elements(queue) && Edge(g, x, y) ==> y in seen)
    }

    static lemma WalkStep(g: Digraph, keys: set<Id>, from: Id, seen: set<Id>, queue: seq<Id>, ids: seq<Id>,
                          seen': set<Id>, queue': seq<Id>)
      requires Walk(g, keys, from, seen, queue) && queue != []
      requires forall y :: Edge(g, queue[0], y) <==> y in ids
      requires forall y :: y in ids ==> y in keys
      requires seen' == seen + Elements(ids) && Distinct(queue')
      requires Elements(queue') == Elements(queue[1..]) + (Elements(ids) - seen)
      ensures Walk(g, keys, from, seen', queue')
      ensures queue[0] in seen && queue[0] !in seen - Elements(queue)
      ensures seen' - Elements(queue') == (seen - Elements(queue)) + {queue[0]}
    {
      var e := queue[0];
      assert queue == [e] + queue[1..];
      assert Elements(queue) == {e} + Elements(queue[1..]);
      assert e !in Elements(queue[1..]);
      assert seen' - Elements(queue') == (seen - Elements(queue)) + {e};
      forall x, y | x in seen' - Elements(queue') && Edge(g, x, y) ensures y in seen' {
        if x == e {
          assert y in Elements(ids);
        }
      }
      forall y | y in ids ensures Reaches(g, from, y) {
        if e == from {
          EdgeReaches(g, from, y);
        } else {
          ReachesStep(g, from, e, y);
        }
      }
      assert forall y :: y in Elements(ids) ==> y in keys;
    }

    static lemma MarkOne(start: map<Id, Module>, marked: set<Id>, e: Id, err: Error)
      requires e in start && e !in marked
      ensures MarkFailed(start, marked, err)[e] == start[e]
      ensures MarkFailed(start, marked, err)[e := start[e].(isComplete := true, error := Some(err))]
           == MarkFailed(start, marked + {e}, err)
    {
    }

    // ----- defineModule, _resolve, _loadModule, _onModuleComplete, and the world around them -----

    /** What the first n events have led to, from s: each arrival is a module, the first one if new with just
        the dependencies and the errorback it came with, and each failed load that had been asked for has
        left an error. */
    static ghost predicate Performed(events: seq<Event>, n: nat, s: State, t: State)
      requires n <= |events|
    {
      && Heard(events[..n], t)
      && (forall i :: 0 <= i < n && events[i].LoadFails? && events[i].id in s.known ==> HasError(t, events[i].id))
      && (n > 0 && events[0].Arrives? && events[0].id !in s.modules ==>
            DefinedBy(t, events[0].id, events[0].deps, events[0].hasErrorback))
    }

    static ghost predicate DefinedBy(s: State, id: Id, deps: seq<Dependency>, hasErrorback: bool) {
      && id in s.modules && id in s.h.declared
      && s.h.declared[id] == deps && s.modules[id].hasErrorback == hasErrorback
    }

    static lemma PerformedGrows(events: seq<Event>, n: nat, s: State, t: State, u: State)
      requires n <= |events| && Performed(events, n, s, t) && Reachable(t) && Leads(t, u)
      ensures Performed(events, n, s, u)
    {
      LeadsGrows(t, u);
    }

    ghost predicate AllTold(events: seq<Event>, s: State) {
      forall e :: e in events ==> Told(s, e)
    }

    /** Whatever happens runs to the end with the manager's calls unwound. */
    method Perform(events: seq<Event>)
      requires Callable() && (clean ==> Quiet(events)) && AllTold(events, View())
      modifies this
      ensures Evolves(old(View()), View())
      ensures Performed(events, |events|, old(View()), View())
      decreases Unloaded(), Unrun(), 9
    {
      Stay(View());
      for i := 0 to |events|
        invariant Evolves(old(View()), View()) && AllTold(events, View())
        invariant Performed(events, i, old(View()), View()) && (i == 0 ==> View() == old(View()))
        invariant Unloaded() <= old(Unloaded()) && Unrun() <= old(Unrun())
      {
        ghost var s := View();
        LeadsGrows(old(View()), s);
        PerformOne(events[i]);
        LeadsGrows(s, View());
        ToldGrows(s, View());
        PerformedGrows(events, i, old(View()), s, View());
        FollowsOn(old(View()), s, View());
        Later(s, View());
        PerformedNext(events, i, old(View()), s, View());
      }
    }

    static lemma PerformedNext(events: seq<Event>, i: nat, s0: State, s: State, t: State)
      requires i < |events| && Performed(events, i, s0, t) && Grows(s0, s)
      requires events[i].Arrives? ==> events[i].id in t.modules
      requires events[i].Arrives? && events[i].id !in s.modules ==>
        DefinedBy(t, events[i].id, events[i].deps, events[i].hasErrorback)
      requires events[i].LoadFails? && events[i].id in s.known ==> HasError(t, events[i].id)
      requires i == 0 ==> s == s0
      ensures Performed(events, i + 1, s0, t)
    {
      assert events[..i + 1] == events[..i] + [events[i]];
    }

    method PerformOne(event: Event)
      requires Callable() && (clean ==> event.Arrives?) && Told(View(), event)
      modifies this
      ensures Evolves(old(View()), View())
      ensures event.Arrives? ==> event.id in modules
      ensures event.Arrives? && event.id !in old(modules) ==> DefinedBy(View(), event.id, event.deps, event.hasErrorback)
      ensures event.LoadFails? && event.id in old(known) ==> HasError(View(), event.id)
      decreases Unloaded(), Unrun(), 8
    {
      Stay(View());
      match event {
        case Arrives(id, deps, hasErrorback) =>
          DefineModule(id, deps, hasErrorback);
        case LoadFails(id) =>
          if id in known {
            var _ := OnLoadError(id);
          }
      }
    }

    /** A duplicate definition is ignored; a new one is stored and its dependencies are resolved. */
    method DefineModule(id: Id, deps: seq<Dependency>, hasErrorback: bool)
      requires Callable() && Told(View(), Arrives(id, deps, hasErrorback))
      modifies this
      ensures Evolves(old(View()), View())
      ensures id in old(modules) ==> View() == old(View())
      ensures id !in old(modules) ==> DefinedBy(View(), id, deps, hasErrorback)
      ensures id in modules
      decreases Unloaded(), Unrun(), 7
    {
      Stay(View());
      if id in modules {
        return;
      }
      Store(id, deps, hasErrorback);
      ghost var s := View();
      ResolveNew(id, old(h).active);
      FollowsOn(old(View()), s, View());
    }

    /** Resolves what was just stored. */
    method ResolveNew(id: Id, ghost active: set<Id>)
      requires Callable() && id in modules && id in h.declared && h.active == active + {id}
      requires modules[id].deps == Some(h.declared[id]) && id in h.pending && h.pending[id] == |h.declared[id]|
      modifies this
      ensures Callable() && Follows(old(View()), View())
      ensures h.pending == old(h).pending - {id} && h.active == active && SameCalls(old(h), h)
      ensures DefinedBy(View(), id, old(h.declared[id]), old(modules[id].hasErrorback))
      decreases Unloaded(), Unrun(), 6
    {
      ghost var s := View();
      Resolve(id);
      ghost var s1 := View();
      LeadsGrows(s, s1);
      Return(active);
      FollowsOn(s, s1, View());
    }

    method Store(id: Id, deps: seq<Dependency>, hasErrorback: bool)
      requires Callable() && id !in modules && Told(View(), Arrives(id, deps, hasErrorback))
      modifies this`modules, this`h
      ensures Callable() && Follows(old(View()), View()) && View() == Defined(old(View()), id, deps, hasErrorback)
      ensures id !in old(h).pending && DefinedBy(View(), id, deps, hasErrorback)
    {
      ghost var s := View();
      FreshIsIdle(s, id);
      TakeStep(s, Define(id, deps, hasErrorback));
      modules := modules[id := Module(Some(deps), |deps|, false, None, false, hasErrorback)];
      h := Defined(s, id, deps, hasErrorback).h;
    }

    /** A caller has checked the modules it made active. */
    ghost method Return(active: set<Id>)
      requires Callable()
      requires forall x :: x in h.active && x !in active && x in modules ==> modules[x].isComplete || modules[x].count != 0
      modifies this`h
      ensures Callable() && Follows(old(View()), View()) && h == old(h).(active := active)
    {
      TakeStep(View(), Restore(active));
      h := h.(active := active);
    }

    static lemma NotRun(s: State, id: Id)
      requires Reachable(s) && id in s.modules && !s.modules[id].isComplete
      ensures id !in s.h.completing && id !in s.h.log
    {
      ReachableInv(s);
    }

    static lemma Later(s: State, t: State)
      requires Reachable(s) && Leads(s, t)
      ensures s.known <= t.known && Elements(s.h.log) <= Elements(t.h.log)
    {
      LeadsGrows(s, t);
    }

    static lemma FreshIsIdle(s: State, id: Id)
      requires Reachable(s) && id !in s.modules
      ensures id !in s.h.pending
    {
      ReachableInv(s);
    }

    /** Examines the dependencies of a module in order; it is complete on return, or still waiting. */
    method Resolve(id: Id)
      requires Callable() && id in modules && id in h.active && id in h.declared
      requires modules[id].deps == Some(h.declared[id])
      requires id in h.pending && h.pending[id] == |h.declared[id]|
      modifies this
      ensures Callable() && Follows(old(View()), View())
      ensures h.pending == old(h).pending - {id} && h.active == old(h).active && SameCalls(old(h), h)
      ensures id in modules && (modules[id].isComplete || modules[id].count != 0)
      decreases Unloaded(), Unrun(), 5
    {
      ghost var s0 := View();
      var failed := ExamineAll(id);
      if !failed {
        ghost var s1 := View();
        FinishResolve(id);
        FollowsOn(s0, s1, View());
      }
    }

    /** The loop in `_resolve`; `failed` if a dependency ended it. */
    method ExamineAll(id: Id) returns (failed: bool)
      requires Callable() && id in modules && id in h.active && id in h.declared
      requires modules[id].deps == Some(h.declared[id])
      requires id in h.pending && h.pending[id] == |h.declared[id]|
      modifies this
      ensures Callable() && Follows(old(View()), View())
      ensures Unloaded() <= old(Unloaded()) && Unrun() <= old(Unrun())
      ensures h.active == old(h).active && SameCalls(old(h), h) && id in modules
      ensures failed ==> h.pending == old(h).pending - {id} && modules[id].isComplete
      ensures !failed ==> h.pending == old(h).pending[id := 0]
      decreases Unloaded(), Unrun(), 4
    {
      ghost var s0 := View();
      Stay(s0);
      failed := false;
      var dependencies := modules[id].deps.value;
      for i := 0 to |dependencies|
        invariant !failed && Callable() && Follows(s0, View())
        invariant Unloaded() <= old(Unloaded()) && Unrun() <= old(Unrun())
        invariant id in modules && id in h.declared && h.declared[id] == dependencies
        invariant h.pending == s0.h.pending[id := |dependencies| - i] && h.active == s0.h.active && SameCalls(s0.h, h)
      {
        failed := Round(id, dependencies[i], s0);
        if failed {
          return;
        }
      }
    }

    method FinishResolve(id: Id)
      requires Callable() && id in modules && id in h.pending && h.pending[id] == 0
      modifies this
      ensures Callable() && Follows(old(View()), View())
      ensures h.pending == old(h).pending - {id} && h.active == old(h).active && SameCalls(old(h), h)
      ensures id in modules && (modules[id].isComplete || modules[id].count != 0)
      decreases Unloaded(), Unrun(), 3
    {
      ghost var s := View();
      TakeStep(s, EndResolve(id));
      h := ResolveEnded(s, id).h;
      ghost var s1 := View();
      if modules[id].count == 0 {
        OnModuleComplete(id);
        FollowsOn(s, s1, View());
      }
    }

    /** What the loop in `_resolve` needs to know of a round. */
    method Round(id: Id, dependency: Dependency, ghost s0: State) returns (failed: bool)
      requires Callable() && Examining(View(), id) && dependency == Next(View(), id)
      requires Reachable(s0) && Follows(s0, View())
      modifies this
      ensures Callable() && Follows(s0, View())
      ensures Unloaded() <= old(Unloaded()) && Unrun() <= old(Unrun())
      ensures h.active == old(h).active && SameCalls(old(h), h)
      ensures id in modules && id in h.declared && h.declared[id] == old(h.declared[id])
      ensures !failed ==> h.pending == OneExamined(old(View()), id)
      ensures failed ==> h.pending == old(h).pending - {id} && id in modules && modules[id].isComplete
      decreases Unloaded(), Unrun(), 3
    {
      ghost var s := View();
      failed := Examine(id, dependency);
      FollowsOn(s0, s, View());
      LeadsGrows(s, View());
      Later(s, View());
    }

    /** One round of the loop in `_resolve`; `failed` if it ends the loop. */
    method Examine(id: Id, dependency: Dependency) returns (failed: bool)
      requires Callable() && Examining(View(), id) && dependency == Next(View(), id)
      modifies this
      ensures Callable() && Follows(old(View()), View())
      ensures h.active == old(h).active && SameCalls(old(h), h)
      ensures Leads(FirstExamined(old(View()), id), View())
      ensures !Enabled(old(View()), Await(id)) ==> View() == FirstExamined(old(View()), id)
      ensures failed <==> old(Enabled(View(), Propagate(id)))
      ensures !failed ==> h.pending == OneExamined(old(View()), id)
      ensures failed ==> h.pending == old(h).pending - {id} && id in modules && modules[id].isComplete
      // the module's error is that of the dependency
      ensures failed ==> dependency.Regular? && dependency.id in old(modules) && modules[id].error == old(modules)[dependency.id].error
      decreases Unloaded(), Unrun(), 2
    {
      Stay(FirstExamined(View(), id));
      if !dependency.Regular? {
        Pass(id, dependency.Exports?);
        return false;
      }
      var d := dependency.id;
      if d in modules && modules[d].isComplete {
        if modules[d].error.Some? {
          PassError(id, d);
          return true;
        }
        Pass(id, false);
        return false;
      }
      var cyclic := HasDependencyPath(d, id);
      if cyclic {
        BreakCycle(id);
        return false;
      }
      AwaitDependency(id, d);
      return false;
    }

    /** What the code's tests choose for the next dependency: count it, take its error, give it up, or
        wait for it and ask for it. */
    static ghost function FirstExamined(s: State, id: Id): State
      requires Examining(s, id)
    {
      var dependency := Next(s, id);
      if !dependency.Regular? then Satisfied(s, id)
      else if CompleteIn(s, dependency.id) then
        if s.modules[dependency.id].error.Some? then Propagated(s, id) else Satisfied(s, id)
      else if Reaches(LiveGraph(s.modules), dependency.id, id) then CycleBroken(s, id)
      else Asked(Awaiting(s, id), dependency.id)
    }

    /** A dependency that needs no waiting. */
    method Pass(id: Id, exports: bool)
      requires Callable() && Enabled(View(), Satisfy(id)) && exports == Next(View(), id).Exports?
      modifies this`modules, this`h
      ensures Callable() && Follows(old(View()), View()) && View() == Satisfied(old(View()), id)
    {
      ghost var s := View();
      TakeStep(s, Satisfy(id));
      modules := modules[id := modules[id].(count := modules[id].count - 1, exportsPassedIn := modules[id].exportsPassedIn || exports)];
      h := Satisfied(s, id).h;
    }

    /** A dependency that failed: the module fails with the same error. */
    method PassError(id: Id, d: Id)
      requires Callable() && Enabled(View(), Propagate(id)) && Next(View(), id) == Regular(d)
      modifies this`modules, this`h
      ensures Callable() && Follows(old(View()), View()) && View() == Propagated(old(View()), id)
      ensures id in modules && modules[id].error == old(modules)[d].error
    {
      ghost var s := View();
      TakeStep(s, Propagate(id));
      modules := modules[id := modules[id].(isComplete := true, error := modules[d].error)];
      h := Propagated(s, id).h;
      assert modules == Propagated(s, id).modules;
    }

    /** A dependency that would close a cycle: the wait is given up. */
    method BreakCycle(id: Id)
      requires Callable() && Enabled(View(), Break(id))
      modifies this`modules, this`hasDependencyCycle, this`h
      ensures Callable() && Follows(old(View()), View()) && View() == CycleBroken(old(View()), id)
    {
      ghost var s := View();
      TakeStep(s, Break(id));
      hasDependencyCycle := true;
      modules := modules[id := modules[id].(count := modules[id].count - 1)];
      h := CycleBroken(s, id).h;
    }

    /** Records the wait, then asks for the dependency. */
    method AwaitDependency(id: Id, d: Id)
      requires Callable() && Enabled(View(), Await(id)) && Next(View(), id) == Regular(d)
      modifies this
      ensures Callable() && Follows(old(View()), View())
      ensures Leads(Asked(Awaiting(old(View()), id), d), View())
      ensures h.active == old(h).active && SameCalls(old(h), h) && h.pending == OneExamined(old(View()), id)
      decreases Unloaded(), Unrun(), 1
    {
      ghost var s := View();
      TakeStep(s, Await(id));
      inverse := inverse[d := List(inverse, d) + [id]];
      h := Awaiting(s, id).h;
      ghost var s1 := View();
      LoadModule(d);
      FollowsOn(s, s1, View());
    }

    /** Asks for a module that is neither defined nor asked for; if its script runs at once, what the
        script does happens before the call returns. */
    method LoadModule(id: Id)
      requires Reachable(View()) && Orderly(View()) && h.requesting == {id}
      modifies this
      ensures Callable() && Follows(old(View()), View())
      ensures Leads(Asked(old(View()), id), View())
      ensures old(id in modules || id in known) ==> View() == Asked(old(View()), id) && known == old(known)
      ensures old(id !in modules && id !in known) ==> id in known && (id !in scripts ==> known == old(known) + {id})
      ensures old(id !in modules && id !in known) && id in scripts ==> Heard(scripts[id], View())
      ensures h.pending == old(h).pending && h.active == old(h).active
      ensures h.draining == old(h).draining && h.completing == old(h).completing
      decreases Unloaded(), Unrun(), 0
    {
      ghost var s := View();
      Stay(Asked(s, id));
      TakeStep(s, Ask(id));
      h := Asked(s, id).h;
      if id in modules || id in known {
        assert View() == Asked(s, id);
        return;
      }
      known := known + {id};
      assert View() == Asked(s, id);
      if id in scripts {
        assert id !in Unloaded() && id in old(Unloaded());
        ghost var s1 := View();
        Perform(scripts[id]);
        AfterScript(s, id, View());
        Later(s1, View());
      }
    }

    lemma AfterScript(s: State, id: Id, t: State)
      requires Reachable(s) && Leads(s, Asked(s, id)) && Follows(Asked(s, id), t) && id !in s.modules && id in scripts
      requires Performed(scripts[id], |scripts[id]|, Asked(s, id), t)
      ensures Follows(s, t)
    {
      LeadsOn(s, Asked(s, id), t);
      assert scripts[id][..|scripts[id]|] == scripts[id];
    }

    lemma AfterFactory(s: State, id: Id, s1: State, throws: bool)
      requires Reachable(s) && id in s.modules && id in s1.modules
      requires Leads(s, FactoryBegun(s, id)) && Follows(FactoryBegun(s, id), s1) && Leads(s1, FactoryEnded(s1, id, throws))
      requires id in factories ==>
        throws == factories[id].throws && Performed(factories[id].events, |factories[id].events|, FactoryBegun(s, id), s1)
      ensures Follows(s, FactoryEnded(s1, id, throws))
    {
      var begun, t := FactoryBegun(s, id), FactoryEnded(s1, id, throws);
      LeadsOn(s, begun, s1);
      LeadsOn(s, s1, t);
      LeadsOn(Initial(), s, s1);
      HeardGrows(s1, t);
      if id in factories {
        assert factories[id].events[..|factories[id].events|] == factories[id].events;
      }
      assert t.known == s1.known && t.h.log == s1.h.log;
      assert begun.known == s.known && begun.h.log == s.h.log + [id];
    }

    /** Invokes the factory of a module and wakes those that wait for it, those they wake, and so on. */
    method OnModuleComplete(id: Id)
      requires Callable() && id in modules && (modules[id].isComplete || modules[id].count == 0)
      modifies this
      ensures Evolves(old(View()), View())
      ensures id in modules && modules[id].isComplete
      ensures Consumes(old(Unloaded()), old(Unrun()), old(modules).Keys, old(Incomplete()))
      decreases Unloaded(), Unrun(), 2, Incomplete(), 0
    {
      ghost var s0 := View();
      Stay(s0);
      if modules[id].isComplete {
        return;
      }
      var inverseDeps := RunFactory(id);
      ghost var s1 := View();
      WakeAll(inverseDeps);
      FollowsOn(s0, s1, View());
      LeadsGrows(s1, View());
    }

    /** `complete`, and the fetch of the inverse list. */
    method RunFactory(id: Id) returns (inverseDeps: seq<Id>)
      requires Callable() && id in modules && !modules[id].isComplete && modules[id].count == 0
      modifies this
      ensures Callable() && Follows(old(View()), View())
      ensures h.pending == old(h).pending && h.active == old(h).active && h.completing == old(h).completing
      ensures h.draining == old(h).draining + multiset(inverseDeps)
      ensures id in modules && modules[id].isComplete
      ensures id in factories && factories[id].throws ==> modules[id].error == Some(Factory(id))
      ensures Consumes(old(Unloaded()), old(Unrun()), old(modules).Keys, old(Incomplete()) - {id})
      decreases Unloaded(), Unrun(), 1
    {
      ghost var s0 := View();
      NotRun(s0, id);
      var throws := InvokeFactory(id);
      ghost var s1 := View();
      assert FactoryBegun(s0, id).h.completing - {id} == s0.h.completing;
      inverseDeps := FinishFactory(id, throws);
      AfterFactory(s0, id, s1, throws);
    }

    /** `complete` up to the return of the factory. */
    method InvokeFactory(id: Id) returns (throws: bool)
      requires Callable() && id in modules && !modules[id].isComplete && modules[id].count == 0 && id !in h.log
      modifies this
      ensures Callable() && Leads(old(View()), FactoryBegun(old(View()), id)) && Evolves(FactoryBegun(old(View()), id), View())
      ensures id in factories ==> throws == factories[id].throws && Performed(factories[id].events,
        |factories[id].events|, FactoryBegun(old(View()), id), View())
      ensures id !in factories ==> !throws
      ensures id in modules && modules[id].isComplete
      ensures Consumes(old(Unloaded()), old(Unrun()), old(modules).Keys, old(Incomplete()) - {id})
      decreases Unloaded(), Unrun(), 0
    {
      ghost var s0 := View();
      TakeStep(s0, BeginFactory(id));
      modules := modules[id := modules[id].(isComplete := true)];
      h := FactoryBegun(s0, id).h;
      ghost var s1 := View();
      Stay(s1);
      assert Incomplete() == old(Incomplete()) - {id};
      assert Elements(h.log) == Elements(s0.h.log) + {id};
      throws := false;
      if id in factories {
        Perform(factories[id].events);
        throws := factories[id].throws;
      }
      LeadsGrows(s1, View());
      Later(s1, View());
    }

    method FinishFactory(id: Id, throws: bool) returns (inverseDeps: seq<Id>)
      requires Callable() && id in modules && id in h.completing && modules[id].isComplete && !(clean && throws)
      modifies this
      ensures View() == FactoryEnded(old(View()), id, throws) && inverseDeps == List(old(inverse), id)
      ensures id in modules && modules[id].error == if throws then Some(Factory(id)) else old(modules[id].error)
      ensures Callable() && Follows(old(View()), View())
      ensures Incomplete() == old(Incomplete())
    {
      ghost var s := View();
      TakeStep(s, EndFactory(id, throws));
      modules := modules[id := modules[id].(deps := None, error := if throws then Some(Factory(id)) else modules[id].error)];
      inverseDeps := List(inverse, id);
      inverse := inverse[id := []];
      h := FactoryEnded(s, id, throws).h;
    }

    /** Drains a fetched inverse list. */
    method WakeAll(inverseDeps: seq<Id>)
      requires Callable() && h.draining >= multiset(inverseDeps)
      modifies this
      ensures Callable() && Follows(old(View()), View())
      ensures h.pending == old(h).pending && h.active == old(h).active
      ensures h.completing == old(h).completing
      ensures h.draining == old(h).draining - multiset(inverseDeps)
      ensures Consumes(old(Unloaded()), old(Unrun()), old(modules).Keys, old(Incomplete()))
      decreases Unloaded(), Unrun(), 2, Incomplete(), 3
    {
      ghost var s0 := View();
      Stay(s0);
      for i := 0 to |inverseDeps|
        invariant Callable() && Follows(s0, View())
        invariant h.pending == s0.h.pending && h.active == s0.h.active && h.completing == s0.h.completing
        invariant h.draining == s0.h.draining - multiset(inverseDeps[..i])
        invariant Consumes(old(Unloaded()), old(Unrun()), old(modules).Keys, old(Incomplete()))
      {
        ghost var s := View();
        WakeNext(inverseDeps, i, s0.h.draining);
        FollowsOn(s0, s, View());
      }
      assert inverseDeps[..|inverseDeps|] == inverseDeps;
    }

    /** The i-th entry of the list. */
    method WakeNext(inverseDeps: seq<Id>, i: nat, ghost draining: multiset<Id>)
      requires Callable() && draining >= multiset(inverseDeps) && i < |inverseDeps|
      requires h.draining == draining - multiset(inverseDeps[..i])
      modifies this
      ensures Callable() && Follows(old(View()), View())
      ensures h.pending == old(h).pending && h.active == old(h).active && h.completing == old(h).completing
      ensures h.draining == draining - multiset(inverseDeps[..i + 1])
      ensures Consumes(old(Unloaded()), old(Unrun()), old(modules).Keys, old(Incomplete()))
      decreases Unloaded(), Unrun(), 2, Incomplete(), 2
    {
      NextToWake(draining, inverseDeps, i);
      Wake(inverseDeps[i]);
    }

    static lemma NextToWake(draining: multiset<Id>, list: seq<Id>, i: nat)
      requires draining >= multiset(list) && i < |list|
      ensures list[i] in draining - multiset(list[..i])
      ensures (draining - multiset(list[..i])) - multiset{list[i]} == draining - multiset(list[..i + 1])
    {
      assert list == list[..i] + ([list[i]] + list[i + 1..]);
      assert multiset(list) == multiset(list[..i]) + (multiset{list[i]} + multiset(list[i + 1..]));
      assert list[..i + 1] == list[..i] + [list[i]];
    }

    /** One entry of a list being drained. */
    method Wake(x: Id)
      requires Callable() && x in h.draining
      modifies this
      ensures Callable() && Follows(old(View()), View())
      ensures h.pending == old(h).pending && h.active == old(h).active && h.completing == old(h).completing
      ensures h.draining == old(h).draining - multiset{x}
      ensures Consumes(old(Unloaded()), old(Unrun()), old(modules).Keys, old(Incomplete()))
      decreases Unloaded(), Unrun(), 2, Incomplete(), 1
    {
      ghost var s0 := View();
      Decrement(x);
      ghost var s1 := View();
      Stay(s1);
      if modules[x].count == 0 {
        OnModuleComplete(x);
      }
      ghost var s2 := View();
      FollowsOn(s0, s1, s2);
      Return(s0.h.active);
      FollowsOn(s0, s2, View());
    }

    /** The decrement, and the look at the counter. */
    method Decrement(x: Id)
      requires Callable() && x in h.draining
      modifies this`modules, this`h
      ensures Callable() && Follows(old(View()), View())
      ensures x in old(modules) && View() == Drained(old(View()), x)
      ensures Incomplete() == old(Incomplete())
    {
      ghost var s := View();
      WaitersAreDefined(s);
      TakeStep(s, DrainOne(x));
      modules := modules[x := modules[x].(count := modules[x].count - 1)];
      h := Drained(s, x).h;
    }

    static ghost predicate AllRan(s: State) {
      Distinct(s.h.log) && forall x :: x in s.modules ==> s.modules[x].isComplete && x in s.h.log
    }

    /** If everything is provided and nothing fails, every dependency is defined in the end. */
    lemma ProvidedAreDefined(s: State)
      requires Reachable(s) && Quiescent(s) && NoErrors(s) && Sourced(s)
      requires Heard(reports, s) && Settled(Initial(), s) && Provided(scripts, factories, reports)
      ensures AllDefined(s)
    {
      ReachableInv(s);
      forall m, d | m in s.h.declared && Regular(d) in s.h.declared[m] ensures d in s.modules {
        DependencyProvided(s, m, d);
        if !ArrivesIn(reports, d) {
          LoaderOrigins.DependenciesAsked(s, m, d);
        }
      }
    }

    lemma DependencyProvided(s: State, m: Id, d: Id)
      requires Sourced(s) && Provided(scripts, factories, reports)
      requires m in s.modules && m in s.h.declared && Regular(d) in s.h.declared[m]
      ensures ArrivesIn(reports, d) || (d in scripts && ArrivesIn(scripts[d], d))
    {
      var e := Arrives(m, s.h.declared[m], s.modules[m].hasErrorback);
      assert !NeverDefined(s, m);
      ToldOccurs(s, e);
    }

    lemma ToldOccurs(s: State, e: Event)
      requires Told(s, e)
      ensures Occurs(scripts, factories, reports, e)
    {
    }

    /** A whole session: any events in any order, scripts that load at once, factories that define and
        load more. Every arrival becomes a module, that of a script asked for and of a factory that ran
        included; each module has the dependencies and errorback that it arrived with. If in the end every
        referenced id is defined and nothing failed, all has run; if no load fails and no factory throws,
        nothing fails; and if moreover all that is depended on is provided, all has run. */
    static method Session(scripts: map<Id, seq<Event>>, factories: map<Id, FactoryRun>, events: seq<Event>)
      returns (manager: ModuleManager)
      ensures manager.scripts == scripts && manager.factories == factories && manager.reports == events
      ensures Reachable(manager.View()) && Quiescent(manager.View())
      ensures Performed(events, |events|, Initial(), manager.View())
      ensures manager.Settled(Initial(), manager.View()) && manager.Sourced(manager.View())
      ensures AllDefined(manager.View()) && (forall x :: x in manager.modules ==> !Failed(manager.View(), x)) ==>
        AllRan(manager.View())
      ensures Quiet(events) && QuietWorld(scripts, factories) ==>
        CleanlyReachable(manager.View()) && NoErrors(manager.View())
        && (AllDefined(manager.View()) ==> AllRan(manager.View()))
      ensures Quiet(events) && QuietWorld(scripts, factories) && Provided(scripts, factories, events) ==>
        AllDefined(manager.View())
        && forall id :: ArrivesIn(events, id) ==> id in manager.modules && manager.modules[id].isComplete && id in manager.h.log
    {
      manager := new ModuleManager(scripts, factories, events, Quiet(events) && QuietWorld(scripts, factories));
      manager.Perform(events);
      assert events[..|events|] == events;
      if manager.clean {
        CleanlyReachableKeeps(manager.View());
        if Provided(scripts, factories, events) {
          manager.ProvidedAreDefined(manager.View());
        }
      }
      if AllDefined(manager.View()) && forall x :: x in manager.modules ==> !Failed(manager.View(), x) {
        EverythingRuns(manager.View());
      }
    }
  }
}
