/** The state of the AMD module manager, its invariant, and the atomic steps its methods are made of.
    The manager's own fields are `modules`, `known`, `inverse` and `hasCycle`; `History` records what
    the proofs need to know about the calls in progress and about the past. */
module LoaderState {
  import opened Wrappers
  import opened Graph
  import Sequences

  /** The three pseudo dependencies have the ids 0, 1 and 2, but are recognised by identity: a
      regular dependency may carry the same id without being one of them. */
  datatype Dependency = Exports | ModuleObject | Require | Regular(id: Id) {
    function Target(): Id {
      match this
      case Exports => 0
      case ModuleObject => 1
      case Require => 2
      case Regular(id) => id
    }
  }

  datatype Error = Loading(id: Id) | Factory(id: Id)

  /** `deps` is None once the module's factory has run. */
  datatype Module = Module(
    deps: Option<seq<Dependency>>,
    count: int,
    isComplete: bool,
    error: Option<Error>,
    exportsPassedIn: bool,
    hasErrorback: bool)

  /** `declared`: every dependency list as first defined. `log`: the modules whose factory was
      invoked, in order. `broken`: dependency edges given up as closing a cycle. `pending`: for each
      `_resolve` call in progress, how many dependencies it has not examined. `draining`: what is
      left of the inverse lists being drained. `completing`: modules whose factory is running.
      `requesting`: ids about to be passed to `_loadModule`. `active`: modules a caller will still check
      for completion. `rank`: witnesses that waiting is acyclic. `keys`: the ids that may have a non-empty list in `inverse`. */
  datatype History = History(
    declared: map<Id, seq<Dependency>>,
    log: seq<Id>,
    broken: set<(Id, Id)>,
    pending: map<Id, nat>,
    draining: multiset<Id>,
    completing: set<Id>,
    requesting: set<Id>,
    active: set<Id>,
    rank: Id -> nat,
    keys: seq<Id>)

  datatype State = State(
    modules: map<Id, Module>,
    known: set<Id>,
    inverse: map<Id, seq<Id>>,
    hasCycle: bool,
    h: History)

  // ----- Graphs read off a state -----

  function Targets(ds: seq<Dependency>): set<Id> {
    set i | 0 <= i < |ds| :: ds[i].Target()
  }

  /** What `_hasDependencyPath` walks: the dependency lists not yet dropped. */
  function LiveGraph(modules: map<Id, Module>): Digraph {
    map m | m in modules :: if modules[m].deps.Some? then Targets(modules[m].deps.value) else {}
  }

  function DeclaredGraph(declared: map<Id, seq<Dependency>>): Digraph {
    map m | m in declared :: Targets(declared[m])
  }

  /** An edge from x to every module recorded as waiting for x. */
  function InverseGraph(inverse: map<Id, seq<Id>>): Digraph {
    map d | d in inverse :: Sequences.Elements(inverse[d])
  }

  /** An edge from every module to everything it is recorded as waiting for. */
  function WaitGraph(s: State): Digraph {
    map m | m in s.modules :: set d | d in s.inverse && m in s.inverse[d]
  }

  // ----- Multiplicities in the inverse lists -----

  function List(inverse: map<Id, seq<Id>>, d: Id): seq<Id> {
    if d in inverse then inverse[d] else []
  }

  /** All entries of the inverse lists of the ids in `keys`, with multiplicity. */
  function Waiters(inverse: map<Id, seq<Id>>, keys: seq<Id>): multiset<Id> {
    if keys == [] then multiset{}
    else Waiters(inverse, keys[..|keys| - 1]) + multiset(List(inverse, keys[|keys| - 1]))
  }

  lemma {:induction false} WaitersMember(inverse: map<Id, seq<Id>>, keys: seq<Id>, d: Id, x: Id)
    requires d in keys && x in List(inverse, d)
    ensures x in Waiters(inverse, keys)
  {
    if keys[|keys| - 1] != d {
      WaitersMember(inverse, keys[..|keys| - 1], d, x);
    }
  }

  lemma {:induction false} WaitersSame(inverse: map<Id, seq<Id>>, keys: seq<Id>, d: Id, l: seq<Id>)
    requires d !in keys
    ensures Waiters(inverse[d := l], keys) == Waiters(inverse, keys)
  {
    if keys != [] {
      WaitersSame(inverse, keys[..|keys| - 1], d, l);
    }
  }

  /** Replacing one list changes the whole by the difference of the two lists. */
  lemma {:induction false} WaitersUpdate(inverse: map<Id, seq<Id>>, keys: seq<Id>, d: Id, l: seq<Id>)
    requires d in keys && Sequences.Distinct(keys)
    ensures Waiters(inverse[d := l], keys) + multiset(List(inverse, d)) == Waiters(inverse, keys) + multiset(l)
  {
    var front, last := keys[..|keys| - 1], keys[|keys| - 1];
    var inverse' := inverse[d := l];
    if last == d {
      WaitersSame(inverse, front, d, l);
      assert Waiters(inverse', keys) == Waiters(inverse, front) + multiset(l);
      Swap(Waiters(inverse, front), multiset(l), multiset(List(inverse, d)));
    } else {
      WaitersUpdate(inverse, front, d, l);
      Swap(Waiters(inverse', front), multiset(List(inverse, last)), multiset(List(inverse, d)));
      Swap(Waiters(inverse, front), multiset(List(inverse, last)), multiset(l));
    }
  }

  lemma Swap(a: multiset<Id>, b: multiset<Id>, c: multiset<Id>)
    ensures (a + b) + c == (a + c) + b
  {
  }

  /** Every outstanding decrement: recorded in a list, or in a list being drained. */
  function Waiting(s: State): multiset<Id> {
    Waiters(s.inverse, s.h.keys) + s.h.draining
  }

  function Pending(pending: map<Id, nat>, m: Id): nat {
    if m in pending then pending[m] else 0
  }

  // ----- The invariant -----

  ghost predicate Shape(modules: map<Id, Module>, declared: map<Id, seq<Dependency>>, pending: map<Id, nat>,
                        inverse: map<Id, seq<Id>>, keys: seq<Id>)
  {
    && declared.Keys == modules.Keys
    && (forall m :: m in modules && modules[m].deps.Some? ==> modules[m].deps.value == declared[m])
    && (forall m :: m in pending ==> m in modules && pending[m] <= |declared[m]|)
    && Sequences.Distinct(keys)
    && (forall d :: d in inverse && inverse[d] != [] ==> d in keys)
  }

  /** A module is complete when its factory was invoked (at most once) or when it failed. */
  ghost predicate Status(modules: map<Id, Module>, log: seq<Id>, completing: set<Id>) {
    && Sequences.Distinct(log)
    && (forall m :: m in log ==> m in modules)
    && (forall m :: m in completing ==> m in log)
    && (forall m :: m in modules ==> (modules[m].isComplete <==> m in log || modules[m].error.Some?))
    && (forall m :: m in modules && m !in log ==> modules[m].deps.Some?)
  }

  /** The counter of a module that has not failed is exactly its outstanding decrements: its
      dependencies not examined yet, and its entries in all inverse lists, drained ones included. */
  ghost predicate Counters(modules: map<Id, Module>, log: seq<Id>, pending: map<Id, nat>, waiting: multiset<Id>) {
    && (forall m :: m in waiting ==> m in modules)
    && (forall m :: m in modules && (m in log || modules[m].error.None?) ==>
          modules[m].count == Pending(pending, m) + waiting[m])
    && (forall m :: m in log && m in modules ==> modules[m].count == 0)
  }

  ghost predicate Edges(inverse: map<Id, seq<Id>>, declared: map<Id, seq<Dependency>>, rank: Id -> nat,
                        log: seq<Id>, completing: set<Id>)
  {
    forall d, m {:trigger m in inverse[d]} :: d in inverse && m in inverse[d] ==>
      && m in declared && Regular(d) in declared[m]
      && rank(m) > rank(d)
      && (d in log ==> d in completing)
  }

  ghost predicate Resolved(log: seq<Id>, broken: set<(Id, Id)>, inverse: map<Id, seq<Id>>, m: Id, d: Id) {
    d in log || (m, d) in broken || m in List(inverse, d)
  }

  /** Every examined dependency of a module that has not run was invoked, given up, or is waited for. */
  ghost predicate Examined(modules: map<Id, Module>, declared: map<Id, seq<Dependency>>, pending: map<Id, nat>,
                           log: seq<Id>, broken: set<(Id, Id)>, inverse: map<Id, seq<Id>>)
  {
    forall m :: m in modules && m in declared && m !in log && modules[m].error.None? ==>
      ExaminedUpTo(declared[m], |declared[m]| - Pending(pending, m), log, broken, inverse, m)
  }

  ghost predicate ExaminedUpTo(ds: seq<Dependency>, n: int, log: seq<Id>, broken: set<(Id, Id)>,
                               inverse: map<Id, seq<Id>>, m: Id)
  {
    forall i :: 0 <= i < n && i < |ds| && ds[i].Regular? ==> Resolved(log, broken, inverse, m, ds[i].id)
  }

  /** When a factory was invoked, each regular dependency had been invoked before or its edge was
      given up as a cycle edge. */
  ghost predicate Ordered(declared: map<Id, seq<Dependency>>, log: seq<Id>, broken: set<(Id, Id)>) {
    forall k :: 0 <= k < |log| && log[k] in declared ==>
      forall d :: Regular(d) in declared[log[k]] ==> d in log[..k] || (log[k], d) in broken
  }

  /** Only edges on a cycle of the declared graph are ever given up, and the flag says if any were. */
  ghost predicate CycleEdges(hasCycle: bool, declared: map<Id, seq<Dependency>>, broken: set<(Id, Id)>) {
    && (hasCycle <==> broken != {})
    && (forall m, d :: (m, d) in broken ==>
          m in declared && Regular(d) in declared[m] && Reaches(DeclaredGraph(declared), d, m))
  }

  /** Nobody is forgotten at zero: a module at zero is complete or about to be checked. */
  ghost predicate Ready(modules: map<Id, Module>, active: set<Id>) {
    forall m :: m in modules && !modules[m].isComplete && m !in active ==> modules[m].count != 0
  }

  /** Whatever a module waits for is defined or has been asked for. */
  ghost predicate Requested(modules: map<Id, Module>, known: set<Id>, inverse: map<Id, seq<Id>>, requesting: set<Id>) {
    forall d :: d in inverse && inverse[d] != [] ==> d in modules || d in known || d in requesting
  }

  ghost predicate Basics(s: State) {
    && Shape(s.modules, s.h.declared, s.h.pending, s.inverse, s.h.keys)
    && Status(s.modules, s.h.log, s.h.completing)
    && Counters(s.modules, s.h.log, s.h.pending, Waiting(s))
    && Ready(s.modules, s.h.active)
  }

  ghost predicate EdgesOf(s: State) {
    Edges(s.inverse, s.h.declared, s.h.rank, s.h.log, s.h.completing)
  }

  ghost predicate ExaminedOf(s: State) {
    Examined(s.modules, s.h.declared, s.h.pending, s.h.log, s.h.broken, s.inverse)
  }

  ghost predicate Inv(s: State) {
    && Basics(s) && EdgesOf(s) && ExaminedOf(s)
    && Ordered(s.h.declared, s.h.log, s.h.broken)
    && CycleEdges(s.hasCycle, s.h.declared, s.h.broken)
    && Requested(s.modules, s.known, s.inverse, s.h.requesting)
  }

  // ----- Steps -----

  /** The atomic steps of the manager. */
  datatype Step =
    | Define(id: Id, deps: seq<Dependency>, hasErrorback: bool)
    | Satisfy(m: Id)
    | Propagate(m: Id)
    | Break(m: Id)
    | Await(m: Id)
    | Ask(d: Id)
    | EndResolve(m: Id)
    | FailLoad(d: Id)
    | BeginFactory(m: Id)
    | EndFactory(m: Id, throws: bool)
    | DrainOne(x: Id)
    | Restore(active: set<Id>)

  /** m's `_resolve` call still has dependencies to examine. */
  ghost predicate Examining(s: State, m: Id) {
    && m in s.modules && m in s.h.declared && m in s.h.active
    && m in s.h.pending && 0 < s.h.pending[m] <= |s.h.declared[m]|
  }

  /** The dependency that m's `_resolve` call examines next. */
  ghost function Next(s: State, m: Id): Dependency
    requires Examining(s, m)
  {
    s.h.declared[m][|s.h.declared[m]| - s.h.pending[m]]
  }

  predicate CompleteIn(s: State, d: Id) {
    d in s.modules && s.modules[d].isComplete
  }

  /** When a step can be taken: the tests the code makes before taking it. */
  ghost predicate Enabled(s: State, a: Step) {
    match a
    case Define(id, deps, eb) => id !in s.modules
    case Satisfy(m) =>
      Examining(s, m) && (Next(s, m).Regular? ==> CompleteIn(s, Next(s, m).id) && s.modules[Next(s, m).id].error.None?)
    case Propagate(m) =>
      Examining(s, m) && Next(s, m).Regular? && CompleteIn(s, Next(s, m).id) && s.modules[Next(s, m).id].error.Some?
    case Break(m) =>
      Examining(s, m) && Next(s, m).Regular? && !CompleteIn(s, Next(s, m).id)
      && Reaches(LiveGraph(s.modules), Next(s, m).id, m)
    case Await(m) =>
      Examining(s, m) && Next(s, m).Regular? && !CompleteIn(s, Next(s, m).id)
      && !Reaches(LiveGraph(s.modules), Next(s, m).id, m)
    case Ask(d) => d in s.h.requesting
    case EndResolve(m) => m in s.modules && m in s.h.pending && s.h.pending[m] == 0
    case FailLoad(d) => d in s.known
    case BeginFactory(m) => m in s.modules && !s.modules[m].isComplete && s.modules[m].count == 0
    case EndFactory(m, throws) => m in s.modules && m in s.h.completing
    case DrainOne(x) => x in s.modules && x in s.h.draining
    case Restore(active) =>
      forall x :: x in s.h.active && x !in active && x in s.modules ==> s.modules[x].isComplete || s.modules[x].count != 0
  }

  ghost function Apply(s: State, a: Step): State
    requires Enabled(s, a)
  {
    match a
    case Define(id, deps, eb) => Defined(s, id, deps, eb)
    case Satisfy(m) => Satisfied(s, m)
    case Propagate(m) => Propagated(s, m)
    case Break(m) => CycleBroken(s, m)
    case Await(m) => Awaiting(s, m)
    case Ask(d) => Asked(s, d)
    case EndResolve(m) => ResolveEnded(s, m)
    case FailLoad(d) => LoadFailed(s, d)
    case BeginFactory(m) => FactoryBegun(s, m)
    case EndFactory(m, throws) => FactoryEnded(s, m, throws)
    case DrainOne(x) => Drained(s, x)
    case Restore(active) => s.(h := s.h.(active := active))
  }

  /** `defineModule` stores a new module and `_resolve` starts on it. */
  ghost function Defined(s: State, id: Id, deps: seq<Dependency>, eb: bool): State {
    s.(modules := s.modules[id := Module(Some(deps), |deps|, false, None, false, eb)],
       h := s.h.(declared := s.h.declared[id := deps],
                 pending := s.h.pending[id := |deps|],
                 active := s.h.active + {id}))
  }

  function Decremented(m: Module): Module {
    m.(count := m.count - 1)
  }

  /** One dependency of m has been examined. */
  ghost function OneExamined(s: State, m: Id): map<Id, nat>
    requires Examining(s, m)
  {
    s.h.pending[m := s.h.pending[m] - 1]
  }

  /** `_resolve` examines a dependency that needs no waiting. */
  ghost function Satisfied(s: State, m: Id): State
    requires Examining(s, m)
  {
    var exports := s.modules[m].exportsPassedIn || Next(s, m).Exports?;
    s.(modules := s.modules[m := Decremented(s.modules[m]).(exportsPassedIn := exports)],
       h := s.h.(pending := OneExamined(s, m)))
  }

  /** `_resolve` gives up the next dependency of m because it closes a cycle. */
  ghost function CycleBroken(s: State, m: Id): State
    requires Examining(s, m) && Next(s, m).Regular?
  {
    s.(modules := s.modules[m := Decremented(s.modules[m])],
       hasCycle := true,
       h := s.h.(pending := OneExamined(s, m), broken := s.h.broken + {(m, Next(s, m).id)}))
  }

  /** Lifts m, and all that can reach m, above d. */
  ghost function Raised(s: State, m: Id, d: Id, x: Id): nat {
    if x == m || Reaches(LiveGraph(s.modules), x, m) then s.h.rank(x) + s.h.rank(d) + 1 else s.h.rank(x)
  }

  ghost function RaisedRank(s: State, m: Id, d: Id): Id -> nat {
    (x: Id) => Raised(s, m, d, x)
  }

  /** `_resolve` records m as waiting for its next dependency. */
  ghost function Awaiting(s: State, m: Id): State
    requires Examining(s, m) && Next(s, m).Regular?
  {
    var d := Next(s, m).id;
    s.(inverse := s.inverse[d := List(s.inverse, d) + [m]],
       h := s.h.(pending := OneExamined(s, m),
                 requesting := s.h.requesting + {d},
                 rank := RaisedRank(s, m, d),
                 keys := if d in s.h.keys then s.h.keys else s.h.keys + [d]))
  }

  /** `_loadModule` asks for d unless it is defined or was asked for before. */
  ghost function Asked(s: State, d: Id): State {
    s.(known := if d in s.modules then s.known else s.known + {d},
       h := s.h.(requesting := s.h.requesting - {d}))
  }

  ghost function ResolveEnded(s: State, m: Id): State {
    s.(h := s.h.(pending := s.h.pending - {m}))
  }

  /** `onDependencyError` on every module of `failed`. */
  function MarkFailed(modules: map<Id, Module>, failed: set<Id>, err: Error): map<Id, Module> {
    map m | m in modules :: if m in failed then modules[m].(isComplete := true, error := Some(err)) else modules[m]
  }

  ghost function Fail(s: State, failed: set<Id>, err: Error): State {
    s.(modules := MarkFailed(s.modules, failed, err))
  }

  /** m fails with the error of its next dependency, which ends its `_resolve` call. */
  ghost function Propagated(s: State, m: Id): State
    requires Examining(s, m) && Next(s, m).Regular? && Next(s, m).id in s.modules && s.modules[Next(s, m).id].error.Some?
  {
    ResolveEnded(Fail(s, {m}, s.modules[Next(s, m).id].error.value), m)
  }

  /** `_onLoadError` stores an empty module for an id that was never defined. */
  ghost function WithEmpty(s: State, d: Id): State {
    if d in s.modules then s
    else s.(modules := s.modules[d := Module(Some([]), 0, true, Some(Loading(d)), false, false)],
            h := s.h.(declared := s.h.declared[d := []]))
  }

  /** d and everything that waits for it, directly or not. */
  ghost function WaitersOf(s: State, d: Id): set<Id> {
    set m | m in s.modules && (m == d || Reaches(InverseGraph(s.inverse), d, m))
  }

  /** `_onLoadError`: d could not be loaded. */
  ghost function LoadFailed(s: State, d: Id): State {
    Fail(WithEmpty(s, d), WaitersOf(WithEmpty(s, d), d), Loading(d))
  }

  /** `complete` marks m and invokes its factory. */
  ghost function FactoryBegun(s: State, m: Id): State
    requires m in s.modules
  {
    s.(modules := s.modules[m := s.modules[m].(isComplete := true)],
       h := s.h.(log := s.h.log + [m], completing := s.h.completing + {m}))
  }

  /** The factory is done; the inverse list of m is fetched and cleared (`null` is kept as []). */
  ghost function FactoryEnded(s: State, m: Id, throws: bool): State
    requires m in s.modules
  {
    s.(modules := s.modules[m := s.modules[m].(deps := None,
                              error := if throws then Some(Factory(m)) else s.modules[m].error)],
       inverse := s.inverse[m := []],
       h := s.h.(completing := s.h.completing - {m},
                 draining := s.h.draining + multiset(List(s.inverse, m))))
  }

  /** One entry of a list being drained: decrement, then look whether x is ready. */
  ghost function Drained(s: State, x: Id): State
    requires x in s.modules
  {
    s.(modules := s.modules[x := Decremented(s.modules[x])],
       h := s.h.(draining := s.h.draining - multiset{x}, active := s.h.active + {x}))
  }

  // ----- Each step keeps the invariant -----

  lemma WaitingMember(s: State, d: Id, m: Id)
    requires Basics(s) && d in s.inverse && m in s.inverse[d]
    ensures m in Waiting(s) && m in s.modules && m !in s.h.log
  {
    WaitersMember(s.inverse, s.h.keys, d, m);
  }

  /** `Examined` survives a step that changes nothing about the modules it speaks of and resolves more. */
  lemma ExaminedMono(s: State, s': State)
    requires ExaminedOf(s)
    requires forall m ::
      (m in s'.modules && m in s'.h.declared && m !in s'.h.log && s'.modules[m].error.None?
       && |s'.h.declared[m]| > Pending(s'.h.pending, m)) ==>
      (m in s.modules && m in s.h.declared && m !in s.h.log && s.modules[m].error.None?
       && s'.h.declared[m] == s.h.declared[m] && Pending(s'.h.pending, m) == Pending(s.h.pending, m))
    requires forall m, d :: Resolved(s.h.log, s.h.broken, s.inverse, m, d) ==> Resolved(s'.h.log, s'.h.broken, s'.inverse, m, d)
    ensures ExaminedOf(s')
  {
  }

  // A module is added.

  lemma DeclareKeeps(s: State, id: Id, deps: seq<Dependency>)
    requires Inv(s) && id !in s.modules
    ensures Edges(s.inverse, s.h.declared[id := deps], s.h.rank, s.h.log, s.h.completing)
    ensures Ordered(s.h.declared[id := deps], s.h.log, s.h.broken)
    ensures CycleEdges(s.hasCycle, s.h.declared[id := deps], s.h.broken)
  {
    EdgesDeclare(s.inverse, s.h.declared, s.h.rank, s.h.log, s.h.completing, id, deps);
    OrderedDeclare(s.h.declared, s.h.log, s.h.broken, id, deps);
    CycleEdgesDeclare(s.hasCycle, s.h.declared, s.h.broken, id, deps);
  }

  lemma EdgesDeclare(inverse: map<Id, seq<Id>>, declared: map<Id, seq<Dependency>>, rank: Id -> nat,
                     log: seq<Id>, completing: set<Id>, id: Id, deps: seq<Dependency>)
    requires Edges(inverse, declared, rank, log, completing) && id !in declared
    ensures Edges(inverse, declared[id := deps], rank, log, completing)
  {
  }

  lemma OrderedDeclare(declared: map<Id, seq<Dependency>>, log: seq<Id>, broken: set<(Id, Id)>, id: Id, deps: seq<Dependency>)
    requires Ordered(declared, log, broken) && id !in declared && forall m :: m in log ==> m in declared
    ensures Ordered(declared[id := deps], log, broken)
  {
  }

  lemma CycleEdgesDeclare(hasCycle: bool, declared: map<Id, seq<Dependency>>, broken: set<(Id, Id)>, id: Id, deps: seq<Dependency>)
    requires CycleEdges(hasCycle, declared, broken) && id !in declared
    ensures CycleEdges(hasCycle, declared[id := deps], broken)
  {
  }

  lemma DefineBasics(s: State, id: Id, deps: seq<Dependency>, eb: bool)
    requires Basics(s) && id !in s.modules
    ensures Basics(Defined(s, id, deps, eb))
  {
    assert Waiting(Defined(s, id, deps, eb)) == Waiting(s);
    assert id !in Waiting(s);
  }

  lemma DefineKeeps(s: State, id: Id, deps: seq<Dependency>, eb: bool)
    requires Inv(s) && id !in s.modules
    ensures Inv(Defined(s, id, deps, eb))
  {
    DefineBasics(s, id, deps, eb);
    DeclareKeeps(s, id, deps);
    ExaminedMono(s, Defined(s, id, deps, eb));
  }

  lemma WithEmptyBasics(s: State, d: Id)
    requires Basics(s) && d !in s.modules
    ensures Basics(WithEmpty(s, d))
  {
    assert Waiting(WithEmpty(s, d)) == Waiting(s);
    assert d !in Waiting(s);
  }

  lemma WithEmptyKeeps(s: State, d: Id)
    requires Inv(s)
    ensures Inv(WithEmpty(s, d))
  {
    if d !in s.modules {
      WithEmptyBasics(s, d);
      DeclareKeeps(s, d, []);
      ExaminedMono(s, WithEmpty(s, d));
    }
  }

  // A dependency is examined.

  /** A module whose dependencies are still being examined has not run. */
  lemma ExaminingNotRun(s: State, m: Id)
    requires Basics(s) && Examining(s, m)
    ensures m !in s.h.log && s.modules[m].deps == Some(s.h.declared[m])
  {
  }

  lemma ExaminedStep(s: State, s': State, m: Id)
    requires ExaminedOf(s) && Examining(s, m)
    requires s'.modules.Keys == s.modules.Keys && s'.h.declared == s.h.declared && s'.h.log == s.h.log
    requires forall x :: x in s.modules ==> s'.modules[x].error == s.modules[x].error
    requires s'.h.pending == OneExamined(s, m)
    requires forall m, d :: Resolved(s.h.log, s.h.broken, s.inverse, m, d) ==> Resolved(s'.h.log, s'.h.broken, s'.inverse, m, d)
    requires Next(s, m).Regular? ==> Resolved(s'.h.log, s'.h.broken, s'.inverse, m, Next(s, m).id)
    ensures ExaminedOf(s')
  {
  }

  lemma SatisfyBasics(s: State, m: Id)
    requires Basics(s) && Examining(s, m)
    ensures Basics(Satisfied(s, m))
  {
    assert Waiting(Satisfied(s, m)) == Waiting(s);
    ExaminingNotRun(s, m);
  }

  lemma BreakBasics(s: State, m: Id)
    requires Basics(s) && Examining(s, m) && Next(s, m).Regular?
    ensures Basics(CycleBroken(s, m))
  {
    assert Waiting(CycleBroken(s, m)) == Waiting(s);
    ExaminingNotRun(s, m);
  }

  lemma SatisfyKeeps(s: State, m: Id)
    requires Inv(s) && Enabled(s, Satisfy(m))
    ensures Inv(Satisfied(s, m))
  {
    SatisfyBasics(s, m);
    ExaminedStep(s, Satisfied(s, m), m);
  }

  lemma BreakCycleEdges(s: State, m: Id)
    requires Inv(s) && Enabled(s, Break(m))
    ensures CycleEdges(true, s.h.declared, s.h.broken + {(m, Next(s, m).id)})
  {
    var d := Next(s, m).id;
    assert Subgraph(LiveGraph(s.modules), DeclaredGraph(s.h.declared));
    SubgraphReaches(LiveGraph(s.modules), DeclaredGraph(s.h.declared), d, m);
    assert (m, d) in s.h.broken + {(m, d)};
  }

  lemma BreakKeeps(s: State, m: Id)
    requires Inv(s) && Enabled(s, Break(m))
    ensures Inv(CycleBroken(s, m))
  {
    BreakBasics(s, m);
    BreakCycleEdges(s, m);
    ExaminedStep(s, CycleBroken(s, m), m);
  }

  /** Waiting edges are live dependency edges. */
  lemma WaitIsLive(s: State, d: Id, m: Id)
    requires Basics(s) && EdgesOf(s) && d in s.inverse && m in s.inverse[d]
    ensures Edge(LiveGraph(s.modules), m, d)
  {
    WaitingMember(s, d, m);
    var deps := s.h.declared[m];
    var i :| 0 <= i < |deps| && deps[i] == Regular(d);
    assert deps[i].Target() == d;
  }

  /** The heart of cycle breaking: an edge added when no live path leads back keeps waiting acyclic. */
  lemma RaisedRankFits(s: State, m: Id, d: Id)
    requires Basics(s) && EdgesOf(s) && !Reaches(LiveGraph(s.modules), d, m)
    ensures d != m ==> RaisedRank(s, m, d)(m) > RaisedRank(s, m, d)(d)
    ensures forall y, x :: y in s.inverse && x in s.inverse[y] ==> RaisedRank(s, m, d)(x) > RaisedRank(s, m, d)(y)
  {
    var g := LiveGraph(s.modules);
    forall y, x | y in s.inverse && x in s.inverse[y]
      ensures RaisedRank(s, m, d)(x) > RaisedRank(s, m, d)(y)
    {
      WaitIsLive(s, y, x);
      if y == m {
        EdgeReaches(g, x, m);
      } else if Reaches(g, y, m) {
        StepReaches(g, x, y, m);
      }
    }
  }

  /** A module that depends on itself has a live path to itself. */
  lemma SelfDependency(s: State, m: Id)
    requires Basics(s) && Enabled(s, Await(m))
    ensures Next(s, m).id != m
  {
    if Next(s, m).id == m {
      ExaminingNotRun(s, m);
      var deps := s.h.declared[m];
      assert deps[|deps| - s.h.pending[m]].Target() == m;
      EdgeReaches(LiveGraph(s.modules), m, m);
    }
  }

  /** Appending x to the list of d. */
  lemma WaitersPush(inverse: map<Id, seq<Id>>, keys: seq<Id>, d: Id, x: Id)
    requires Sequences.Distinct(keys) && (d !in keys ==> List(inverse, d) == [])
    ensures var keys' := if d in keys then keys else keys + [d];
      Waiters(inverse[d := List(inverse, d) + [x]], keys') == Waiters(inverse, keys) + multiset{x}
  {
    var l := List(inverse, d) + [x];
    if d in keys {
      WaitersUpdate(inverse, keys, d, l);
      assert multiset(l) == multiset(List(inverse, d)) + multiset{x};
      Cancel(Waiters(inverse[d := l], keys), Waiters(inverse, keys), multiset(List(inverse, d)), multiset{x});
    } else {
      WaitersSame(inverse, keys, d, l);
      assert (keys + [d])[..|keys|] == keys;
    }
  }

  lemma Cancel(w': multiset<Id>, w: multiset<Id>, a: multiset<Id>, x: multiset<Id>)
    requires w' + a == w + (a + x)
    ensures w' == w + x
  {
    forall e ensures w'[e] == (w + x)[e] {
      assert (w' + a)[e] == (w + (a + x))[e];
    }
  }

  /** Moving the list of m out. */
  lemma WaitersClear(inverse: map<Id, seq<Id>>, keys: seq<Id>, m: Id)
    requires Sequences.Distinct(keys) && (m !in keys ==> List(inverse, m) == [])
    ensures Waiters(inverse[m := []], keys) + multiset(List(inverse, m)) == Waiters(inverse, keys)
  {
    if m in keys {
      WaitersUpdate(inverse, keys, m, []);
    } else {
      WaitersSame(inverse, keys, m, []);
    }
  }

  lemma AwaitWaiting(s: State, m: Id)
    requires Shape(s.modules, s.h.declared, s.h.pending, s.inverse, s.h.keys) && Examining(s, m) && Next(s, m).Regular?
    ensures Waiting(Awaiting(s, m)) == Waiting(s) + multiset{m}
  {
    WaitersPush(s.inverse, s.h.keys, Next(s, m).id, m);
    Swap(Waiters(s.inverse, s.h.keys), multiset{m}, s.h.draining);
  }

  lemma AwaitBasics(s: State, m: Id)
    requires Basics(s) && Examining(s, m) && Next(s, m).Regular?
    ensures Basics(Awaiting(s, m))
  {
    AwaitWaiting(s, m);
    AwaitShape(s.modules, s.h.declared, s.h.pending, s.inverse, s.h.keys, Next(s, m).id, m, OneExamined(s, m));
    AwaitCounters(s.modules, s.h.log, s.h.pending, Waiting(s), m);
    ExaminingNotRun(s, m);
  }

  lemma AwaitShape(modules: map<Id, Module>, declared: map<Id, seq<Dependency>>, pending: map<Id, nat>,
                   inverse: map<Id, seq<Id>>, keys: seq<Id>, d: Id, m: Id, pending': map<Id, nat>)
    requires Shape(modules, declared, pending, inverse, keys)
    requires m in pending && pending[m] > 0 && pending' == pending[m := pending[m] - 1]
    ensures Shape(modules, declared, pending', inverse[d := List(inverse, d) + [m]], if d in keys then keys else keys + [d])
  {
  }

  /** One dependency fewer to examine, one entry more to wait for. */
  lemma AwaitCounters(modules: map<Id, Module>, log: seq<Id>, pending: map<Id, nat>, waiting: multiset<Id>, m: Id)
    requires Counters(modules, log, pending, waiting) && m in modules && m in pending && pending[m] > 0 && m !in log
    ensures Counters(modules, log, pending[m := pending[m] - 1], waiting + multiset{m})
  {
  }

  lemma EdgesPush(inverse: map<Id, seq<Id>>, declared: map<Id, seq<Dependency>>, rank: Id -> nat, rank': Id -> nat,
                  log: seq<Id>, completing: set<Id>, m: Id, d: Id)
    requires Edges(inverse, declared, rank, log, completing)
    requires forall y, x :: y in inverse && x in inverse[y] ==> rank'(x) > rank'(y)
    requires m in declared && Regular(d) in declared[m] && rank'(m) > rank'(d) && d !in log
    ensures Edges(inverse[d := List(inverse, d) + [m]], declared, rank', log, completing)
  {
  }

  lemma ListPush(inverse: map<Id, seq<Id>>, d: Id, m: Id, y: Id)
    ensures forall x :: x in List(inverse, y) ==> x in List(inverse[d := List(inverse, d) + [m]], y)
    ensures y == d ==> m in List(inverse[d := List(inverse, d) + [m]], y)
  {
  }

  lemma AwaitExamined(s: State, m: Id)
    requires ExaminedOf(s) && Examining(s, m) && Next(s, m).Regular?
    ensures ExaminedOf(Awaiting(s, m))
  {
  }

  lemma AwaitKeeps(s: State, m: Id)
    requires Inv(s) && Enabled(s, Await(m))
    ensures Inv(Awaiting(s, m))
  {
    var d := Next(s, m).id;
    AwaitBasics(s, m);
    RaisedRankFits(s, m, d);
    SelfDependency(s, m);
    EdgesPush(s.inverse, s.h.declared, s.h.rank, RaisedRank(s, m, d), s.h.log, s.h.completing, m, d);
    AwaitExamined(s, m);
  }

  lemma AskKeeps(s: State, d: Id)
    requires Inv(s)
    ensures Inv(Asked(s, d))
  {
  }

  lemma EndResolveBasics(s: State, m: Id)
    requires Basics(s) && m in s.modules && m in s.h.pending
    requires s.h.pending[m] == 0 || (s.modules[m].error.Some? && m !in s.h.log)
    ensures Basics(ResolveEnded(s, m))
  {
    assert Waiting(ResolveEnded(s, m)) == Waiting(s);
  }

  lemma EndResolveKeeps(s: State, m: Id)
    requires Inv(s) && m in s.modules && m in s.h.pending
    requires s.h.pending[m] == 0 || (s.modules[m].error.Some? && m !in s.h.log)
    ensures Inv(ResolveEnded(s, m))
  {
    EndResolveBasics(s, m);
    ExaminedMono(s, ResolveEnded(s, m));
  }

  // Modules fail.

  lemma FailBasics(s: State, failed: set<Id>, err: Error)
    requires Basics(s)
    ensures Basics(Fail(s, failed, err))
  {
    assert Waiting(Fail(s, failed, err)) == Waiting(s);
  }

  lemma FailKeeps(s: State, failed: set<Id>, err: Error)
    requires Inv(s)
    ensures Inv(Fail(s, failed, err))
  {
    FailBasics(s, failed, err);
    ExaminedMono(s, Fail(s, failed, err));
  }

  lemma PropagateKeeps(s: State, m: Id)
    requires Inv(s) && Enabled(s, Propagate(m))
    ensures Inv(Propagated(s, m))
  {
    var err := s.modules[Next(s, m).id].error.value;
    FailKeeps(s, {m}, err);
    ExaminingNotRun(s, m);
    EndResolveKeeps(Fail(s, {m}, err), m);
  }

  lemma FailLoadKeeps(s: State, d: Id)
    requires Inv(s)
    ensures Inv(LoadFailed(s, d))
  {
    WithEmptyKeeps(s, d);
    FailKeeps(WithEmpty(s, d), WaitersOf(WithEmpty(s, d), d), Loading(d));
  }

  // A module completes.

  lemma ReadyNotWaiting(s: State, m: Id)
    requires Basics(s) && Enabled(s, BeginFactory(m))
    ensures m !in Waiting(s) && Pending(s.h.pending, m) == 0 && m !in s.h.log && m in s.h.declared
  {
  }

  /** A module at zero has had each dependency invoked or given up. */
  lemma AllResolved(s: State, m: Id)
    requires Basics(s) && ExaminedOf(s) && Enabled(s, BeginFactory(m))
    ensures m in s.h.declared
    ensures forall d :: Regular(d) in s.h.declared[m] ==> d in s.h.log || (m, d) in s.h.broken
  {
    ReadyNotWaiting(s, m);
    var ds := s.h.declared[m];
    forall d | Regular(d) in ds ensures d in s.h.log || (m, d) in s.h.broken {
      var i :| 0 <= i < |ds| && ds[i] == Regular(d);
      assert ExaminedUpTo(ds, |ds| - Pending(s.h.pending, m), s.h.log, s.h.broken, s.inverse, m);
      assert Resolved(s.h.log, s.h.broken, s.inverse, m, ds[i].id);
      if m in List(s.inverse, d) {
        WaitingMember(s, d, m);
      }
    }
  }

  lemma OrderedAppend(declared: map<Id, seq<Dependency>>, log: seq<Id>, broken: set<(Id, Id)>, m: Id)
    requires Ordered(declared, log, broken) && m in declared
    requires forall d :: Regular(d) in declared[m] ==> d in log || (m, d) in broken
    ensures Ordered(declared, log + [m], broken)
  {
    var log' := log + [m];
    forall k | 0 <= k < |log'| && log'[k] in declared
      ensures forall d :: Regular(d) in declared[log'[k]] ==> d in log'[..k] || (log'[k], d) in broken
    {
      assert log'[..k] == if k < |log| then log[..k] else log;
    }
  }

  lemma EdgesRun(inverse: map<Id, seq<Id>>, declared: map<Id, seq<Dependency>>, rank: Id -> nat,
                 log: seq<Id>, completing: set<Id>, m: Id)
    requires Edges(inverse, declared, rank, log, completing)
    ensures Edges(inverse, declared, rank, log + [m], completing + {m})
  {
  }

  lemma BeginFactoryBasics(s: State, m: Id)
    requires Basics(s) && Enabled(s, BeginFactory(m))
    ensures Basics(FactoryBegun(s, m))
  {
    ReadyNotWaiting(s, m);
    assert Waiting(FactoryBegun(s, m)) == Waiting(s);
  }

  lemma BeginFactoryKeeps(s: State, m: Id)
    requires Inv(s) && Enabled(s, BeginFactory(m))
    ensures Inv(FactoryBegun(s, m))
  {
    BeginFactoryBasics(s, m);
    AllResolved(s, m);
    OrderedAppend(s.h.declared, s.h.log, s.h.broken, m);
    EdgesRun(s.inverse, s.h.declared, s.h.rank, s.h.log, s.h.completing, m);
    ExaminedMono(s, FactoryBegun(s, m));
  }

  lemma EndFactoryWaiting(s: State, m: Id, throws: bool)
    requires Shape(s.modules, s.h.declared, s.h.pending, s.inverse, s.h.keys) && m in s.modules
    ensures Waiting(FactoryEnded(s, m, throws)) == Waiting(s)
  {
    WaitersClear(s.inverse, s.h.keys, m);
  }

  lemma EndFactoryBasics(s: State, m: Id, throws: bool)
    requires Basics(s) && m in s.modules && m in s.h.log
    ensures Basics(FactoryEnded(s, m, throws))
  {
    EndFactoryWaiting(s, m, throws);
  }

  lemma EdgesClear(inverse: map<Id, seq<Id>>, declared: map<Id, seq<Dependency>>, rank: Id -> nat,
                   log: seq<Id>, completing: set<Id>, m: Id)
    requires Edges(inverse, declared, rank, log, completing)
    ensures Edges(inverse[m := []], declared, rank, log, completing - {m})
  {
  }

  lemma EndFactoryKeeps(s: State, m: Id, throws: bool)
    requires Inv(s) && m in s.modules && m in s.h.log
    ensures Inv(FactoryEnded(s, m, throws))
  {
    EndFactoryBasics(s, m, throws);
    EdgesClear(s.inverse, s.h.declared, s.h.rank, s.h.log, s.h.completing, m);
    ExaminedMono(s, FactoryEnded(s, m, throws));
  }

  lemma DrainBasics(s: State, x: Id)
    requires Basics(s) && x in s.h.draining
    ensures x in s.modules && x !in s.h.log && Basics(Drained(s, x))
  {
    assert x in Waiting(s);
    assert Waiting(Drained(s, x)) == Waiting(s) - multiset{x};
  }

  lemma DrainKeeps(s: State, x: Id)
    requires Inv(s) && x in s.h.draining
    ensures x in s.modules && x !in s.h.log && Inv(Drained(s, x))
  {
    DrainBasics(s, x);
    ExaminedMono(s, Drained(s, x));
  }

  lemma RestoreKeeps(s: State, active: set<Id>)
    requires Inv(s) && Enabled(s, Restore(active))
    ensures Inv(Apply(s, Restore(active)))
  {
  }

  /** Every step keeps the invariant. */
  lemma StepKeeps(s: State, a: Step)
    requires Inv(s) && Enabled(s, a)
    ensures Inv(Apply(s, a))
  {
    match a
    case Define(id, deps, eb) => DefineKeeps(s, id, deps, eb);
    case Satisfy(m) => SatisfyKeeps(s, m);
    case Propagate(m) => PropagateKeeps(s, m);
    case Break(m) => BreakKeeps(s, m);
    case Await(m) => AwaitKeeps(s, m);
    case Ask(d) => AskKeeps(s, d);
    case EndResolve(m) => EndResolveKeeps(s, m);
    case FailLoad(d) => FailLoadKeeps(s, d);
    case BeginFactory(m) => BeginFactoryKeeps(s, m);
    case EndFactory(m, throws) => EndFactoryKeeps(s, m, throws);
    case DrainOne(x) => DrainKeeps(s, x);
    case Restore(active) => RestoreKeeps(s, active);
  }

  function Initial(): State {
    State(map[], {}, map[], false, History(map[], [], {}, map[], multiset{}, {}, {}, {}, (x: Id) => 0, []))
  }

  lemma InitialInv()
    ensures Inv(Initial())
  {
  }
}
