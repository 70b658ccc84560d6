/** Runs of the stream writer, what every run guarantees, and the class whose methods are its steps. */
module StreamWriting {
  import opened Wrappers
  import opened StreamState
  import opened StreamTraces

  ghost predicate Moves(s: State, t: State) {
    exists a :: Enabled(s, a) && t == Apply(s, a)
  }

  ghost predicate IsRun(r: seq<State>) {
    |r| > 0 && forall i :: 0 < i < |r| ==> Moves(r[i - 1], r[i])
  }

  ghost predicate Leads(s: State, t: State) {
    exists r :: IsRun(r) && r[0] == s && r[|r| - 1] == t
  }

  ghost predicate Reachable(s: State) {
    Leads(Initial(), s)
  }

  lemma Stay(s: State)
    ensures Leads(s, s)
  {
    assert IsRun([s]);
  }

  lemma LeadsStep(s: State, t: State, a: Step)
    requires Leads(s, t) && Enabled(t, a)
    ensures Leads(s, Apply(t, a))
  {
    var u := Apply(t, a);
    var r :| IsRun(r) && r[0] == s && r[|r| - 1] == t;
    assert Moves(t, u);
    var w := r + [u];
    forall i | 0 < i < |w| ensures Moves(w[i - 1], w[i]) {
      if i < |r| {
        assert w[i - 1] == r[i - 1] && w[i] == r[i];
      }
    }
    assert w[|w| - 1] == u;
  }

  lemma StepOf(s: State, t: State) returns (a: Step)
    requires Moves(s, t)
    ensures Enabled(s, a) && t == Apply(s, a)
  {
    a :| Enabled(s, a) && t == Apply(s, a);
  }

  lemma {:induction false} RunKeeps(r: seq<State>)
    requires IsRun(r) && Inv(r[0])
    ensures Inv(r[|r| - 1])
  {
    if |r| > 1 {
      RunKeeps(r[..|r| - 1]);
      var n := |r| - 1;
      var a := StepOf(r[n - 1], r[n]);
      StepKeeps(r[n - 1], a);
    }
  }

  lemma ReachableInv(s: State)
    requires Reachable(s)
    ensures Inv(s)
  {
    var r :| IsRun(r) && r[0] == Initial() && r[|r| - 1] == s;
    RunKeeps(r);
  }

  lemma {:induction false} TraceReachable(trace: Trace)
    requires Legal(trace)
    ensures Reachable(After(trace))
  {
    if trace == [] {
      Stay(Initial());
    } else {
      TraceReachable(trace[..|trace| - 1]);
      LeadsStep(Initial(), After(trace[..|trace| - 1]), trace[|trace| - 1]);
    }
  }

  // ----- What every interleaving guarantees -----

  ghost predicate Known(s: State, id: StreamId) {
    id in s.halves && s.halves[id] in s.pipes && s.halves[id] in s.place && id in s.accepted
  }

  ghost function PipeOf(s: State, id: StreamId): Pipe
    requires Known(s, id)
  {
    s.pipes[s.halves[id]]
  }

  /** First in, first out, and exactly when lossless: the bytes delivered, then the items a loop has
      taken, then the queue, are all buffers accepted if and only if no byte was dropped on an error.
      Every byte accepted is in one of the four places. */
  lemma FifoLossless(s: State, id: StreamId)
    requires Reachable(s) && id in s.halves
    ensures Known(s, id)
    ensures PipeOf(s, id).delivered + (Flat(InFlight(s, id)) + Flat(Queued(s, id))) == Flat(s.accepted[id])
      <==> PipeOf(s, id).dropped == 0
    ensures |PipeOf(s, id).delivered| + |Flat(InFlight(s, id))| + |Flat(Queued(s, id))| + PipeOf(s, id).dropped
      == |Flat(s.accepted[id])|
    ensures !PipeOf(s, id).failed ==> PipeOf(s, id).dropped == 0
  {
    ReachableInv(s);
    assert Delivery(s, id);
  }

  ghost predicate BeingShutDown(s: State, id: StreamId)
    requires id in s.halves
  {
    exists t :: t in s.tasks && s.tasks[t] == ShuttingDown(id, s.halves[id])
  }

  /** A half is shut down at most once, and when it is, everything accepted was delivered if and only
      if no byte was dropped. */
  lemma ShutdownAfterDelivery(s: State, id: StreamId)
    requires Reachable(s) && id in s.halves
    ensures Known(s, id) && PipeOf(s, id).shutdowns <= 1
    ensures PipeOf(s, id).shutdowns == 1 || BeingShutDown(s, id) ==>
      (PipeOf(s, id).delivered == Flat(s.accepted[id]) <==> PipeOf(s, id).dropped == 0)
  {
    ReachableInv(s);
    assert PlaceFits(s, id) && Delivery(s, id);
    var p := PipeOf(s, id);
    assert p.delivered + ([] + []) == p.delivered;
  }

  /** From what was called to what comes out: a live stream has a record with its half or a loop, its half is
      not shut down nor about to be, and the bytes delivered, taken and queued are those written to it, if and
      only if none was dropped; none is unless a write fails. */
  lemma LiveDelivers(trace: Trace, id: StreamId)
    requires Legal(trace) && UseOf(trace, id).Live?
    ensures var s, written := After(trace), UseOf(trace, id).written;
      && Known(s, id) && id in s.recs && !s.recs[id].ended
      && PipeOf(s, id).shutdowns == 0 && !BeingShutDown(s, id)
      && PipeOf(s, id).delivered <= Flat(written)
      && (PipeOf(s, id).delivered + (Flat(InFlight(s, id)) + Flat(Queued(s, id))) == Flat(written) <==> PipeOf(s, id).dropped == 0)
      && (!Broke(trace, id) ==> PipeOf(s, id).dropped == 0)
  {
    TraceReachable(trace);
    TraceTreats(trace, id);
    TraceBreaks(trace, id);
    FifoLossless(After(trace), id);
    BrokenKeepsPrefix(After(trace), id);
  }

  /** Only a removed stream is closed, and then, unless a write failed, all that was written before it was
      removed has been delivered. */
  lemma OnlyRemovedCloses(trace: Trace, id: StreamId)
    requires Legal(trace) && id in After(trace).halves
    ensures var s := After(trace);
      Known(s, id) && (PipeOf(s, id).shutdowns == 1 || BeingShutDown(s, id) <==> id !in s.recs)
      && (id !in s.recs ==>
            UseOf(trace, id).Gone? && (!Broke(trace, id) ==> Flat(UseOf(trace, id).written) <= PipeOf(s, id).delivered))
  {
    var s := After(trace);
    TraceReachable(trace);
    TraceTreats(trace, id);
    TraceBreaks(trace, id);
    TraceInv(trace);
    FifoLossless(s, id);
    ShutdownAfterDelivery(s, id);
    assert PlaceFits(s, id);
    if id !in s.recs {
      FlatPrefix(UseOf(trace, id).written, s.accepted[id]);
    }
  }

  lemma {:induction false} FlatPrefix(a: seq<Buffer>, b: seq<Buffer>)
    requires a <= b
    ensures Flat(a) <= Flat(b)
    decreases |a|
  {
    if a != [] {
      FlatPrefix(a[1..], b[1..]);
    }
  }

  /** Errors or not, what got through is a prefix of what was accepted. */
  lemma BrokenKeepsPrefix(s: State, id: StreamId)
    requires Reachable(s) && id in s.halves
    ensures Known(s, id) && PipeOf(s, id).delivered <= Flat(s.accepted[id])
  {
    ReachableInv(s);
    assert Delivery(s, id);
  }

  /** The pipe of a stream has broken, with this much delivered. */
  ghost predicate BrokenAt(s: State, id: StreamId, delivered: seq<byte>) {
    id in s.halves && s.halves[id] in s.pipes && s.pipes[s.halves[id]].failed && s.pipes[s.halves[id]].delivered == delivered
  }

  lemma {:induction false} RunStaysBroken(r: seq<State>, id: StreamId, delivered: seq<byte>)
    requires IsRun(r) && BrokenAt(r[0], id, delivered)
    ensures BrokenAt(r[|r| - 1], id, delivered)
  {
    if |r| > 1 {
      RunStaysBroken(r[..|r| - 1], id, delivered);
      var a := StepOf(r[|r| - 2], r[|r| - 1]);
      StepStaysBroken(r[|r| - 2], a, id, delivered);
    }
  }

  lemma StepStaysBroken(s: State, a: Step, id: StreamId, delivered: seq<byte>)
    requires BrokenAt(s, id, delivered) && Enabled(s, a)
    ensures BrokenAt(Apply(s, a), id, delivered)
  {
    if a.LoopWrite? {
      assert delivered + [] == delivered;
    }
  }

  /** Once a write has failed, nothing more is delivered in any continuation. */
  lemma NothingAfterBreak(s: State, t: State, id: StreamId)
    requires Reachable(s) && Leads(s, t) && id in s.halves && Known(s, id) && PipeOf(s, id).failed
    ensures BrokenAt(t, id, PipeOf(s, id).delivered)
  {
    var r :| IsRun(r) && r[0] == s && r[|r| - 1] == t;
    RunStaysBroken(r, id, PipeOf(s, id).delivered);
  }

  /** The tasks that hold a half. */
  ghost function HoldingTasks(s: State, w: Half): set<TaskId> {
    set t | t in s.tasks && s.tasks[t].w == w
  }

  /** Each half has exactly one holder, counting its shutdown as the last one. */
  lemma SingleOwner(s: State, id: StreamId)
    requires Reachable(s) && id in s.halves
    ensures Known(s, id)
    ensures (if id in s.recs && s.recs[id].write == Some(s.halves[id]) then 1 else 0)
      + |HoldingTasks(s, s.halves[id])| + PipeOf(s, id).shutdowns == 1
  {
    ReachableInv(s);
    assert PlaceFits(s, id);
    var w := s.halves[id];
    var holders := HoldingTasks(s, w);
    forall t {:trigger t in holders} ensures t in holders <==> s.place[w] == InTask(t) {
      if t in holders {
        assert s.place[s.tasks[t].w] == InTask(t);
      }
    }
    if s.place[w].InTask? {
      assert holders == {s.place[w].task};
    } else {
      assert holders == {};
    }
  }

  /** A record with its half has nothing queued; one with something queued has a loop at work. A running
      loop finds its record, so the `None` arm is dead. */
  lemma QueueIsServed(s: State, id: StreamId, task: TaskId)
    requires Reachable(s)
    ensures id in s.recs && s.recs[id].write.Some? ==> s.recs[id].q == [] && !s.recs[id].ended
    ensures id in s.recs && s.recs[id].q != [] ==> exists t :: t in s.tasks && s.tasks[t].WriteLoop? && s.tasks[t].id == id
    ensures task in s.tasks && s.tasks[task].WriteLoop? ==> s.tasks[task].id in s.recs
  {
    ReachableInv(s);
    if id in s.recs && s.recs[id].write.None? {
      assert RecordFits(s, s.recs[id], s.halves[id]) && PlaceFits(s, id);
    }
  }

  /** A running loop's next write: all of its item, or none if the pipe has broken. */
  ghost function NextWrite(s: State, task: TaskId): Step
    requires Reachable(s) && task in s.tasks && s.tasks[task].WriteLoop? && s.tasks[task].items != []
    ensures Enabled(s, NextWrite(s, task))
  {
    ReachableInv(s);
    LoopServes(s, task);
    var item := s.tasks[task].items[0];
    if s.pipes[s.tasks[task].w].failed then LoopWrite(task, 0, item == []) else LoopWrite(task, |item|, true)
  }

  /** From s, the loop of a stream has come to t, with its items and its queue used up and no byte
      dropped unless the pipe had broken before. */
  ghost predicate Drained(s0: State, s: State, t: State, task: TaskId, id: StreamId) {
    && Leads(s0, t) && Reachable(t) && t.accepted == s.accepted && t.halves == s.halves
    && task in t.tasks && t.tasks[task].WriteLoop? && t.tasks[task].id == id && t.tasks[task].items == []
    && Known(t, id) && id in t.recs && id in s.recs && t.recs[id].q == [] && t.recs[id].ended == s.recs[id].ended
    && (Known(s, id) && !PipeOf(s, id).failed ==> !PipeOf(t, id).failed)
  }

  /** What a running loop has still to do. */
  ghost function Left(s: State, task: TaskId): nat
    requires task in s.tasks && s.tasks[task].WriteLoop?
  {
    |s.tasks[task].items| + 2 * |Queued(s, s.tasks[task].id)|
  }

  /** From s to u, a loop came closer to the end. */
  ghost predicate Advances(s: State, u: State, task: TaskId)
    requires task in s.tasks && s.tasks[task].WriteLoop?
  {
    var id := s.tasks[task].id;
    && u.accepted == s.accepted && u.halves == s.halves
    && task in u.tasks && u.tasks[task].WriteLoop? && u.tasks[task].id == id && Left(u, task) < Left(s, task)
    && id in s.recs && id in u.recs && u.recs[id].ended == s.recs[id].ended
    && Known(s, id) && Known(u, id) && (!PipeOf(s, id).failed ==> !PipeOf(u, id).failed)
  }

  lemma LoopAdvances(s: State, task: TaskId) returns (a: Step)
    requires Reachable(s) && task in s.tasks && s.tasks[task].WriteLoop?
    requires s.tasks[task].items != [] || Queued(s, s.tasks[task].id) != []
    ensures Enabled(s, a) && Advances(s, Apply(s, a), task)
  {
    ReachableInv(s);
    LoopServes(s, task);
    a := if s.tasks[task].items == [] then LoopLock(task) else NextWrite(s, task);
  }

  lemma LoopServed(s: State, task: TaskId)
    requires Reachable(s) && task in s.tasks && s.tasks[task].WriteLoop?
    ensures Known(s, s.tasks[task].id) && s.tasks[task].id in s.recs
  {
    ReachableInv(s);
    LoopServes(s, task);
  }

  /** A running loop can always come to the end of its items and its queue. */
  lemma {:induction false} LoopCanDrain(s0: State, s: State, task: TaskId) returns (t: State)
    requires Reachable(s) && Leads(s0, s) && task in s.tasks && s.tasks[task].WriteLoop?
    ensures Drained(s0, s, t, task, s.tasks[task].id)
    decreases Left(s, task)
  {
    LoopServed(s, task);
    if s.tasks[task].items == [] && Queued(s, s.tasks[task].id) == [] {
      t := s;
    } else {
      var a := LoopAdvances(s, task);
      LeadsStep(s0, s, a);
      LeadsStep(Initial(), s, a);
      t := LoopCanDrain(s0, Apply(s, a), task);
    }
  }

  /** A running loop can always bring an unbroken pipe to everything accepted so far. */
  lemma LoopCanDeliver(s: State, task: TaskId) returns (t: State)
    requires Reachable(s) && task in s.tasks && s.tasks[task].WriteLoop?
    requires Known(s, s.tasks[task].id) && !PipeOf(s, s.tasks[task].id).failed
    ensures Leads(s, t) && t.accepted == s.accepted && t.halves == s.halves
    ensures Known(t, s.tasks[task].id) && !PipeOf(t, s.tasks[task].id).failed
    ensures PipeOf(t, s.tasks[task].id).delivered == Flat(s.accepted[s.tasks[task].id])
  {
    var id := s.tasks[task].id;
    Stay(s);
    t := LoopCanDrain(s, s, task);
    DrainedDelivers(t, task, id);
  }

  lemma DrainedDelivers(t: State, task: TaskId, id: StreamId)
    requires Reachable(t) && task in t.tasks && t.tasks[task].WriteLoop? && t.tasks[task].id == id && t.tasks[task].items == []
    requires Known(t, id) && id in t.recs && t.recs[id].q == [] && !PipeOf(t, id).failed
    ensures PipeOf(t, id).delivered == Flat(t.accepted[id])
  {
    ReachableInv(t);
    LoopServes(t, task);
    FifoLossless(t, id);
    assert PipeOf(t, id).delivered + ([] + []) == PipeOf(t, id).delivered;
  }

  /** The half of an ended stream can always be shut down, broken pipe or not. */
  lemma EndedCanClose(s: State, task: TaskId) returns (t: State)
    requires Reachable(s) && task in s.tasks && s.tasks[task].WriteLoop?
    requires Known(s, s.tasks[task].id) && s.tasks[task].id in s.recs && s.recs[s.tasks[task].id].ended
    ensures Leads(s, t) && t.accepted == s.accepted && t.halves == s.halves
    ensures Known(t, s.tasks[task].id) && PipeOf(t, s.tasks[task].id).shutdowns == 1 && s.tasks[task].id !in t.recs
    ensures !PipeOf(s, s.tasks[task].id).failed ==>
      PipeOf(t, s.tasks[task].id).delivered == Flat(s.accepted[s.tasks[task].id])
  {
    var id := s.tasks[task].id;
    Stay(s);
    var u := LoopCanDrain(s, s, task);
    if !PipeOf(s, id).failed {
      DrainedDelivers(u, task, id);
    }
    t := DrainedCloses(s, u, task, id);
  }

  /** The loop of a stream that has not ended can always give the half back to the record. */
  lemma LoopCanReturn(s: State, task: TaskId) returns (t: State)
    requires Reachable(s) && task in s.tasks && s.tasks[task].WriteLoop?
    requires s.tasks[task].id in s.recs && !s.recs[s.tasks[task].id].ended
    ensures Leads(s, t) && t.accepted == s.accepted && t.halves == s.halves && task !in t.tasks
    ensures s.tasks[task].id in t.recs && t.recs[s.tasks[task].id] == StreamRec(Some(s.tasks[task].w), [], false)
  {
    ReachableInv(s);
    LoopServes(s, task);
    Stay(s);
    var u := LoopCanDrain(s, s, task);
    ReachableInv(u);
    LoopServes(u, task);
    LeadsStep(s, u, LoopLock(task));
    t := Apply(u, LoopLock(task));
  }

  lemma DrainedCloses(s0: State, u: State, task: TaskId, id: StreamId) returns (t: State)
    requires Reachable(u) && Leads(s0, u) && task in u.tasks && u.tasks[task].WriteLoop? && u.tasks[task].id == id
    requires u.tasks[task].items == [] && Known(u, id) && id in u.recs && u.recs[id].q == [] && u.recs[id].ended
    ensures Leads(s0, t) && t.accepted == u.accepted && t.halves == u.halves
    ensures Known(t, id) && PipeOf(t, id).shutdowns == 1 && id !in t.recs && PipeOf(t, id).delivered == PipeOf(u, id).delivered
  {
    ReachableInv(u);
    LoopServes(u, task);
    LeadsStep(s0, u, LoopLock(task));
    var v := Apply(u, LoopLock(task));
    LeadsStep(s0, v, Shutdown(task));
    t := Apply(v, Shutdown(task));
  }

  /** Dropping does happen: a pipe breaks while one buffer is being written and the next is queued, and
      the half is shut down with neither delivered. */
  lemma BreakDropsBuffers() returns (s: State)
    ensures Reachable(s) && Known(s, 0) && PipeOf(s, 0).shutdowns == 1
    ensures s.accepted[0] == [[1], [2]] && PipeOf(s, 0).delivered == [] && PipeOf(s, 0).dropped == 2
  {
    s := FirstDropped();
    s := Take(s, LoopLock(0));
    s := Take(s, LoopWrite(0, 0, false));
    s := Take(s, Remove(0, 1));
    s := Take(s, LoopLock(0));
    s := Take(s, Shutdown(0));
  }

  lemma Take(s: State, a: Step) returns (t: State)
    requires Reachable(s) && Enabled(s, a)
    ensures Reachable(t) && t == Apply(s, a)
  {
    LeadsStep(Initial(), s, a);
    t := Apply(s, a);
  }

  lemma FirstDropped() returns (s: State)
    ensures Reachable(s) && s.halves == map[0 := 0] && s.place == map[0 := InTask(0)] && s.accepted == map[0 := [[1], [2]]]
    ensures s.recs == map[0 := StreamRec(None, [[2]], false)] && s.tasks == map[0 := WriteLoop(0, 0, [])]
    ensures s.pipes == map[0 := Pipe([], 0, true, 1)]
  {
    var u := OneQueued();
    FlatCons([1], []);
    assert [[1]] == [[1]] + [];
    s := Take(u, LoopWrite(0, 0, false));
    assert s.pipes[0] == Pipe([], 0, true, 1);
    assert s.pipes == map[0 := Pipe([], 0, true, 1)];
    assert s.tasks == map[0 := WriteLoop(0, 0, [])];
  }

  lemma OneQueued() returns (s: State)
    ensures Reachable(s) && s.halves == map[0 := 0] && s.place == map[0 := InTask(0)] && s.accepted == map[0 := [[1], [2]]]
    ensures s.recs == map[0 := StreamRec(None, [[2]], false)] && s.tasks == map[0 := WriteLoop(0, 0, [[1]])]
    ensures s.pipes == map[0 := Pipe([], 0, false, 0)]
  {
    var u := OneInFlight();
    s := Take(u, Write(0, [2], 1));
    assert s.accepted[0] == [[1], [2]] && s.recs[0] == StreamRec(None, [[2]], false);
    assert s.recs == map[0 := StreamRec(None, [[2]], false)];
    assert s.accepted == map[0 := [[1], [2]]];
  }

  lemma OneInFlight() returns (s: State)
    ensures Reachable(s) && s.halves == map[0 := 0] && s.place == map[0 := InTask(0)] && s.accepted == map[0 := [[1]]]
    ensures s.recs == map[0 := StreamRec(None, [], false)] && s.tasks == map[0 := WriteLoop(0, 0, [[1]])]
    ensures s.pipes == map[0 := Pipe([], 0, false, 0)]
  {
    Stay(Initial());
    s := Take(Initial(), Insert(0, 0));
    s := Take(s, Write(0, [1], 0));
    assert s.accepted[0] == [[1]];
    assert s.accepted == map[0 := [[1]]] && s.place == map[0 := InTask(0)];
    s := Take(s, LoopLock(0));
    assert s.recs == map[0 := StreamRec(None, [], false)];
    assert s.tasks == map[0 := WriteLoop(0, 0, [[1]])];
  }

  // ----- The code -----

  class Streams {
    var recs: map<StreamId, StreamRec>
    var tasks: map<TaskId, Task>
    var pipes: map<Half, Pipe>
    var nextTask: TaskId
    /** What was called so far. */
    ghost var trace: Trace
    ghost var halves: map<StreamId, Half>
    ghost var place: map<Half, Place>
    ghost var accepted: map<StreamId, seq<Buffer>>

    ghost function View(): State
      reads this
    {
      State(recs, tasks, pipes, halves, place, accepted)
    }

    ghost predicate Valid()
      reads this
    {
      Legal(trace) && View() == After(trace) && forall t :: t in tasks ==> t < nextTask
    }

    constructor ()
      ensures Valid() && View() == Initial() && trace == []
    {
      recs, tasks, pipes, nextTask := map[], map[], map[], 0;
      halves, place, accepted, trace := map[], map[], map[], [];
    }

    ghost method Record(a: Step)
      requires Legal(trace) && Enabled(View(), a) && View() == After(trace)
      modifies this`halves, this`place, this`accepted, this`trace
      ensures trace == old(trace) + [a] && Legal(trace) && After(trace) == Apply(old(View()), a)
      ensures halves == After(trace).halves && place == After(trace).place && accepted == After(trace).accepted
    {
      ghost var s := Apply(View(), a);
      assert (trace + [a])[..|trace|] == trace;
      halves, place, accepted, trace := s.halves, s.place, s.accepted, trace + [a];
    }

    /** A stream with a fresh id. */
    method InsertStream(id: StreamId, w: Half)
      requires Valid() && Enabled(View(), Insert(id, w))
      modifies this
      ensures Valid() && View() == Apply(old(View()), Insert(id, w)) && trace == old(trace) + [Insert(id, w)]
    {
      Record(Insert(id, w));
      recs := recs[id := StreamRec(Some(w), [], false)];
      pipes := pipes[w := Pipe([], 0, false, 0)];
    }

    /** Queues a buffer, and spawns a write loop if the half is idle. */
    method WriteBuffer(id: StreamId, buf: Buffer)
      requires Valid()
      modifies this
      ensures Valid() && View() == Written(old(View()), id, buf, old(nextTask))
      ensures trace == old(trace) + [Write(id, buf, old(nextTask))]
    {
      Record(Write(id, buf, nextTask));
      if id in recs {
        var write := recs[id].write;
        recs := recs[id := recs[id].(write := None, q := recs[id].q + [buf])];
        if write.Some? {
          tasks := tasks[nextTask := WriteLoop(id, write.value, [])];
          nextTask := nextTask + 1;
        }
      }
    }

    /** Ends a stream; the shutdown of an idle half is awaited outside the lock. */
    method RemoveStream(id: StreamId)
      requires Valid()
      modifies this
      ensures Valid() && View() == Removed(old(View()), id, old(nextTask))
      ensures trace == old(trace) + [Remove(id, old(nextTask))]
    {
      Record(Remove(id, nextTask));
      if id in recs {
        var write := recs[id].write;
        if write.Some? {
          recs := recs - {id};
          tasks := tasks[nextTask := ShuttingDown(id, write.value)];
          nextTask := nextTask + 1;
        } else {
          recs := recs[id := recs[id].(ended := true)];
        }
      }
    }

    /** The critical section at the top of the write loop. */
    method LockInLoop(task: TaskId)
      requires Valid() && Enabled(View(), LoopLock(task))
      modifies this
      ensures Valid() && View() == Locked(old(View()), task) && trace == old(trace) + [LoopLock(task)]
    {
      Record(LoopLock(task));
      var WriteLoop(id, w, items) := tasks[task];
      if id !in recs {
        tasks := tasks[task := ShuttingDown(id, w)];
      } else if recs[id].q == [] {
        if recs[id].ended {
          recs := recs - {id};
          tasks := tasks[task := ShuttingDown(id, w)];
        } else {
          recs := recs[id := recs[id].(write := Some(w))];
          tasks := tasks - {task};
        }
      } else {
        tasks := tasks[task := WriteLoop(id, w, recs[id].q)];
        recs := recs[id := recs[id].(q := items)];
      }
    }

    /** One `write_all`, whose result the pipe decides. */
    method WriteInLoop(task: TaskId, sent: nat, ok: bool)
      requires Valid() && Enabled(View(), LoopWrite(task, sent, ok))
      modifies this
      ensures Valid() && View() == Sent(old(View()), task, sent, ok) && trace == old(trace) + [LoopWrite(task, sent, ok)]
    {
      Record(LoopWrite(task, sent, ok));
      var WriteLoop(id, w, items) := tasks[task];
      var p := pipes[w];
      pipes := pipes[w := Pipe(p.delivered + items[0][..sent], p.shutdowns, p.failed || !ok,
                               p.dropped + if ok then 0 else |Flat(items)| - sent)];
      tasks := tasks[task := WriteLoop(id, w, if ok then items[1..] else [])];
    }

    method FinishShutdown(task: TaskId)
      requires Valid() && Enabled(View(), Shutdown(task))
      modifies this
      ensures Valid() && View() == Apply(old(View()), Shutdown(task)) && trace == old(trace) + [Shutdown(task)]
    {
      Record(Shutdown(task));
      var w := tasks[task].w;
      pipes := pipes[w := pipes[w].(shutdowns := pipes[w].shutdowns + 1)];
      tasks := tasks - {task};
    }
  }
}
