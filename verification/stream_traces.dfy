/** Traces of the stream writer: what was called, in order, against the state that it leads to. What a
    caller asked for is read off the trace alone. */
module StreamTraces {
  import opened Wrappers
  import opened StreamState

  type Trace = seq<Step>

  /** Each step could be taken when its turn came. */
  ghost predicate Legal(trace: Trace)
    decreases |trace|, 0
  {
    trace == [] || (Legal(trace[..|trace| - 1]) && Enabled(After(trace[..|trace| - 1]), trace[|trace| - 1]))
  }

  ghost function After(trace: Trace): State
    requires Legal(trace)
    decreases |trace|, 1
  {
    if trace == [] then Initial() else Apply(After(trace[..|trace| - 1]), trace[|trace| - 1])
  }

  /** What callers have done with a stream: nothing yet; inserted it and written these buffers; or removed it
      after writing them. */
  datatype Use = Unused | Live(written: seq<Buffer>) | Gone(written: seq<Buffer>)

  function UsedBy(use: Use, a: Step, id: StreamId): Use {
    match use
    case Unused => if a.Insert? && a.id == id then Live([]) else use
    case Live(written) =>
      if a.Write? && a.id == id then Live(written + [a.buf])
      else if a.Remove? && a.id == id then Gone(written)
      else use
    case Gone(written) => use
  }

  function UseOf(trace: Trace, id: StreamId): Use {
    if trace == [] then Unused else UsedBy(UseOf(trace[..|trace| - 1], id), trace[|trace| - 1], id)
  }

  lemma {:induction false} TraceInv(trace: Trace)
    requires Legal(trace)
    ensures Inv(After(trace))
  {
    if trace != [] {
      TraceInv(trace[..|trace| - 1]);
      StepKeeps(After(trace[..|trace| - 1]), trace[|trace| - 1]);
    }
  }

  /** No task is about to shut the half of the stream down. */
  ghost predicate NotClosing(s: State, id: StreamId) {
    forall t :: t in s.tasks && s.tasks[t].id == id ==> s.tasks[t].WriteLoop?
  }

  /** An open stream has a record that has not ended and has accepted just what was written; its half is not
      shut down, nor about to be. A removed one has accepted that first, and what is left of it has ended. */
  ghost predicate Treated(s: State, id: StreamId, use: Use) {
    match use
    case Unused => id !in s.halves && id !in s.recs
    case Live(written) =>
      && id in s.recs && !s.recs[id].ended && NotClosing(s, id)
      && id in s.halves && s.halves[id] in s.pipes && s.pipes[s.halves[id]].shutdowns == 0
      && id in s.accepted && s.accepted[id] == written
    case Gone(written) =>
      && id in s.halves && id in s.accepted && written <= s.accepted[id]
      && (if id in s.recs then s.recs[id].ended && s.recs[id].write.None? else s.halves[id] in s.pipes)
  }

  lemma InsertTreats(s: State, n: StreamId, w: Half, id: StreamId, use: Use)
    requires Inv(s) && Enabled(s, Insert(n, w)) && Treated(s, id, use)
    ensures Treated(Apply(s, Insert(n, w)), id, UsedBy(use, Insert(n, w), id))
  {
  }

  lemma WriteTreats(s: State, n: StreamId, buf: Buffer, task: TaskId, id: StreamId, use: Use)
    requires Inv(s) && Enabled(s, Write(n, buf, task)) && Treated(s, id, use)
    ensures Treated(Written(s, n, buf, task), id, UsedBy(use, Write(n, buf, task), id))
  {
    if n in s.recs {
      assert RecordFits(s, s.recs[n], s.halves[n]);
    }
  }

  lemma RemoveTreats(s: State, n: StreamId, task: TaskId, id: StreamId, use: Use)
    requires Inv(s) && Enabled(s, Remove(n, task)) && Treated(s, id, use)
    ensures Treated(Removed(s, n, task), id, UsedBy(use, Remove(n, task), id))
  {
    if n in s.recs {
      assert RecordFits(s, s.recs[n], s.halves[n]) && PlaceFits(s, n);
    }
  }

  /** A step that does not touch the stream. */
  lemma Untouched(s: State, t: State, id: StreamId, use: Use)
    requires Treated(s, id, use) && t.halves == s.halves && t.pipes == s.pipes && t.accepted == s.accepted
    requires (id in s.recs <==> id in t.recs) && (id in s.recs ==> t.recs[id] == s.recs[id])
    requires forall k :: k in t.tasks && t.tasks[k].id == id ==> k in s.tasks && t.tasks[k] == s.tasks[k]
    ensures Treated(t, id, use)
  {
  }

  /** The loop of another stream. */
  lemma OtherLock(s: State, task: TaskId, id: StreamId, use: Use)
    requires Inv(s) && Enabled(s, LoopLock(task)) && Treated(s, id, use) && s.tasks[task].id != id
    ensures Treated(Locked(s, task), id, use)
  {
    Untouched(s, Locked(s, task), id, use);
  }

  lemma OwnLock(s: State, task: TaskId, id: StreamId, use: Use)
    requires Inv(s) && Enabled(s, LoopLock(task)) && Treated(s, id, use) && s.tasks[task].id == id
    ensures Treated(Locked(s, task), id, use)
  {
    LoopServes(s, task);
    assert !use.Unused?;
    assert use.Live? ==> !s.recs[id].ended;
  }

  lemma LockTreats(s: State, task: TaskId, id: StreamId, use: Use)
    requires Inv(s) && Enabled(s, LoopLock(task)) && Treated(s, id, use)
    ensures Treated(Locked(s, task), id, use)
  {
    if s.tasks[task].id == id {
      OwnLock(s, task, id, use);
    } else {
      OtherLock(s, task, id, use);
    }
  }

  lemma SentTreats(s: State, task: TaskId, sent: nat, ok: bool, id: StreamId, use: Use)
    requires Inv(s) && Enabled(s, LoopWrite(task, sent, ok)) && Treated(s, id, use)
    ensures Treated(Sent(s, task, sent, ok), id, use)
  {
  }

  lemma ShutdownTreats(s: State, task: TaskId, id: StreamId, use: Use)
    requires Inv(s) && Enabled(s, Shutdown(task)) && Treated(s, id, use)
    ensures Treated(Apply(s, Shutdown(task)), id, use)
  {
    assert s.tasks[task].id in s.halves && s.tasks[task].w == s.halves[s.tasks[task].id];
  }

  lemma StepTreats(s: State, a: Step, id: StreamId, use: Use)
    requires Inv(s) && Enabled(s, a) && Treated(s, id, use)
    ensures Treated(Apply(s, a), id, UsedBy(use, a, id))
  {
    match a
    case Insert(n, w) => InsertTreats(s, n, w, id, use);
    case Write(n, buf, task) => WriteTreats(s, n, buf, task, id, use);
    case Remove(n, task) => RemoveTreats(s, n, task, id, use);
    case LoopLock(task) => LockTreats(s, task, id, use);
    case LoopWrite(task, sent, ok) => SentTreats(s, task, sent, ok, id, use);
    case Shutdown(task) => ShutdownTreats(s, task, id, use);
  }

  /** Whatever the interleaving, a stream is treated as its callers asked. */
  lemma {:induction false} TraceTreats(trace: Trace, id: StreamId)
    requires Legal(trace)
    ensures Treated(After(trace), id, UseOf(trace, id))
  {
    if trace != [] {
      var front := trace[..|trace| - 1];
      TraceTreats(front, id);
      TraceInv(front);
      StepTreats(After(front), trace[|trace| - 1], id, UseOf(front, id));
    }
  }

  // ----- Breaking -----

  /** The step is a failed write to the stream. */
  ghost predicate Breaks(s: State, a: Step, id: StreamId) {
    a.LoopWrite? && !a.ok && a.task in s.tasks && s.tasks[a.task].id == id
  }

  /** Some write to the stream has failed. */
  ghost predicate Broke(trace: Trace, id: StreamId)
    requires Legal(trace)
  {
    trace != [] && (Broke(trace[..|trace| - 1], id) || Breaks(After(trace[..|trace| - 1]), trace[|trace| - 1], id))
  }

  ghost predicate FailedPipe(s: State, id: StreamId) {
    id in s.halves && s.halves[id] in s.pipes && s.pipes[s.halves[id]].failed
  }

  lemma StepBreaks(s: State, a: Step, id: StreamId)
    requires Inv(s) && Enabled(s, a)
    ensures FailedPipe(Apply(s, a), id) <==> FailedPipe(s, id) || Breaks(s, a, id)
  {
    if id in s.halves {
      assert PlaceFits(s, id);
    }
    match a
    case LoopWrite(task, sent, ok) => WriteBreaks(s, task, sent, ok, id);
    case _ =>
  }

  lemma WriteBreaks(s: State, task: TaskId, sent: nat, ok: bool, id: StreamId)
    requires Inv(s) && Enabled(s, LoopWrite(task, sent, ok))
    ensures FailedPipe(Sent(s, task, sent, ok), id) <==> FailedPipe(s, id) || Breaks(s, LoopWrite(task, sent, ok), id)
  {
    LoopServes(s, task);
    if id in s.halves {
      assert PlaceFits(s, id);
    }
  }

  /** A pipe has broken if and only if a write to it has failed. */
  lemma {:induction false} TraceBreaks(trace: Trace, id: StreamId)
    requires Legal(trace)
    ensures FailedPipe(After(trace), id) <==> Broke(trace, id)
  {
    if trace != [] {
      var front := trace[..|trace| - 1];
      TraceBreaks(front, id);
      TraceInv(front);
      StepBreaks(After(front), trace[|trace| - 1], id);
    }
  }
}
