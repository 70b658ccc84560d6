/** The duplex stream writer as a protocol over its critical sections. Each step is one stretch of code
    under the lock, or one awaited operation on a pipe; any interleaving of them is a run. */
module StreamState {
  import opened Wrappers
  import Sequences

  type StreamId = int
  type Half = int
  type TaskId = int
  type Buffer = seq<byte>

  /** A record of the locked map. */
  datatype StreamRec = StreamRec(write: Option<Half>, q: seq<Buffer>, ended: bool)

  /** An asynchronous function between two of its steps: a `write_loop` with the items it has swapped out
      and not written yet, or a `shutdown` about to be awaited. */
  datatype Task = WriteLoop(id: StreamId, w: Half, items: seq<Buffer>) | ShuttingDown(id: StreamId, w: Half)

  /** The far end of a write half. `failed`: some write returned an error; `dropped`: how many bytes
      were given up on errors. */
  datatype Pipe = Pipe(delivered: seq<byte>, shutdowns: nat, failed: bool, dropped: nat)

  datatype Place = InRecord | InTask(task: TaskId) | Closed

  /** `halves`: the half of every stream ever inserted; `place`: where each half is; `accepted`: the
      buffers taken while the stream had a record. */
  datatype State = State(
    recs: map<StreamId, StreamRec>,
    tasks: map<TaskId, Task>,
    pipes: map<Half, Pipe>,
    halves: map<StreamId, Half>,
    place: map<Half, Place>,
    accepted: map<StreamId, seq<Buffer>>)

  function Flat(bufs: seq<Buffer>): seq<byte> {
    if bufs == [] then [] else bufs[0] + Flat(bufs[1..])
  }

  lemma FlatCons(buf: Buffer, bufs: seq<Buffer>)
    ensures Flat([buf] + bufs) == buf + Flat(bufs)
  {
    assert ([buf] + bufs)[1..] == bufs;
  }

  /** Appending a buffer appends its bytes. */
  lemma {:induction false} Snoc(bufs: seq<Buffer>, buf: Buffer)
    ensures Flat(bufs + [buf]) == Flat(bufs) + buf
  {
    if bufs == [] {
      FlatCons(buf, []);
      assert buf + [] == buf && [] + [buf] == [buf] + [];
    } else {
      Snoc(bufs[1..], buf);
      FlatCons(bufs[0], bufs[1..] + [buf]);
      Rejoin(bufs, buf);
      Sequences.Associate(bufs[0], Flat(bufs[1..]), buf);
    }
  }

  lemma Rejoin(bufs: seq<Buffer>, buf: Buffer)
    requires bufs != []
    ensures bufs + [buf] == [bufs[0]] + (bufs[1..] + [buf])
  {
  }

  // ----- Steps -----

  datatype Step =
    | Insert(id: StreamId, w: Half)
    | Write(id: StreamId, buf: Buffer, task: TaskId)
    | Remove(id: StreamId, task: TaskId)
    | LoopLock(task: TaskId)
    | LoopWrite(task: TaskId, sent: nat, ok: bool)
    | Shutdown(task: TaskId)

  /** Streams get fresh ids and halves, spawned tasks fresh ids. A failed `write_all` has sent part of
      its item, and a duplex pipe that broke stays broken: nothing more goes through it. */
  predicate Enabled(s: State, a: Step) {
    match a
    case Insert(id, w) => id !in s.halves && w !in s.pipes
    case Write(id, buf, task) => task !in s.tasks
    case Remove(id, task) => task !in s.tasks
    case LoopLock(task) => task in s.tasks && s.tasks[task].WriteLoop? && s.tasks[task].items == []
    case LoopWrite(task, sent, ok) =>
      && task in s.tasks && s.tasks[task].WriteLoop? && s.tasks[task].items != [] && s.tasks[task].w in s.pipes
      && sent <= |s.tasks[task].items[0]| && (ok ==> sent == |s.tasks[task].items[0]|)
      && (s.pipes[s.tasks[task].w].failed ==> sent == 0)
    case Shutdown(task) => task in s.tasks && s.tasks[task].ShuttingDown? && s.tasks[task].w in s.pipes
  }

  function Apply(s: State, a: Step): State
    requires Enabled(s, a)
  {
    match a
    case Insert(id, w) =>
      s.(recs := s.recs[id := StreamRec(Some(w), [], false)], pipes := s.pipes[w := Pipe([], 0, false, 0)],
         halves := s.halves[id := w], place := s.place[w := InRecord], accepted := s.accepted[id := []])
    case Write(id, buf, task) => Written(s, id, buf, task)
    case Remove(id, task) => Removed(s, id, task)
    case LoopLock(task) => Locked(s, task)
    case LoopWrite(task, sent, ok) => Sent(s, task, sent, ok)
    case Shutdown(task) =>
      var w := s.tasks[task].w;
      s.(tasks := s.tasks - {task}, place := s.place[w := Closed],
         pipes := s.pipes[w := s.pipes[w].(shutdowns := s.pipes[w].shutdowns + 1)])
  }

  /** `Streams.write`: queue the buffer; if the half is here, a write loop takes it. */
  function Written(s: State, id: StreamId, buf: Buffer, task: TaskId): State {
    if id !in s.recs then s
    else
      var r := s.recs[id];
      var t := s.(recs := s.recs[id := r.(write := None, q := r.q + [buf])],
                  accepted := s.accepted[id := (if id in s.accepted then s.accepted[id] else []) + [buf]]);
      match r.write
      case None => t
      case Some(w) => t.(tasks := t.tasks[task := WriteLoop(id, w, [])], place := t.place[w := InTask(task)])
  }

  /** `Streams.remove`: take the half and the record away, or leave word for the running loop. */
  function Removed(s: State, id: StreamId, task: TaskId): State {
    if id !in s.recs then s
    else
      match s.recs[id].write
      case None => s.(recs := s.recs[id := s.recs[id].(ended := true)])
      case Some(w) =>
        s.(recs := s.recs - {id}, tasks := s.tasks[task := ShuttingDown(id, w)], place := s.place[w := InTask(task)])
  }

  /** The critical section of `write_loop`. */
  function Locked(s: State, task: TaskId): State
    requires task in s.tasks && s.tasks[task].WriteLoop?
  {
    var WriteLoop(id, w, items) := s.tasks[task];
    if id !in s.recs then s.(tasks := s.tasks[task := ShuttingDown(id, w)])
    else if s.recs[id].q == [] then
      if s.recs[id].ended then s.(recs := s.recs - {id}, tasks := s.tasks[task := ShuttingDown(id, w)])
      else s.(recs := s.recs[id := s.recs[id].(write := Some(w))], tasks := s.tasks - {task}, place := s.place[w := InRecord])
    else s.(recs := s.recs[id := s.recs[id].(q := items)], tasks := s.tasks[task := WriteLoop(id, w, s.recs[id].q)])
  }

  /** One `write_all`: the item goes through, or part of it and the rest of the items are dropped. */
  function Sent(s: State, task: TaskId, sent: nat, ok: bool): State
    requires Enabled(s, LoopWrite(task, sent, ok))
  {
    var WriteLoop(id, w, items) := s.tasks[task];
    s.(tasks := s.tasks[task := WriteLoop(id, w, if ok then items[1..] else [])],
       pipes := s.pipes[w := Wrote(s.pipes[w], items, sent, ok)])
  }

  /** What a write of the first item does to the pipe: with an error, all items are over. */
  function Wrote(p: Pipe, items: seq<Buffer>, sent: nat, ok: bool): Pipe
    requires items != [] && sent <= |items[0]|
  {
    p.(delivered := p.delivered + items[0][..sent], failed := p.failed || !ok,
       dropped := p.dropped + if ok then 0 else |Flat(items)| - sent)
  }

  // ----- The invariant -----

  /** A record holds the half of its stream, with nothing queued; or a write loop does. */
  ghost predicate Records(s: State) {
    forall id :: id in s.recs ==> id in s.halves && s.halves[id] in s.place && RecordFits(s, s.recs[id], s.halves[id])
  }

  predicate RecordFits(s: State, r: StreamRec, w: Half)
    requires w in s.place
  {
    match r.write
    case Some(w') => w' == w && s.place[w] == InRecord && r.q == [] && !r.ended
    case None => s.place[w].InTask? && s.place[w].task in s.tasks && s.tasks[s.place[w].task].WriteLoop?
  }

  /** A task holds the half of its stream; a write loop's stream has a record, a closing one has not. */
  ghost predicate Tasks(s: State) {
    forall t :: t in s.tasks ==>
      && s.tasks[t].id in s.halves && s.tasks[t].w == s.halves[s.tasks[t].id]
      && s.tasks[t].w in s.place && s.place[s.tasks[t].w] == InTask(t)
      && (s.tasks[t].WriteLoop? ==> s.tasks[t].id in s.recs && s.recs[s.tasks[t].id].write.None?)
      && (s.tasks[t].ShuttingDown? ==> s.tasks[t].id !in s.recs)
  }

  /** Each half is in one place; it is shut down once when closed, and never before. */
  ghost predicate Places(s: State) {
    && s.place.Keys == s.pipes.Keys && s.accepted.Keys == s.halves.Keys
    && (forall id, id' :: id in s.halves && id' in s.halves && s.halves[id] == s.halves[id'] ==> id == id')
    && (forall id :: id in s.halves ==> s.halves[id] in s.pipes && PlaceFits(s, id))
  }

  ghost predicate PlaceFits(s: State, id: StreamId)
    requires id in s.halves && s.halves[id] in s.place && s.halves[id] in s.pipes
  {
    match s.place[s.halves[id]]
    case InRecord => id in s.recs && s.recs[id].write == Some(s.halves[id]) && s.pipes[s.halves[id]].shutdowns == 0
    case InTask(t) => t in s.tasks && s.tasks[t].w == s.halves[id] && s.tasks[t].id == id && s.pipes[s.halves[id]].shutdowns == 0
    case Closed => id !in s.recs && s.pipes[s.halves[id]].shutdowns == 1
  }

  /** What a write loop has taken and not sent. */
  function InFlight(s: State, id: StreamId): seq<Buffer>
    requires id in s.halves && s.halves[id] in s.place
  {
    match s.place[s.halves[id]]
    case InTask(t) => if t in s.tasks && s.tasks[t].WriteLoop? then s.tasks[t].items else []
    case _ => []
  }

  function Queued(s: State, id: StreamId): seq<Buffer> {
    if id in s.recs then s.recs[id].q else []
  }

  /** First in, first out. `out`: delivered; `more`: in flight, then queued; `all`: accepted. Without a
      dropped byte nothing is missing; with some, they are missing behind what was delivered, and
      nothing more gets through. */
  ghost predicate Balance(p: Pipe, more: seq<byte>, all: seq<byte>) {
    && p.delivered <= all && |p.delivered| + |more| + p.dropped == |all|
    && (!p.failed ==> p.dropped == 0)
    && (p.dropped == 0 ==> p.delivered + more == all)
  }

  ghost predicate Delivery(s: State, id: StreamId)
    requires id in s.halves && s.halves[id] in s.place && s.halves[id] in s.pipes && id in s.accepted
  {
    Balance(s.pipes[s.halves[id]], Flat(InFlight(s, id)) + Flat(Queued(s, id)), Flat(s.accepted[id]))
  }

  ghost predicate Owned(s: State) {
    Places(s) && Records(s) && Tasks(s)
  }

  ghost predicate Inv(s: State) {
    Owned(s) && forall id :: id in s.halves ==> Delivery(s, id)
  }

  function Initial(): State {
    State(map[], map[], map[], map[], map[], map[])
  }

  // ----- Every step keeps it -----

  lemma InsertPlaces(s: State, id: StreamId, w: Half)
    requires Owned(s) && Enabled(s, Insert(id, w))
    ensures Places(Apply(s, Insert(id, w)))
  {
    var s' := Apply(s, Insert(id, w));
    forall i | i in s'.halves ensures s'.halves[i] in s'.pipes && PlaceFits(s', i) {
      if i != id {
        assert PlaceFits(s, i);
      }
    }
  }

  lemma InsertRecords(s: State, id: StreamId, w: Half)
    requires Owned(s) && Enabled(s, Insert(id, w))
    ensures Records(Apply(s, Insert(id, w)))
  {
    var s' := Apply(s, Insert(id, w));
    forall i | i in s'.recs
      ensures i in s'.halves && s'.halves[i] in s'.place && RecordFits(s', s'.recs[i], s'.halves[i])
    {
      if i != id {
        assert RecordFits(s, s.recs[i], s.halves[i]);
      }
    }
  }

  lemma InsertOwned(s: State, id: StreamId, w: Half)
    requires Owned(s) && Enabled(s, Insert(id, w))
    ensures Owned(Apply(s, Insert(id, w)))
  {
    InsertPlaces(s, id, w);
    InsertRecords(s, id, w);
  }

  lemma InsertKeeps(s: State, id: StreamId, w: Half)
    requires Inv(s) && Enabled(s, Insert(id, w))
    ensures Inv(Apply(s, Insert(id, w)))
  {
    InsertOwned(s, id, w);
    var s' := Apply(s, Insert(id, w));
    forall i | i in s'.halves ensures Delivery(s', i) {
      if i != id {
        assert Delivery(s, i);
      }
    }
  }

  /** Queues a buffer at a stream whose half is with a task. */
  function Queue(s: State, id: StreamId, buf: Buffer): State
    requires id in s.recs && id in s.accepted
  {
    s.(recs := s.recs[id := s.recs[id].(q := s.recs[id].q + [buf])], accepted := s.accepted[id := s.accepted[id] + [buf]])
  }

  lemma QueueOwned(s: State, id: StreamId, buf: Buffer)
    requires Owned(s) && id in s.recs && s.recs[id].write.None?
    ensures id in s.accepted && Owned(Queue(s, id, buf))
  {
  }

  /** The half of a stream goes to a new write loop. */
  function Spawned(s: State, id: StreamId, w: Half, task: TaskId): State
    requires id in s.recs
  {
    s.(recs := s.recs[id := s.recs[id].(write := None)], tasks := s.tasks[task := WriteLoop(id, w, [])],
       place := s.place[w := InTask(task)])
  }

  lemma SpawnPlaces(s: State, id: StreamId, w: Half, task: TaskId)
    requires Owned(s) && task !in s.tasks && id in s.recs && s.recs[id].write == Some(w)
    ensures Places(Spawned(s, id, w, task))
  {
    var s' := Spawned(s, id, w, task);
    assert RecordFits(s, s.recs[id], s.halves[id]);
    forall i | i in s'.halves ensures s'.halves[i] in s'.pipes && PlaceFits(s', i) {
      assert PlaceFits(s, i);
    }
  }

  lemma SpawnOwned(s: State, id: StreamId, w: Half, task: TaskId)
    requires Owned(s) && task !in s.tasks && id in s.recs && s.recs[id].write == Some(w)
    ensures Owned(Spawned(s, id, w, task))
  {
    SpawnPlaces(s, id, w, task);
    assert RecordFits(s, s.recs[id], s.halves[id]);
  }

  lemma WriteOwned(s: State, id: StreamId, buf: Buffer, task: TaskId)
    requires Owned(s) && task !in s.tasks
    ensures Owned(Written(s, id, buf, task))
  {
    if id in s.recs {
      if s.recs[id].write.Some? {
        var w := s.recs[id].write.value;
        SpawnOwned(s, id, w, task);
        QueueOwned(Spawned(s, id, w, task), id, buf);
        assert Written(s, id, buf, task) == Queue(Spawned(s, id, w, task), id, buf);
      } else {
        QueueOwned(s, id, buf);
        assert Written(s, id, buf, task) == Queue(s, id, buf);
      }
    }
  }

  lemma WriteMoves(s: State, id: StreamId, buf: Buffer, task: TaskId, i: StreamId)
    requires Owned(s) && task !in s.tasks && id in s.recs && Owned(Written(s, id, buf, task)) && i in s.halves
    ensures var s' := Written(s, id, buf, task);
      Flat(InFlight(s', i)) == Flat(InFlight(s, i)) && s'.accepted[i] == s.accepted[i] + if i == id then [buf] else []
  {
    assert PlaceFits(s, i);
    if i == id {
      assert RecordFits(s, s.recs[id], s.halves[id]);
    }
  }

  lemma WriteKeeps(s: State, id: StreamId, buf: Buffer, task: TaskId)
    requires Inv(s) && task !in s.tasks
    ensures Inv(Written(s, id, buf, task))
  {
    WriteOwned(s, id, buf, task);
    var s' := Written(s, id, buf, task);
    if id in s.recs {
      forall i | i in s'.halves ensures Delivery(s', i) {
        assert Delivery(s, i);
        WriteMoves(s, id, buf, task, i);
        if i == id {
          Snoc(s.accepted[id], buf);
          Snoc(s.recs[id].q, buf);
          Accepts(s.pipes[s.halves[id]], Flat(InFlight(s, id)), Flat(s.recs[id].q), Flat(s.accepted[id]), buf);
        }
      }
    }
  }

  /** A buffer joins the end of the queue and of what was accepted. */
  lemma Accepts(p: Pipe, inFlight: seq<byte>, queued: seq<byte>, all: seq<byte>, buf: Buffer)
    requires Balance(p, inFlight + queued, all)
    ensures Balance(p, inFlight + (queued + buf), all + buf)
  {
    Sequences.Associate(inFlight, queued, buf);
    Sequences.Associate(p.delivered, inFlight + queued, buf);
  }

  /** The record of an idle half goes, and its half is with a task about to shut it down. */
  lemma RemoveIdle(s: State, id: StreamId, w: Half, task: TaskId)
    requires Owned(s) && task !in s.tasks && id in s.recs && s.recs[id].write == Some(w)
    ensures Owned(s.(recs := s.recs - {id}, tasks := s.tasks[task := ShuttingDown(id, w)], place := s.place[w := InTask(task)]))
  {
    assert RecordFits(s, s.recs[id], s.halves[id]) && PlaceFits(s, id);
  }

  lemma MarkEnded(s: State, id: StreamId)
    requires Owned(s) && id in s.recs && s.recs[id].write.None?
    ensures Owned(s.(recs := s.recs[id := s.recs[id].(ended := true)]))
  {
  }

  lemma RemoveOwned(s: State, id: StreamId, task: TaskId)
    requires Owned(s) && task !in s.tasks
    ensures Owned(Removed(s, id, task))
  {
    if id in s.recs {
      if s.recs[id].write.Some? {
        RemoveIdle(s, id, s.recs[id].write.value, task);
      } else {
        MarkEnded(s, id);
      }
    }
  }

  lemma RemoveMoves(s: State, id: StreamId, task: TaskId, i: StreamId)
    requires Owned(s) && task !in s.tasks && Owned(Removed(s, id, task)) && i in s.halves
    ensures InFlight(Removed(s, id, task), i) == InFlight(s, i) && Queued(Removed(s, id, task), i) == Queued(s, i)
  {
    assert PlaceFits(s, i);
    if i in s.recs {
      assert RecordFits(s, s.recs[i], s.halves[i]);
    }
  }

  lemma RemoveKeeps(s: State, id: StreamId, task: TaskId)
    requires Inv(s) && task !in s.tasks
    ensures Inv(Removed(s, id, task))
  {
    RemoveOwned(s, id, task);
    var s' := Removed(s, id, task);
    forall i | i in s'.halves ensures Delivery(s', i) {
      assert Delivery(s, i);
      RemoveMoves(s, id, task, i);
    }
  }

  /** A write loop holds the half of its stream, whose record is there and waits for it. */
  ghost predicate Serves(s: State, task: TaskId, id: StreamId, w: Half) {
    && task in s.tasks && s.tasks[task].WriteLoop? && s.tasks[task].id == id && s.tasks[task].w == w
    && id in s.halves && s.halves[id] == w && w in s.place && w in s.pipes && s.place[w] == InTask(task)
    && id in s.recs && s.recs[id].write.None? && s.pipes[w].shutdowns == 0 && id in s.accepted
  }

  lemma LoopServes(s: State, task: TaskId)
    requires Owned(s) && task in s.tasks && s.tasks[task].WriteLoop?
    ensures Serves(s, task, s.tasks[task].id, s.tasks[task].w)
  {
    assert PlaceFits(s, s.tasks[task].id);
  }

  /** An ended stream with nothing left: the loop goes on to shut the half down. */
  lemma LoopCloses(s: State, task: TaskId, id: StreamId, w: Half)
    requires Owned(s) && Serves(s, task, id, w)
    ensures Owned(s.(recs := s.recs - {id}, tasks := s.tasks[task := ShuttingDown(id, w)]))
  {
  }

  /** Nothing left for now: the half goes back to the record. */
  lemma LoopReturns(s: State, task: TaskId, id: StreamId, w: Half)
    requires Owned(s) && Serves(s, task, id, w) && s.recs[id].q == [] && !s.recs[id].ended
    ensures Owned(s.(recs := s.recs[id := s.recs[id].(write := Some(w))], tasks := s.tasks - {task}, place := s.place[w := InRecord]))
  {
  }

  /** The queue goes out to the loop. */
  lemma LoopSwaps(s: State, task: TaskId, id: StreamId, w: Half, items: seq<Buffer>)
    requires Owned(s) && Serves(s, task, id, w)
    ensures Owned(s.(recs := s.recs[id := s.recs[id].(q := [])], tasks := s.tasks[task := WriteLoop(id, w, items)]))
  {
  }

  lemma LoopLockOwned(s: State, task: TaskId)
    requires Owned(s) && Enabled(s, LoopLock(task))
    ensures Owned(Locked(s, task))
  {
    LoopServes(s, task);
    var WriteLoop(id, w, items) := s.tasks[task];
    LoopSwaps(s, task, id, w, s.recs[id].q);
    LoopCloses(s, task, id, w);
    if s.recs[id].q == [] && !s.recs[id].ended {
      LoopReturns(s, task, id, w);
    }
  }

  /** The critical section moves the queue, if anything. */
  lemma LoopLockMoves(s: State, task: TaskId, i: StreamId)
    requires Owned(s) && Enabled(s, LoopLock(task)) && Owned(Locked(s, task)) && i in s.halves
    ensures Flat(InFlight(Locked(s, task), i)) + Flat(Queued(Locked(s, task), i)) == Flat(InFlight(s, i)) + Flat(Queued(s, i))
  {
    LoopServes(s, task);
    assert PlaceFits(s, i);
    if i == s.tasks[task].id {
      assert InFlight(s, i) == [];
      assert Flat([]) + Flat(s.recs[i].q) == Flat(s.recs[i].q) + Flat([]);
    }
  }

  lemma LoopLockKeeps(s: State, task: TaskId)
    requires Inv(s) && Enabled(s, LoopLock(task))
    ensures Inv(Locked(s, task))
  {
    LoopLockOwned(s, task);
    var s' := Locked(s, task);
    forall i | i in s'.halves ensures Delivery(s', i) {
      assert Delivery(s, i);
      LoopLockMoves(s, task, i);
    }
  }

  lemma LoopWriteOwned(s: State, task: TaskId, sent: nat, ok: bool)
    requires Owned(s) && Enabled(s, LoopWrite(task, sent, ok))
    ensures Owned(Sent(s, task, sent, ok))
  {
  }

  lemma LoopWriteKeeps(s: State, task: TaskId, sent: nat, ok: bool)
    requires Inv(s) && Enabled(s, LoopWrite(task, sent, ok))
    ensures Inv(Sent(s, task, sent, ok))
  {
    LoopWriteOwned(s, task, sent, ok);
    var s' := Sent(s, task, sent, ok);
    var WriteLoop(id, w, items) := s.tasks[task];
    forall i | i in s'.halves ensures Delivery(s', i) {
      assert Delivery(s, i);
      if i == id {
        SentBalance(s.pipes[w], items, Flat(Queued(s, id)), sent, ok, Flat(s.accepted[id]));
      }
    }
  }

  /** Writing an item moves it from the front of what is in flight to the end of what is delivered; an
      error drops the rest. */
  lemma SentBalance(p: Pipe, items: seq<Buffer>, queued: seq<byte>, sent: nat, ok: bool, all: seq<byte>)
    requires items != [] && sent <= |items[0]| && (ok ==> sent == |items[0]|) && (p.failed ==> sent == 0)
    requires Balance(p, Flat(items) + queued, all)
    ensures Balance(Wrote(p, items, sent, ok), (if ok then Flat(items[1..]) else []) + queued, all)
  {
    var item, rest := items[0], Flat(items[1..]);
    assert Flat(items) == item + rest;
    if p.dropped == 0 {
      SentPrefix(p.delivered, item, rest, queued, sent, all);
    } else {
      assert p.delivered + item[..sent] == p.delivered;
    }
    if !ok {
      assert |Flat(items)| == sent ==> item[..sent] == Flat(items);
      assert [] + queued == queued;
    }
  }

  lemma SentPrefix(delivered: seq<byte>, item: seq<byte>, rest: seq<byte>, queued: seq<byte>, sent: nat, all: seq<byte>)
    requires sent <= |item| && delivered + (item + rest + queued) == all
    ensures delivered + item[..sent] <= all
    ensures sent == |item| ==> delivered + item[..sent] + (rest + queued) == all
    ensures sent == |item + rest| ==> delivered + item[..sent] + queued == all
  {
    assert all == delivered + item[..sent] + (item[sent..] + rest + queued);
  }

  lemma ShutdownOwned(s: State, task: TaskId)
    requires Owned(s) && Enabled(s, Shutdown(task))
    ensures Owned(Apply(s, Shutdown(task)))
  {
  }

  lemma ShutdownKeeps(s: State, task: TaskId)
    requires Inv(s) && Enabled(s, Shutdown(task))
    ensures Inv(Apply(s, Shutdown(task)))
  {
    ShutdownOwned(s, task);
    var s' := Apply(s, Shutdown(task));
    forall i | i in s'.halves ensures Delivery(s', i) {
      assert Delivery(s, i);
    }
  }

  lemma StepKeeps(s: State, a: Step)
    requires Inv(s) && Enabled(s, a)
    ensures Inv(Apply(s, a))
  {
    match a
    case Insert(id, w) => InsertKeeps(s, id, w);
    case Write(id, buf, task) => WriteKeeps(s, id, buf, task);
    case Remove(id, task) => RemoveKeeps(s, id, task);
    case LoopLock(task) => LoopLockKeeps(s, task);
    case LoopWrite(task, sent, ok) => LoopWriteKeeps(s, task, sent, ok);
    case Shutdown(task) => ShutdownKeeps(s, task);
  }
}
