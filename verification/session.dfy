/**
 * PersistentQueueSession: the pending-operation list a session builds up
 * between flushes. Enqueued payloads are buffered and written to the
 * session's data stream (speculatively once the buffer outgrows the write
 * buffer size, synchronously on Flush), each payload becoming an Enqueue
 * operation; dequeued items become Dequeue operations. Flush commits the
 * list, Dispose reinstates it. Both engines' sessions behave the same, so
 * one model covers them; the engine's differences come in through Settings.
 */
module QueueSession {
  import opened Bytes
  import opened Wrappers
  import opened Errors
  import opened Operations
  import opened Storage
  import opened EntryIndex
  import opened Replay
  import opened Engine

  /** MinSizeThatMakeAsyncWritePractical: 64 KiB. */
  const MinWriteBufferSize: int := 64 * 1024

  /** The most handles WaitForPendingWrites waits on at once. */
  const WaitBatch: nat := 64

  /**
   * A session: the pending operations, the buffered payloads, the write
   * buffer size, the data file its stream is open on, the speculative
   * writes not yet waited for and the failures they reported, and whether
   * it has been disposed.
   */
  datatype Session = Session(ops: seq<Operation>, buffer: seq<seq<uint8>>, writeBufferSize: int,
                             stream: int32, pending: nat, failures: seq<IoFailure>, disposed: bool)

  /** What a session call leaves behind: the queue, the session and the exception it raised, if any. */
  datatype Step = Step(queue: Queue, session: Session, error: Option<Error>)

  /** Payloads are byte arrays, so each is at most int.MaxValue long. */
  predicate Payloads(buffer: seq<seq<uint8>>) {
    forall i :: 0 <= i < |buffer| ==> |buffer[i]| <= MaxInt32
  }

  /** The buffered payloads one after another. */
  function Concat(buffer: seq<seq<uint8>>): (bs: seq<uint8>)
    decreases |buffer|
  {
    if buffer == [] then [] else buffer[0] + Concat(buffer[1..])
  }

  lemma {:induction false} ConcatAppend(a: seq<seq<uint8>>, b: seq<seq<uint8>>)
    ensures Concat(a + b) == Concat(a) + Concat(b)
    decreases |a|
  {
    if a == [] {
      assert a + b == b;
    } else {
      assert (a + b)[0] == a[0];
      assert (a + b)[1..] == a[1..] + b;
      ConcatAppend(a[1..], b);
    }
  }

  /** Where the i-th payload starts in the concatenation. */
  function Offset(buffer: seq<seq<uint8>>, i: nat): nat
    requires i <= |buffer|
  {
    |Concat(buffer[..i])|
  }

  /** Each payload sits in the concatenation at its offset. */
  lemma PayloadAt(buffer: seq<seq<uint8>>, i: nat)
    requires i < |buffer|
    ensures Offset(buffer, i) + |buffer[i]| <= |Concat(buffer)|
    ensures Concat(buffer)[Offset(buffer, i)..Offset(buffer, i) + |buffer[i]|] == buffer[i]
  {
    var before, rest := buffer[..i], buffer[i + 1..];
    assert buffer == before + ([buffer[i]] + rest);
    ConcatAppend(before, [buffer[i]] + rest);
    assert ([buffer[i]] + rest)[1..] == rest;
    assert Concat([buffer[i]] + rest) == buffer[i] + Concat(rest);
  }

  lemma Wrap32Add(a: int, b: int)
    ensures Wrap32(Wrap32(a) + b) == Wrap32(a + b)
  {
    var w := Wrap32(a);
    var k := (w - a) / 0x1_0000_0000;
    assert w + b == (a + b) + k * 0x1_0000_0000;
    assert (w + b) % 0x1_0000_0000 == (a + b) % 0x1_0000_0000;
  }

  /**
   * The Enqueue operations for the buffered payloads, the first starting at
   * `start`: the running start is an int, so it wraps.
   */
  function EnqueueOps(buffer: seq<seq<uint8>>, fileNumber: int32, start: int32): (ops: seq<Operation>)
    requires Payloads(buffer)
    ensures |ops| == |buffer|
    decreases |buffer|
  {
    if buffer == [] then []
    else [Operation(OperationType.Enqueue, fileNumber, start, |buffer[0]|)] + EnqueueOps(buffer[1..], fileNumber, Wrap32(start + |buffer[0]|))
  }

  /** The offset of a later payload is the first payload's length plus its offset among the rest. */
  lemma OffsetCons(buffer: seq<seq<uint8>>, i: nat)
    requires 1 <= i <= |buffer|
    ensures Offset(buffer, i) == |buffer[0]| + Offset(buffer[1..], i - 1)
  {
    var first, tail := [buffer[0]], buffer[1..];
    assert buffer[..i] == first + tail[..i - 1];
    ConcatAppend(first, tail[..i - 1]);
    assert first[1..] == [];
    assert Concat(first) == buffer[0] + Concat(first[1..]);
  }

  /**
   * The i-th Enqueue operation is in the given file, starts where the
   * payloads before it end (wrapped to an int) and is as long as its payload.
   */
  lemma {:induction false} EnqueueOpAt(buffer: seq<seq<uint8>>, fileNumber: int32, start: int32, i: nat)
    requires Payloads(buffer) && i < |buffer|
    ensures EnqueueOps(buffer, fileNumber, start)[i]
         == Operation(OperationType.Enqueue, fileNumber, Wrap32(start + Offset(buffer, i)), |buffer[i]|)
    decreases i
  {
    if i == 0 {
      assert buffer[..0] == [];
      Wrap32InRange(start);
    } else {
      var tail, next := buffer[1..], Wrap32(start + |buffer[0]|);
      EnqueueOpAt(tail, fileNumber, next, i - 1);
      OffsetCons(buffer, i);
      Wrap32Add(start + |buffer[0]|, Offset(tail, i - 1));
    }
  }

  /**
   * ConcatenateBufferAndAddIndividualOperations, with the stream at the
   * write head: the operations for the buffered payloads in the current
   * file, the first at the head's position cast to an int, and the bytes to
   * write.
   */
  function ConcatenateBuffer(buffer: seq<seq<uint8>>, fileNumber: int32, position: int64): (r: (seq<Operation>, seq<uint8>))
    requires Payloads(buffer)
    ensures |r.0| == |buffer| && |r.1| == |Concat(buffer)|
  {
    (EnqueueOps(buffer, fileNumber, Wrap32(position)), Concat(buffer))
  }

  /**
   * Where the write head and the buffer fit an int, the i-th operation
   * describes exactly the bytes of the i-th payload within the data written
   * at the head.
   */
  lemma ConcatenateLayout(buffer: seq<seq<uint8>>, fileNumber: int32, position: int64)
    requires Payloads(buffer) && 0 <= position && position + |Concat(buffer)| <= MaxInt32
    ensures var r := ConcatenateBuffer(buffer, fileNumber, position);
      forall i :: 0 <= i < |buffer| ==> PayloadOperation(r.0[i], r.1, position, buffer[i], fileNumber)
  {
    var r := ConcatenateBuffer(buffer, fileNumber, position);
    forall i | 0 <= i < |buffer| ensures PayloadOperation(r.0[i], r.1, position, buffer[i], fileNumber) {
      ConcatenateOpAt(buffer, fileNumber, position, i);
    }
  }

  /**
   * An Enqueue operation in the given file, as long as the payload, whose
   * bytes within the data written at `position` are the payload.
   */
  predicate PayloadOperation(op: Operation, data: seq<uint8>, position: int, payload: seq<uint8>, fileNumber: int32) {
    && op.opType == OperationType.Enqueue && op.fileNumber == fileNumber && op.length == |payload|
    && position <= op.start && op.start + op.length <= position + |data|
    && data[op.start - position..op.start - position + op.length] == payload
  }

  lemma ConcatenateOpAt(buffer: seq<seq<uint8>>, fileNumber: int32, position: int64, i: nat)
    requires Payloads(buffer) && 0 <= position && position + |Concat(buffer)| <= MaxInt32 && i < |buffer|
    ensures var r := ConcatenateBuffer(buffer, fileNumber, position);
      PayloadOperation(r.0[i], r.1, position, buffer[i], fileNumber)
  {
    var start := Wrap32(position);
    Wrap32InRange(position);
    EnqueueOpAt(buffer, fileNumber, start, i);
    PayloadAt(buffer, i);
    Wrap32InRange(position + Offset(buffer, i));
  }

  // ---------------------------------------------------------------------
  // Opening, enqueuing and writing
  // ---------------------------------------------------------------------

  /**
   * OpenSession: a session on a writer for the current data file, with the
   * suggested write buffer size raised to at least 64 KiB.
   */
  function OpenSession(q: Queue, writeBufferSize: int): (r: Session)
    ensures r.writeBufferSize >= writeBufferSize && r.writeBufferSize >= MinWriteBufferSize
    ensures r.writeBufferSize == writeBufferSize || r.writeBufferSize == MinWriteBufferSize
    ensures r.ops == [] && r.buffer == [] && r.pending == 0 && r.failures == [] && !r.disposed
    ensures r.stream == q.fileNumber
  {
    Session([], [], if writeBufferSize < MinWriteBufferSize then MinWriteBufferSize else writeBufferSize,
            q.fileNumber, 0, [], false)
  }

  /**
   * Writing the buffer through AcquireWriter (with the stale-stream
   * correction), synchronously or speculatively. A negative write head
   * raises before anything happens. Otherwise the buffer becomes Enqueue
   * operations and is emptied; a failed synchronous write then raises; a
   * speculative write is waited for later and reports its failure then.
   */
  function Write(s: Settings, q: Queue, session: Session, sync: bool, outcome: WriteOutcome): (r: Step)
    requires Payloads(session.buffer) && q.position + |Concat(session.buffer)| <= MaxInt64
    ensures q.position < 0 ==> r == Step(q, session, Some(NegativePosition(q.position)))
    ensures 0 <= q.position ==>
      var (ops, data) := ConcatenateBuffer(session.buffer, q.fileNumber, q.position);
      && r.session.ops == session.ops + ops && r.session.buffer == []
      && r.session.writeBufferSize == session.writeBufferSize && r.session.disposed == session.disposed
      && (sync && outcome.Lost? ==> r.error == Some(WriteFailed(outcome.failure)) && r.queue == q)
      && (!sync || outcome.Landed? ==>
            && r.error == None
            && Success((r.queue, r.session.stream)) == AcquireCurrentWriter(s, q, session.stream, data, sync, outcome))
      && (sync ==> r.session.pending == session.pending && r.session.failures == session.failures)
      && (!sync ==> r.session.pending == session.pending + 1)
      && (!sync && outcome.Landed? ==> r.session.failures == session.failures)
      && (!sync && outcome.Lost? ==> r.session.failures == session.failures + [outcome.failure])
  {
    if q.position < 0 then Step(q, session, Some(NegativePosition(q.position)))
    else
      var (ops, data) := ConcatenateBuffer(session.buffer, q.fileNumber, q.position);
      var taken := session.(ops := session.ops + ops, buffer := []);
      match AcquireCurrentWriter(s, q, session.stream, data, sync, outcome)
      case Failure(e) => Step(q, taken, Some(e))
      case Success((q', stream')) =>
        var failures := if !sync && outcome.Lost? then session.failures + [outcome.failure] else session.failures;
        Step(q', taken.(stream := stream', pending := if sync then session.pending else session.pending + 1,
                        failures := failures), None)
  }

  /** The session with one more payload buffered. */
  function Buffered(session: Session, data: seq<uint8>): (r: Session)
    requires Payloads(session.buffer) && |data| <= MaxInt32
    ensures Payloads(r.buffer) && |Concat(r.buffer)| == |Concat(session.buffer)| + |data|
    ensures r == session.(buffer := session.buffer + [data])
  {
    var one := [data];
    ConcatAppend(session.buffer, one);
    assert one[1..] == [];
    assert Concat(one) == data + Concat(one[1..]);
    session.(buffer := session.buffer + one)
  }

  /**
   * Session Enqueue: the payload joins the buffer, and a speculative write
   * follows only when the buffered size strictly exceeds the write buffer
   * size.
   */
  function Enqueue(s: Settings, q: Queue, session: Session, data: seq<uint8>, outcome: WriteOutcome): (r: Step)
    requires Payloads(session.buffer) && |data| <= MaxInt32
    requires q.position + |Concat(session.buffer)| + |data| <= MaxInt64
    ensures var buffered := Buffered(session, data);
      && (|Concat(session.buffer)| + |data| <= session.writeBufferSize ==> r == Step(q, buffered, None))
      && (|Concat(session.buffer)| + |data| > session.writeBufferSize ==> r == Write(s, q, buffered, false, outcome))
  {
    var buffered := Buffered(session, data);
    if |Concat(buffered.buffer)| > session.writeBufferSize then Write(s, q, buffered, false, outcome)
    else Step(q, buffered, None)
  }

  /**
   * A write of the buffer that lands, where the write head and the buffer
   * fit an int: every operation it records points at exactly its payload's
   * bytes in the current data file.
   */
  lemma WriteLands(s: Settings, q: Queue, session: Session, sync: bool)
    requires Payloads(session.buffer) && 0 <= q.position && q.position + |Concat(session.buffer)| <= MaxInt32
    ensures var r := Write(s, q, session, sync, Landed);
      var added := r.session.ops[|session.ops|..];
      && r.error == None && |added| == |session.buffer|
      && forall i :: 0 <= i < |added| ==>
           && added[i].opType == OperationType.Enqueue
           && Stored(r.queue.files, EntryOf(added[i]))
           && BytesOf(r.queue.files, EntryOf(added[i])) == session.buffer[i]
  {
    var c := ConcatenateBuffer(session.buffer, q.fileNumber, q.position);
    var files := WrittenFiles(s, q, session, sync);
    ConcatenateLayout(session.buffer, q.fileNumber, q.position);
    LandsAt(files, q.fileNumber, q.position, c.1, c.0, session.buffer);
  }

  /** What a landed write leaves: no exception, the buffer's operations recorded, and its bytes at the write head. */
  lemma WrittenFiles(s: Settings, q: Queue, session: Session, sync: bool) returns (files: DataFiles)
    requires Payloads(session.buffer) && 0 <= q.position && q.position + |Concat(session.buffer)| <= MaxInt64
    ensures var r := Write(s, q, session, sync, Landed);
      var c := ConcatenateBuffer(session.buffer, q.fileNumber, q.position);
      var p := q.position + |c.1|;
      && r.error == None && r.queue.files == files
      && r.session.ops[|session.ops|..] == c.0
      && p <= |FileOf(files, q.fileNumber)| && FileOf(files, q.fileNumber)[q.position..p] == c.1
  {
    var r := Write(s, q, session, sync, Landed);
    files := r.queue.files;
    assert r.session.ops[|session.ops|..] == ConcatenateBuffer(session.buffer, q.fileNumber, q.position).0;
  }

  /**
   * Operations describing payloads within data that sits in a data file at
   * `position` describe stored entries holding those payloads.
   */
  lemma LandsAt(files: DataFiles, fileNumber: int32, position: int, data: seq<uint8>,
                ops: seq<Operation>, buffer: seq<seq<uint8>>)
    requires 0 <= position && position + |data| <= MaxInt32
    requires position + |data| <= |FileOf(files, fileNumber)|
    requires FileOf(files, fileNumber)[position..position + |data|] == data
    requires |ops| == |buffer|
    requires forall i :: 0 <= i < |buffer| ==> PayloadOperation(ops[i], data, position, buffer[i], fileNumber)
    ensures forall i :: 0 <= i < |ops| ==>
      && ops[i].opType == OperationType.Enqueue
      && Stored(files, EntryOf(ops[i]))
      && BytesOf(files, EntryOf(ops[i])) == buffer[i]
  {
    forall i | 0 <= i < |ops|
      ensures Stored(files, EntryOf(ops[i]))
      ensures BytesOf(files, EntryOf(ops[i])) == buffer[i]
    {
      assert PayloadOperation(ops[i], data, position, buffer[i], fileNumber);
      PayloadInFile(FileOf(files, fileNumber), position, data, ops[i], buffer[i], fileNumber);
    }
  }

  /** An operation describing a payload within data that sits in a file at `position` describes the payload in the file. */
  lemma PayloadInFile(file: seq<uint8>, position: nat, data: seq<uint8>, op: Operation, payload: seq<uint8>, fileNumber: int32)
    requires position + |data| <= |file| && file[position..position + |data|] == data
    requires PayloadOperation(op, data, position, payload, fileNumber)
    ensures op.start + op.length <= |file| && file[op.start..op.start + op.length] == payload
  {
    SliceOfSlice(file, position, position + |data|, op.start - position, op.start - position + op.length);
  }

  // ---------------------------------------------------------------------
  // Dequeuing
  // ---------------------------------------------------------------------

  /**
   * Session Dequeue: nothing (and nothing recorded) on an empty queue or
   * when the engine raises; otherwise a Dequeue operation with the item's
   * coordinates is recorded and the item's data returned.
   */
  function Dequeue(s: Settings, q: Queue, session: Session): (r: (Queue, Session, Result<Option<seq<uint8>>, Error>))
    ensures r.0 == Engine.Dequeue(s, q).0
    ensures q.idx.entries == [] ==> r.1 == session && r.2 == Success(None)
    ensures r.2.Failure? ==> r.1 == session
    ensures q.idx.entries != [] && r.2.Success? ==>
      && r.1 == session.(ops := session.ops + [OperationOn(OperationType.Dequeue, q.idx.entries[0].entry)])
      && Engine.Dequeue(s, q).1 == Success(Some(Slot(q.idx.entries[0].entry, r.2.value)))
  {
    var (q', got) := Engine.Dequeue(s, q);
    match got
    case Failure(e) => (q', session, Failure(e))
    case Success(None) => (q', session, Success(None))
    case Success(Some(slot)) =>
      (q', session.(ops := session.ops + [OperationOn(OperationType.Dequeue, slot.entry)]), Success(slot.data))
  }

  /**
   * On a served queue, the session hands out the head's stored bytes and
   * records its Dequeue.
   */
  lemma DequeueReturnsStored(s: Settings, q: Queue, session: Session)
    requires q.idx.entries != [] && Served(q)
    ensures var r := Dequeue(s, q, session);
      var head := q.idx.entries[0].entry;
      && r.2 == Success(Some(BytesOf(q.files, head)))
      && r.1.ops == session.ops + [OperationOn(OperationType.Dequeue, head)]
      && Served(r.0)
  {
    DequeueServes(s, q);
  }

  // ---------------------------------------------------------------------
  // Flushing
  // ---------------------------------------------------------------------

  /**
   * WaitForPendingWrites with every speculative write already complete:
   * handles are waited for in batches of 64, and after each batch any
   * collected failures are raised together as one PendingWriteException and
   * the collection is cleared.
   */
  function WaitForPendingWrites(session: Session): (r: (Session, Option<Error>))
    ensures r.0 == session.(pending := r.0.pending, failures := r.0.failures)
    ensures r.0.pending <= session.pending
    ensures session.pending == 0 ==> r == (session, None)
    ensures r.1 == None ==> r.0.pending == 0 && r.0.failures == session.failures
    ensures session.pending > 0 ==>
      && (session.failures == [] ==> r.1 == None && r.0.failures == [])
      && (session.failures != [] ==> r.1 == Some(PendingWrites(session.failures)) && r.0.failures == [])
    decreases session.pending
  {
    if session.pending == 0 then (session, None)
    else
      var left := if session.pending < WaitBatch then 0 else session.pending - WaitBatch;
      var waited := session.(pending := left);
      if session.failures != [] then (waited.(failures := []), Some(PendingWrites(session.failures)))
      else WaitForPendingWrites(waited)
  }

  /**
   * Session Flush: wait for the speculative writes, write the rest of the
   * buffer synchronously, then commit every pending operation and clear the
   * list. A failure on the way raises with the list uncommitted.
   */
  function Flush(s: Settings, q: Queue, session: Session, outcome: WriteOutcome): (r: Step)
    requires Payloads(session.buffer) && q.position + |Concat(session.buffer)| <= MaxInt64
    requires |session.ops| + |session.buffer| <= MaxInt32
  {
    var (waited, err) := WaitForPendingWrites(session);
    if err.Some? then Step(q, waited, err)
    else
      var written := Write(s, q, waited, true, outcome);
      if written.error.Some? then written
      else
        Step(CommitTransaction(s, written.queue, written.session.ops), written.session.(ops := []), None)
  }

  /**
   * A flush without failures commits exactly the operations recorded
   * before it followed by one Enqueue per buffered payload, and leaves the
   * session with nothing pending, buffered or outstanding.
   */
  lemma FlushCommits(s: Settings, q: Queue, session: Session)
    requires Payloads(session.buffer) && 0 <= q.position && q.position + |Concat(session.buffer)| <= MaxInt64
    requires |session.ops| + |session.buffer| <= MaxInt32
    requires session.failures == []
    ensures var r := Flush(s, q, session, Landed);
      var (ops, data) := ConcatenateBuffer(session.buffer, q.fileNumber, q.position);
      var w := AcquireCurrentWriter(s, q, session.stream, data, true, Landed);
      && r.error == None && w.Success?
      && r.queue == CommitTransaction(s, w.value.0, session.ops + ops)
      && r.session.ops == [] && r.session.buffer == [] && r.session.pending == 0 && r.session.failures == []
  {
  }

  /**
   * A flush that raises commits nothing: the index and the log are as they
   * were, and the operations recorded before it are still pending, followed
   * by those of a buffer whose synchronous write failed.
   */
  lemma FlushFailureKeepsPending(s: Settings, q: Queue, session: Session, outcome: WriteOutcome)
    requires Payloads(session.buffer) && q.position + |Concat(session.buffer)| <= MaxInt64
    requires |session.ops| + |session.buffer| <= MaxInt32
    ensures var r := Flush(s, q, session, outcome);
      r.error.Some? ==>
        && r.queue.idx == q.idx && r.queue.log == q.log
        && |session.ops| <= |r.session.ops| && r.session.ops[..|session.ops|] == session.ops
        && (r.error.value.PendingWrites? ==> r.session.ops == session.ops && r.error.value.failures == session.failures)
  {
    var (waited, err) := WaitForPendingWrites(session);
    if err.None? {
      var written := Write(s, q, waited, true, outcome);
      assert written.session.ops[..|session.ops|] == session.ops;
    }
  }

  /**
   * Enqueues committed after other operations end the queue, in order,
   * whatever the earlier operations did.
   */
  lemma EnqueuesAppended(idx: Index, before: seq<Operation>, ops: seq<Operation>)
    requires forall i :: 0 <= i < |ops| ==> ops[i].opType == OperationType.Enqueue
    ensures var es := Keys(ApplyInMemory(idx, before + ops).0.entries);
      && |ops| <= |es|
      && var added := es[|es| - |ops|..];
         forall i :: 0 <= i < |added| ==> added[i] == EntryOf(ops[i])
  {
    var entries := seq(|ops|, i requires 0 <= i < |ops| => EntryOf(ops[i]));
    assert ops == EnqueueAll(entries);
    var mid := ApplyOperations(idx, before);
    ApplyOperationsConcat(idx, before, ops);
    ApplyEnqueues(mid, entries);
    KeysAppend(mid.entries, Unread(entries));
  }

  /**
   * What a caller of a failure-free flush sees, when the written data stays
   * within the current data file: the queue ends with one entry per buffered
   * payload, in buffer order, and each entry holds that payload's bytes.
   */
  lemma FlushStoresPayloads(s: Settings, q: Queue, session: Session)
    requires Payloads(session.buffer) && 0 <= q.position && q.position + |Concat(session.buffer)| <= MaxInt32
    requires q.position + |Concat(session.buffer)| < s.maxFileSize
    requires |session.ops| + |session.buffer| <= MaxInt32
    requires session.failures == []
    ensures var r := Flush(s, q, session, Landed);
      r.error == None && EndsWithPayloads(r.queue, session.buffer, q.fileNumber)
  {
    var w, ops, data := FlushWrites(s, q, session);
    CommitStoresPayloads(s, w, session.ops, ops, data, q.position, session.buffer);
  }

  /** The queue ends with the entries of the given operations, in order. */
  predicate EndsWithEntries(q: Queue, ops: seq<Operation>) {
    var es := Keys(q.idx.entries);
    && |ops| <= |es|
    && var added := es[|es| - |ops|..];
       forall i :: 0 <= i < |added| ==> added[i] == EntryOf(ops[i])
  }

  /**
   * The queue ends with one entry per payload, in order, each in the given
   * data file and holding that payload's bytes.
   */
  predicate EndsWithPayloads(q: Queue, buffer: seq<seq<uint8>>, fileNumber: int32) {
    var es := Keys(q.idx.entries);
    && |buffer| <= |es|
    && var added := es[|es| - |buffer|..];
       forall i :: 0 <= i < |added| ==>
         && added[i].fileNumber == fileNumber
         && Stored(q.files, added[i]) && BytesOf(q.files, added[i]) == buffer[i]
  }

  /**
   * The buffer's data sits at `position` of the queue's current data file,
   * and each operation describes its payload within that data.
   */
  predicate PayloadsWritten(w: Queue, ops: seq<Operation>, data: seq<uint8>, position: int, buffer: seq<seq<uint8>>) {
    && 0 <= position && position + |data| <= MaxInt32
    && position + |data| <= |FileOf(w.files, w.fileNumber)|
    && FileOf(w.files, w.fileNumber)[position..position + |data|] == data
    && |ops| == |buffer|
    && forall i :: 0 <= i < |ops| ==> PayloadOperation(ops[i], data, position, buffer[i], w.fileNumber)
  }

  /**
   * A failure-free flush within the current data file writes the buffer at
   * the write head and commits the payloads' operations after the earlier ones.
   */
  lemma FlushWrites(s: Settings, q: Queue, session: Session) returns (w: Queue, ops: seq<Operation>, data: seq<uint8>)
    requires Payloads(session.buffer) && 0 <= q.position && q.position + |Concat(session.buffer)| <= MaxInt32
    requires q.position + |Concat(session.buffer)| < s.maxFileSize
    requires |session.ops| + |session.buffer| <= MaxInt32
    requires session.failures == []
    ensures w.fileNumber == q.fileNumber && PayloadsWritten(w, ops, data, q.position, session.buffer)
    ensures var r := Flush(s, q, session, Landed);
      && r.error == None && r.queue == CommitTransaction(s, w, session.ops + ops)
  {
    var c := ConcatenateBuffer(session.buffer, q.fileNumber, q.position);
    ops, data := c.0, c.1;
    FlushCommits(s, q, session);
    ConcatenateLayout(session.buffer, q.fileNumber, q.position);
    w := AcquireCurrentWriter(s, q, session.stream, data, true, Landed).value.0;
  }

  /**
   * Committing, after any other operations, the Enqueues of payloads whose
   * data sits in the current data file leaves them at the end of the queue,
   * each holding its payload's bytes.
   */
  lemma CommitStoresPayloads(s: Settings, w: Queue, before: seq<Operation>, ops: seq<Operation>,
                             data: seq<uint8>, position: int, buffer: seq<seq<uint8>>)
    requires |before| + |ops| <= MaxInt32
    requires PayloadsWritten(w, ops, data, position, buffer)
    ensures EndsWithPayloads(CommitTransaction(s, w, before + ops), buffer, w.fileNumber)
  {
    var c := CommitTransaction(s, w, before + ops);
    CommitKeepsCurrentFile(s, w, before + ops);
    CommitEnqueuesLast(s, w, before, ops);
    EndsWithWritten(c, w, ops, data, position, buffer);
  }

  /**
   * A queue that ends with the entries of payload operations, and whose
   * current data file still holds the written data, ends with the payloads.
   */
  lemma EndsWithWritten(c: Queue, w: Queue, ops: seq<Operation>, data: seq<uint8>, position: int,
                        buffer: seq<seq<uint8>>)
    requires PayloadsWritten(w, ops, data, position, buffer)
    requires EndsWithEntries(c, ops)
    requires FileOf(c.files, w.fileNumber) == FileOf(w.files, w.fileNumber)
    ensures EndsWithPayloads(c, buffer, w.fileNumber)
  {
    LandsAt(w.files, w.fileNumber, position, data, ops, buffer);
    var es := Keys(c.idx.entries);
    var added := es[|es| - |buffer|..];
    forall i | 0 <= i < |added|
      ensures added[i].fileNumber == w.fileNumber
      ensures Stored(c.files, added[i]) && BytesOf(c.files, added[i]) == buffer[i]
    {
      var e := EntryOf(ops[i]);
      assert added[i] == e;
      assert PayloadOperation(ops[i], data, position, buffer[i], w.fileNumber);
      StoredInSameFile(w.files, c.files, e);
    }
  }

  /** An entry's bytes depend only on its own data file. */
  lemma StoredInSameFile(files: DataFiles, files': DataFiles, e: Entry)
    requires Stored(files, e) && FileOf(files', e.fileNumber) == FileOf(files, e.fileNumber)
    ensures Stored(files', e) && BytesOf(files', e) == BytesOf(files, e)
  {
  }

  /** A commit that ends with Enqueues leaves their entries at the end of the queue, in order. */
  lemma CommitEnqueuesLast(s: Settings, w: Queue, before: seq<Operation>, ops: seq<Operation>)
    requires |before| + |ops| <= MaxInt32
    requires forall i :: 0 <= i < |ops| ==> ops[i].opType == OperationType.Enqueue
    ensures EndsWithEntries(CommitTransaction(s, w, before + ops), ops)
  {
    if before + ops != [] {
      assert CommitTransaction(s, w, before + ops).idx == ApplyInMemory(w.idx, before + ops).0;
      EnqueuesAppended(w.idx, before, ops);
    }
  }

  // ---------------------------------------------------------------------
  // Disposing
  // ---------------------------------------------------------------------

  /**
   * Session Dispose: the first call reinstates every pending operation and
   * clears the list (buffered payloads are dropped with the session); later
   * calls do nothing.
   */
  function Dispose(s: Settings, q: Queue, session: Session): (r: (Queue, Session))
    ensures session.disposed ==> r == (q, session)
    ensures !session.disposed ==> r.0 == Engine.Reinstate(s, q, session.ops) && r.1.disposed && r.1.ops == []
  {
    if session.disposed then (q, session)
    else (Engine.Reinstate(s, q, session.ops), session.(disposed := true, ops := []))
  }

  /** Disposing twice is disposing once. */
  lemma DisposeOnce(s: Settings, q: Queue, session: Session)
    ensures var (q', session') := Dispose(s, q, session);
      Dispose(s, q', session') == (q', session')
  {
  }

  /**
   * Dequeuing the head of a consistent queue in a fresh session and then
   * disposing the session unflushed puts the queue back as it was: the same
   * identities in the same order, the same checked-out set and counts, and
   * no data file deleted.
   */
  lemma DequeueThenDispose(s: Settings, q: Queue, session: Session)
    requires session.ops == [] && !session.disposed
    requires Consistent(q.idx) && forall f :: f in q.idx.counts ==> q.idx.counts[f] >= 1
    ensures var r := Dequeue(s, q, session);
      var back := Dispose(s, r.0, r.1).0;
      && Keys(back.idx.entries) == Keys(q.idx.entries)
      && Elems(back.idx.checkedOut) == Elems(q.idx.checkedOut)
      && back.idx.counts == q.idx.counts
      && back.files == q.files
  {
    var r := Dequeue(s, q, session);
    assert Dispose(s, r.0, r.1).0 == Engine.Reinstate(s, r.0, r.1.ops);
    if q.idx.entries != [] && r.2.Success? {
      HeadNotCheckedOut(q.idx);
      ReinstateDequeuedHead(s, q, r.0);
    } else {
      assert r.1.ops == [] && Dequeued([]) == [];
      ReinstateRestoresOrder(s, r.0, []);
    }
  }

  /** In a consistent index the head is not checked out. */
  lemma HeadNotCheckedOut(idx: Index)
    requires idx.entries != [] && Consistent(idx)
    ensures idx.entries[0].entry !in idx.checkedOut
  {
    var k := Keys(idx.entries);
    var head := k[0];
    var rest := k[1..] + idx.checkedOut;
    assert k == [head] + k[1..];
    assert Held(idx) == [head] + rest;
    DistinctConcat([head], rest);
    assert head in Elems([head]);
    assert idx.entries[0].entry == head;
  }

  /** Reinstating a checked-out head undoes checking it out. */
  lemma ReinstateDequeuedHead(s: Settings, q: Queue, q1: Queue)
    requires q.idx.entries != [] && q.idx.entries[0].entry !in q.idx.checkedOut
    requires forall f :: f in q1.idx.counts ==> q1.idx.counts[f] >= 1
    requires Keys(q1.idx.entries) == Keys(q.idx.entries)[1..]
    requires Elems(q1.idx.checkedOut) == Elems(q.idx.checkedOut) + {q.idx.entries[0].entry}
    requires q1.idx.counts == q.idx.counts && q1.files == q.files
    ensures var back := Engine.Reinstate(s, q1, [OperationOn(OperationType.Dequeue, q.idx.entries[0].entry)]);
      && Keys(back.idx.entries) == Keys(q.idx.entries)
      && Elems(back.idx.checkedOut) == Elems(q.idx.checkedOut)
      && back.idx.counts == q.idx.counts
      && back.files == q.files
  {
    var head := q.idx.entries[0].entry;
    var ops := [OperationOn(OperationType.Dequeue, head)];
    assert ops[1..] == [];
    assert Dequeued(ops) == [head];
    assert Reverse([head]) == [head];
    ReinstateRestoresOrder(s, q1, ops);
    var k := Keys(q.idx.entries);
    assert k == [head] + k[1..];
  }
}
