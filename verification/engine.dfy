/**
 * The queue engine, PersistentQueueImpl of both trees: the write head and its
 * rollover, committing a transaction to the log, trimming the log, taking
 * items off the queue with read-ahead, reinstating them, and opening a queue
 * from its metadata and log. The state is a value; every public operation
 * returns the new state.
 */
module Engine {
  import opened Bytes
  import opened Wrappers
  import opened Errors
  import opened Constants
  import opened Operations
  import opened Storage
  import opened EntryIndex
  import opened LogCodec
  import opened Replay

  // ---------------------------------------------------------------------
  // State
  // ---------------------------------------------------------------------

  /**
   * The engine's tunables: MaxFileSize, SuggestedReadBuffer,
   * SuggestedMaxTransactionLogSize, TrimTransactionLogOnDispose and
   * (DiskQueue only) ParanoidFlushing.
   */
  datatype Settings = Settings(variant: Variant, maxFileSize: int32, readBuffer: int32,
                               maxLogSize: int64, trimOnDispose: bool, paranoidFlushing: bool)

  /**
   * The constructor's defaults: a 1 MiB read buffer, a 32 MiB log threshold,
   * trimming on dispose and paranoid flushing on.
   */
  function Defaults(variant: Variant, maxFileSize: int32): Settings {
    Settings(variant, maxFileSize, 1024 * 1024, ThirtyTwoMegabytes, true, true)
  }

  /** Whether every commit rewrites the log as its trimmed snapshot; Rhino has no such option. */
  predicate Paranoid(s: Settings) {
    s.variant.DiskQueue? && s.paranoidFlushing
  }

  /**
   * An open queue: the in-memory index, the data files, the transaction log,
   * the meta.state file, and the write head (CurrentFileNumber,
   * CurrentFilePosition).
   */
  datatype Queue = Queue(idx: Index, files: DataFiles, log: seq<uint8>, meta: seq<uint8>,
                         fileNumber: int32, position: int64)

  // ---------------------------------------------------------------------
  // Metadata
  // ---------------------------------------------------------------------

  /** What CommitTransaction writes to meta.state: the file number, then the position. */
  function MetaBytes(fileNumber: int32, position: int64): (bs: seq<uint8>)
    ensures |bs| == 12
  {
    Int32Bytes(fileNumber) + Int64Bytes(position)
  }

  /**
   * ReadMetaState: a file number and a position read with BinaryReader. A
   * missing file reads as empty; a read that runs out of bytes is caught and
   * leaves the field, and every later one, at its initial 0.
   */
  function ReadMetaState(meta: seq<uint8>): (r: (int32, int64))
    ensures |meta| < 4 ==> r == (0, 0)
    ensures 4 <= |meta| ==> Int32Bytes(r.0) == meta[..4]
    ensures |meta| < 12 ==> r.1 == 0
    ensures 12 <= |meta| ==> Int64Bytes(r.1) == meta[4..12]
  {
    if |meta| < 4 then (0, 0)
    else if |meta| < 12 then
      Int32BytesRoundTrip(meta[..4]);
      (Int32Of(meta[..4]), 0)
    else
      Int32BytesRoundTrip(meta[..4]);
      Int64BytesRoundTrip(meta[4..12]);
      (Int32Of(meta[..4]), Int64Of(meta[4..12]))
  }

  /** The metadata written by a commit reads back as the write head it recorded; trailing bytes are ignored. */
  lemma MetaRoundTrip(fileNumber: int32, position: int64, trailing: seq<uint8>)
    ensures ReadMetaState(MetaBytes(fileNumber, position) + trailing) == (fileNumber, position)
  {
    var meta := MetaBytes(fileNumber, position) + trailing;
    assert meta[..4] == Int32Bytes(fileNumber);
    assert meta[4..12] == Int64Bytes(position);
    Int32RoundTrip(fileNumber);
    Int64RoundTrip(position);
  }

  // ---------------------------------------------------------------------
  // The write head
  // ---------------------------------------------------------------------

  /** How a session's write to its data stream ends: on disk, or with an I/O failure. */
  datatype WriteOutcome = Landed | Lost(failure: IoFailure)

  /**
   * AcquireWriter with a session's write action. The stream, open on data
   * file `stream`, is moved to CurrentFilePosition (a negative position
   * raises) and `data` is written there. A synchronous write that fails
   * raises before the position moves; an asynchronous one reports its
   * failure later, and the action returns the advanced position at once.
   * When the new position reaches MaxFileSize the engine moves to the next
   * file number, pre-sizes that file to the position just reached, starts it
   * at 0 and hands the session a stream on it. The result carries the file
   * the session's stream is on afterwards.
   */
  function AcquireWriter(s: Settings, q: Queue, stream: int32, data: seq<uint8>, sync: bool,
                         outcome: WriteOutcome): (r: Result<(Queue, int32), Error>)
    requires q.position + |data| <= MaxInt64
    ensures q.position < 0 ==> r == Failure(NegativePosition(q.position))
    ensures 0 <= q.position && sync && outcome.Lost? ==> r == Failure(WriteFailed(outcome.failure))
    ensures r.Success? <==> 0 <= q.position && (!sync || outcome.Landed?)
    ensures r.Success? ==>
      var (q', stream') := r.value;
      var p := q.position + |data|;
      && q'.idx == q.idx && q'.log == q.log && q'.meta == q.meta
      && (outcome.Landed? && stream != q'.fileNumber ==>
            p <= |FileOf(q'.files, stream)| && FileOf(q'.files, stream)[q.position..p] == data)
      && (p < s.maxFileSize ==> q'.fileNumber == q.fileNumber && q'.position == p && stream' == stream)
      && (s.maxFileSize <= p ==>
            && q'.fileNumber == Wrap32(q.fileNumber + 1) && q'.position == 0 && stream' == q'.fileNumber
            && |FileOf(q'.files, q'.fileNumber)| == p)
  {
    if q.position < 0 then Failure(NegativePosition(q.position))
    else if sync && outcome.Lost? then Failure(WriteFailed(outcome.failure))
    else
      var files := if outcome.Landed? then q.files[stream := WriteAt(FileOf(q.files, stream), q.position, data)] else q.files;
      var p: int64 := q.position + |data|;
      assert outcome.Landed? ==> FileOf(files, stream)[q.position..p] == data;
      if p < s.maxFileSize then Success((q.(files := files, position := p), stream))
      else
        var next := Wrap32(q.fileNumber + 1);
        var files' := files[next := SetLength(FileOf(files, next), p)];
        assert stream != next ==> FileOf(files', stream) == FileOf(files, stream);
        Success((q.(files := files', fileNumber := next, position := 0), next))
  }

  /**
   * AcquireWriter as evidently intended: the session's data goes to the
   * current data file, the one its operations name, so a session whose
   * stream was left on an older file is first handed a stream on the current
   * one. The data lands at the write head of the current file, no other
   * file changes except the one a rollover pre-sizes, and the session's
   * stream is on the current file afterwards.
   */
  function AcquireCurrentWriter(s: Settings, q: Queue, stream: int32, data: seq<uint8>, sync: bool,
                                outcome: WriteOutcome): (r: Result<(Queue, int32), Error>)
    requires q.position + |data| <= MaxInt64
    ensures r.Success? <==> 0 <= q.position && (!sync || outcome.Landed?)
    ensures r.Failure? ==> r == AcquireWriter(s, q, stream, data, sync, outcome)
    ensures r.Success? ==>
      var (q', stream') := r.value;
      var p := q.position + |data|;
      var written := FileOf(q'.files, q.fileNumber);
      && q'.idx == q.idx && q'.log == q.log && q'.meta == q.meta
      && stream' == q'.fileNumber
      && (outcome.Landed? ==> p <= |written| && written[q.position..p] == data)
      && (outcome.Landed? ==> forall i :: 0 <= i < |FileOf(q.files, q.fileNumber)| && (i < q.position || p <= i) ==>
            i < |written| && written[i] == FileOf(q.files, q.fileNumber)[i])
      && (outcome.Lost? ==> written == FileOf(q.files, q.fileNumber))
      && (forall f :: f != q.fileNumber && f != q'.fileNumber ==> FileOf(q'.files, f) == FileOf(q.files, f))
      && (p < s.maxFileSize ==> q'.fileNumber == q.fileNumber && q'.position == p)
      && (s.maxFileSize <= p ==>
            && q'.fileNumber == Wrap32(q.fileNumber + 1) && q'.position == 0
            && |FileOf(q'.files, q'.fileNumber)| == p)
  {
    var r := AcquireWriter(s, q, q.fileNumber, data, sync, outcome);
    if r.Success? then
      CurrentWriterFiles(s, q, data, sync, outcome);
      r
    else r
  }

  /** What a successful write through a stream on the current file does to the data files. */
  lemma CurrentWriterFiles(s: Settings, q: Queue, data: seq<uint8>, sync: bool, outcome: WriteOutcome)
    requires q.position + |data| <= MaxInt64
    requires 0 <= q.position && (!sync || outcome.Landed?)
    ensures var r := AcquireWriter(s, q, q.fileNumber, data, sync, outcome);
      var before := FileOf(q.files, q.fileNumber);
      var written := FileOf(r.value.0.files, q.fileNumber);
      && r.Success?
      && (outcome.Landed? ==> written == WriteAt(before, q.position, data))
      && (outcome.Lost? ==> written == before)
      && (forall f :: f != q.fileNumber && f != r.value.0.fileNumber ==> FileOf(r.value.0.files, f) == FileOf(q.files, f))
  {
    var files := if outcome.Landed? then q.files[q.fileNumber := WriteAt(FileOf(q.files, q.fileNumber), q.position, data)] else q.files;
    var p := q.position + |data|;
    if s.maxFileSize <= p {
      var next := Wrap32(q.fileNumber + 1);
      assert next != q.fileNumber by {
        assert (next - (q.fileNumber + 1)) % 0x1_0000_0000 == 0;
      }
      assert FileOf(files[next := SetLength(FileOf(files, next), p)], q.fileNumber) == FileOf(files, q.fileNumber);
    }
  }

  /**
   * A session opened on data file 0 whose queue another session has since
   * rolled over to file 1 (pre-sized to 4 bytes of zeros, write head at 0):
   * as written, its two bytes overwrite the start of file 0 while the entry
   * it records is bytes 0 to 2 of file 1, which still read as zeros. The
   * corrected writer puts them where the entry says.
   */
  lemma StaleStreamMisplacesData()
    ensures var s := Defaults(DiskQueue(true), 4);
      var q := Queue(EmptyIndex, map[0 := [1, 2, 3, 4], 1 := [0, 0, 0, 0]], [], [], 1, 0);
      var e := Entry(1, 0, 2);
      var asWritten := AcquireWriter(s, q, 0, [9, 9], true, Landed);
      var corrected := AcquireCurrentWriter(s, q, 0, [9, 9], true, Landed);
      && asWritten.Success? && corrected.Success?
      && asWritten.value.0.files == map[0 := [9, 9, 3, 4], 1 := [0, 0, 0, 0]]
      && Stored(asWritten.value.0.files, e) && BytesOf(asWritten.value.0.files, e) == [0, 0]
      && corrected.value.0.files == map[0 := [1, 2, 3, 4], 1 := [9, 9, 0, 0]]
      && Stored(corrected.value.0.files, e) && BytesOf(corrected.value.0.files, e) == [9, 9]
  {
    var old0: seq<uint8> := [1, 2, 3, 4];
    var old1: seq<uint8> := [0, 0, 0, 0];
    var data: seq<uint8> := [9, 9];
    var w0 := WriteAt(old0, 0, data);
    var w1 := WriteAt(old1, 0, data);
    assert w0 == [9, 9, 3, 4] by {
      assert |w0| == 4 && w0[0..2] == data;
    }
    assert w1 == [9, 9, 0, 0] by {
      assert |w1| == 4 && w1[0..2] == data;
    }
    assert old1[0..2] == [0, 0];
    assert w1[0..2] == data;
  }

  // ---------------------------------------------------------------------
  // Committing
  // ---------------------------------------------------------------------

  /**
   * GetOptimalTransactionLogSize: 16 bytes of start marker, 4 of count and
   * 16 per item (the records on disk take 17). The per-item product is taken
   * in unchecked int arithmetic and only then widened to long, so it wraps
   * from 2^27 items. The item count is itself an int sum, which wraps to the
   * same residue.
   */
  function OptimalLogSize(idx: Index): (n: int)
    ensures 16 * idx.EstimatedCount() <= MaxInt32 ==> |TrimmedLog(idx)| == n + 16 + idx.EstimatedCount()
    ensures -0x8000_0000 <= n - 20 <= MaxInt32
    ensures (n - 20 - 16 * idx.EstimatedCount()) % 0x1_0000_0000 == 0
  {
    16 + 4 + Wrap32(16 * idx.EstimatedCount())
  }

  /**
   * TrimTransactionLogIfNeeded's test: the log has reached the suggested
   * maximum and is at least twice the optimal size. While the estimate does
   * not wrap, a log judged worth trimming is longer than its snapshot.
   */
  predicate NeedsTrim(s: Settings, logSize: int, idx: Index)
    ensures NeedsTrim(s, logSize, idx) && 16 * idx.EstimatedCount() <= MaxInt32 ==> |TrimmedLog(idx)| < logSize
  {
    s.maxLogSize <= logSize && 2 * OptimalLogSize(idx) <= logSize
  }

  /**
   * From 2^27 items the wrapped estimate is negative, so any log past the
   * suggested maximum is trimmed, even one exactly as long as its snapshot.
   */
  lemma WrappedEstimateTrims(s: Settings, idx: Index)
    requires idx.EstimatedCount() == 0x800_0000 && s.maxLogSize <= |TrimmedLog(idx)|
    ensures OptimalLogSize(idx) == 20 - 0x8000_0000
    ensures NeedsTrim(s, |TrimmedLog(idx)|, idx)
  {
    assert 16 * idx.EstimatedCount() == 0x8000_0000;
  }

  /**
   * CommitTransaction. An empty list changes nothing. Otherwise the framed
   * transaction is appended to the log, the operations are applied (deleting
   * exhausted data files other than the current one), the log is replaced by
   * its trimmed snapshot if it grew large enough, the write head is recorded
   * in meta.state and, with paranoid flushing, the log is replaced by the
   * snapshot in any case.
   */
  function CommitTransaction(s: Settings, q: Queue, ops: seq<Operation>): (r: Queue)
    requires |ops| <= MaxInt32
    ensures ops == [] ==> r == q
    ensures ops != [] ==>
      var (idx, files) := ApplyTransactionOperations(q.idx, q.files, q.fileNumber, ops);
      var appended := q.log + TransactionBytes(ops);
      && r.idx == idx && r.files == files
      && r.fileNumber == q.fileNumber && r.position == q.position
      && ReadMetaState(r.meta) == (q.fileNumber, q.position)
      && (Paranoid(s) || NeedsTrim(s, |appended|, idx) ==> r.log == TrimmedLog(idx))
      && (!Paranoid(s) && !NeedsTrim(s, |appended|, idx) ==> r.log == appended)
  {
    if ops == [] then q
    else
      var (idx, files) := ApplyTransactionOperations(q.idx, q.files, q.fileNumber, ops);
      var appended := q.log + TransactionBytes(ops);
      var log := if NeedsTrim(s, |appended|, idx) then TrimmedLog(idx) else appended;
      MetaRoundTrip(q.fileNumber, q.position, []);
      assert MetaBytes(q.fileNumber, q.position) + [] == MetaBytes(q.fileNumber, q.position);
      Queue(idx, files, if Paranoid(s) then TrimmedLog(idx) else log,
            MetaBytes(q.fileNumber, q.position), q.fileNumber, q.position)
  }

  /** A commit never deletes the current data file, nor changes its bytes. */
  lemma CommitKeepsCurrentFile(s: Settings, q: Queue, ops: seq<Operation>)
    requires |ops| <= MaxInt32
    ensures FileOf(CommitTransaction(s, q, ops).files, q.fileNumber) == FileOf(q.files, q.fileNumber)
  {
  }

  /**
   * A commit of operations the engine can issue keeps the index invariant,
   * and every data file it deletes holds no live item.
   */
  lemma CommitConsistent(s: Settings, q: Queue, ops: seq<Operation>)
    requires |ops| <= MaxInt32 && Consistent(q.idx) && AdmissibleAll(q.idx, ops)
    ensures var r := CommitTransaction(s, q, ops);
      && Consistent(r.idx)
      && forall f :: f in q.files && f !in r.files ==> Live(r.idx, f) == 0
  {
    ApplyInMemoryConsistent(q.idx, ops);
  }

  // ---------------------------------------------------------------------
  // Reinstating
  // ---------------------------------------------------------------------

  /**
   * The operations Reinstate applies for a session's pending list: one
   * Reinstate per Dequeue, in reverse session order in DiskQueue and in
   * session order in Rhino.
   */
  function Reinstated(variant: Variant, ops: seq<Operation>): (r: seq<Operation>)
    ensures variant.DiskQueue? ==> r == ReinstateAll(Reverse(Dequeued(ops)))
    ensures variant.Rhino? ==> r == ReinstateAll(Dequeued(ops))
  {
    if variant.DiskQueue? then
      DequeuedReverse(ops);
      ReinstateAll(Dequeued(Reverse(ops)))
    else ReinstateAll(Dequeued(ops))
  }

  /** Filtering the Dequeue operations commutes with reversing the list. */
  lemma {:induction false} DequeuedReverse(ops: seq<Operation>)
    ensures Dequeued(Reverse(ops)) == Reverse(Dequeued(ops))
    decreases |ops|
  {
    if ops != [] {
      var last := ops[|ops| - 1];
      var init := ops[..|ops| - 1];
      var d := if last.opType.Dequeue? then [EntryOf(last)] else [];
      assert ops == init + [last];
      assert Reverse(ops) == [last] + Reverse(init);
      assert ([last] + Reverse(init))[1..] == Reverse(init);
      assert Dequeued(Reverse(ops)) == d + Dequeued(Reverse(init));
      DequeuedReverse(init);
      DequeuedSnoc(init, last);
      ReverseAppend(Dequeued(init), d);
      assert Reverse(d) == d;
    }
  }

  lemma ReverseAppend<T>(a: seq<T>, b: seq<T>)
    ensures Reverse(a + b) == Reverse(b) + Reverse(a)
  {
  }

  lemma {:induction false} DequeuedSnoc(ops: seq<Operation>, op: Operation)
    ensures Dequeued(ops + [op]) == Dequeued(ops) + (if op.opType.Dequeue? then [EntryOf(op)] else [])
    decreases |ops|
  {
    if ops == [] {
      assert ops + [op] == [op];
    } else {
      assert (ops + [op])[1..] == ops[1..] + [op];
      DequeuedSnoc(ops[1..], op);
    }
  }

  /** Reinstate: the reinstating operations applied like a committed transaction, without touching the log. */
  function Reinstate(s: Settings, q: Queue, ops: seq<Operation>): (r: Queue)
    ensures var rs := Reinstated(s.variant, ops);
      && r.idx == ApplyInMemory(q.idx, rs).0
      && r.files == DeleteFiles(q.files, ApplyInMemory(q.idx, rs).1, q.fileNumber)
      && r.log == q.log && r.meta == q.meta && r.fileNumber == q.fileNumber && r.position == q.position
  {
    var (idx, files) := ApplyTransactionOperations(q.idx, q.files, q.fileNumber, Reinstated(s.variant, ops));
    q.(idx := idx, files := files)
  }

  lemma ReverseReverse<T>(s: seq<T>)
    ensures Reverse(Reverse(s)) == s
  {
  }

  lemma ElemsReverse<T>(s: seq<T>)
    ensures Elems(Reverse(s)) == Elems(s)
  {
    assert forall x :: x in Reverse(s) ==> x in s;
    assert forall i :: 0 <= i < |s| ==> s[i] == Reverse(s)[|s| - 1 - i];
  }

  /** With every count at least one, no data file is exhausted and none is deleted. */
  lemma NothingExhausted(idx: Index, files: DataFiles, current: int32)
    requires forall f :: f in idx.counts ==> idx.counts[f] >= 1
    ensures Exhausted(idx.counts) == {}
    ensures DeleteFiles(files, Exhausted(idx.counts), current) == files
  {
  }

  /**
   * Reinstating a session's dequeued items, where every data file's count is
   * at least one (as it is after any commit or replay): DiskQueue puts them
   * back at the head in the order they were dequeued, Rhino in reverse
   * order; either way they leave the checked-out set, the counts stay and
   * no data file is deleted.
   */
  lemma ReinstateRestoresOrder(s: Settings, q: Queue, ops: seq<Operation>)
    requires forall f :: f in q.idx.counts ==> q.idx.counts[f] >= 1
    ensures var es := Dequeued(ops);
      var r := Reinstate(s, q, ops);
      && (s.variant.DiskQueue? ==> Keys(r.idx.entries) == es + Keys(q.idx.entries))
      && (s.variant.Rhino? ==> Keys(r.idx.entries) == Reverse(es) + Keys(q.idx.entries))
      && Elems(r.idx.checkedOut) == Elems(q.idx.checkedOut) - Elems(es)
      && r.idx.counts == q.idx.counts
      && r.files == q.files
  {
    var es := Dequeued(ops);
    var back := if s.variant.DiskQueue? then Reverse(es) else es;
    assert Reinstated(s.variant, ops) == ReinstateAll(back);
    ApplyReinstates(q.idx, back);
    ReverseReverse(es);
    ElemsReverse(es);
    var mid := ApplyOperations(q.idx, ReinstateAll(back));
    NothingExhausted(mid, q.files, q.fileNumber);
    assert ApplyInMemory(q.idx, ReinstateAll(back)).0.counts == mid.counts;
  }

  /**
   * Reinstate keeps the index invariant when every reinstated item is
   * checked out and no item is dequeued twice by the session.
   */
  lemma ReinstateKeepsInvariant(s: Settings, q: Queue, ops: seq<Operation>)
    requires Consistent(q.idx) && AdmissibleAll(q.idx, Reinstated(s.variant, ops))
    ensures Consistent(Reinstate(s, q, ops).idx)
  {
    ApplyInMemoryConsistent(q.idx, Reinstated(s.variant, ops));
  }

  // ---------------------------------------------------------------------
  // Taking an item off the queue
  // ---------------------------------------------------------------------

  /**
   * The first loop of ReadAhead, from the i-th queued entry on: an entry
   * joins the span if it equals the last one taken (Entry's value equality)
   * or continues it in the same file (the end offset computed in unchecked
   * int arithmetic), and if the running size stays within the read buffer.
   * The result is the last entry taken, the running size, and where the
   * loop stopped.
   */
  function Scan(es: seq<Entry>, readBuffer: int, i: nat, last: Entry, size: int): (r: (Entry, int, nat))
    requires i <= |es|
    ensures i <= r.2 <= |es|
    decreases |es| - i
  {
    if i == |es| then (last, size, i)
    else
      var e := es[i];
      if e != last && (e.fileNumber != last.fileNumber || e.start != Wrap32(last.start + last.length)) then
        (last, size, i)
      else if size + e.length > readBuffer then (last, size, i)
      else Scan(es, readBuffer, i + 1, e, size + e.length)
  }

  /**
   * The span ReadAhead reads for a non-empty queue: the last entry of it, and
   * the buffer size, which is the head's own length when the last entry
   * taken equals the head (in particular when the head alone exceeds the
   * read buffer).
   */
  function Span(es: seq<Entry>, readBuffer: int): (r: (Entry, int))
    requires es != []
  {
    var (last, size, _) := Scan(es, readBuffer, 0, es[0], 0);
    if last == es[0] then (last, es[0].length) else (last, size)
  }

  /**
   * The second loop of ReadAhead: from the i-th slot on, each entry gets the
   * next `Length` bytes of the buffer as its data, up to and including the
   * first entry equal to `last`. A negative length raises before the entry
   * gets an array; a slice past the buffer's end raises after the entry got
   * its zeroed array. Data already handed out stays in place either way.
   */
  function Fill(slots: seq<Slot>, buffer: seq<uint8>, i: nat, index: nat, last: Entry): (r: (seq<Slot>, Option<Error>))
    requires i <= |slots|
    ensures Keys(r.0) == Keys(slots)
    decreases |slots| - i
  {
    if i == |slots| then (slots, None)
    else
      var e := slots[i].entry;
      if e.length < 0 then (slots, Some(NegativeBufferSize(e.length)))
      else if |buffer| < index + e.length then
        var zeroed := slots[i := Slot(e, Some(Zeros(e.length)))];
        KeysUpdate(slots, i, zeroed[i]);
        (zeroed, Some(SliceOutOfRange))
      else
        var filled := slots[i := Slot(e, Some(buffer[index..index + e.length]))];
        KeysUpdate(slots, i, filled[i]);
        if e == last then (filled, None)
        else Fill(filled, buffer, i + 1, index + e.length, last)
  }

  lemma KeysUpdate(slots: seq<Slot>, i: nat, slot: Slot)
    requires i < |slots| && slot.entry == slots[i].entry
    ensures Keys(slots[i := slot]) == Keys(slots)
  {
    var r := slots[i := slot];
    assert forall j :: 0 <= j < |r| ==> Keys(r)[j] == Keys(slots)[j];
  }

  /**
   * ReadEntriesFromFile as written: a zeroed buffer of the span's size
   * (negative sizes raise), which DiskQueue returns unread when the head's
   * length is below one; otherwise the data file is read from the head's
   * start until the buffer is full.
   */
  function ReadEntriesFromFile(variant: Variant, files: DataFiles, first: Entry, size: int): (r: Result<seq<uint8>, Error>)
    ensures size < 0 ==> r == Failure(NegativeBufferSize(size))
    ensures 0 <= size && variant.DiskQueue? && first.length < 1 ==> r == Success(Zeros(size))
    ensures 0 <= size && (variant.Rhino? || 1 <= first.length) ==> r == ReadFully(FileOf(files, first.fileNumber), first.start, size)
  {
    if size < 0 then Failure(NegativeBufferSize(size))
    else if variant.DiskQueue? && first.length < 1 then Success(Zeros(size))
    else ReadFully(FileOf(files, first.fileNumber), first.start, size)
  }

  /**
   * ReadEntriesFromFile as evidently intended: an empty span needs no read,
   * and any other span is read from the data file.
   */
  function ReadSpan(files: DataFiles, first: Entry, size: int): (r: Result<seq<uint8>, Error>)
    ensures r.Success? ==> |r.value| == if size < 0 then 0 else size
    ensures 0 <= size && 0 <= first.start && first.start + size <= |FileOf(files, first.fileNumber)| ==>
      r == Success(FileOf(files, first.fileNumber)[first.start..first.start + size])
  {
    if size < 0 then Failure(NegativeBufferSize(size))
    else if size == 0 then
      var file := FileOf(files, first.fileNumber);
      assert 0 <= first.start <= |file| ==> file[first.start..first.start] == [];
      Success([])
    else ReadFully(FileOf(files, first.fileNumber), first.start, size)
  }

  /** ReadAhead with the buffer a read of the span produced. */
  function FillSpan(slots: seq<Slot>, readBuffer: int, buffer: Result<seq<uint8>, Error>): (r: (seq<Slot>, Option<Error>))
    requires slots != []
    ensures Keys(r.0) == Keys(slots)
  {
    match buffer
    case Failure(e) => (slots, Some(e))
    case Success(bs) => Fill(slots, bs, 0, 0, Span(Keys(slots), readBuffer).0)
  }

  /** ReadAhead as written, for a non-empty queue. */
  function ReadAheadAsWritten(variant: Variant, files: DataFiles, readBuffer: int, slots: seq<Slot>): (r: (seq<Slot>, Option<Error>))
    requires slots != []
    ensures Keys(r.0) == Keys(slots)
  {
    var es := Keys(slots);
    FillSpan(slots, readBuffer, ReadEntriesFromFile(variant, files, es[0], Span(es, readBuffer).1))
  }

  /** ReadAhead with the corrected read, which Dequeue uses. */
  function ReadAhead(files: DataFiles, readBuffer: int, slots: seq<Slot>): (r: (seq<Slot>, Option<Error>))
    requires slots != []
    ensures Keys(r.0) == Keys(slots)
  {
    var es := Keys(slots);
    FillSpan(slots, readBuffer, ReadSpan(files, es[0], Span(es, readBuffer).1))
  }

  /**
   * Dequeue: nothing on an empty queue. Otherwise the head's data is read
   * ahead if it has none; an exception from that leaves the head queued.
   * Then the head leaves the queue, a data-less copy of it joins the
   * checked-out set, and the head is returned with its data.
   */
  function Dequeue(s: Settings, q: Queue): (r: (Queue, Result<Option<Slot>, Error>))
    ensures q.idx.entries == [] ==> r == (q, Success(None))
    ensures r.0.files == q.files && r.0.log == q.log && r.0.meta == q.meta
    ensures r.0.fileNumber == q.fileNumber && r.0.position == q.position && r.0.idx.counts == q.idx.counts
    ensures r.1.Failure? ==> Keys(r.0.idx.entries) == Keys(q.idx.entries) && r.0.idx.checkedOut == q.idx.checkedOut
    ensures r.1.Success? && q.idx.entries != [] ==>
      && r.1.value.Some? && r.1.value.value.entry == q.idx.entries[0].entry
      && Keys(r.0.idx.entries) == Keys(q.idx.entries)[1..]
      && Elems(r.0.idx.checkedOut) == Elems(q.idx.checkedOut) + {q.idx.entries[0].entry}
  {
    if q.idx.entries == [] then (q, Success(None))
    else
      var slots := q.idx.entries;
      var (filled, err) := if slots[0].data.None? then ReadAhead(q.files, s.readBuffer, slots) else (slots, None);
      var idx := q.idx.(entries := filled);
      if err.Some? then (q.(idx := idx), Failure(err.value))
      else
        assert filled[0].entry == Keys(filled)[0] == Keys(slots)[0];
        (q.(idx := CheckOutHead(idx)), Success(Some(filled[0])))
  }

  // ---------------------------------------------------------------------
  // Read-ahead serves every entry its own bytes
  // ---------------------------------------------------------------------

  /** An entry whose bytes lie inside its data file (and whose end offset fits an int). */
  predicate Stored(files: DataFiles, e: Entry) {
    && 0 <= e.start && 0 <= e.length
    && e.start + e.length <= |FileOf(files, e.fileNumber)|
    && e.start + e.length <= MaxInt32
  }

  /** The bytes of a stored entry. */
  function BytesOf(files: DataFiles, e: Entry): (bs: seq<uint8>)
    requires Stored(files, e)
    ensures |bs| == e.length
  {
    FileOf(files, e.fileNumber)[e.start..e.start + e.length]
  }

  /** Entries with non-negative offsets whose end offsets fit an int. */
  predicate Sane(es: seq<Entry>) {
    forall j :: 0 <= j < |es| ==> 0 <= es[j].start && 0 <= es[j].length && es[j].start + es[j].length <= MaxInt32
  }

  /** The first m entries follow one another without a gap in one file. */
  predicate Contiguous(es: seq<Entry>, m: nat)
    requires m <= |es|
  {
    forall j :: 1 <= j < m ==> es[j].fileNumber == es[j - 1].fileNumber && es[j].start == es[j - 1].start + es[j - 1].length
  }

  /** Where the first m entries end, relative to the head's start. */
  function SpanSize(es: seq<Entry>, m: nat): int
    requires 1 <= m <= |es|
  {
    es[m - 1].start + es[m - 1].length - es[0].start
  }

  /**
   * With distinct, sane entries, the scan from the i-th entry keeps taking
   * entries while they continue the span: it ends after some entry k - 1,
   * the running size is where that entry ends, and the entries taken are
   * contiguous.
   */
  lemma {:induction false} ScanTakesContiguous(es: seq<Entry>, readBuffer: int, i: nat, last: Entry, size: int)
    returns (k: nat)
    requires 1 <= i <= |es| && Distinct(es) && Sane(es)
    requires last == es[i - 1] && size == SpanSize(es, i) && Contiguous(es, i)
    ensures i <= k <= |es| && Scan(es, readBuffer, i, last, size) == (es[k - 1], SpanSize(es, k), k)
    ensures Contiguous(es, k)
    decreases |es| - i
  {
    k := i;
    if i < |es| {
      var takes := ScanStep(es, readBuffer, i, last, size);
      if takes {
        var next, grown := es[i], SpanSize(es, i + 1);
        k := ScanTakesContiguous(es, readBuffer, i + 1, next, grown);
      }
    }
  }

  /**
   * One step of the scan over distinct, sane entries: the i-th entry is not
   * the last one taken, so the scan either stops at i or takes the i-th
   * entry, which then continues the contiguous run.
   */
  lemma ScanStep(es: seq<Entry>, readBuffer: int, i: nat, last: Entry, size: int) returns (takes: bool)
    requires 1 <= i < |es| && Distinct(es) && Sane(es)
    requires last == es[i - 1] && size == SpanSize(es, i) && Contiguous(es, i)
    ensures !takes ==> Scan(es, readBuffer, i, last, size) == (last, size, i)
    ensures takes ==> Scan(es, readBuffer, i, last, size) == Scan(es, readBuffer, i + 1, es[i], SpanSize(es, i + 1))
    ensures takes ==> Contiguous(es, i + 1)
  {
    var e := es[i];
    assert e != last;
    Wrap32InRange(last.start + last.length);
    takes := e.fileNumber == last.fileNumber && e.start == last.start + last.length && size + e.length <= readBuffer;
  }

  /**
   * The span of a queue of distinct, sane entries is its first m entries
   * for some m >= 1: they are contiguous, the last of them is the span's
   * last entry and the buffer size is where it ends.
   */
  lemma SpanIsContiguous(es: seq<Entry>, readBuffer: int) returns (m: nat)
    requires es != [] && Distinct(es) && Sane(es)
    ensures 1 <= m <= |es| && Contiguous(es, m)
    ensures Span(es, readBuffer) == (es[m - 1], SpanSize(es, m))
  {
    if es[0].length > readBuffer {
      assert Scan(es, readBuffer, 0, es[0], 0) == (es[0], 0, 0);
      m := 1;
    } else {
      assert Scan(es, readBuffer, 0, es[0], 0) == Scan(es, readBuffer, 1, es[0], es[0].length);
      var k := ScanTakesContiguous(es, readBuffer, 1, es[0], es[0].length);
      m := k;
      if es[k - 1] == es[0] {
        assert k == 1;
      }
    }
  }

  /** Every one of the first m entries lies between the head's start and the m-th entry's end, in the head's file. */
  predicate WithinSpan(es: seq<Entry>, m: nat)
    requires 1 <= m <= |es|
  {
    forall j :: 0 <= j < m ==>
      && es[j].fileNumber == es[0].fileNumber
      && es[0].start <= es[j].start
      && es[j].start + es[j].length <= es[m - 1].start + es[m - 1].length
  }

  /** A contiguous run of sane entries lies within its span. */
  lemma {:induction false} ContiguousBounds(es: seq<Entry>, m: nat)
    requires 1 <= m <= |es| && Sane(es) && Contiguous(es, m)
    ensures WithinSpan(es, m)
    decreases m
  {
    if m > 1 {
      ContiguousBounds(es, m - 1);
    }
  }

  lemma SliceOfSlice(file: seq<uint8>, a: nat, b: nat, c: nat, d: nat)
    requires a <= b <= |file| && c <= d <= b - a
    ensures file[a..b][c..d] == file[a + c..a + d]
  {
    var inner := file[a..b];
    assert forall i :: c <= i < d ==> inner[i] == file[a + i];
  }

  /**
   * Filling from the i-th entry of a contiguous span, with the buffer holding
   * the span's bytes: entries i to m - 1 each get their own bytes, the filling
   * stops there, and no exception is raised.
   */
  lemma {:induction false} FillServesSpan(slots: seq<Slot>, es: seq<Entry>, file: seq<uint8>, buffer: seq<uint8>,
                                          i: nat, index: nat, m: nat)
    requires Keys(slots) == es && Distinct(es) && Sane(es)
    requires i < m <= |es| && Contiguous(es, m) && WithinSpan(es, m)
    requires es[m - 1].start + es[m - 1].length <= |file|
    requires buffer == file[es[0].start..es[m - 1].start + es[m - 1].length]
    requires index == es[i].start - es[0].start
    ensures var r := Fill(slots, buffer, i, index, es[m - 1]);
      && r.1 == None && |r.0| == |slots|
      && (forall j :: 0 <= j < |slots| && (j < i || m <= j) ==> r.0[j] == slots[j])
      && (forall j :: i <= j < m ==> r.0[j] == Slot(es[j], Some(file[es[j].start..es[j].start + es[j].length])))
    decreases m - i
  {
    var e := slots[i].entry;
    assert e == es[i];
    SliceOfSlice(file, es[0].start, es[m - 1].start + es[m - 1].length, index, index + e.length);
    var filled := slots[i := Slot(e, Some(buffer[index..index + e.length]))];
    KeysUpdate(slots, i, filled[i]);
    if e != es[m - 1] {
      assert i + 1 < m;
      FillServesSpan(filled, es, file, buffer, i + 1, index + e.length, m);
    }
  }

  /**
   * Read-ahead over distinct entries that all lie inside their data files
   * raises nothing and gives the head, and possibly further entries, exactly
   * their own bytes; every other entry is left as it was.
   */
  lemma ReadAheadServes(files: DataFiles, readBuffer: int, slots: seq<Slot>)
    requires slots != [] && Distinct(Keys(slots))
    requires forall j :: 0 <= j < |slots| ==> Stored(files, slots[j].entry)
    ensures var r := ReadAhead(files, readBuffer, slots);
      && r.1 == None && |r.0| == |slots|
      && r.0[0] == Slot(slots[0].entry, Some(BytesOf(files, slots[0].entry)))
      && forall j :: 0 <= j < |slots| ==>
           r.0[j] == slots[j] || r.0[j] == Slot(slots[j].entry, Some(BytesOf(files, slots[j].entry)))
  {
    var es := Keys(slots);
    assert Sane(es);
    var m := SpanIsContiguous(es, readBuffer);
    ContiguousBounds(es, m);
    var file := FileOf(files, es[0].fileNumber);
    assert Stored(files, es[m - 1]);
    var size := SpanSize(es, m);
    assert ReadSpan(files, es[0], size) == Success(file[es[0].start..es[0].start + size]);
    FillServesSpan(slots, es, file, file[es[0].start..es[0].start + size], 0, 0, m);
  }

  /**
   * The queued entries are distinct and lie inside their data files, and
   * every one already read ahead holds its own bytes.
   */
  predicate Served(q: Queue) {
    && Distinct(Keys(q.idx.entries))
    && forall j :: 0 <= j < |q.idx.entries| ==>
         && Stored(q.files, q.idx.entries[j].entry)
         && (q.idx.entries[j].data.Some? ==> q.idx.entries[j].data.value == BytesOf(q.files, q.idx.entries[j].entry))
  }

  lemma DistinctTail<T>(s: seq<T>)
    requires s != [] && Distinct(s)
    ensures Distinct(s[1..])
  {
    assert s == [s[0]] + s[1..];
    DistinctConcat([s[0]], s[1..]);
  }

  /**
   * Dequeue from a served, non-empty queue succeeds and returns the head
   * with exactly the bytes stored for it, and the queue stays served.
   */
  lemma DequeueServes(s: Settings, q: Queue)
    requires q.idx.entries != [] && Served(q)
    ensures var r := Dequeue(s, q);
      && r.1 == Success(Some(Slot(q.idx.entries[0].entry, Some(BytesOf(q.files, q.idx.entries[0].entry)))))
      && Served(r.0)
  {
    var slots := q.idx.entries;
    var filled := if slots[0].data.None? then ReadAhead(q.files, s.readBuffer, slots).0 else slots;
    if slots[0].data.None? {
      ReadAheadServes(q.files, s.readBuffer, slots);
    }
    assert Keys(filled) == Keys(slots);
    assert forall j :: 0 <= j < |filled| ==> filled[j].entry == Keys(filled)[j] == Keys(slots)[j] == slots[j].entry;
    var r := Dequeue(s, q);
    assert r.0.idx.entries == filled[1..];
    DistinctTail(Keys(slots));
    assert Keys(filled[1..]) == Keys(slots)[1..];
  }

  /** Dequeue keeps the index invariant, whether it succeeds or raises. */
  lemma DequeueKeepsInvariant(s: Settings, q: Queue)
    requires Consistent(q.idx)
    ensures Consistent(Dequeue(s, q).0.idx)
  {
    var r := Dequeue(s, q);
    if q.idx.entries != [] {
      var slots := q.idx.entries;
      var filled := if slots[0].data.None? then ReadAhead(q.files, s.readBuffer, slots).0 else slots;
      var idx := q.idx.(entries := filled);
      assert Held(idx) == Held(q.idx);
      assert Consistent(idx);
      if r.1.Success? {
        CheckOutHeadConsistent(idx);
      }
    }
  }

  // ---------------------------------------------------------------------
  // Reading an empty head
  // ---------------------------------------------------------------------

  /**
   * Rhino: a queue whose head is a lone zero-length entry reads a span of
   * size zero, and the read loop raises on it, so the item can never be
   * dequeued. The corrected read hands it its empty data.
   */
  lemma EmptyHeadNeverDequeues()
    ensures var slots := [Slot(Entry(0, 0, 0), None)];
      && ReadAheadAsWritten(Rhino, map[], 1048576, slots) == (slots, Some(EndOfDataFile))
      && ReadAhead(map[], 1048576, slots) == ([Slot(Entry(0, 0, 0), Some([]))], None)
  {
    var slots := [Slot(Entry(0, 0, 0), None)];
    var es := Keys(slots);
    assert es == [Entry(0, 0, 0)];
    assert Scan(es, 1048576, 0, es[0], 0) == Scan(es, 1048576, 1, es[0], 0);
    assert Span(es, 1048576) == (Entry(0, 0, 0), 0);
    assert ReadSpan(map[], Entry(0, 0, 0), 0) == Success([]);
    var empty: seq<uint8> := [];
    assert empty[0..0] == [];
    assert slots[0 := Slot(Entry(0, 0, 0), Some(empty[0..0]))] == [Slot(Entry(0, 0, 0), Some([]))];
    assert Fill(slots, empty, 0, 0, Entry(0, 0, 0)) == ([Slot(Entry(0, 0, 0), Some([]))], None);
  }

  /**
   * DiskQueue: an empty head followed by a contiguous non-empty entry reads
   * a zeroed buffer in place of the file, so the second entry is handed
   * zeros instead of its stored bytes. The corrected read hands it its bytes.
   */
  lemma EmptyHeadZeroesSpan()
    ensures var files := map[0 := [7, 8, 9]];
      var slots := [Slot(Entry(0, 0, 0), None), Slot(Entry(0, 0, 3), None)];
      && ReadAheadAsWritten(DiskQueue(false), files, 1048576, slots).0[1].data == Some([0, 0, 0])
      && ReadAhead(files, 1048576, slots).0[1].data == Some([7, 8, 9])
      && BytesOf(files, Entry(0, 0, 3)) == [7, 8, 9]
  {
    var files: DataFiles := map[0 := [7, 8, 9]];
    var slots := [Slot(Entry(0, 0, 0), None), Slot(Entry(0, 0, 3), None)];
    var es := Keys(slots);
    assert es == [Entry(0, 0, 0), Entry(0, 0, 3)];
    assert Scan(es, 1048576, 2, es[1], 3) == (es[1], 3, 2);
    assert Scan(es, 1048576, 0, es[0], 0) == (es[1], 3, 2);
    assert Span(es, 1048576) == (Entry(0, 0, 3), 3);
    var bytes: seq<uint8> := [7, 8, 9];
    assert FileOf(files, 0)[0..3] == bytes;
    assert ReadSpan(files, es[0], 3) == Success(bytes);
    var zeros := Zeros(3);
    assert zeros == [0, 0, 0];
    assert ReadEntriesFromFile(DiskQueue(false), files, es[0], 3) == Success(zeros);
    var once := slots[0 := Slot(es[0], Some([]))];
    assert bytes[0..0] == [] && zeros[0..0] == [];
    assert bytes[0..3] == bytes && zeros[0..3] == zeros;
    assert Fill(slots, bytes, 0, 0, es[1]) == Fill(once, bytes, 1, 0, es[1]);
    assert Fill(slots, zeros, 0, 0, es[1]) == Fill(once, zeros, 1, 0, es[1]);
    assert Fill(once, bytes, 1, 0, es[1]).0[1].data == Some(bytes);
    assert Fill(once, zeros, 1, 0, es[1]).0[1].data == Some(zeros);
  }

  // ---------------------------------------------------------------------
  // Opening
  // ---------------------------------------------------------------------

  /**
   * The constructor's ReadMetaState then ReadTransactionLog, replayed with
   * the current file number from the metadata; an exception from replay
   * aborts the open.
   */
  function Open(s: Settings, files: DataFiles, meta: seq<uint8>, log: seq<uint8>): (r: Result<Queue, Error>)
    ensures r.Success? ==> (r.value.fileNumber, r.value.position) == ReadMetaState(meta) && r.value.meta == meta
    ensures r.Success? <==> ReadTransactionLog(s.variant, files, ReadMetaState(meta).0, log).Success?
  {
    var (n, p) := ReadMetaState(meta);
    match ReadTransactionLog(s.variant, files, n, log)
    case Success(o) => Success(Queue(o.idx, o.files, o.log, meta, n, p))
    case Failure(e) => Failure(e)
  }

  /** Open with the corrected Dequeue in replay: the same metadata, errors and trimming decision. */
  function Reopen(s: Settings, files: DataFiles, meta: seq<uint8>, log: seq<uint8>): (r: Result<Queue, Error>)
    ensures r.Success? ==> (r.value.fileNumber, r.value.position) == ReadMetaState(meta) && r.value.meta == meta
    ensures r.Success? <==> Open(s, files, meta, log).Success?
  {
    var (n, p) := ReadMetaState(meta);
    match ReplayTransactionLog(s.variant, files, n, log)
    case Success(o) => Success(Queue(o.idx, o.files, o.log, meta, n, p))
    case Failure(e) => Failure(e)
  }

  // ---------------------------------------------------------------------
  // What a commit leaves on disk reopens to the same queue
  // ---------------------------------------------------------------------

  /** Replaying transactions builds the same index whatever data files exist and whichever is current. */
  lemma {:induction false} ApplyTransactionsIndex(idx: Index, txs: seq<seq<Operation>>,
                                                  files: DataFiles, current: int32, files': DataFiles, current': int32)
    ensures ApplyTransactions(idx, files, current, txs).0 == ApplyTransactions(idx, files', current', txs).0
    decreases |txs|
  {
    if txs != [] {
      var a := ApplyTransactionOperations(idx, files, current, txs[0]);
      var b := ApplyTransactionOperations(idx, files', current', txs[0]);
      assert a.0 == b.0;
      ApplyTransactionsIndex(a.0, txs[1..], a.1, current, b.1, current');
    }
  }

  /** Replaying one more transaction applies it to what replaying the others built. */
  lemma {:induction false} ApplyTransactionsSnoc(idx: Index, files: DataFiles, current: int32,
                                                 txs: seq<seq<Operation>>, ops: seq<Operation>)
    ensures var s := ApplyTransactions(idx, files, current, txs);
      ApplyTransactions(idx, files, current, txs + [ops]) == ApplyTransactionOperations(s.0, s.1, current, ops)
    decreases |txs|
  {
    if txs == [] {
      assert txs + [ops] == [ops];
      assert [ops][1..] == [];
    } else {
      var a := ApplyTransactionOperations(idx, files, current, txs[0]);
      assert (txs + [ops])[0] == txs[0];
      assert (txs + [ops])[1..] == txs[1..] + [ops];
      ApplyTransactionsSnoc(a.0, a.1, current, txs[1..], ops);
    }
  }

  /** The frames of one more transaction are the old frames followed by its own. */
  lemma {:induction false} FramedSnoc(txs: seq<seq<Operation>>, ops: seq<Operation>)
    ensures Framed(txs + [ops]) == Framed(txs) + TransactionBytes(ops)
    decreases |txs|
  {
    if txs == [] {
      assert txs + [ops] == [ops];
      assert [ops][1..] == [];
    } else {
      assert (txs + [ops])[0] == txs[0];
      assert (txs + [ops])[1..] == txs[1..] + [ops];
      FramedSnoc(txs[1..], ops);
      ConcatAssoc(TransactionBytes(txs[0]), Framed(txs[1..]), TransactionBytes(ops));
    }
  }

  /**
   * A commit that appends its transaction to a log of framed transactions,
   * from an index that replaying that log rebuilds: the new log is the
   * framed transactions with this one added, and replaying it rebuilds the
   * index the commit produced.
   */
  lemma CommitAppends(s: Settings, q: Queue, ops: seq<Operation>, txs: seq<seq<Operation>>,
                      files: DataFiles, current: int32, files': DataFiles, current': int32)
    requires ops != [] && ValidOps(ops) && |ops| <= MaxInt32
    requires AllWritable(txs) && q.log == Framed(txs)
    requires q.idx == ApplyTransactions(EmptyIndex, files, current, txs).0
    requires var appended := q.log + TransactionBytes(ops);
      !Paranoid(s) && !NeedsTrim(s, |appended|, ApplyInMemory(q.idx, ops).0)
    ensures var r := CommitTransaction(s, q, ops);
      var all := txs + [ops];
      && AllWritable(all) && r.log == Framed(all)
      && ApplyTransactions(EmptyIndex, files', current', all).0 == r.idx
  {
    var all := txs + [ops];
    FramedSnoc(txs, ops);
    ApplyTransactionsSnoc(EmptyIndex, files, current, txs, ops);
    ApplyTransactionsIndex(EmptyIndex, all, files, current, files', current');
  }

  /**
   * Reopening after a commit, with whatever data files exist then: the open
   * succeeds, recovers the write head, and rebuilds the committed index when
   * the log was appended to, or, when the log was replaced by its snapshot,
   * a queue whose entries are the checked-out items followed by the queued
   * ones, with nothing checked out.
   */
  lemma CommitThenOpen(s: Settings, q: Queue, ops: seq<Operation>, txs: seq<seq<Operation>>,
                       files: DataFiles, current: int32, files': DataFiles)
    requires ops != [] && ValidOps(ops) && |ops| <= MaxInt32
    requires AllWritable(txs) && q.log == Framed(txs)
    requires q.idx == ApplyTransactions(EmptyIndex, files, current, txs).0
    requires ApplyInMemory(q.idx, ops).0.EstimatedCount() <= MaxInt32
    ensures var r := CommitTransaction(s, q, ops);
      var o := Open(s, files', r.meta, r.log);
      && o.Success?
      && o.value.fileNumber == q.fileNumber && o.value.position == q.position
      && (r.log != TrimmedLog(r.idx) ==> o.value.idx == r.idx)
      && (r.log == TrimmedLog(r.idx) ==>
            Keys(o.value.idx.entries) == r.idx.checkedOut + Keys(r.idx.entries) && o.value.idx.checkedOut == [])
  {
    var r := CommitTransaction(s, q, ops);
    var n := q.fileNumber;
    if r.log == TrimmedLog(r.idx) {
      ReplayTrimmedLog(s.variant, files', n, r.idx);
    } else {
      var all := txs + [ops];
      CommitAppends(s, q, ops, txs, files, current, files', n);
      var empty := TransactionBytes(ops)[..0];
      assert Framed(all) + empty == Framed(all);
      ReplayFramedLog(s.variant, files', n, all, ops, 0);
    }
  }

  /**
   * The same round trip with the corrected Dequeue, for queues with items
   * checked out as well: a commit of logged operations the engine can issue,
   * from a queue whose log replays to a mirror of its index, leaves a log of
   * framed transactions (`txs'`) that replays to a mirror of the committed
   * index. The items a session holds come back queued, and the items a
   * committed Dequeue took do not come back.
   */
  lemma CommitThenReplay(s: Settings, q: Queue, ops: seq<Operation>, txs: seq<seq<Operation>>,
                         files: DataFiles, current: int32, files': DataFiles) returns (txs': seq<seq<Operation>>)
    requires ops != [] && ValidOps(ops) && |ops| <= MaxInt32 && Logged(ops)
    requires Consistent(q.idx) && AdmissibleAll(q.idx, ops)
    requires AllWritable(txs) && q.log == Framed(txs)
    requires Mirrors(ReplayTransactions(EmptyIndex, files, current, txs).0, q.idx)
    requires ApplyInMemory(q.idx, ops).0.EstimatedCount() <= MaxInt32
    ensures var r := CommitTransaction(s, q, ops);
      var o := Reopen(s, files', r.meta, r.log);
      && o.Success? && o.value.fileNumber == q.fileNumber && o.value.position == q.position
      && Mirrors(o.value.idx, r.idx)
      && AllWritable(txs') && r.log == Framed(txs')
      && Mirrors(ReplayTransactions(EmptyIndex, files', q.fileNumber, txs').0, r.idx)
  {
    var r := CommitTransaction(s, q, ops);
    var n := q.fileNumber;
    txs' := CommitLog(s, q, ops, txs, files, current, files', n);
    ReplayFramed(s.variant, files', n, txs');
  }

  /** The log a commit leaves is framed transactions that the corrected replay rebuilds to a mirror of the committed index. */
  lemma CommitLog(s: Settings, q: Queue, ops: seq<Operation>, txs: seq<seq<Operation>>,
                  files: DataFiles, current: int32, files': DataFiles, current': int32) returns (txs': seq<seq<Operation>>)
    requires ops != [] && ValidOps(ops) && |ops| <= MaxInt32 && Logged(ops)
    requires Consistent(q.idx) && AdmissibleAll(q.idx, ops)
    requires AllWritable(txs) && q.log == Framed(txs)
    requires Mirrors(ReplayTransactions(EmptyIndex, files, current, txs).0, q.idx)
    requires ApplyInMemory(q.idx, ops).0.EstimatedCount() <= MaxInt32
    ensures var r := CommitTransaction(s, q, ops);
      && AllWritable(txs') && r.log == Framed(txs')
      && Mirrors(ReplayTransactions(EmptyIndex, files', current', txs').0, r.idx)
  {
    var idx := ApplyInMemory(q.idx, ops).0;
    if Paranoid(s) || NeedsTrim(s, |q.log + TransactionBytes(ops)|, idx) {
      txs' := [TrimmedOperations(idx)];
      ApplyInMemoryConsistent(q.idx, ops);
      ReplaySnapshot(s.variant, files', current', idx);
    } else {
      txs' := txs + [ops];
      AppendedLog(s, q, ops, txs);
      ReplayAppended(q.idx, ops, txs, files, current, files', current');
    }
  }

  /** A commit that does not trim leaves the framed transactions with its own added. */
  lemma AppendedLog(s: Settings, q: Queue, ops: seq<Operation>, txs: seq<seq<Operation>>)
    requires ops != [] && ValidOps(ops) && |ops| <= MaxInt32
    requires AllWritable(txs) && q.log == Framed(txs)
    requires !Paranoid(s) && !NeedsTrim(s, |q.log + TransactionBytes(ops)|, ApplyInMemory(q.idx, ops).0)
    ensures AllWritable(txs + [ops]) && CommitTransaction(s, q, ops).log == Framed(txs + [ops])
  {
    FramedSnoc(txs, ops);
    var all := txs + [ops];
    forall i | 0 <= i < |all| ensures ValidOps(all[i]) && |all[i]| <= MaxInt32 {
      if i < |txs| {
        assert all[i] == txs[i];
      }
    }
  }

  /** Replaying one more transaction, corrected, keeps the mirror of the index it was applied to. */
  lemma ReplayAppended(idx: Index, ops: seq<Operation>, txs: seq<seq<Operation>>,
                       files: DataFiles, current: int32, files': DataFiles, current': int32)
    requires Consistent(idx) && AdmissibleAll(idx, ops) && Logged(ops)
    requires Mirrors(ReplayTransactions(EmptyIndex, files, current, txs).0, idx)
    ensures Mirrors(ReplayTransactions(EmptyIndex, files', current', txs + [ops]).0, ApplyInMemory(idx, ops).0)
  {
    var before := ReplayTransactions(EmptyIndex, files', current', txs);
    ReplayTransactionsIndex(EmptyIndex, txs, files, current, files', current');
    ReplayTransactionsSnoc(EmptyIndex, files', current', txs, ops);
    MirrorInMemory(before.0, idx, ops);
  }

  /**
   * What the replay as written does to a committed Dequeue, worked through
   * for Rhino, which trims its log only when it grows large or on dispose.
   * An item of data file 0 is checked out while file 1 is current; the
   * commit of its Dequeue empties the index and deletes file 0. Reopening
   * replays the Enqueue, which queues the item, and then the Dequeue, which
   * looks for it only among the checked-out items: the item is back, and
   * dequeuing it fails because its file is gone. The corrected replay
   * rebuilds an empty queue from the same log.
   */
  lemma CommittedDequeueReturns()
    ensures var e := Entry(0, 0, 3);
      var s := Defaults(Rhino, 1024);
      var q := Queue(Index([], [e], map[0 := 1]), map[0 := [7, 8, 9]],
                     TransactionBytes([OperationOn(Enqueue, e)]), MetaBytes(1, 0), 1, 0);
      var r := CommitTransaction(s, q, [OperationOn(OperationType.Dequeue, e)]);
      var o := Open(s, r.files, r.meta, r.log);
      var c := Reopen(s, r.files, r.meta, r.log);
      && Consistent(q.idx) && AdmissibleAll(q.idx, [OperationOn(OperationType.Dequeue, e)])
      && r.idx.entries == [] && r.idx.checkedOut == [] && 0 !in r.files
      && o.Success? && Keys(o.value.idx.entries) == [e]
      && Dequeue(s, o.value).1 == Failure(EndOfDataFile)
      && c.Success? && c.value.idx.entries == []
  {
    var e := Entry(0, 0, 3);
    var s := Defaults(Rhino, 1024);
    var enq, deq := [OperationOn(Enqueue, e)], [OperationOn(OperationType.Dequeue, e)];
    var q := Queue(Index([], [e], map[0 := 1]), map[0 := [7, 8, 9]], TransactionBytes(enq), MetaBytes(1, 0), 1, 0);
    var r := CommittedDequeueCommit(s, q, e, enq, deq);
    var o := CommittedDequeueOpen(s, r, e, enq, deq);
    CommittedDequeueRead(s, o, e);
    CommittedDequeueReplay(s, r, e, enq, deq);
  }

  /** The commit: nothing left in the index, file 0 deleted, the Dequeue appended to the log. */
  lemma CommittedDequeueCommit(s: Settings, q: Queue, e: Entry, enq: seq<Operation>, deq: seq<Operation>) returns (r: Queue)
    requires e == Entry(0, 0, 3) && s == Defaults(Rhino, 1024)
    requires enq == [OperationOn(Enqueue, e)] && deq == [OperationOn(OperationType.Dequeue, e)]
    requires q == Queue(Index([], [e], map[0 := 1]), map[0 := [7, 8, 9]], TransactionBytes(enq), MetaBytes(1, 0), 1, 0)
    ensures r == CommitTransaction(s, q, deq)
    ensures Consistent(q.idx) && AdmissibleAll(q.idx, deq)
    ensures r.idx == EmptyIndex && r.files == map[] && r.log == Framed([enq, deq])
    ensures ReadMetaState(r.meta).0 == 1
  {
    r := CommitTransaction(s, q, deq);
    CheckedOutDequeue(q.idx, e, deq);
    assert r.files == DeleteFiles(q.files, {0}, 1);
    SmallRhinoLogAppends(s, q, deq);
    assert Framed([enq, deq]) == TransactionBytes(enq) + (TransactionBytes(deq) + Framed([]));
  }

  /** Rhino appends a commit to its log as long as the log stays under the suggested maximum. */
  lemma SmallRhinoLogAppends(s: Settings, q: Queue, ops: seq<Operation>)
    requires s.variant.Rhino? && ops != [] && |ops| <= MaxInt32
    requires |q.log| + 36 + 17 * |ops| < s.maxLogSize
    ensures CommitTransaction(s, q, ops).log == q.log + TransactionBytes(ops)
  {
  }

  /** A single checked-out item, and the Dequeue of it, which leaves nothing and exhausts its file. */
  lemma CheckedOutDequeue(idx: Index, e: Entry, deq: seq<Operation>)
    requires e == Entry(0, 0, 3) && idx == Index([], [e], map[0 := 1])
    requires deq == [OperationOn(OperationType.Dequeue, e)]
    ensures Consistent(idx) && AdmissibleAll(idx, deq)
    ensures ApplyInMemory(idx, deq) == (EmptyIndex, {0})
  {
    assert Held(idx) == [e];
    assert forall f :: CountOf(idx.counts, f) == Live(idx, f);
    var mid := ApplyOperation(idx, deq[0]);
    assert mid == Index([], [], map[0 := 0]);
    assert AdmissibleAll(mid, deq[1..]);
    assert ApplyOperations(idx, deq) == mid;
    assert Exhausted(mid.counts) == {0};
  }

  /** Reopening replays the Enqueue and then the Dequeue, which leaves the item queued. */
  lemma CommittedDequeueOpen(s: Settings, r: Queue, e: Entry, enq: seq<Operation>, deq: seq<Operation>) returns (o: Queue)
    requires e == Entry(0, 0, 3) && s == Defaults(Rhino, 1024)
    requires enq == [OperationOn(Enqueue, e)] && deq == [OperationOn(OperationType.Dequeue, e)]
    requires r.files == map[] && r.log == Framed([enq, deq]) && ReadMetaState(r.meta).0 == 1
    ensures Open(s, r.files, r.meta, r.log) == Success(o)
    ensures o.idx.entries == [Slot(e, None)] && o.files == map[]
  {
    var all := [enq, deq];
    assert AllWritable(all);
    var empty := TransactionBytes([])[..0];
    assert Framed(all) + empty == Framed(all);
    ReplayFramedLog(Rhino, map[], 1, all, [], 0);
    var b := ReplayEnqueueThenDequeue(e, enq, deq);
    o := Open(s, r.files, r.meta, r.log).value;
  }

  /** Applying the two transactions as written: the Enqueue queues the item, the Dequeue leaves it there. */
  lemma ReplayEnqueueThenDequeue(e: Entry, enq: seq<Operation>, deq: seq<Operation>) returns (b: (Index, DataFiles))
    requires enq == [OperationOn(Enqueue, e)] && deq == [OperationOn(OperationType.Dequeue, e)]
    ensures b == ApplyTransactions(EmptyIndex, map[], 1, [enq, deq])
    ensures b.0.entries == [Slot(e, None)] && b.1 == map[]
  {
    assert EnqueueAll([e]) == enq;
    ApplyEnqueueOnly(map[], 1, [e]);
    assert [enq] + [deq] == [enq, deq];
    ApplyTransactionsSnoc(EmptyIndex, map[], 1, [enq], deq);
    var a := ApplyTransactions(EmptyIndex, map[], 1, [enq]);
    assert a.0.entries == [Slot(e, None)];
    b := ApplyTransactionOperations(a.0, a.1, 1, deq);
    assert ApplyOperations(a.0, deq) == ApplyOperation(a.0, deq[0]);
  }

  /** Dequeuing the returned item reads its span from the deleted file, which the file's end cuts short. */
  lemma CommittedDequeueRead(s: Settings, o: Queue, e: Entry)
    requires e == Entry(0, 0, 3) && s == Defaults(Rhino, 1024)
    requires o.idx.entries == [Slot(e, None)] && o.files == map[]
    ensures Keys(o.idx.entries) == [e]
    ensures Dequeue(s, o).1 == Failure(EndOfDataFile)
  {
    var es := Keys(o.idx.entries);
    assert es == [e];
    assert Scan(es, s.readBuffer, 1, e, 3) == (e, 3, 1);
    assert Scan(es, s.readBuffer, 0, e, 0) == (e, 3, 1);
    assert Span(es, s.readBuffer) == (e, 3);
    assert ReadSpan(o.files, e, 3) == Failure(EndOfDataFile);
  }

  /** The corrected replay of the same log: the Dequeue takes the item out of the queue. */
  lemma CommittedDequeueReplay(s: Settings, r: Queue, e: Entry, enq: seq<Operation>, deq: seq<Operation>)
    requires e == Entry(0, 0, 3) && s == Defaults(Rhino, 1024)
    requires enq == [OperationOn(Enqueue, e)] && deq == [OperationOn(OperationType.Dequeue, e)]
    requires r.files == map[] && r.log == Framed([enq, deq]) && ReadMetaState(r.meta).0 == 1
    ensures var c := Reopen(s, r.files, r.meta, r.log);
      c.Success? && c.value.idx.entries == []
  {
    var all := [enq, deq];
    assert AllWritable(all);
    ReplayFramed(Rhino, map[], 1, all);
    ReplayEnqueueThenDequeueCorrected(e, enq, deq);
  }

  /** Applying the two transactions with the corrected Dequeue leaves the queue empty. */
  lemma ReplayEnqueueThenDequeueCorrected(e: Entry, enq: seq<Operation>, deq: seq<Operation>)
    requires enq == [OperationOn(Enqueue, e)] && deq == [OperationOn(OperationType.Dequeue, e)]
    ensures ReplayTransactions(EmptyIndex, map[], 1, [enq, deq]).0.entries == []
  {
    assert [enq] + [deq] == [enq, deq];
    ReplayTransactionsSnoc(EmptyIndex, map[], 1, [enq], deq);
    assert EnqueueAll([e]) == enq;
    ReplaySingleWithoutDequeue(map[], 1, enq);
    ApplyEnqueueOnly(map[], 1, [e]);
    var a := ReplayTransactions(EmptyIndex, map[], 1, [enq]);
    assert Keys(a.0.entries) == [e];
    assert ReplayOperations(a.0, deq) == ReplayOperation(a.0, deq[0]);
    assert Keys(ReplayOperation(a.0, deq[0]).entries) == SetRemove([e], e) == [];
  }

  // ---------------------------------------------------------------------
  // Disposing of the queue
  // ---------------------------------------------------------------------

  /**
   * Dispose of the queue. DiskQueue guards it with its disposed flag, so only
   * the first call acts; Rhino has no such guard. Acting means replacing the
   * log by its trimmed snapshot when TrimTransactionLogOnDispose is set.
   * The result carries the disposed flag afterwards.
   */
  function Close(s: Settings, q: Queue, disposed: bool): (r: (Queue, bool))
    ensures r.1
    ensures r.0.idx == q.idx && r.0.files == q.files && r.0.meta == q.meta
    ensures r.0.fileNumber == q.fileNumber && r.0.position == q.position
    ensures s.variant.DiskQueue? && disposed ==> r.0 == q
    ensures (s.variant.Rhino? || !disposed) && s.trimOnDispose ==> r.0.log == TrimmedLog(q.idx)
    ensures !s.trimOnDispose ==> r.0 == q
  {
    if s.variant.DiskQueue? && disposed then (q, true)
    else if s.trimOnDispose then (q.(log := TrimmedLog(q.idx)), true)
    else (q, true)
  }

  /** Disposing of a queue a second time changes nothing more. */
  lemma CloseTwice(s: Settings, q: Queue, disposed: bool)
    ensures var (q1, d1) := Close(s, q, disposed);
      Close(s, q1, d1) == (q1, d1)
  {
  }

  /**
   * Reopening a queue disposed of with trimming: the open succeeds, recovers
   * the recorded write head, and queues every item that was checked out,
   * followed by the items that were queued, with nothing checked out.
   */
  lemma CloseThenOpen(s: Settings, q: Queue, files: DataFiles)
    requires s.trimOnDispose && q.idx.EstimatedCount() <= MaxInt32
    ensures var r := Close(s, q, false).0;
      var o := Open(s, files, r.meta, r.log);
      && o.Success? && (o.value.fileNumber, o.value.position) == ReadMetaState(q.meta)
      && Keys(o.value.idx.entries) == q.idx.checkedOut + Keys(q.idx.entries)
      && o.value.idx.checkedOut == []
  {
    ReplayTrimmedLog(s.variant, files, ReadMetaState(q.meta).0, q.idx);
  }
}
