/**
 * ReadTransactionLog: replaying the transaction log when a queue is opened.
 * Transactions are read one at a time and applied as soon as their end
 * marker has been read; a torn tail ends the replay quietly, corruption
 * either aborts the open or (in the lenient DiskQueue engine) ends the replay
 * like a torn tail. Afterwards the log is replaced by the trimmed snapshot if
 * the replay saw anything that calls for it.
 */
module Replay {
  import opened Bytes
  import opened Wrappers
  import opened Errors
  import opened Constants
  import opened Operations
  import opened EntryIndex
  import opened Storage
  import opened LogCodec

  /** A transaction holding anything but Enqueue operations was not closed cleanly. */
  predicate AnyNonEnqueue(ops: seq<Operation>) {
    exists i :: 0 <= i < |ops| && ops[i].opType != Enqueue
  }

  /** Some transaction of the list holds a non-Enqueue operation. */
  predicate AnyNonEnqueueIn(txs: seq<seq<Operation>>)
    decreases |txs|
  {
    txs != [] && (AnyNonEnqueue(txs[0]) || AnyNonEnqueueIn(txs[1..]))
  }

  /** Transactions the engine can write: known operation types, and a count that fits an int. */
  predicate AllWritable(txs: seq<seq<Operation>>) {
    forall i :: 0 <= i < |txs| ==> ValidOps(txs[i]) && |txs[i]| <= MaxInt32
  }

  /** Each transaction applied in turn, so that a later one sees the effects of the earlier ones. */
  function ApplyTransactions(idx: Index, files: DataFiles, current: int32, txs: seq<seq<Operation>>): (r: (Index, DataFiles))
    decreases |txs|
  {
    if txs == [] then (idx, files)
    else
      var (idx', files') := ApplyTransactionOperations(idx, files, current, txs[0]);
      ApplyTransactions(idx', files', current, txs[1..])
  }

  /** The bytes the framed transactions take up. */
  function FramedSize(txs: seq<seq<Operation>>): (n: nat)
    decreases |txs|
  {
    if txs == [] then 0 else 36 + 17 * |txs[0]| + FramedSize(txs[1..])
  }

  lemma {:induction false} FramedLength(txs: seq<seq<Operation>>)
    ensures |Framed(txs)| == FramedSize(txs)
    decreases |txs|
  {
    if txs != [] {
      FramedLength(txs[1..]);
    }
  }

  /**
   * Reading the log from `pos`, where transaction number `tx` starts: the
   * complete transactions in order, and how reading stopped (a torn tail,
   * with whether any byte of it exists, or corruption). The loop of
   * ReadTransactionLog applies each transaction as soon as it is read, but
   * applying never influences what is read next, and corruption discards the
   * queue being constructed, so reading everything first is equivalent.
   */
  datatype LogRead = LogRead(txs: seq<seq<Operation>>, stop: TxOutcome)

  function ReadLog(variant: Variant, log: seq<uint8>, pos: nat, tx: int): (r: LogRead)
    requires pos <= |log|
    ensures !r.stop.Complete?
    ensures r.stop.Truncated? && |log| == pos ==> r.txs == [] && !r.stop.begun
    ensures r.stop.Corrupt? ==> r.stop.error.NegativeOperationCount? || variant.Rhino? || variant.throwOnConflict
    decreases |log| - pos
  {
    match ReadTransaction(variant, log, pos, tx)
    case Complete(ops, next) =>
      var rest := ReadLog(variant, log, next, tx + 1);
      LogRead([ops] + rest.txs, rest.stop)
    case other => LogRead([], other)
  }

  /** What opening leaves behind: the index, the surviving data files and the transaction log. */
  datatype Opened = Opened(idx: Index, files: DataFiles, log: seq<uint8>)

  /**
   * ReadTransactionLog on a freshly constructed queue (empty index), with the
   * current file number from the metadata: corruption aborts the open;
   * otherwise every complete transaction is applied in order and, if one of
   * them holds a non-Enqueue operation or a torn tail was begun
   * (requireTxLogTrimming), FlushTrimmedTransactionLog replaces the log.
   */
  function ReadTransactionLog(variant: Variant, files: DataFiles, current: int32, log: seq<uint8>): (r: Result<Opened, Error>)
    ensures r.Success? ==> r.value.log == log || r.value.log == TrimmedLog(r.value.idx)
    ensures r.Failure? ==> r.error.NegativeOperationCount? || variant.Rhino? || variant.throwOnConflict
    ensures |log| == 0 ==> r == Success(Opened(EmptyIndex, files, log))
  {
    var rd := ReadLog(variant, log, 0, 1);
    if rd.stop.Corrupt? then Failure(rd.stop.error)
    else
      var s := ApplyTransactions(EmptyIndex, files, current, rd.txs);
      var trim := AnyNonEnqueueIn(rd.txs) || rd.stop.begun;
      Success(Opened(s.0, s.1, if trim then TrimmedLog(s.0) else log))
  }

  // ---------------------------------------------------------------------
  // Replaying well-formed transactions
  // ---------------------------------------------------------------------

  /** At `pos` the log reads back as the complete transactions `txs`, numbered from `tx`. */
  predicate ReadsAll(variant: Variant, log: seq<uint8>, pos: nat, tx: int, txs: seq<seq<Operation>>)
    decreases |txs|
  {
    && pos <= |log|
    && (txs != [] ==>
      var next := pos + 36 + 17 * |txs[0]|;
      && ReadTransaction(variant, log, pos, tx) == Complete(txs[0], next)
      && ReadsAll(variant, log, next, tx + 1, txs[1..]))
  }

  /** Framed transactions followed by anything read back as themselves. */
  lemma {:induction false} ReadsAllOfFramed(variant: Variant, log: seq<uint8>, pos: nat, tx: int,
                                            txs: seq<seq<Operation>>, rest: seq<uint8>)
    requires AllWritable(txs)
    requires pos <= |log| && log[pos..] == Framed(txs) + rest
    ensures ReadsAll(variant, log, pos, tx, txs)
    ensures pos + FramedSize(txs) <= |log| && log[pos + FramedSize(txs)..] == rest
    decreases |txs|
  {
    if txs == [] {
      assert log[pos..] == rest;
    } else {
      var next, tx1 := pos + 36 + 17 * |txs[0]|, tx + 1;
      FramedHead(variant, log, pos, tx, txs, rest, next);
      ReadsAllOfFramed(variant, log, next, tx1, txs[1..], rest);
      ReadsAllCons(variant, log, pos, tx, txs, next, tx1);
    }
  }

  /** The first of several framed transactions reads back as itself, and the rest follow it. */
  lemma FramedHead(variant: Variant, log: seq<uint8>, pos: nat, tx: int, txs: seq<seq<Operation>>, rest: seq<uint8>, next: nat)
    requires AllWritable(txs) && txs != []
    requires pos <= |log| && log[pos..] == Framed(txs) + rest
    requires next == pos + 36 + 17 * |txs[0]|
    ensures ReadTransaction(variant, log, pos, tx) == Complete(txs[0], next)
    ensures log[next..] == Framed(txs[1..]) + rest
    ensures AllWritable(txs[1..])
  {
    AllWritableTail(txs);
    FramedSplit(log, pos, txs, rest, next);
    FramedHeadReads(variant, log, pos, tx, txs[0], next);
  }

  lemma FramedHeadReads(variant: Variant, log: seq<uint8>, pos: nat, tx: int, ops: seq<Operation>, next: nat)
    requires ValidOps(ops) && |ops| <= MaxInt32
    requires PrefixAt(log, pos, TransactionBytes(ops)) && next == pos + 36 + 17 * |ops| && next <= |log|
    ensures ReadTransaction(variant, log, pos, tx) == Complete(ops, next)
  {
    ReadTransactionPrefix(variant, log, pos, tx, ops);
  }

  lemma FramedSplit(log: seq<uint8>, pos: nat, txs: seq<seq<Operation>>, rest: seq<uint8>, next: nat)
    requires txs != [] && pos <= |log| && log[pos..] == Framed(txs) + rest
    requires next == pos + 36 + 17 * |txs[0]|
    ensures PrefixAt(log, pos, TransactionBytes(txs[0]))
    ensures next <= |log| && log[next..] == Framed(txs[1..]) + rest
  {
    var bs, more := TransactionBytes(txs[0]), Framed(txs[1..]);
    var after := more + rest;
    FramedCons(txs, bs, more);
    ConcatAssoc(bs, more, rest);
    PrefixAtOfSlice(log, pos, bs, after);
  }

  lemma FramedCons(txs: seq<seq<Operation>>, bs: seq<uint8>, more: seq<uint8>)
    requires txs != [] && bs == TransactionBytes(txs[0]) && more == Framed(txs[1..])
    ensures Framed(txs) == bs + more
  {
  }

  lemma ConcatAssoc<T>(a: seq<T>, b: seq<T>, c: seq<T>)
    ensures (a + b) + c == a + (b + c)
  {
  }

  lemma AllWritableTail(txs: seq<seq<Operation>>)
    requires AllWritable(txs) && txs != []
    ensures ValidOps(txs[0]) && |txs[0]| <= MaxInt32
    ensures AllWritable(txs[1..])
  {
    var more := txs[1..];
    forall i | 0 <= i < |more| ensures ValidOps(more[i]) && |more[i]| <= MaxInt32 {
      assert more[i] == txs[i + 1];
    }
  }

  lemma ReadsAllCons(variant: Variant, log: seq<uint8>, pos: nat, tx: int, txs: seq<seq<Operation>>, next: nat, tx1: int)
    requires txs != [] && pos <= |log| && next == pos + 36 + 17 * |txs[0]| && tx1 == tx + 1
    requires ReadTransaction(variant, log, pos, tx) == Complete(txs[0], next)
    requires ReadsAll(variant, log, next, tx1, txs[1..])
    ensures ReadsAll(variant, log, pos, tx, txs)
    ensures FramedSize(txs) == 36 + 17 * |txs[0]| + FramedSize(txs[1..])
  {
  }

  /** One complete transaction is read, then reading carries on after it. */
  lemma ReadLogStep(variant: Variant, log: seq<uint8>, pos: nat, tx: int, ops: seq<Operation>, next: nat, rest: LogRead)
    requires pos <= |log| && ReadTransaction(variant, log, pos, tx) == Complete(ops, next)
    requires rest == ReadLog(variant, log, next, tx + 1)
    ensures ReadLog(variant, log, pos, tx) == LogRead([ops] + rest.txs, rest.stop)
  {
  }

  lemma ConsAppend<T>(s: seq<T>, a: seq<T>)
    requires s != []
    ensures [s[0]] + (s[1..] + a) == s + a
  {
  }

  /**
   * Reading over complete transactions yields them, then whatever follows
   * them at `end`, where transaction number `txEnd` starts.
   */
  lemma {:induction false} ReadLogSkips(variant: Variant, log: seq<uint8>, pos: nat, tx: int, txs: seq<seq<Operation>>,
                                        end: nat, txEnd: int)
    requires ReadsAll(variant, log, pos, tx, txs)
    requires end == pos + FramedSize(txs) && txEnd == tx + |txs|
    ensures end <= |log|
    ensures ReadLog(variant, log, pos, tx) == LogRead(txs + ReadLog(variant, log, end, txEnd).txs, ReadLog(variant, log, end, txEnd).stop)
    decreases |txs|
  {
    if txs == [] {
      ReadLogSkipsNil(variant, log, pos, tx, txs, end, txEnd);
    } else {
      var next, tx1, rest := pos + 36 + 17 * |txs[0]|, tx + 1, txs[1..];
      ReadsAllTail(variant, log, pos, tx, txs, next, tx1, rest, end, txEnd);
      ReadLogSkips(variant, log, next, tx1, rest, end, txEnd);
      ReadLogSkipsStep(variant, log, pos, tx, txs, next, tx1, end, txEnd);
    }
  }

  lemma ReadsAllTail(variant: Variant, log: seq<uint8>, pos: nat, tx: int, txs: seq<seq<Operation>>,
                     next: nat, tx1: int, rest: seq<seq<Operation>>, end: nat, txEnd: int)
    requires ReadsAll(variant, log, pos, tx, txs) && txs != []
    requires next == pos + 36 + 17 * |txs[0]| && tx1 == tx + 1 && rest == txs[1..]
    requires end == pos + FramedSize(txs) && txEnd == tx + |txs|
    ensures ReadTransaction(variant, log, pos, tx) == Complete(txs[0], next)
    ensures ReadsAll(variant, log, next, tx1, rest)
    ensures end == next + FramedSize(rest) && txEnd == tx1 + |rest|
  {
  }

  lemma ReadLogSkipsNil(variant: Variant, log: seq<uint8>, pos: nat, tx: int, txs: seq<seq<Operation>>, end: nat, txEnd: int)
    requires txs == [] && pos <= |log| && end == pos && txEnd == tx
    ensures ReadLog(variant, log, pos, tx) == LogRead(txs + ReadLog(variant, log, end, txEnd).txs, ReadLog(variant, log, end, txEnd).stop)
  {
    assert txs + ReadLog(variant, log, pos, tx).txs == ReadLog(variant, log, pos, tx).txs;
  }

  /** The inductive step of ReadLogSkips: the first transaction in front of the rest. */
  lemma ReadLogSkipsStep(variant: Variant, log: seq<uint8>, pos: nat, tx: int, txs: seq<seq<Operation>>,
                         next: nat, tx1: int, end: nat, txEnd: int)
    requires txs != [] && pos <= |log| && next == pos + 36 + 17 * |txs[0]| && tx1 == tx + 1
    requires ReadTransaction(variant, log, pos, tx) == Complete(txs[0], next)
    requires next <= end <= |log|
    requires ReadLog(variant, log, next, tx1) == LogRead(txs[1..] + ReadLog(variant, log, end, txEnd).txs, ReadLog(variant, log, end, txEnd).stop)
    ensures ReadLog(variant, log, pos, tx) == LogRead(txs + ReadLog(variant, log, end, txEnd).txs, ReadLog(variant, log, end, txEnd).stop)
  {
    var r, after := ReadLog(variant, log, next, tx1), ReadLog(variant, log, end, txEnd);
    ReadLogStep(variant, log, pos, tx, txs[0], next, r);
    ConsAppend(txs, after.txs);
  }

  /** A torn tail, of any length short of a whole transaction, stops reading; it counts as begun iff non-empty. */
  lemma ReadLogTornTail(variant: Variant, log: seq<uint8>, pos: nat, tx: int, ops: seq<Operation>, k: nat)
    requires ValidOps(ops) && |ops| <= MaxInt32 && k < |TransactionBytes(ops)|
    requires pos <= |log| && log[pos..] == TransactionBytes(ops)[..k]
    ensures ReadLog(variant, log, pos, tx) == LogRead([], Truncated(k > 0))
  {
    PrefixAtOfTorn(log, pos, TransactionBytes(ops), k);
    ReadTransactionPrefix(variant, log, pos, tx, ops);
  }

  /**
   * Reading a log that starts with framed transactions yields them, then
   * whatever follows them at `end`, where transaction number `txEnd` starts.
   */
  lemma ReadLogAfterFramed(variant: Variant, txs: seq<seq<Operation>>, rest: seq<uint8>,
                           log: seq<uint8>, end: nat, txEnd: int)
    requires AllWritable(txs)
    requires log == Framed(txs) + rest && end == FramedSize(txs) && txEnd == 1 + |txs|
    ensures end <= |log| && log[end..] == rest
    ensures ReadLog(variant, log, 0, 1) == LogRead(txs + ReadLog(variant, log, end, txEnd).txs, ReadLog(variant, log, end, txEnd).stop)
  {
    assert log[0..] == log;
    ReadsAllOfFramed(variant, log, 0, 1, txs, rest);
    ReadLogSkips(variant, log, 0, 1, txs, end, txEnd);
  }

  /** Reading framed transactions and then a torn tail. */
  lemma ReadFramedLog(variant: Variant, txs: seq<seq<Operation>>, ops: seq<Operation>, k: nat)
    requires AllWritable(txs)
    requires ValidOps(ops) && |ops| <= MaxInt32 && k < |TransactionBytes(ops)|
    ensures ReadLog(variant, Framed(txs) + TransactionBytes(ops)[..k], 0, 1) == LogRead(txs, Truncated(k > 0))
  {
    var tail := TransactionBytes(ops)[..k];
    var log := Framed(txs) + tail;
    var end, txEnd := FramedSize(txs), 1 + |txs|;
    ReadLogAfterFramed(variant, txs, tail, log, end, txEnd);
    ReadLogTornTail(variant, log, end, txEnd, ops, k);
    assert txs + [] == txs;
  }

  /**
   * Opening a log of complete transactions followed by a torn tail (possibly
   * empty), in either engine and either policy: every complete transaction
   * is applied in order, the tail is dropped without error, and the log is
   * trimmed iff some transaction holds a non-Enqueue operation or the tail
   * holds at least one byte.
   */
  lemma ReplayFramedLog(variant: Variant, files: DataFiles, current: int32,
                        txs: seq<seq<Operation>>, ops: seq<Operation>, k: nat)
    requires AllWritable(txs)
    requires ValidOps(ops) && |ops| <= MaxInt32 && k < |TransactionBytes(ops)|
    ensures var log := Framed(txs) + TransactionBytes(ops)[..k];
      var s := ApplyTransactions(EmptyIndex, files, current, txs);
      var trim := AnyNonEnqueueIn(txs) || k > 0;
      ReadTransactionLog(variant, files, current, log)
        == Success(Opened(s.0, s.1, if trim then TrimmedLog(s.0) else log))
  {
    ReadFramedLog(variant, txs, ops, k);
  }

  lemma AppendEmpty<T>(s: seq<T>)
    ensures s + [] == s
  {
  }

  /** Opening, given what reading the log yields. */
  lemma OpenWithStop(variant: Variant, files: DataFiles, current: int32, log: seq<uint8>,
                     txs: seq<seq<Operation>>, stop: TxOutcome)
    requires ReadLog(variant, log, 0, 1) == LogRead(txs, stop)
    ensures var s := ApplyTransactions(EmptyIndex, files, current, txs);
      && (stop.Corrupt? ==> ReadTransactionLog(variant, files, current, log) == Failure(stop.error))
      && (stop.Truncated? ==>
            ReadTransactionLog(variant, files, current, log) == Success(Opened(s.0, s.1, if AnyNonEnqueueIn(txs) || stop.begun then TrimmedLog(s.0) else log)))
  {
  }

  // ---------------------------------------------------------------------
  // Corruption
  // ---------------------------------------------------------------------

  /**
   * Sixteen bytes that are not the start marker where a transaction should
   * begin: Rhino raises; strict DiskQueue raises, naming the end marker if
   * that is what it found; lenient DiskQueue stops as at a begun torn tail.
   */
  lemma ReadLogBadStartMarker(variant: Variant, log: seq<uint8>, pos: nat, tx: int)
    requires pos + 16 <= |log| && log[pos..pos + 16] != StartTransactionSeparator
    ensures var r := ReadLog(variant, log, pos, tx);
      && r.txs == []
      && match variant
         case Rhino => r.stop == Corrupt(UnknownMarker(tx))
         case DiskQueue(strict) =>
           && (!strict ==> r.stop == Truncated(true))
           && (strict && log[pos..pos + 16] == EndTransactionSeparator ==> r.stop == Corrupt(WrongMarker(StartTransaction, EndTransaction)))
           && (strict && log[pos..pos + 16] != EndTransactionSeparator ==> r.stop == Corrupt(UnknownMarker(tx)))
  {
    AssertMarkerRejects(variant, log, pos, tx, StartTransaction);
  }

  /**
   * A transaction whose first operation separator is wrong: Rhino and strict
   * DiskQueue raise, lenient DiskQueue stops as at a begun torn tail.
   */
  lemma ReadLogBadOperationSeparator(variant: Variant, log: seq<uint8>, pos: nat, tx: int,
                                     count: int32, word: seq<uint8>, rest: seq<uint8>)
    requires count > 0 && |word| == 4 && word != OperationSeparatorBytes
    requires pos <= |log| && log[pos..] == StartTransactionSeparator + Int32Bytes(count) + word + rest
    ensures ReadLog(variant, log, pos, tx)
      == LogRead([], if variant == DiskQueue(false) then Truncated(true) else Corrupt(UnknownOperationSeparator))
  {
    MarkersDiffer();
    var p1, p2 := pos + 16, pos + 20;
    PrefixAtOfSlice(log, pos, StartTransactionSeparator, Int32Bytes(count) + word + rest);
    AssertMarkerPrefix(variant, log, pos, tx, StartTransaction);
    PrefixAtOfSlice(log, p1, Int32Bytes(count), word + rest);
    ReadInt32Prefix(log, p1, count);
    PrefixAtOfSlice(log, p2, word, rest);
    PrefixAtFull(log, p2, word);
    BadSeparatorEndsTransaction(variant, log, p2, tx, count);
  }

  lemma BadSeparatorEndsTransaction(variant: Variant, log: seq<uint8>, pos: nat, tx: int, count: nat)
    requires count > 0 && pos + 4 <= |log| && log[pos..pos + 4] != OperationSeparatorBytes
    ensures ReadOperationsAndEnd(variant, log, pos, tx, count)
      == if variant == DiskQueue(false) then Truncated(true) else Corrupt(UnknownOperationSeparator)
  {
    var r := AssertOperationSeparator(variant, log, pos);
    assert !r.Read?;
    assert r.Raised? ==> variant != DiskQueue(false);
    assert r.EndOfStream? ==> variant == DiskQueue(false);
  }

  /** A negative operation count makes `new List(count)` throw, which no engine or policy catches. */
  lemma ReadLogNegativeCount(variant: Variant, log: seq<uint8>, pos: nat, tx: int, count: int32, rest: seq<uint8>)
    requires count < 0
    requires pos <= |log| && log[pos..] == StartTransactionSeparator + Int32Bytes(count) + rest
    ensures ReadLog(variant, log, pos, tx) == LogRead([], Corrupt(NegativeOperationCount(count)))
  {
    MarkersDiffer();
    var p1 := pos + 16;
    PrefixAtOfSlice(log, pos, StartTransactionSeparator, Int32Bytes(count) + rest);
    AssertMarkerPrefix(variant, log, pos, tx, StartTransaction);
    PrefixAtOfSlice(log, p1, Int32Bytes(count), rest);
    ReadInt32Prefix(log, p1, count);
  }

  /**
   * Opening a log whose complete transactions are followed by sixteen bytes
   * that are not a start marker: the strict engines refuse to open, naming
   * the transaction number; the lenient engine keeps every earlier
   * transaction and rewrites the log as their trimmed snapshot.
   */
  lemma ReplayBadStartAfterFramed(variant: Variant, files: DataFiles, current: int32,
                                  txs: seq<seq<Operation>>, bad: seq<uint8>, rest: seq<uint8>)
    requires AllWritable(txs)
    requires |bad| == 16 && bad != StartTransactionSeparator
    ensures var s := ApplyTransactions(EmptyIndex, files, current, txs);
      var r := ReadTransactionLog(variant, files, current, Framed(txs) + (bad + rest));
      match variant
      case Rhino => r == Failure(UnknownMarker(|txs| + 1))
      case DiskQueue(strict) =>
        && (!strict ==> r == Success(Opened(s.0, s.1, TrimmedLog(s.0))))
        && (strict && bad == EndTransactionSeparator ==> r == Failure(WrongMarker(StartTransaction, EndTransaction)))
        && (strict && bad != EndTransactionSeparator ==> r == Failure(UnknownMarker(|txs| + 1)))
  {
    var log := Framed(txs) + (bad + rest);
    var stop := ReadBadStartAfterFramed(variant, txs, bad, rest, log);
    OpenWithStop(variant, files, current, log, txs, stop);
  }

  /** Reading stops at the bad marker, with every earlier transaction read. */
  lemma ReadBadStartAfterFramed(variant: Variant, txs: seq<seq<Operation>>, bad: seq<uint8>, rest: seq<uint8>,
                                log: seq<uint8>) returns (stop: TxOutcome)
    requires AllWritable(txs)
    requires |bad| == 16 && bad != StartTransactionSeparator
    requires log == Framed(txs) + (bad + rest)
    ensures ReadLog(variant, log, 0, 1) == LogRead(txs, stop)
    ensures match variant
      case Rhino => stop == Corrupt(UnknownMarker(|txs| + 1))
      case DiskQueue(strict) =>
        && (!strict ==> stop == Truncated(true))
        && (strict && bad == EndTransactionSeparator ==> stop == Corrupt(WrongMarker(StartTransaction, EndTransaction)))
        && (strict && bad != EndTransactionSeparator ==> stop == Corrupt(UnknownMarker(|txs| + 1)))
  {
    var tail := bad + rest;
    var p, tx := FramedSize(txs), 1 + |txs|;
    ReadLogAfterFramed(variant, txs, tail, log, p, tx);
    assert log[p..p + 16] == bad;
    ReadLogBadStartMarker(variant, log, p, tx);
    stop := ReadLog(variant, log, p, tx).stop;
    AppendEmpty(txs);
  }

  /**
   * Opening a log whose complete transactions are followed by a transaction
   * with a wrong first operation separator: the strict engines refuse to
   * open; the lenient engine keeps every earlier transaction and rewrites
   * the log as their trimmed snapshot.
   */
  lemma ReplayBadSeparatorAfterFramed(variant: Variant, files: DataFiles, current: int32, txs: seq<seq<Operation>>,
                                      count: int32, word: seq<uint8>, rest: seq<uint8>)
    requires AllWritable(txs)
    requires count > 0 && |word| == 4 && word != OperationSeparatorBytes
    ensures var s := ApplyTransactions(EmptyIndex, files, current, txs);
      var r := ReadTransactionLog(variant, files, current, Framed(txs) + (StartTransactionSeparator + Int32Bytes(count) + word + rest));
      r == if variant == DiskQueue(false) then Success(Opened(s.0, s.1, TrimmedLog(s.0))) else Failure(UnknownOperationSeparator)
  {
    var tail := StartTransactionSeparator + Int32Bytes(count) + word + rest;
    var log := Framed(txs) + tail;
    var p, tx := FramedSize(txs), 1 + |txs|;
    ReadLogAfterFramed(variant, txs, tail, log, p, tx);
    ReadLogBadOperationSeparator(variant, log, p, tx, count, word, rest);
    assert txs + [] == txs;
  }

  /** Opening a log with a negative operation count after any complete transactions fails, in every engine and policy. */
  lemma ReplayNegativeCountAfterFramed(variant: Variant, files: DataFiles, current: int32, txs: seq<seq<Operation>>,
                                       count: int32, rest: seq<uint8>)
    requires AllWritable(txs) && count < 0
    ensures ReadTransactionLog(variant, files, current, Framed(txs) + (StartTransactionSeparator + Int32Bytes(count) + rest))
      == Failure(NegativeOperationCount(count))
  {
    var tail := StartTransactionSeparator + Int32Bytes(count) + rest;
    var log := Framed(txs) + tail;
    var p, tx := FramedSize(txs), 1 + |txs|;
    ReadLogAfterFramed(variant, txs, tail, log, p, tx);
    ReadLogNegativeCount(variant, log, p, tx, count, rest);
  }

  // ---------------------------------------------------------------------
  // Replaying the trimmed snapshot
  // ---------------------------------------------------------------------

  /** A log holding one Enqueue-only transaction reads back as that transaction, with no torn tail. */
  lemma ReadEnqueueOnlyLog(variant: Variant, es: seq<Entry>)
    requires |es| <= MaxInt32
    ensures ReadLog(variant, TransactionBytes(EnqueueAll(es)), 0, 1) == LogRead([EnqueueAll(es)], Truncated(false))
  {
    var ops := EnqueueAll(es);
    assert ValidOps(ops);
    assert Framed([ops]) + TransactionBytes([])[..0] == TransactionBytes(ops);
    ReadFramedLog(variant, [ops], [], 0);
  }

  /**
   * Applying one Enqueue-only transaction to an empty queue: the entries are
   * queued in order without data, nothing is checked out, each file counts
   * its entries, and no data file is deleted (every file in the map counts at
   * least one entry).
   */
  lemma ApplyEnqueueOnly(files: DataFiles, current: int32, es: seq<Entry>)
    ensures var s := ApplyTransactions(EmptyIndex, files, current, [EnqueueAll(es)]);
      && s.0.entries == Unread(es)
      && s.0.checkedOut == []
      && (forall f :: CountOf(s.0.counts, f) == CountOfFile(es, f))
      && s.1 == files
  {
    var ops := EnqueueAll(es);
    ApplyEnqueues(EmptyIndex, es);
    var mid := ApplyOperations(EmptyIndex, ops);
    assert Exhausted(mid.counts) == {} by {
      forall f | f in mid.counts ensures mid.counts[f] >= 1 {
        assert CountOf(mid.counts, f) == CountOfFile(es, f);
      }
    }
    var after := ApplyTransactionOperations(EmptyIndex, files, current, ops);
    assert after.1 == files;
    assert forall f :: CountOf(after.0.counts, f) == CountOf(mid.counts, f);
    assert ApplyTransactions(EmptyIndex, files, current, [ops]) == after;
  }

  /**
   * Opening a queue whose log holds one Enqueue-only transaction (what
   * FlushTrimmedTransactionLog writes): the entries come back in order,
   * nothing is checked out, no data file is deleted and the log is kept.
   */
  lemma ReplayEnqueueOnlyLog(variant: Variant, files: DataFiles, current: int32, es: seq<Entry>)
    requires |es| <= MaxInt32
    ensures var r := ReadTransactionLog(variant, files, current, TransactionBytes(EnqueueAll(es)));
      && r.Success?
      && r.value.idx.entries == Unread(es)
      && r.value.idx.checkedOut == []
      && (forall f :: CountOf(r.value.idx.counts, f) == CountOfFile(es, f))
      && r.value.files == files
      && r.value.log == TransactionBytes(EnqueueAll(es))
  {
    var ops := EnqueueAll(es);
    var log, txs := TransactionBytes(ops), [ops];
    ReadEnqueueOnlyLog(variant, es);
    EnqueueOnlyKeepsLog(ops, txs);
    OpenWithStop(variant, files, current, log, txs, Truncated(false));
    ApplyEnqueueOnly(files, current, es);
  }

  lemma EnqueueOnlyKeepsLog(ops: seq<Operation>, txs: seq<seq<Operation>>)
    requires forall i :: 0 <= i < |ops| ==> ops[i].opType == Enqueue
    requires txs == [ops]
    ensures !AnyNonEnqueueIn(txs)
  {
    assert txs[1..] == [];
  }

  /**
   * Opening a queue whose log is the trimmed snapshot of an index: every
   * checked-out entry comes back at the head of the queue, ahead of the
   * queued ones in their order, nothing is checked out, no data file is
   * deleted, the log is kept, and for a consistent index the per-file counts
   * are restored exactly.
   */
  lemma ReplayTrimmedLog(variant: Variant, files: DataFiles, current: int32, idx: Index)
    requires idx.EstimatedCount() <= MaxInt32
    ensures var r := ReadTransactionLog(variant, files, current, TrimmedLog(idx));
      && r.Success?
      && Keys(r.value.idx.entries) == idx.checkedOut + Keys(idx.entries)
      && r.value.idx.checkedOut == []
      && r.value.files == files
      && r.value.log == TrimmedLog(idx)
      && (Consistent(idx) ==> forall f :: CountOf(r.value.idx.counts, f) == CountOf(idx.counts, f))
  {
    var es := idx.checkedOut + Keys(idx.entries);
    ReplayEnqueueOnlyLog(variant, files, current, es);
    if Consistent(idx) {
      forall f ensures CountOfFile(es, f) == CountOf(idx.counts, f) {
        CountOfFileConcat(idx.checkedOut, Keys(idx.entries), f);
        CountOfFileConcat(Keys(idx.entries), idx.checkedOut, f);
      }
    }
  }

  // ---------------------------------------------------------------------
  // Replay with the corrected Dequeue
  // ---------------------------------------------------------------------

  /** ApplyTransactions with ReplayTransactionOperations in place of ApplyTransactionOperations. */
  function ReplayTransactions(idx: Index, files: DataFiles, current: int32, txs: seq<seq<Operation>>): (r: (Index, DataFiles))
    decreases |txs|
  {
    if txs == [] then (idx, files)
    else
      var (idx', files') := ReplayTransactionOperations(idx, files, current, txs[0]);
      ReplayTransactions(idx', files', current, txs[1..])
  }

  /**
   * ReadTransactionLog with the corrected Dequeue: the same reading, the same
   * errors and the same trimming decision; only the rebuilt queue differs.
   */
  function ReplayTransactionLog(variant: Variant, files: DataFiles, current: int32, log: seq<uint8>): (r: Result<Opened, Error>)
    ensures r.Failure? <==> ReadTransactionLog(variant, files, current, log).Failure?
    ensures r.Failure? ==> r == ReadTransactionLog(variant, files, current, log)
    ensures r.Success? ==> r.value.log == log || r.value.log == TrimmedLog(r.value.idx)
  {
    var rd := ReadLog(variant, log, 0, 1);
    if rd.stop.Corrupt? then Failure(rd.stop.error)
    else
      var s := ReplayTransactions(EmptyIndex, files, current, rd.txs);
      var trim := AnyNonEnqueueIn(rd.txs) || rd.stop.begun;
      Success(Opened(s.0, s.1, if trim then TrimmedLog(s.0) else log))
  }

  /** The corrected replay builds the same index whatever data files exist and whichever is current. */
  lemma {:induction false} ReplayTransactionsIndex(idx: Index, txs: seq<seq<Operation>>,
                                                   files: DataFiles, current: int32, files': DataFiles, current': int32)
    ensures ReplayTransactions(idx, files, current, txs).0 == ReplayTransactions(idx, files', current', txs).0
    decreases |txs|
  {
    if txs != [] {
      var a := ReplayTransactionOperations(idx, files, current, txs[0]);
      var b := ReplayTransactionOperations(idx, files', current', txs[0]);
      assert a.0 == b.0;
      ReplayTransactionsIndex(a.0, txs[1..], a.1, current, b.1, current');
    }
  }

  /** Replaying one more transaction applies it, corrected, to what replaying the others built. */
  lemma {:induction false} ReplayTransactionsSnoc(idx: Index, files: DataFiles, current: int32,
                                                  txs: seq<seq<Operation>>, ops: seq<Operation>)
    ensures var s := ReplayTransactions(idx, files, current, txs);
      ReplayTransactions(idx, files, current, txs + [ops]) == ReplayTransactionOperations(s.0, s.1, current, ops)
    decreases |txs|
  {
    if txs == [] {
      assert txs + [ops] == [ops];
      assert [ops][1..] == [];
    } else {
      var a := ReplayTransactionOperations(idx, files, current, txs[0]);
      assert (txs + [ops])[0] == txs[0];
      assert (txs + [ops])[1..] == txs[1..] + [ops];
      ReplayTransactionsSnoc(a.0, a.1, current, txs[1..], ops);
    }
  }

  /** A log of framed transactions reads back whole, and the corrected replay applies them all. */
  lemma ReplayFramed(variant: Variant, files: DataFiles, current: int32, txs: seq<seq<Operation>>)
    requires AllWritable(txs)
    ensures var s := ReplayTransactions(EmptyIndex, files, current, txs);
      ReplayTransactionLog(variant, files, current, Framed(txs))
        == Success(Opened(s.0, s.1, if AnyNonEnqueueIn(txs) then TrimmedLog(s.0) else Framed(txs)))
  {
    var empty := TransactionBytes([])[..0];
    assert Framed(txs) + empty == Framed(txs);
    ReadFramedLog(variant, txs, [], 0);
  }

  /** A single transaction without a Dequeue replays the same, corrected or not. */
  lemma ReplaySingleWithoutDequeue(files: DataFiles, current: int32, ops: seq<Operation>)
    requires forall i :: 0 <= i < |ops| ==> ops[i].opType != Dequeue
    ensures ReplayTransactions(EmptyIndex, files, current, [ops]) == ApplyTransactions(EmptyIndex, files, current, [ops])
  {
    ReplayWithoutDequeue(EmptyIndex, ops);
    assert [ops][1..] == [];
  }

  /**
   * The trimmed snapshot of a consistent index is one framed transaction,
   * and replaying it, corrected or not, rebuilds a mirror of the index.
   */
  lemma ReplaySnapshot(variant: Variant, files: DataFiles, current: int32, idx: Index)
    requires Consistent(idx) && idx.EstimatedCount() <= MaxInt32
    ensures var txs := [TrimmedOperations(idx)];
      && AllWritable(txs) && TrimmedLog(idx) == Framed(txs)
      && Mirrors(ReplayTransactions(EmptyIndex, files, current, txs).0, idx)
  {
    var es := idx.checkedOut + Keys(idx.entries);
    var ops := TrimmedOperations(idx);
    assert ValidOps(ops);
    assert Framed([ops]) == TransactionBytes(ops) + Framed([]);
    ReplaySingleWithoutDequeue(files, current, ops);
    ApplyEnqueueOnly(files, current, es);
    SnapshotMirrors(ApplyTransactions(EmptyIndex, files, current, [ops]).0, idx);
  }

  /** An index that queues the snapshot's entries, counted per file, mirrors the snapshotted index. */
  lemma SnapshotMirrors(x: Index, idx: Index)
    requires Consistent(idx)
    requires var es := idx.checkedOut + Keys(idx.entries);
      && x.entries == Unread(es) && x.checkedOut == []
      && forall f :: CountOf(x.counts, f) == CountOfFile(es, f)
    ensures Mirrors(x, idx)
  {
    var k, c := Keys(idx.entries), idx.checkedOut;
    assert Held(x) == c + k;
    DistinctConcat(k, c);
    DistinctConcat(c, k);
    ElemsConcat(k, c);
    ElemsConcat(c, k);
  }
}
