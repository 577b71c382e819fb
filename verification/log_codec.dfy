/**
 * The transaction-log format: how a list of operations is framed as one
 * transaction (GenerateTransactionBuffer / WriteEntryToTransactionLog), the
 * trimmed snapshot (FlushTrimmedTransactionLog), and how one transaction is
 * read back with BinaryReader semantics (AssertTransactionSeperator,
 * AssertOperationSeparator, ThrowIfStrict) in both engine variants.
 */
module LogCodec {
  import opened Bytes
  import opened Wrappers
  import opened Errors
  import opened Constants
  import opened Operations
  import opened EntryIndex

  /**
   * The two engines sharing this format: DiskQueue, whose throwOnConflict
   * flag chooses between raising and silently truncating on corrupt data,
   * and the older Rhino engine, which always raises.
   */
  datatype Variant = DiskQueue(throwOnConflict: bool) | Rhino

  // ---------------------------------------------------------------------
  // Encoding
  // ---------------------------------------------------------------------

  /** WriteEntryToTransactionLog: separator, type tag, file number, start, length. */
  function OperationRecord(t: OperationType, e: Entry): (bs: seq<uint8>)
    ensures |bs| == 17
  {
    OperationSeparatorBytes + OperationBody(t, e)
  }

  /** The part of a record after the separator. */
  function OperationBody(t: OperationType, e: Entry): (bs: seq<uint8>)
    ensures |bs| == 13
  {
    [TypeByte(t)] + Int32Bytes(e.fileNumber) + Int32Bytes(e.start) + Int32Bytes(e.length)
  }

  /** The records of a list of operations, in order. */
  function Records(ops: seq<Operation>): (bs: seq<uint8>)
    ensures |bs| == 17 * |ops|
  {
    if ops == [] then [] else OperationRecord(ops[0].opType, EntryOf(ops[0])) + Records(ops[1..])
  }

  /**
   * GenerateTransactionBuffer: start marker, operation count, one record per
   * operation, end marker. The count is a .NET int; a collection can never
   * hold more than int.MaxValue operations, so the wrap never changes it.
   */
  function TransactionBytes(ops: seq<Operation>): (bs: seq<uint8>)
    ensures |bs| == 36 + 17 * |ops|
    ensures bs[..16] == StartTransactionSeparator
    ensures bs[|bs| - 16..] == EndTransactionSeparator
  {
    MarkersDiffer();
    StartTransactionSeparator + Int32Bytes(Wrap32(|ops|)) + Records(ops) + EndTransactionSeparator
  }

  /**
   * The operations of the trimmed log: an Enqueue for every checked-out entry
   * (in the set's enumeration order), then one for every queued entry in
   * queue order.
   */
  function TrimmedOperations(idx: Index): (ops: seq<Operation>)
    ensures |ops| == idx.EstimatedCount()
    ensures forall i :: 0 <= i < |ops| ==> ops[i].opType == Enqueue
  {
    EnqueueAll(idx.checkedOut + Keys(idx.entries))
  }

  /** FlushTrimmedTransactionLog: the whole log replaced by one transaction. */
  function TrimmedLog(idx: Index): (bs: seq<uint8>)
    ensures |bs| == 36 + 17 * idx.EstimatedCount()
    ensures idx.EstimatedCount() == 0 ==> |bs| == 36
  {
    TransactionBytes(TrimmedOperations(idx))
  }

  /** The concatenation of several framed transactions, oldest first. */
  function Framed(txs: seq<seq<Operation>>): (bs: seq<uint8>)
    ensures txs == [] ==> bs == []
  {
    if txs == [] then [] else TransactionBytes(txs[0]) + Framed(txs[1..])
  }

  // ---------------------------------------------------------------------
  // Reading with BinaryReader semantics
  // ---------------------------------------------------------------------

  /**
   * The result of one read step: a value and the new stream position, an
   * EndOfStreamException (caught by the replay loop), or any other exception
   * (which aborts opening the queue).
   */
  datatype Outcome<+T> = Read(value: T, next: nat) | EndOfStream | Raised(error: Error)

  function Min(a: int, b: int): int {
    if a <= b then a else b
  }

  /** BinaryReader.ReadBytes(n): whatever is left, up to n bytes. */
  function ReadBytes(log: seq<uint8>, pos: nat, n: nat): (bs: seq<uint8>)
    requires pos <= |log|
    ensures |bs| <= n
    ensures pos + |bs| <= |log|
    ensures |bs| < n ==> pos + |bs| == |log|
    ensures bs == log[pos..pos + |bs|]
  {
    log[pos..Min(pos + n, |log|)]
  }

  /** BinaryReader.ReadInt32: four little-endian bytes, or end of stream. */
  function ReadInt32(log: seq<uint8>, pos: nat): (r: Outcome<int32>)
    requires pos <= |log|
    ensures r.EndOfStream? <==> pos + 4 > |log|
    ensures r.Read? ==> r.next == pos + 4 && r.value == Int32Of(log[pos..pos + 4])
    ensures !r.Raised?
  {
    if |log| - pos < 4 then EndOfStream else Read(Int32Of(log[pos..pos + 4]), pos + 4)
  }

  /** BinaryReader.ReadByte: one byte, or end of stream. */
  function ReadByte(log: seq<uint8>, pos: nat): (r: Outcome<uint8>)
    requires pos <= |log|
    ensures r.EndOfStream? <==> pos + 1 > |log|
    ensures r.Read? ==> r.next == pos + 1 && r.value == log[pos]
    ensures !r.Raised?
  {
    if pos == |log| then EndOfStream else Read(log[pos], pos + 1)
  }

  /**
   * ThrowIfStrict: with throwOnConflict an InvalidOperationException, otherwise
   * an EndOfStreamException that the replay treats as a torn tail.
   */
  function ThrowIfStrict<T>(strict: bool, err: Error): (r: Outcome<T>)
    ensures r.Raised? <==> strict
    ensures r.Raised? ==> r.error == err
    ensures !r.Read?
  {
    if strict then Raised(err) else EndOfStream
  }

  /**
   * AssertTransactionSeperator: read sixteen bytes and check them against the
   * marker `which` asks for. Rhino's version takes the expected marker
   * directly and has no lenient mode and no "other marker" diagnosis. The
   * source compares the GUIDs built from the bytes; comparing the bytes is
   * the same test (Constants.GuidEqualityIsByteEquality).
   */
  function AssertMarker(variant: Variant, log: seq<uint8>, pos: nat, tx: int, which: int32): (r: Outcome<()>)
    requires pos <= |log|
    ensures r.Read? ==> r.next == pos + 16 <= |log|
    ensures r.Raised? && (which == StartTransaction || which == EndTransaction) ==> variant.Rhino? || variant.throwOnConflict
  {
    var bytes := ReadBytes(log, pos, 16);
    if |bytes| == 0 then EndOfStream
    else if |bytes| != 16 then
      if pos + |bytes| == |log| then EndOfStream
      else
        match variant
        case Rhino => Raised(TruncatedMarker(tx))
        case DiskQueue(strict) => ThrowIfStrict(strict, TruncatedMarker(tx))
    else
      match variant
      case Rhino =>
        var expected := if which == StartTransaction then StartTransactionSeparator else EndTransactionSeparator;
        if bytes == expected then Read((), pos + 16) else Raised(UnknownMarker(tx))
      case DiskQueue(strict) =>
        match ChooseMarkers(which)
        case Failure(err) => Raised(err)
        case Success(choice) =>
          if bytes == choice.expected then Read((), pos + 16)
          else if bytes == choice.other then
            ThrowIfStrict(strict, WrongMarker(which, choice.otherMarker))
          else ThrowIfStrict(strict, UnknownMarker(tx))
  }

  /**
   * The "short read but not at the end" branch of the marker check never
   * fires: BinaryReader only returns fewer bytes than asked at end of stream.
   */
  lemma ShortMarkerOnlyAtEnd(log: seq<uint8>, pos: nat)
    requires pos <= |log|
    ensures var bytes := ReadBytes(log, pos, 16);
      0 < |bytes| < 16 ==> pos + |bytes| == |log|
  {
  }

  /** Reading a marker where the log holds exactly the expected sixteen bytes passes. */
  lemma AssertMarkerAccepts(variant: Variant, log: seq<uint8>, pos: nat, tx: int, which: int32)
    requires which == StartTransaction || which == EndTransaction
    requires pos + 16 <= |log|
    requires log[pos..pos + 16] == (if which == StartTransaction then StartTransactionSeparator else EndTransactionSeparator)
    ensures AssertMarker(variant, log, pos, tx, which) == Read((), pos + 16)
  {
    MarkersDiffer();
    assert ReadBytes(log, pos, 16) == log[pos..pos + 16];
  }

  /**
   * Classification of a full sixteen bytes that are not the expected marker:
   * the other marker is reported as such, anything else as unknown data, and
   * the lenient engine ends the replay instead of raising.
   */
  lemma AssertMarkerRejects(variant: Variant, log: seq<uint8>, pos: nat, tx: int, which: int32)
    requires which == StartTransaction || which == EndTransaction
    requires pos + 16 <= |log|
    requires log[pos..pos + 16] != (if which == StartTransaction then StartTransactionSeparator else EndTransactionSeparator)
    ensures var other := if which == StartTransaction then EndTransactionSeparator else StartTransactionSeparator;
      var r := AssertMarker(variant, log, pos, tx, which);
      match variant
      case Rhino => r == Raised(UnknownMarker(tx))
      case DiskQueue(strict) =>
        && (!strict ==> r == EndOfStream)
        && (strict && log[pos..pos + 16] == other ==> r == Raised(WrongMarker(which, if which == StartTransaction then EndTransaction else StartTransaction)))
        && (strict && log[pos..pos + 16] != other ==> r == Raised(UnknownMarker(tx)))
  {
    MarkersDiffer();
    var bytes := ReadBytes(log, pos, 16);
    assert bytes == log[pos..pos + 16];
  }

  /** AssertOperationSeparator: the next int32 must be the operation separator. */
  function AssertOperationSeparator(variant: Variant, log: seq<uint8>, pos: nat): (r: Outcome<()>)
    requires pos <= |log|
    ensures r.Read? <==> pos + 4 <= |log| && log[pos..pos + 4] == OperationSeparatorBytes
    ensures r.Read? ==> r.next == pos + 4
    ensures r.Raised? ==> r.error == UnknownOperationSeparator && (variant.Rhino? || variant.throwOnConflict)
    ensures r.EndOfStream? && pos + 4 <= |log| ==> variant == DiskQueue(false)
  {
    match ReadInt32(log, pos)
    case Read(separator, next) =>
      OperationSeparatorLayout();
      Int32BytesRoundTrip(log[pos..pos + 4]);
      Int32BytesInjective(separator, OperationSeparator);
      if separator == OperationSeparator then Read((), next)
      else if variant.Rhino? then Raised(UnknownOperationSeparator)
      else ThrowIfStrict(variant.throwOnConflict, UnknownOperationSeparator)
    case _ => EndOfStream
  }

  /** `new Operation((OperationType)ReadByte(), ReadInt32(), ReadInt32(), ReadInt32())`. */
  function ReadOperation(log: seq<uint8>, pos: nat): (r: Outcome<Operation>)
    requires pos <= |log|
    ensures r.EndOfStream? <==> pos + 13 > |log|
    ensures r.Read? ==> r.next == pos + 13
    ensures !r.Raised?
  {
    match ReadByte(log, pos)
    case Read(tag, p1) => (
      match ReadInt32(log, p1)
      case Read(file, p2) => (
        match ReadInt32(log, p2)
        case Read(start, p3) => (
          match ReadInt32(log, p3)
          case Read(length, p4) =>
            Read(Operation(TypeOf(tag), file, start, length), p4)
          case _ => EndOfStream)
        case _ => EndOfStream)
      case _ => EndOfStream)
    case _ => EndOfStream
  }

  /** One pass of the operation loop: AssertOperationSeparator, then the operation. */
  function ReadSeparatedOperation(variant: Variant, log: seq<uint8>, pos: nat): (r: Outcome<Operation>)
    requires pos <= |log|
    ensures r.Read? ==> r.next == pos + 17 <= |log|
    ensures r.Raised? ==> r.error == UnknownOperationSeparator && (variant.Rhino? || variant.throwOnConflict)
  {
    match AssertOperationSeparator(variant, log, pos)
    case Read(_, p1) => ReadOperation(log, p1)
    case Raised(e) => Raised(e)
    case EndOfStream => EndOfStream
  }

  /** The operation loop: `count` separator-prefixed operations. */
  function ReadOperations(variant: Variant, log: seq<uint8>, pos: nat, count: nat): (r: Outcome<seq<Operation>>)
    requires pos <= |log|
    ensures r.Read? ==> |r.value| == count && r.next == pos + 17 * count <= |log|
    ensures r.Raised? ==> r.error == UnknownOperationSeparator && (variant.Rhino? || variant.throwOnConflict)
    decreases count
  {
    if count == 0 then Read([], pos)
    else
      match ReadSeparatedOperation(variant, log, pos)
      case Read(op, p1) => (
        match ReadOperations(variant, log, p1, count - 1)
        case Read(rest, p2) => Read([op] + rest, p2)
        case Raised(e) => Raised(e)
        case EndOfStream => EndOfStream)
      case Raised(e) => Raised(e)
      case EndOfStream => EndOfStream
  }

  /**
   * Reading one transaction at `pos`: a complete one with its operations and
   * the position after it; a torn tail (with whether any byte of it exists,
   * which is what sets readingTransaction); or corruption that aborts opening.
   */
  datatype TxOutcome = Complete(ops: seq<Operation>, next: nat) | Truncated(begun: bool) | Corrupt(error: Error)

  /** One iteration of ReadTransactionLog's loop, before the operations are applied. */
  function ReadTransaction(variant: Variant, log: seq<uint8>, pos: nat, tx: int): (r: TxOutcome)
    requires pos <= |log|
    ensures r.Complete? ==> pos + 36 + 17 * |r.ops| == r.next <= |log|
    ensures r.Truncated? ==> (r.begun <==> pos < |log|)
    ensures r.Corrupt? ==> r.error.NegativeOperationCount? || variant.Rhino? || variant.throwOnConflict
  {
    match AssertMarker(variant, log, pos, tx, StartTransaction)
    case Read(_, p1) => ReadCountAndOperations(variant, log, p1, tx)
    case Raised(e) => Corrupt(e)
    case EndOfStream => Truncated(pos < |log|)
  }

  /**
   * After the start marker: the operation count, which `new List(count)`
   * rejects when negative, then the operations and the end marker.
   */
  function ReadCountAndOperations(variant: Variant, log: seq<uint8>, pos: nat, tx: int): (r: TxOutcome)
    requires pos <= |log|
    ensures r.Complete? ==> pos + 20 + 17 * |r.ops| == r.next <= |log|
    ensures r.Truncated? ==> r.begun
    ensures r.Corrupt? ==> r.error.NegativeOperationCount? || variant.Rhino? || variant.throwOnConflict
  {
    match ReadInt32(log, pos)
    case Read(count, p1) =>
      if count < 0 then Corrupt(NegativeOperationCount(count))
      else ReadOperationsAndEnd(variant, log, p1, tx, count)
    case _ => Truncated(true)
  }

  /** The operations of a transaction, then its end marker. */
  function ReadOperationsAndEnd(variant: Variant, log: seq<uint8>, pos: nat, tx: int, count: nat): (r: TxOutcome)
    requires pos <= |log|
    ensures r.Complete? ==> |r.ops| == count && pos + 17 * count + 16 == r.next <= |log|
    ensures r.Truncated? ==> r.begun
    ensures r.Corrupt? ==> variant.Rhino? || variant.throwOnConflict
  {
    match ReadOperations(variant, log, pos, count)
    case Read(ops, p1) => (
      match AssertMarker(variant, log, p1, tx, EndTransaction)
      case Read(_, p2) => Complete(ops, p2)
      case Raised(e) => Corrupt(e)
      case EndOfStream => Truncated(true))
    case Raised(e) => Corrupt(e)
    case EndOfStream => Truncated(true)
  }

  // ---------------------------------------------------------------------
  // Reading back what was written
  // ---------------------------------------------------------------------

  /** The log holds `bs` at `pos`, or as much of it as there is room for. */
  predicate PrefixAt(log: seq<uint8>, pos: nat, bs: seq<uint8>) {
    pos <= |log| && var m := Min(|log| - pos, |bs|); log[pos..pos + m] == bs[..m]
  }

  lemma PrefixAtSplit(log: seq<uint8>, pos: nat, a: seq<uint8>, b: seq<uint8>)
    requires PrefixAt(log, pos, a + b)
    ensures PrefixAt(log, pos, a)
    ensures pos + |a| <= |log| ==> PrefixAt(log, pos + |a|, b)
  {
    var ab := a + b;
    var m := Min(|log| - pos, |ab|);
    var m1 := Min(|log| - pos, |a|);
    assert log[pos..pos + m1] == log[pos..pos + m][..m1];
    assert ab[..m][..m1] == a[..m1];
    if pos + |a| <= |log| {
      var m2 := Min(|log| - pos - |a|, |b|);
      assert m == |a| + m2;
      assert log[pos + |a|..pos + |a| + m2] == log[pos..pos + m][|a|..];
      assert ab[..m][|a|..] == b[..m2];
    }
  }

  /** The full `bs` lies at `pos`. */
  lemma PrefixAtFull(log: seq<uint8>, pos: nat, bs: seq<uint8>)
    requires PrefixAt(log, pos, bs) && pos + |bs| <= |log|
    ensures log[pos..pos + |bs|] == bs
  {
  }

  /** A log whose remainder at `pos` starts with `bs` holds it there. */
  lemma PrefixAtOfSlice(log: seq<uint8>, pos: nat, bs: seq<uint8>, rest: seq<uint8>)
    requires pos <= |log| && log[pos..] == bs + rest
    ensures PrefixAt(log, pos, bs) && pos + |bs| <= |log|
    ensures log[pos + |bs|..] == rest
  {
    assert log[pos..pos + |bs|] == (bs + rest)[..|bs|] == bs;
    assert log[pos + |bs|..] == (bs + rest)[|bs|..] == rest;
  }

  /** A log whose remainder at `pos` is an initial part of `bs` holds as much of it as there is room for. */
  lemma PrefixAtOfTorn(log: seq<uint8>, pos: nat, bs: seq<uint8>, k: nat)
    requires k <= |bs| && pos <= |log| && log[pos..] == bs[..k]
    ensures PrefixAt(log, pos, bs)
  {
    assert |log| - pos == k;
    assert log[pos..pos + k] == log[pos..];
  }

  lemma ReadInt32Prefix(log: seq<uint8>, pos: nat, x: int32)
    requires PrefixAt(log, pos, Int32Bytes(x))
    ensures ReadInt32(log, pos) == if pos + 4 <= |log| then Read(x, pos + 4) else EndOfStream
  {
    if pos + 4 <= |log| {
      PrefixAtFull(log, pos, Int32Bytes(x));
      Int32RoundTrip(x);
    }
  }

  lemma AssertMarkerPrefix(variant: Variant, log: seq<uint8>, pos: nat, tx: int, which: int32)
    requires which == StartTransaction || which == EndTransaction
    requires PrefixAt(log, pos, if which == StartTransaction then StartTransactionSeparator else EndTransactionSeparator)
    ensures AssertMarker(variant, log, pos, tx, which) == if pos + 16 <= |log| then Read((), pos + 16) else EndOfStream
  {
    MarkersDiffer();
    if pos + 16 <= |log| {
      PrefixAtFull(log, pos, if which == StartTransaction then StartTransactionSeparator else EndTransactionSeparator);
      AssertMarkerAccepts(variant, log, pos, tx, which);
    }
  }

  lemma ReadOperationPrefix(log: seq<uint8>, pos: nat, op: Operation)
    requires op.opType.Valid()
    requires PrefixAt(log, pos, OperationBody(op.opType, EntryOf(op)))
    ensures ReadOperation(log, pos) == if pos + 13 <= |log| then Read(op, pos + 13) else EndOfStream
  {
    var tag, f, s, l := [TypeByte(op.opType)], Int32Bytes(op.fileNumber), Int32Bytes(op.start), Int32Bytes(op.length);
    Reassociate(tag, f, s, l);
    PrefixAtSplit(log, pos, tag, f + (s + l));
    if pos + 1 <= |log| {
      PrefixAtFull(log, pos, tag);
      assert log[pos] == tag[0];
      TypeRoundTrip(op.opType);
      PrefixAtSplit(log, pos + 1, f, s + l);
      ReadInt32Prefix(log, pos + 1, op.fileNumber);
      if pos + 5 <= |log| {
        PrefixAtSplit(log, pos + 5, s, l);
        ReadInt32Prefix(log, pos + 5, op.start);
        if pos + 9 <= |log| {
          ReadInt32Prefix(log, pos + 9, op.length);
        }
      }
    }
  }

  predicate ValidOps(ops: seq<Operation>) {
    forall i :: 0 <= i < |ops| ==> ops[i].opType.Valid()
  }

  lemma AssertOperationSeparatorPrefix(variant: Variant, log: seq<uint8>, pos: nat)
    requires PrefixAt(log, pos, OperationSeparatorBytes)
    ensures AssertOperationSeparator(variant, log, pos) == if pos + 4 <= |log| then Read((), pos + 4) else EndOfStream
  {
    if pos + 4 <= |log| {
      PrefixAtFull(log, pos, OperationSeparatorBytes);
      OperationSeparatorLayout();
    }
  }

  lemma ReadSeparatedOperationPrefix(variant: Variant, log: seq<uint8>, pos: nat, op: Operation)
    requires op.opType.Valid()
    requires PrefixAt(log, pos, OperationRecord(op.opType, EntryOf(op)))
    ensures ReadSeparatedOperation(variant, log, pos) == if pos + 17 <= |log| then Read(op, pos + 17) else EndOfStream
  {
    PrefixAtSplit(log, pos, OperationSeparatorBytes, OperationBody(op.opType, EntryOf(op)));
    AssertOperationSeparatorPrefix(variant, log, pos);
    if pos + 4 <= |log| {
      ReadOperationPrefix(log, pos + 4, op);
    }
  }

  /** The log holds the records of `ops` at `pos`, one record at a time, up to its end. */
  predicate RecordsAt(log: seq<uint8>, pos: nat, ops: seq<Operation>)
    decreases |ops|
  {
    && pos <= |log|
    && (ops != [] ==>
      && PrefixAt(log, pos, OperationRecord(ops[0].opType, EntryOf(ops[0])))
      && (pos + 17 <= |log| ==> RecordsAt(log, pos + 17, ops[1..])))
  }

  lemma {:induction false} RecordsAtOfPrefix(log: seq<uint8>, pos: nat, ops: seq<Operation>)
    requires PrefixAt(log, pos, Records(ops))
    ensures RecordsAt(log, pos, ops)
    decreases |ops|
  {
    if ops != [] {
      var rec := OperationRecord(ops[0].opType, EntryOf(ops[0]));
      assert Records(ops) == rec + Records(ops[1..]);
      PrefixAtSplit(log, pos, rec, Records(ops[1..]));
      if pos + 17 <= |log| {
        RecordsAtOfPrefix(log, pos + 17, ops[1..]);
      }
    }
  }

  lemma {:induction false} ReadOperationsPrefix(variant: Variant, log: seq<uint8>, pos: nat, ops: seq<Operation>)
    requires ValidOps(ops)
    requires RecordsAt(log, pos, ops)
    ensures ReadOperations(variant, log, pos, |ops|)
      == if pos + 17 * |ops| <= |log| then Read(ops, pos + 17 * |ops|) else EndOfStream
    decreases |ops|
  {
    if ops != [] {
      ReadSeparatedOperationPrefix(variant, log, pos, ops[0]);
      if pos + 17 <= |log| {
        assert ValidOps(ops[1..]);
        ReadOperationsPrefix(variant, log, pos + 17, ops[1..]);
      }
      ReadOperationsStep(variant, log, pos, ops);
    }
  }

  /** One step of the operation loop, given what its two parts read. */
  lemma ReadOperationsStep(variant: Variant, log: seq<uint8>, pos: nat, ops: seq<Operation>)
    requires pos <= |log| && ops != []
    requires ReadSeparatedOperation(variant, log, pos) == if pos + 17 <= |log| then Read(ops[0], pos + 17) else EndOfStream
    requires pos + 17 <= |log| ==>
      ReadOperations(variant, log, pos + 17, |ops| - 1)
        == if pos + 17 * |ops| <= |log| then Read(ops[1..], pos + 17 * |ops|) else EndOfStream
    ensures ReadOperations(variant, log, pos, |ops|)
      == if pos + 17 * |ops| <= |log| then Read(ops, pos + 17 * |ops|) else EndOfStream
  {
    assert [ops[0]] + ops[1..] == ops;
  }

  /** The log holds the operation records and the end marker at `pos`, up to its end. */
  predicate OperationsAndEndAt(log: seq<uint8>, pos: nat, ops: seq<Operation>) {
    && RecordsAt(log, pos, ops)
    && (pos + 17 * |ops| <= |log| ==> PrefixAt(log, pos + 17 * |ops|, EndTransactionSeparator))
  }

  /** The log holds the operation count, the records and the end marker at `pos`, up to its end. */
  predicate CountAndOperationsAt(log: seq<uint8>, pos: nat, ops: seq<Operation>)
    requires |ops| <= MaxInt32
  {
    && PrefixAt(log, pos, Int32Bytes(|ops|))
    && (pos + 4 <= |log| ==> OperationsAndEndAt(log, pos + 4, ops))
  }

  /** The log holds the encoding of a transaction of `ops` at `pos`, field by field, up to its end. */
  predicate TransactionAt(log: seq<uint8>, pos: nat, ops: seq<Operation>)
    requires |ops| <= MaxInt32
  {
    && PrefixAt(log, pos, StartTransactionSeparator)
    && (pos + 16 <= |log| ==> CountAndOperationsAt(log, pos + 16, ops))
  }

  lemma OperationsAndEndAtOfPrefix(log: seq<uint8>, pos: nat, ops: seq<Operation>)
    requires PrefixAt(log, pos, Records(ops) + EndTransactionSeparator)
    ensures OperationsAndEndAt(log, pos, ops)
  {
    PrefixAtSplit(log, pos, Records(ops), EndTransactionSeparator);
    RecordsAtOfPrefix(log, pos, ops);
  }

  lemma Reassociate(a: seq<uint8>, b: seq<uint8>, c: seq<uint8>, d: seq<uint8>)
    ensures a + b + c + d == a + (b + (c + d))
  {
  }

  lemma TransactionAtOfPrefix(log: seq<uint8>, pos: nat, ops: seq<Operation>)
    requires |ops| <= MaxInt32
    requires PrefixAt(log, pos, TransactionBytes(ops))
    ensures TransactionAt(log, pos, ops)
  {
    Wrap32InRange(|ops|);
    var count := Int32Bytes(|ops|);
    var rest := Records(ops) + EndTransactionSeparator;
    Reassociate(StartTransactionSeparator, count, Records(ops), EndTransactionSeparator);
    PrefixAtSplit(log, pos, StartTransactionSeparator, count + rest);
    if pos + 16 <= |log| {
      PrefixAtSplit(log, pos + 16, count, rest);
      if pos + 20 <= |log| {
        OperationsAndEndAtOfPrefix(log, pos + 20, ops);
      }
    }
  }

  lemma ReadOperationsAndEndAt(variant: Variant, log: seq<uint8>, pos: nat, tx: int, ops: seq<Operation>)
    requires ValidOps(ops)
    requires OperationsAndEndAt(log, pos, ops)
    ensures var n := 17 * |ops| + 16;
      ReadOperationsAndEnd(variant, log, pos, tx, |ops|)
        == if pos + n <= |log| then Complete(ops, pos + n) else Truncated(true)
  {
    ReadOperationsPrefix(variant, log, pos, ops);
    var p1 := pos + 17 * |ops|;
    if p1 <= |log| {
      AssertMarkerPrefix(variant, log, p1, tx, EndTransaction);
    }
  }

  lemma ReadCountAndOperationsAt(variant: Variant, log: seq<uint8>, pos: nat, tx: int, ops: seq<Operation>)
    requires ValidOps(ops) && |ops| <= MaxInt32
    requires CountAndOperationsAt(log, pos, ops)
    ensures var n := 17 * |ops| + 20;
      ReadCountAndOperations(variant, log, pos, tx)
        == if pos + n <= |log| then Complete(ops, pos + n) else Truncated(true)
  {
    ReadInt32Prefix(log, pos, |ops|);
    if pos + 4 <= |log| {
      ReadOperationsAndEndAt(variant, log, pos + 4, tx, ops);
    }
  }

  lemma ReadTransactionAt(variant: Variant, log: seq<uint8>, pos: nat, tx: int, ops: seq<Operation>)
    requires ValidOps(ops) && |ops| <= MaxInt32
    requires TransactionAt(log, pos, ops)
    ensures var n := 36 + 17 * |ops|;
      ReadTransaction(variant, log, pos, tx)
        == if pos + n <= |log| then Complete(ops, pos + n) else Truncated(pos < |log|)
  {
    AssertMarkerPrefix(variant, log, pos, tx, StartTransaction);
    if pos + 16 <= |log| {
      ReadCountAndOperationsAt(variant, log, pos + 16, tx, ops);
    }
  }

  /**
   * Reading a transaction where the log holds its encoding, or a prefix of
   * it running to the end of the log: the whole encoding reads back as the
   * same operations; a partial one is a torn tail, begun iff non-empty.
   */
  lemma ReadTransactionPrefix(variant: Variant, log: seq<uint8>, pos: nat, tx: int, ops: seq<Operation>)
    requires ValidOps(ops) && |ops| <= MaxInt32
    requires PrefixAt(log, pos, TransactionBytes(ops))
    ensures var n := |TransactionBytes(ops)|;
      ReadTransaction(variant, log, pos, tx)
        == if pos + n <= |log| then Complete(ops, pos + n) else Truncated(pos < |log|)
  {
    TransactionAtOfPrefix(log, pos, ops);
    ReadTransactionAt(variant, log, pos, tx, ops);
  }
}
