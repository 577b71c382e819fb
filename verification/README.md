# DiskQueue transaction-log engine, modelled in Dafny

DiskQueue is a persistent, multi-session FIFO queue. Its items live in
numbered data files (`data.0`, `data.1`, ...). A write-ahead transaction log
(`transaction.log`) records which byte ranges are queued. A small
`meta.state` file records the write head.

This project models the core of that engine:

- **The log format.** A transaction is a 16-byte GUID start marker, an int32
  operation count, one 17-byte record per operation (separator, type tag,
  file number, start, length) and a 16-byte end marker.
- **Replay** with BinaryReader semantics, and its two corruption policies:
  strict (`throwOnConflict`) and lenient.
- **The in-memory entry index.**
  - The queued entries, in order.
  - The checked-out set: items a session has dequeued but not yet committed.
  - The live-item count of each data file. A file whose count drops below one
    is deleted, unless it is the file being written.
- **Commit and trimming.** A commit appends one transaction to the log. The
  log is rewritten as a single snapshot transaction when it grows too large,
  on every commit under paranoid flushing, and when the queue is disposed.
- **Dequeue with read-ahead.** Contiguous entries in one data file are read
  in a single read and handed their slices.
- **Reinstate**, which puts a session's unflushed dequeues back at the head.
- **The write head**, which rolls over to a new data file at `MaxFileSize`.
- **The session state machine**: buffered payloads, speculative writes,
  Flush and Dispose.

The older Rhino.Queues.Storage.Disk engine is the same design with small
differences:

- replay is strict only;
- `Reinstate` does not reverse the pending list;
- there is no paranoid flushing;
- there is no `length < 1` shortcut when reading;
- the engine's Dispose has no "already disposed" guard.

One model covers both. `LogCodec.Variant` is `DiskQueue(throwOnConflict)` or
`Rhino`, and `Engine.Settings` carries it together with the engine's tunables.

## How things are represented

- **State is immutable.** Every engine and session operation is a pure
  function from a state to a new state. An exception is a value in the result
  (`Result`, or an `error` field), so any side effects the source performs
  before it throws stay visible.
- **Data files** are `map<int32, seq<uint8>>`. A missing file reads as empty,
  because the source opens files with `FileMode.OpenOrCreate`. `Storage`
  models what the engine relies on from `FileStream`:
  - `SetLength` truncates or zero-extends;
  - a write past the end zero-fills the gap;
  - the read loop of `ReadEntriesFromFile` raises as soon as a read returns
    no bytes.
- **The checked-out `HashSet<Entry>`** is a duplicate-free sequence. Its
  order is the enumeration order, which .NET leaves unspecified but which the
  trimmed log writes out.
- **`Entry.Data`** is carried beside the entry in `EntryIndex.Slot` and is
  not part of its identity.
- **Integer widths.** C# `int` and `long` are the subset types `int32` and
  `int64`. Unchecked wrap-around is written out as `Bytes.Wrap32` where the
  source depends on it: the running start offset of buffered payloads, the
  `(int)stream.Position` cast, the end-offset test in read-ahead, the
  file-number increment, and the per-item product in the optimal log-size
  estimate.
- **Speculative writes** complete at once. Their outcome (`Landed` or `Lost`)
  is a parameter, and so is the outcome of a synchronous write.

## Model

| member | source | states |
|---|---|---|
| Bytes.Int32RoundTrip | src/DiskQueue/Implementation/PersistentQueueImpl.cs:505-512 | an int written with `BitConverter.GetBytes` reads back with `BinaryReader.ReadInt32` as the same int |
| Bytes.Int32BytesRoundTrip | src/DiskQueue/Implementation/PersistentQueueImpl.cs:408 | any four bytes read as an int and written back give the same four bytes |
| Bytes.Int64RoundTrip | src/DiskQueue/Implementation/PersistentQueueImpl.cs:256 | a long written with `BitConverter.GetBytes` reads back as the same long |
| Bytes.Int32BytesInjective | src/DiskQueue/Implementation/PersistentQueueImpl.cs:515-518 | two ints have the same byte form iff they are equal, so the separator check can compare bytes |
| Constants.OperationSeparatorLayout | src/DiskQueue/Implementation/Constants.cs:11-14 | the separator bytes are the little-endian encoding of 0x42FEBCA1 |
| Constants.StartTransactionLayout | src/DiskQueue/Implementation/Constants.cs:16-21 | the start marker bytes are the `ToByteArray` layout of GUID b75bfb12-93bb-42b6-acb1-a897239ea3a5, and read back as that GUID |
| Constants.EndTransactionLayout | src/DiskQueue/Implementation/Constants.cs:23-28 | the end marker bytes are the layout of GUID 866c9705-4456-4e9d-b452-3146b3bfa4ce, and read back as that GUID |
| Constants.GuidEqualityIsByteEquality | src/DiskQueue/Implementation/PersistentQueueImpl.cs:613-616 | two GUIDs built from 16-byte reads are equal iff the bytes are |
| Constants.MarkersDiffer | src/DiskQueue/Implementation/Constants.cs:18-25 | both markers are 16 bytes, and the start and end markers differ |
| Constants.ChooseMarkers | src/DiskQueue/Implementation/PersistentQueueImpl.cs:597-611 | `Marker.StartTransaction` (0) and `Marker.EndTransaction` (-1) select the expected marker and the other one, which differ; any other value raises InvalidProgramException |
| Operations.TypeOf | src/DiskQueue/Implementation/OperationType.cs:6-15 | casting a byte to the enum gives a valid type whose byte is that byte |
| Operations.TypeRoundTrip | src/DiskQueue/Implementation/PersistentQueueImpl.cs:414 | writing `(byte)type` and casting it back is the identity |
| Operations.TypeTags | src/DiskQueue/Implementation/OperationType.cs:9-15 | Enqueue is tag 1, Dequeue is tag 2, Reinstate is tag 3 |
| Operations.EntryOf | src/DiskQueue/Implementation/Entry.cs:23-26 | `new Entry(operation)` copies the file number, start and length |
| Operations.EntryEquals | src/DiskQueue/Implementation/Entry.cs:44-59 | entries are equal iff all three fields are; null never equals an entry; two nulls compare equal |
| Operations.HashCode | src/DiskQueue/Implementation/Entry.cs:64-73 | none of its own; the hash `((FileNumber * 397) ^ Start) * 397 ^ Length` in unchecked int arithmetic, worked through by Operations.HashCodeWraps |
| Operations.HashCodeWraps | src/DiskQueue/Implementation/Entry.cs:64-73 | Entry(16777216, 5, 7) hashes to -1459615802, where both products wrap past 2^31, and Entry(1, 2, 3) hashes to 158400, where nothing wraps |
| Operations.GetValueOrDefault | src/DiskQueue/Implementation/Extensions.cs:26-34 | gives the stored value for a present key, the default for an absent one, and never adds a key |
| Operations.GetOrCreateValue | src/DiskQueue/Implementation/Extensions.cs:14-24 | for a present key, gives the stored value and leaves the map unchanged; for an absent key, stores the new value and gives it; the key is present afterwards |
| Storage.WriteAt | src/DiskQueue/Implementation/PersistentQueueSession.cs:72 | the written range holds the data, bytes outside it are kept, and a gap past the old end reads as zeros |
| Storage.ReadFully | src/DiskQueue/Implementation/PersistentQueueImpl.cs:346-364 | succeeds iff the start is non-negative, the size is positive and the file holds the whole range, and then gives exactly that range; a negative size or position raises |
| Storage.WriteThenRead | src/DiskQueue/Implementation/PersistentQueueImpl.cs:353-361 | non-empty data written at a position reads back from there |
| EntryIndex.SetAdd | src/DiskQueue/Implementation/PersistentQueueImpl.cs:303 | `HashSet.Add` adds the element, keeps the set duplicate-free, and changes nothing when an equal entry is present |
| EntryIndex.SetRemoveDistinct | src/DiskQueue/Implementation/PersistentQueueImpl.cs:540 | `HashSet.Remove` drops exactly the equal entry, keeps the set duplicate-free, shrinks it by one iff the entry was present, and otherwise changes nothing |
| EntryIndex.EstimatedCountIsItems | src/DiskQueue/Implementation/PersistentQueueImpl.cs:135-145 | with a duplicate-free checked-out set, the estimated count is the number of queued entries plus the number of distinct checked-out items |
| EntryIndex.ApplyOperation | src/DiskQueue/Implementation/PersistentQueueImpl.cs:527-551 | Enqueue appends a data-less entry and adds one to its file's count. Dequeue touches only the checked-out set and subtracts one. Reinstate pushes the entry on the head, removes it from the checked-out set and leaves the counts alone. An unknown tag is ignored. Other files' counts are untouched |
| EntryIndex.ApplyOperations | src/DiskQueue/Implementation/PersistentQueueImpl.cs:527-551 | none of its own; the loop applies the operations one by one in list order, as ApplyOperationsConcat, ApplyEnqueues and ApplyReinstates state |
| EntryIndex.Prune | src/DiskQueue/Implementation/PersistentQueueImpl.cs:553-563 | the queue and the checked-out set are kept; exactly the files whose count is below one leave the map and are returned; every remaining count is at least one |
| EntryIndex.ApplyInMemory | src/DiskQueue/Implementation/PersistentQueueImpl.cs:523-564 | after all operations are applied in order, exactly the files whose count fell below one are removed from the map and returned, and every remaining count is at least one |
| EntryIndex.DeleteFiles | src/DiskQueue/Implementation/PersistentQueueImpl.cs:654-668 | every returned file is deleted except the current write file, and every other file is kept unchanged |
| EntryIndex.ApplyTransactionOperations | src/DiskQueue/Implementation/PersistentQueueImpl.cs:654-668 | the index is the in-memory result, and the data files are those left after deleting every returned file except the current one |
| EntryIndex.ApplyEnqueues | src/DiskQueue/Implementation/PersistentQueueImpl.cs:531-536 | a batch of Enqueues appends its entries to the tail in order, leaves the checked-out set alone, and adds to each file's count the number of its entries |
| EntryIndex.ApplyReinstates | src/DiskQueue/Implementation/PersistentQueueImpl.cs:545-549 | a batch of Reinstates puts its entries ahead of the queue in reverse order, removes them from the checked-out set, and leaves the counts alone |
| EntryIndex.ApplyInMemoryConsistent | src/DiskQueue/Implementation/PersistentQueueImpl.cs:523-564 | operations the engine can issue keep the index invariant: no identity is held twice, and each file's count is its number of live items. Afterwards every count is positive, and no file returned for deletion holds a live item |
| EntryIndex.CheckOutHead | src/DiskQueue/Implementation/PersistentQueueImpl.cs:298-304 | the head leaves the queue and joins the checked-out set; the counts are unchanged |
| EntryIndex.CheckOutHeadConsistent | src/DiskQueue/Implementation/PersistentQueueImpl.cs:298-304 | checking out the head keeps the invariant |
| EntryIndex.PruneConsistent | src/DiskQueue/Implementation/PersistentQueueImpl.cs:553-563 | dropping the exhausted files keeps the index invariant |
| EntryIndex.DropEntry | src/DiskQueue/Implementation/PersistentQueueImpl.cs:538-543 | corrected replay: the queue keys afterwards are the keys with the entry removed, as `HashSet.Remove` removes it |
| EntryIndex.ReplayOperation | src/DiskQueue/Implementation/PersistentQueueImpl.cs:538-543 | corrected replay: a Dequeue removes the entry from the queue as well as from the checked-out set and subtracts one from its file; every other operation is applied as written |
| EntryIndex.ReplayInMemory | src/DiskQueue/Implementation/PersistentQueueImpl.cs:523-564 | corrected replay: the same pruning, after the corrected operations |
| EntryIndex.ReplayTransactionOperations | src/DiskQueue/Implementation/PersistentQueueImpl.cs:654-668 | corrected replay: the same deletions, of the files the corrected operations exhaust |
| EntryIndex.ReplayWithoutDequeue | src/DiskQueue/Implementation/PersistentQueueImpl.cs:527-551 | without a Dequeue, the corrected replay and the replay as written build the same index |
| EntryIndex.ReplayDequeueConsistent | src/DiskQueue/Implementation/PersistentQueueImpl.cs:538-543 | the corrected replay of a Dequeue of a queued item keeps the invariant, leaves nothing checked out and removes exactly that item |
| EntryIndex.MirrorStep | src/DiskQueue/Implementation/PersistentQueueImpl.cs:527-551 | an Enqueue of a fresh item or a Dequeue of a checked-out item, applied live and replayed with the corrected Dequeue, keeps the replayed index consistent, with nothing checked out, holding exactly the live index's items |
| EntryIndex.MirrorOperations | src/DiskQueue/Implementation/PersistentQueueImpl.cs:527-551 | the same for a whole list of logged operations the engine can issue |
| EntryIndex.MirrorInMemory | src/DiskQueue/Implementation/PersistentQueueImpl.cs:523-564 | the same after the exhausted files are pruned on both sides |
| LogCodec.OperationRecord | src/DiskQueue/Implementation/PersistentQueueImpl.cs:499-513 | every operation record is 17 bytes |
| LogCodec.TransactionBytes | src/DiskQueue/Implementation/PersistentQueueImpl.cs:670-690 | a transaction is 36 + 17·n bytes, opens with the start marker and ends with the end marker |
| LogCodec.TrimmedOperations | src/DiskQueue/Implementation/PersistentQueueImpl.cs:449-471 | the snapshot has one Enqueue per held item, so its count is the estimated count |
| LogCodec.TrimmedLog | src/DiskQueue/Implementation/PersistentQueueImpl.cs:442-481 | the trimmed log is one transaction of 36 + 17·count bytes, so an empty queue gives a 36-byte log |
| LogCodec.Framed | src/DiskQueue/Implementation/PersistentQueueImpl.cs:242-245 | no transactions make an empty log; Engine.FramedSnoc states that a commit appends its transaction after the earlier ones, and Replay.ReadsAllOfFramed that the reader reads them all back |
| LogCodec.ReadBytes | src/DiskQueue/Implementation/PersistentQueueImpl.cs:582 | `ReadBytes(16)` gives the next bytes of the log, and fewer than asked only at the end |
| LogCodec.ReadInt32 | src/DiskQueue/Implementation/PersistentQueueImpl.cs:408 | `ReadInt32` raises end-of-stream iff fewer than four bytes are left, and otherwise decodes the next four |
| LogCodec.ThrowIfStrict | src/DiskQueue/Implementation/PersistentQueueImpl.cs:570-578 | raises InvalidOperationException iff strict, and otherwise ends the stream |
| LogCodec.AssertMarker | src/DiskQueue/Implementation/PersistentQueueImpl.cs:580-622 | a pass consumes exactly 16 bytes; with a valid marker choice, only Rhino or a strict DiskQueue ever raises |
| LogCodec.ShortMarkerOnlyAtEnd | src/DiskQueue/Implementation/PersistentQueueImpl.cs:586-595 | a short marker read always happens at end of stream, so the "truncated data" exception is unreachable |
| LogCodec.AssertMarkerAccepts | src/DiskQueue/Implementation/PersistentQueueImpl.cs:580-622 | the expected 16 bytes pass in every variant |
| LogCodec.AssertMarkerRejects | src/Rhino.Queues.Storage.Disk/Implementation/PersistentQueueImpl.cs:447-469 | 16 wrong bytes: Rhino raises "unknown data"; strict DiskQueue names the other marker when it finds it and otherwise reports unknown data; lenient DiskQueue ends the replay |
| LogCodec.AssertOperationSeparator | src/DiskQueue/Implementation/PersistentQueueImpl.cs:515-521 | passes iff the next four bytes are the separator. A wrong separator raises in Rhino and strict DiskQueue, and ends the stream in lenient DiskQueue |
| LogCodec.ReadOperation | src/DiskQueue/Implementation/PersistentQueueImpl.cs:413-418 | reads a 13-byte record body, and ends the stream iff fewer than 13 bytes are left |
| LogCodec.ReadOperations | src/DiskQueue/Implementation/PersistentQueueImpl.cs:410-425 | a successful loop reads exactly `count` operations in 17·count bytes |
| LogCodec.ReadCountAndOperations | src/DiskQueue/Implementation/PersistentQueueImpl.cs:408-428 | after the start marker, a complete transaction takes 20 + 17·n bytes and ends inside the log; a torn one counts as begun; corruption is a negative count or happens in a strict variant (a non-negative count too large to allocate is not modelled, see Left out) |
| LogCodec.ReadTransaction | src/DiskQueue/Implementation/PersistentQueueImpl.cs:399-430 | a complete transaction takes 36 + 17·n bytes. A torn one counts as begun iff any byte of it exists. Corruption is a negative count, or happens in a strict variant (a non-negative count too large to allocate is not modelled, see Left out) |
| LogCodec.ReadTransactionPrefix | src/DiskQueue/Implementation/PersistentQueueImpl.cs:405-428 | the encoding of a transaction reads back as the same operations, and any proper prefix of it at the end of the log is a torn tail, begun iff non-empty |
| Replay.ReadLog | src/DiskQueue/Implementation/PersistentQueueImpl.cs:396-437 | reading stops only at a torn tail or at corruption; an empty remainder reads nothing; corruption is a negative count or happens in a strict variant (a non-negative count too large to allocate is not modelled, see Left out) |
| Replay.ApplyTransactions | src/DiskQueue/Implementation/PersistentQueueImpl.cs:399-427 | none of its own; each complete transaction is applied as soon as it is read, so a later one sees the effects of the earlier ones; Replay.ReplayFramedLog and Engine.ApplyTransactionsSnoc state it |
| Replay.ReadTransactionLog | src/DiskQueue/Implementation/PersistentQueueImpl.cs:388-440 | the log afterwards is either kept or replaced by the snapshot of the rebuilt index; failures are a negative count or happen in a strict variant (a non-negative count too large to allocate is not modelled, see Left out); an empty log opens an empty queue |
| Replay.ReadsAllOfFramed | src/DiskQueue/Implementation/PersistentQueueImpl.cs:399-430 | a sequence of encoded transactions followed by anything reads back transaction by transaction, leaving exactly what followed |
| Replay.ReadLogTornTail | src/DiskQueue/Implementation/PersistentQueueImpl.cs:432-436 | a partial transaction stops reading without error, begun iff it holds at least one byte |
| Replay.ReplayFramedLog | src/DiskQueue/Implementation/PersistentQueueImpl.cs:388-440 | opening a log of complete transactions plus a torn tail succeeds in every variant. The transactions are applied in order, the tail is dropped, and the log is trimmed iff a non-Enqueue operation was read or the tail holds a byte |
| Replay.OpenWithStop | src/DiskQueue/Implementation/PersistentQueueImpl.cs:429-439 | corruption fails the open; otherwise the transactions read are applied in order and the trim flag decides the log |
| Replay.ReadLogBadStartMarker | src/DiskQueue/Implementation/PersistentQueueImpl.cs:599-621 | classifies 16 wrong bytes where a transaction starts, per variant and policy |
| Replay.ReplayBadStartAfterFramed | src/DiskQueue/Implementation/PersistentQueueImpl.cs:405-406 | after valid transactions, a wrong start marker fails the open in Rhino and in strict DiskQueue, naming the transaction number or the other marker. Lenient DiskQueue keeps every earlier transaction and trims the log |
| Replay.ReadLogBadOperationSeparator | src/DiskQueue/Implementation/PersistentQueueImpl.cs:412 | a wrong first separator is corruption, except in lenient DiskQueue, where it is a begun torn tail |
| Replay.ReplayBadSeparatorAfterFramed | src/Rhino.Queues.Storage.Disk/Implementation/PersistentQueueImpl.cs:400-406 | after valid transactions, a wrong operation separator fails the open in Rhino and strict DiskQueue; lenient DiskQueue keeps the earlier transactions and trims the log |
| Replay.ReadLogNegativeCount | src/DiskQueue/Implementation/PersistentQueueImpl.cs:408-409 | a negative operation count raises in every variant |
| Replay.ReplayNegativeCountAfterFramed | src/DiskQueue/Implementation/PersistentQueueImpl.cs:409 | a negative count after valid transactions fails the open in every variant and policy |
| Replay.ReplayEnqueueOnlyLog | src/DiskQueue/Implementation/PersistentQueueImpl.cs:420-424 | a log of one Enqueue-only transaction reopens to exactly those entries, in order, with nothing checked out, no file deleted and the log kept |
| Replay.ReplayTrimmedLog | src/DiskQueue/Implementation/PersistentQueueImpl.cs:442-481 | the snapshot reopens with every checked-out item at the head, ahead of the queued items in their order. Nothing is checked out, no file is deleted, and the per-file counts are restored for a consistent index |
| Replay.ReplayTransactions | src/DiskQueue/Implementation/PersistentQueueImpl.cs:399-427 | none of its own; ApplyTransactions with the corrected Dequeue, stated by ReplayTransactionsSnoc and ReplayFramed |
| Replay.ReplayTransactionLog | src/DiskQueue/Implementation/PersistentQueueImpl.cs:388-440 | corrected replay: fails exactly when the replay as written fails, with the same error; otherwise the log is kept or replaced by the snapshot of the rebuilt index |
| Replay.ReplayTransactionsIndex | src/DiskQueue/Implementation/PersistentQueueImpl.cs:654-668 | the index the corrected replay rebuilds does not depend on which data files exist or which file is current |
| Replay.ReplayTransactionsSnoc | src/DiskQueue/Implementation/PersistentQueueImpl.cs:399-427 | replaying one more transaction applies it, corrected, to what replaying the earlier ones built |
| Replay.ReplayFramed | src/DiskQueue/Implementation/PersistentQueueImpl.cs:388-440 | a log of framed transactions opens, with the corrected replay, to all of them applied in order, and is trimmed iff one of them holds a non-Enqueue operation |
| Replay.ReplaySnapshot | src/DiskQueue/Implementation/PersistentQueueImpl.cs:442-481 | the snapshot of a consistent index is one framed transaction, and replaying it rebuilds a consistent index holding exactly the same items, all queued |
| Replay.SnapshotMirrors | src/DiskQueue/Implementation/PersistentQueueImpl.cs:442-481 | queuing the snapshot's entries, counted per file, gives an index holding the snapshotted index's items once each, with consistent counts |
| Engine.ReadMetaState | src/DiskQueue/Implementation/PersistentQueueImpl.cs:625-641 | a file shorter than 4 bytes gives (0, 0); shorter than 12 gives the file number and position 0; otherwise the first 4 and next 8 bytes decode as the file number and the position |
| Engine.MetaRoundTrip | src/DiskQueue/Implementation/PersistentQueueImpl.cs:252-258 | the metadata a commit writes reads back as the recorded write head |
| Engine.AcquireWriter | src/DiskQueue/Implementation/PersistentQueueImpl.cs:207-230 | a negative position raises; a lost synchronous write raises. Otherwise the data lands at the head of the session's stream. Below `MaxFileSize` the head advances; at or past it the file number increments, the new file is pre-sized to the reached position and the head resets to 0, so the crossing write stays in the old file |
| Engine.AcquireCurrentWriter | src/DiskQueue/Implementation/PersistentQueueImpl.cs:207-230 | same outcomes and rollover as the writer as written, but the data lands at the head of the current file, no other file changes except the one a rollover pre-sizes, and the session's stream is on the current file afterwards |
| Engine.OptimalLogSize | src/DiskQueue/Implementation/PersistentQueueImpl.cs:712-729 | the per-item part is the unchecked int product 16 · count: it lies in the int range and agrees with the true product modulo 2^32, so it wraps from 2^27 items. While it fits an int, the estimate is the trimmed snapshot's size less its 16-byte end marker and one type byte per item |
| Engine.NeedsTrim | src/DiskQueue/Implementation/PersistentQueueImpl.cs:644-652 | while the estimate does not wrap, a log judged worth trimming is strictly longer than its snapshot, so trimming shrinks it |
| Engine.WrappedEstimateTrims | src/DiskQueue/Implementation/PersistentQueueImpl.cs:644-652 | at 2^27 items the wrapped estimate is 20 - 2^31, so a log past the suggested maximum is trimmed even when it is exactly as long as its snapshot |
| Engine.CommitTransaction | src/DiskQueue/Implementation/PersistentQueueImpl.cs:232-262 | an empty list changes nothing. Otherwise the operations are applied (deleting exhausted non-current files) and the write head is recorded. The log is the old log plus the framed transaction, or the snapshot exactly when the size test, with its wrapping estimate, passes or paranoid flushing is on |
| Engine.CommitKeepsCurrentFile | src/DiskQueue/Implementation/PersistentQueueImpl.cs:654-668 | a commit never deletes the current data file, nor changes its bytes |
| Engine.CommitConsistent | src/Rhino.Queues.Storage.Disk/Implementation/PersistentQueueImpl.cs:167-202 | a commit keeps the index invariant, and every deleted data file holds no live item |
| Engine.CommitThenOpen | src/DiskQueue/Implementation/PersistentQueueImpl.cs:232-262 | for a queue with nothing checked out whose log replays to its index: reopening after a commit, with any data files, succeeds and recovers the write head. It rebuilds the committed index when the log was appended to, or, after a trim, queues the checked-out items and then the queued ones. Commits after a session Dequeue are covered by Engine.CommitThenReplay |
| Engine.Reinstated | src/DiskQueue/Implementation/PersistentQueueImpl.cs:371-386 | DiskQueue turns the Dequeues of the pending list into Reinstates in reverse order; Rhino keeps session order |
| Engine.DequeuedReverse | src/DiskQueue/Implementation/PersistentQueueImpl.cs:376-377 | filtering the Dequeues commutes with reversing the list |
| Engine.Reinstate | src/Rhino.Queues.Storage.Disk/Implementation/PersistentQueueImpl.cs:286-301 | the reinstating operations are applied like a committed transaction, and the log, metadata and write head are unchanged |
| Engine.ReinstateRestoresOrder | src/DiskQueue/Implementation/PersistentQueueImpl.cs:371-386 | DiskQueue puts the dequeued items back at the head in dequeue order; Rhino puts them back in reverse order. Either way they leave the checked-out set, the counts stay and no file is deleted |
| Engine.ReinstateKeepsInvariant | src/DiskQueue/Implementation/PersistentQueueImpl.cs:371-386 | Reinstate keeps the index invariant |
| Engine.ReadEntriesFromFile | src/DiskQueue/Implementation/PersistentQueueImpl.cs:346-364 | a negative size raises. DiskQueue returns a zeroed buffer unread when the head's length is below one. Otherwise the file is read from the head's start |
| Engine.ReadSpan | src/DiskQueue/Implementation/PersistentQueueImpl.cs:346-364 | corrected read: a result has the span's size, and a span inside its file reads exactly its bytes, including the empty span |
| Engine.Scan | src/DiskQueue/Implementation/PersistentQueueImpl.cs:317-329 | the first loop stops at or before the end of the queue, never before where it started |
| Engine.Span | src/DiskQueue/Implementation/PersistentQueueImpl.cs:312-331 | none of its own; Engine.SpanIsContiguous states what the span is |
| Engine.Fill | src/DiskQueue/Implementation/PersistentQueueImpl.cs:335-343 | the second loop never changes which entries are queued, or their order |
| Engine.FillSpan | src/DiskQueue/Implementation/PersistentQueueImpl.cs:333-343 | reading the span, whether the read fails or not, never changes which entries are queued, or their order |
| Engine.ReadAheadAsWritten | src/DiskQueue/Implementation/PersistentQueueImpl.cs:312-344 | read-ahead as written, with ReadEntriesFromFile, never changes which entries are queued |
| Engine.ReadAhead | src/DiskQueue/Implementation/PersistentQueueImpl.cs:312-344 | read-ahead with the corrected read never changes which entries are queued; ReadAheadServes states what data it hands out |
| Engine.ScanTakesContiguous | src/DiskQueue/Implementation/PersistentQueueImpl.cs:317-329 | over distinct sane entries, the scan takes a contiguous run of same-file entries, and the running size is where the run ends |
| Engine.SpanIsContiguous | src/DiskQueue/Implementation/PersistentQueueImpl.cs:312-331 | the read-ahead span is the first m ≥ 1 entries, which are contiguous, and the buffer size is where the m-th one ends (the head alone when it exceeds the read buffer) |
| Engine.ContiguousBounds | src/DiskQueue/Implementation/PersistentQueueImpl.cs:321-323 | a contiguous run lies in the head's file, between the head's start and the run's end |
| Engine.FillServesSpan | src/DiskQueue/Implementation/PersistentQueueImpl.cs:335-343 | filling from a buffer holding the span's bytes gives each span entry its own slice, stops after the last one and leaves every other slot alone |
| Engine.ReadAheadServes | src/DiskQueue/Implementation/PersistentQueueImpl.cs:312-344 | on distinct entries stored in their files, read-ahead raises nothing, gives the head exactly its bytes, and gives every other entry either its bytes or nothing new |
| Engine.Dequeue | src/DiskQueue/Implementation/PersistentQueueImpl.cs:285-307 | an empty queue gives null and changes nothing. A read failure leaves the queue and the checked-out set as they were. Otherwise the head leaves the queue, is returned, and joins the checked-out set. Files, log, head and counts never change. Reads through the corrected read-ahead (see Findings) |
| Engine.DequeueServes | src/DiskQueue/Implementation/PersistentQueueImpl.cs:285-344 | on a served queue, Dequeue returns the head with exactly its stored bytes, and the queue stays served |
| Engine.DequeueKeepsInvariant | src/DiskQueue/Implementation/PersistentQueueImpl.cs:285-307 | Dequeue keeps the index invariant, whether it succeeds or raises |
| Engine.Open | src/DiskQueue/Implementation/PersistentQueueImpl.cs:90-101 | opening succeeds iff replay does, and the write head comes from the metadata |
| Engine.ApplyTransactionsIndex | src/DiskQueue/Implementation/PersistentQueueImpl.cs:654-668 | the index that replay rebuilds does not depend on which data files exist or which file is current |
| Engine.CommitAppends | src/DiskQueue/Implementation/PersistentQueueImpl.cs:242-249 | for a queue with nothing checked out whose log replays to its index: a commit without trimming leaves a log of framed transactions that replays to the committed index |
| Engine.Reopen | src/DiskQueue/Implementation/PersistentQueueImpl.cs:90-101 | opening with the corrected replay succeeds exactly when the open as written does, and takes the write head from the metadata |
| Engine.CommitThenReplay | src/DiskQueue/Implementation/PersistentQueueImpl.cs:232-262 | for any queue whose log replays, with the corrected Dequeue, to a consistent index holding its items, including items checked out: after a commit of logged operations it can issue, reopening succeeds, recovers the write head, and holds exactly the committed index's items, all queued; the new log is again framed transactions with the same property |
| Engine.CommitLog | src/DiskQueue/Implementation/PersistentQueueImpl.cs:242-260 | the log a commit leaves, appended or trimmed, is framed transactions that the corrected replay rebuilds to the committed index's items |
| Engine.AppendedLog | src/DiskQueue/Implementation/PersistentQueueImpl.cs:242-249 | a commit that does not trim leaves the framed transactions with its own added at the end |
| Engine.ReplayAppended | src/DiskQueue/Implementation/PersistentQueueImpl.cs:427 | replaying one more transaction, corrected, keeps the replayed index holding exactly the live index's items |
| Engine.SmallRhinoLogAppends | src/Rhino.Queues.Storage.Disk/Implementation/PersistentQueueImpl.cs:491-499 | Rhino appends a commit to its log while the log stays under the suggested maximum |
| Engine.CommittedDequeueReturns | src/Rhino.Queues.Storage.Disk/Implementation/PersistentQueueImpl.cs:421-426 | in Rhino, a committed Dequeue of an item whose data file is not current empties the index and deletes the file; reopening as written queues the item again, and dequeuing it then fails at the end of the data file; reopening with the corrected replay gives an empty queue |
| Engine.Close | src/DiskQueue/Implementation/PersistentQueueImpl.cs:186-205 | disposing replaces the log by the snapshot when trim-on-dispose is set. DiskQueue acts only once; Rhino acts every time. The index, files, metadata and head are untouched |
| Engine.CloseTwice | src/Rhino.Queues.Storage.Disk/Implementation/PersistentQueueImpl.cs:128-140 | disposing a queue a second time changes nothing more, in both engines |
| Engine.CloseThenOpen | src/DiskQueue/Implementation/PersistentQueueImpl.cs:196 | reopening after a trimming dispose succeeds, recovers the write head, and queues the checked-out items ahead of the queued ones, with nothing checked out |
| QueueSession.OpenSession | src/DiskQueue/Implementation/PersistentQueueSession.cs:36-47 | the write buffer size is the larger of the suggestion and 64 KiB; the session starts empty, on the current data file |
| QueueSession.EnqueueOps | src/DiskQueue/Implementation/PersistentQueueSession.cs:109-120 | one operation per buffered payload |
| QueueSession.ConcatenateBuffer | src/DiskQueue/Implementation/PersistentQueueSession.cs:104-124 | one operation per buffered payload, and the data written is as long as the whole buffer |
| QueueSession.EnqueueOpAt | src/DiskQueue/Implementation/PersistentQueueSession.cs:109-120 | the i-th buffered payload becomes an Enqueue in the current file, starting at the head plus the lengths of the earlier payloads (wrapped to an int), with the payload's length |
| QueueSession.PayloadAt | src/DiskQueue/Implementation/PersistentQueueSession.cs:117-119 | each payload sits in the written bytes at its offset |
| QueueSession.ConcatenateLayout | src/Rhino.Queues.Storage.Disk/Implementation/PersistentQueueSession.cs:91-111 | when the head and the buffer fit an int, each operation describes exactly its payload's bytes within the data written at the head |
| QueueSession.Write | src/DiskQueue/Implementation/PersistentQueueSession.cs:62-124 | a negative head raises with nothing changed. Otherwise the buffer becomes operations and is emptied; a lost synchronous write raises with the queue untouched; any other write goes through the corrected writer, which writes to the current data file (see Findings). A speculative write adds a pending handle and records its failure |
| QueueSession.Buffered | src/DiskQueue/Implementation/PersistentQueueSession.cs:54-55 | the payload joins the buffer, and the buffered size grows by its length |
| QueueSession.Enqueue | src/DiskQueue/Implementation/PersistentQueueSession.cs:52-60 | a speculative write follows iff the buffered size strictly exceeds the write buffer size |
| QueueSession.WriteLands | src/DiskQueue/Implementation/PersistentQueueSession.cs:67-124 | after a landed write, every recorded operation is an Enqueue whose entry is stored and whose bytes are its payload |
| QueueSession.Dequeue | src/DiskQueue/Implementation/PersistentQueueSession.cs:135-147 | an empty queue or a raising engine records nothing. Otherwise a Dequeue with the item's coordinates is recorded and the item's data returned |
| QueueSession.DequeueReturnsStored | src/Rhino.Queues.Storage.Disk/Implementation/PersistentQueueSession.cs:119-131 | on a served queue, the session returns the head's stored bytes and records its Dequeue |
| QueueSession.WaitForPendingWrites | src/DiskQueue/Implementation/PersistentQueueSession.cs:175-204 | with no failures, every pending write is waited for. Otherwise all collected failures are raised together as one PendingWriteException and the collection is cleared. Nothing else in the session changes |
| QueueSession.Flush | src/DiskQueue/Implementation/PersistentQueueSession.cs:154-173 | none of its own; QueueSession.FlushCommits, QueueSession.FlushStoresPayloads and QueueSession.FlushFailureKeepsPending state what it does |
| QueueSession.FlushCommits | src/DiskQueue/Implementation/PersistentQueueSession.cs:154-173 | a flush without failures commits the earlier operations followed by one Enqueue per buffered payload, and leaves nothing pending, buffered or outstanding |
| QueueSession.FlushStoresPayloads | src/DiskQueue/Implementation/PersistentQueueSession.cs:154-173 | after a flush without failures that stays within the current data file, the queue ends with one entry per buffered payload, in order. Each entry is in the current file and holds exactly its payload's bytes |
| QueueSession.FlushWrites | src/DiskQueue/Implementation/PersistentQueueSession.cs:154-173 | such a flush writes the buffer at the write head of the current file, and commits the payloads' operations after the earlier ones |
| QueueSession.CommitStoresPayloads | src/DiskQueue/Implementation/PersistentQueueImpl.cs:232-262 | committing payload Enqueues after any other operations leaves the payloads at the end of the queue, each holding its bytes |
| QueueSession.CommitEnqueuesLast | src/DiskQueue/Implementation/PersistentQueueImpl.cs:523-564 | a commit that ends with Enqueues leaves their entries at the end of the queue, in order |
| QueueSession.EnqueuesAppended | src/DiskQueue/Implementation/PersistentQueueImpl.cs:527-551 | Enqueues applied after any other operations end the queue, in order, and pruning keeps them |
| QueueSession.EndsWithWritten | src/DiskQueue/Implementation/PersistentQueueSession.cs:104-124 | a queue that ends with the payload operations' entries, over a file still holding the written data, ends with the payloads |
| QueueSession.FlushFailureKeepsPending | src/DiskQueue/Implementation/PersistentQueueSession.cs:154-173 | a flush that raises commits nothing and keeps the pending list; a PendingWriteException carries every collected failure |
| QueueSession.Dispose | src/DiskQueue/Implementation/PersistentQueueSession.cs:209-225 | the first call reinstates the pending list and clears it; a disposed session is left alone |
| QueueSession.DisposeOnce | src/Rhino.Queues.Storage.Disk/Implementation/PersistentQueueSession.cs:185-201 | disposing twice is disposing once |
| QueueSession.DequeueThenDispose | src/DiskQueue/Implementation/PersistentQueueSession.cs:135-147 | dequeuing in a fresh session and disposing it unflushed restores the queue's order, checked-out set, counts and files |
| QueueSession.HeadNotCheckedOut | src/DiskQueue/Implementation/PersistentQueueImpl.cs:298-304 | in a consistent index the head is not checked out |

## Left out

- **File I/O.** The atomic-replace backup protocol, the lock file, directory
  creation, permissions and stream disposal are not modelled.
  `Atomic.Write` is "replace the contents". Disposing streams and the
  `_streamsToDisposeOnFlush` list have no effect on the model.
- **Concurrency.** `lock` statements, `BeginWrite`/`EndWrite` callbacks and
  `WaitHandle.WaitAll` are not modelled. Speculative writes complete at once,
  with their outcome given as a parameter.
- **Retries.** `WaitForTransactionLog`'s retry-with-sleep loop always
  succeeds in the model.
- **Failed replays.** Data files deleted while a replay runs that later fails
  are not modelled. A failed open returns only the error.
- **Opening a missing file.** OpenOrCreate's creation of an empty file on
  read is not modelled; a missing file simply reads as empty.
- **The typed-queue wrappers, the public facade and finalizers** are not
  modelled, nor the text of exception messages.
- **Transaction numbering.** The replay's transaction counter is an unbounded
  integer. Its int overflow would need more than 2^31 transactions in one
  log.
- **The session's buffered size.** `_bufferSize`, an int, is the length of
  the concatenated buffer. Its overflow past 2 GiB is not modelled.
- LogCodec.ReadCountAndOperations: does not model the allocation of
  `new List<Operation>(opsCount)` (DiskQueue line 409, Rhino line 323). A
  non-negative count too large for the runtime to allocate, int.MaxValue for
  instance, throws OutOfMemoryException there. Only EndOfStreamException is
  caught, so the open fails. The model has no allocation limit, since that
  limit depends on the runtime and on available memory. Such a count reads
  on to the end of the log and ends as a torn tail, so the open succeeds and
  trims the log.
- LogCodec.ReadTransaction: inherits the missing allocation failure of
  ReadCountAndOperations.
- Replay.ReadLog: inherits the missing allocation failure of
  ReadCountAndOperations.
- Replay.ReadTransactionLog: inherits the missing allocation failure of
  ReadCountAndOperations. An open that fails in the source on a count too
  large to allocate succeeds in the model and trims the log.
- Engine.AcquireWriter: requires the new position to fit a long. The source
  would overflow there, which no real file reaches.
- Engine.AcquireCurrentWriter: requires the new position to fit a long, as
  for the writer as written.
- Engine.CommitThenOpen: covers only queues with nothing checked out whose
  log replays, as written, to their index. After a session Dequeue the replay
  as written no longer rebuilds the index (see Findings), and
  Engine.CommitThenReplay states the round trip for that case with the
  corrected replay. It also requires the estimated count after the commit to
  fit an int, since otherwise the trimmed snapshot's count field wraps.
- Engine.CommitAppends: covers only queues with nothing checked out whose log
  replays, as written, to their index, for the same reason.
- Engine.CommitThenReplay: requires the committed operations to contain no
  Reinstate. Reinstate is applied in memory only and never written to the
  log. It also states which items come back and not their order, and it
  requires the estimated count after the commit to fit an int.
- Engine.Open: models the replay as written. Engine.Reopen is the same open
  with the corrected Dequeue, and Engine.CommittedDequeueReturns shows where
  the two differ.
- Engine.Dequeue: reads through Engine.ReadAhead, the corrected read-ahead,
  not through ReadAheadAsWritten. The two findings about ReadEntriesFromFile
  below show where they differ.
- QueueSession.Write: writes through Engine.AcquireCurrentWriter, the
  corrected writer that writes to the current data file, not through the
  session's possibly stale stream (see the last finding below).
- Engine.ReadAheadServes: stated for distinct entries stored inside their
  files. Value-equal duplicates collapse in read-ahead's "same as the last
  entry" test, and that case is covered only by the general contract of
  Engine.Dequeue.
- QueueSession.WriteLands: requires the write head plus the buffer to fit an
  int. Beyond that, `(int)stream.Position` and the running start wrap, and
  the recorded offsets no longer match the bytes. EnqueueOpAt states the
  wrapped offsets for every case.
- QueueSession.Flush: has no contract of its own. FlushCommits,
  FlushStoresPayloads and FlushFailureKeepsPending state what it does.
- QueueSession.FlushStoresPayloads: stated only for a flush whose data stays
  within the current data file and fits an int. A flush that rolls over to a
  new file is covered by FlushCommits and WriteLands, but not by this
  caller-level statement.
- Engine.NeedsTrim: states that trimming shrinks the log only while 16 times
  the item count fits an int. From 2^27 items the source's unchecked product
  wraps to a negative estimate. The log is then trimmed as soon as it passes
  the suggested maximum, even when it is no longer than its snapshot, as
  Engine.WrappedEstimateTrims shows. The model keeps this wrap.
- EntryIndex.ApplyInMemory: the checked-out `HashSet` is a sequence in an
  explicit enumeration order. Which order .NET picks is not modelled.
- Engine.Close: releasing the lock file is not modelled. Rhino's Dispose also
  has no guard, so a second call rewrites the same snapshot.

## Findings

| source | as written | input that shows it | evidently intended | confidence | as-written member | corrected member |
|---|---|---|---|---|---|---|
| src/Rhino.Queues.Storage.Disk/Implementation/PersistentQueueImpl.cs:228-279 | read-ahead of a zero-length head with no non-empty entry after it computes a span of size 0, and the read loop throws "End of file reached" on its first empty read | a queue holding only Entry(0, 0, 0) without data, read buffer 1 MiB, no data files | the empty item is dequeued with empty data | medium (not executed) | Engine.ReadAheadAsWritten, shown by Engine.EmptyHeadNeverDequeues | Engine.ReadAhead, with Engine.ReadAheadServes |
| src/DiskQueue/Implementation/PersistentQueueImpl.cs:349 | `if (firstEntry.Length < 1) return buffer;` returns a zeroed buffer for the whole span whenever the head is empty, even when the span covers non-empty entries | data.0 = [7, 8, 9]; queue Entry(0, 0, 0), Entry(0, 0, 3); the second entry is handed [0, 0, 0] | skip the read only when the whole span is empty | high (not executed) | Engine.ReadAheadAsWritten with Engine.ReadEntriesFromFile, shown by Engine.EmptyHeadZeroesSpan | Engine.ReadAhead with Engine.ReadSpan, proved by Engine.ReadAheadServes |
| src/DiskQueue/Implementation/PersistentQueueImpl.cs:207-230 | AcquireWriter moves the caller's stream to CurrentFilePosition and writes through it, but only the session that triggered a rollover is handed the new file's stream, while ConcatenateBufferAndAddIndividualOperations (PersistentQueueSession.cs:104-124) records CurrentFileNumber | two sessions open on data.0 = [1, 2, 3, 4]; another session rolls the queue over to data.1 (4 zero bytes, head 0); this session flushes [9, 9]: data.0 becomes [9, 9, 3, 4] while the recorded entry (1, 0, 2) reads [0, 0] | write to the current data file, the one the recorded operations name | medium (not executed) | Engine.AcquireWriter, shown by Engine.StaleStreamMisplacesData | Engine.AcquireCurrentWriter, used by QueueSession.Write and proved by QueueSession.WriteLands |
| src/Rhino.Queues.Storage.Disk/Implementation/PersistentQueueImpl.cs:421-426 | replaying a logged Dequeue removes the entry only from the checked-out set (also src/DiskQueue/Implementation/PersistentQueueImpl.cs:538-543), but on replay nothing is checked out: the entry that the Enqueue before it queued stays queued, while its file's count drops and the file may be deleted | Rhino, file 1 current; Entry(0, 0, 3) in data.0 = [7, 8, 9] is checked out and its Dequeue committed, which deletes data.0; the process then stops without closing the queue, so the log is not trimmed; reopening queues Entry(0, 0, 3) again and dequeuing it fails with "End of file reached" | a committed Dequeue removes the item for good, so replay takes it out of the queue | medium (not executed) | Engine.Open with EntryIndex.ApplyOperation, shown by Engine.CommittedDequeueReturns | Engine.Reopen with EntryIndex.ReplayOperation, proved by Engine.CommitThenReplay |
