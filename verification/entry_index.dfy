/**
 * The in-memory entry index of a queue: the queued entries in FIFO order,
 * the checked-out entries (dequeued by a session, not yet committed or
 * reinstated) and the live-item count of every data file; together with
 * ApplyTransactionOperationsInMemory, which replays log operations into it,
 * and the data-file deletions that follow.
 */
module EntryIndex {
  import opened Bytes
  import opened Wrappers
  import opened Operations
  import opened Storage

  /** An entry with the bytes a read-ahead has attached to it (Entry.Data), if any. */
  datatype Slot = Slot(entry: Entry, data: Option<seq<uint8>>)

  /** The identities of a run of slots, in order. */
  function Keys(slots: seq<Slot>): (es: seq<Entry>)
    ensures |es| == |slots|
    ensures forall i :: 0 <= i < |slots| ==> es[i] == slots[i].entry
  {
    seq(|slots|, i requires 0 <= i < |slots| => slots[i].entry)
  }

  /** Slots for entries that have no data yet, as `new Entry(operation)` creates them. */
  function Unread(es: seq<Entry>): (slots: seq<Slot>)
    ensures Keys(slots) == es
    ensures forall i :: 0 <= i < |es| ==> slots[i].data == None
  {
    seq(|es|, i requires 0 <= i < |es| => Slot(es[i], None))
  }

  lemma KeysAppend(a: seq<Slot>, b: seq<Slot>)
    ensures Keys(a + b) == Keys(a) + Keys(b)
  {
  }

  // ---------------------------------------------------------------------
  // HashSet<Entry> as a duplicate-free sequence. Membership follows set
  // semantics (value-equal entries collapse); the sequence order is the
  // enumeration order, which the trimmed log depends on.
  // ---------------------------------------------------------------------

  predicate Distinct<T(==)>(s: seq<T>) {
    forall i, j :: 0 <= i < j < |s| ==> s[i] != s[j]
  }

  function Elems<T>(s: seq<T>): set<T> {
    set x | x in s
  }

  /** HashSet.Add: no change when an equal entry is present. */
  function SetAdd(s: seq<Entry>, e: Entry): (r: seq<Entry>)
    ensures Elems(r) == Elems(s) + {e}
    ensures Distinct(s) ==> Distinct(r)
    ensures e in s ==> r == s
    ensures e !in s ==> r == s + [e]
  {
    if e in s then s else s + [e]
  }

  /** HashSet.Remove: drops the entry equal to e, if any. */
  function SetRemove(s: seq<Entry>, e: Entry): (r: seq<Entry>)
    ensures forall x :: x in r <==> x in s && x != e
    ensures |r| <= |s|
  {
    if s == [] then []
    else (if s[0] == e then [] else [s[0]]) + SetRemove(s[1..], e)
  }

  lemma {:induction false} SetRemoveDistinct(s: seq<Entry>, e: Entry)
    requires Distinct(s)
    ensures Distinct(SetRemove(s, e))
    ensures e in s ==> |SetRemove(s, e)| == |s| - 1
    ensures e !in s ==> SetRemove(s, e) == s
  {
    if s != [] {
      SetRemoveDistinct(s[1..], e);
      var tail := SetRemove(s[1..], e);
      assert s[0] !in s[1..];
      if s[0] != e {
        var r := [s[0]] + tail;
        forall i, j | 0 <= i < j < |r|
          ensures r[i] != r[j]
        {
          if i == 0 {
            assert r[j] in tail;
          } else {
            assert r[i] == tail[i - 1] && r[j] == tail[j - 1];
          }
        }
      }
    }
  }

  /** A duplicate-free sequence has as many elements as the set it enumerates. */
  lemma {:induction false} DistinctCardinality<T>(s: seq<T>)
    requires Distinct(s)
    ensures |Elems(s)| == |s|
  {
    if s != [] {
      var t := s[1..];
      assert Distinct(t);
      DistinctCardinality(t);
      assert s[0] !in t;
      assert Elems(s) == Elems(t) + {s[0]};
    }
  }

  /** Distinctness of a concatenation: each part distinct and no common element. */
  lemma DistinctConcat<T>(a: seq<T>, b: seq<T>)
    ensures Distinct(a + b) <==> Distinct(a) && Distinct(b) && Elems(a) !! Elems(b)
  {
    var c := a + b;
    if Distinct(c) {
      forall i, j | 0 <= i < j < |a| ensures a[i] != a[j] {
        assert c[i] == a[i] && c[j] == a[j];
      }
      forall i, j | 0 <= i < j < |b| ensures b[i] != b[j] {
        assert c[|a| + i] == b[i] && c[|a| + j] == b[j];
      }
      forall x | x in Elems(a) ensures x !in Elems(b) {
        var i :| 0 <= i < |a| && a[i] == x;
        forall j | 0 <= j < |b| ensures b[j] != x {
          assert c[i] == a[i] && c[|a| + j] == b[j];
        }
      }
    }
    if Distinct(a) && Distinct(b) && Elems(a) !! Elems(b) {
      forall i, j | 0 <= i < j < |c| ensures c[i] != c[j] {
        if j < |a| {
          assert c[i] == a[i] && c[j] == a[j];
        } else if i >= |a| {
          assert c[i] == b[i - |a|] && c[j] == b[j - |a|];
        } else {
          assert c[i] == a[i] && c[j] == b[j - |a|];
          assert c[i] in Elems(a) && c[j] in Elems(b);
        }
      }
    }
  }

  // ---------------------------------------------------------------------
  // The index
  // ---------------------------------------------------------------------

  /**
   * entries: the queue (LinkedList<Entry>); checkedOut: checkedOutEntries;
   * counts: countOfItemsPerFile.
   */
  datatype Index = Index(entries: seq<Slot>, checkedOut: seq<Entry>, counts: map<int32, int>) {
    /** EstimatedCountOfItemsInQueue: entries.Count + checkedOutEntries.Count. */
    function EstimatedCount(): nat {
      |entries| + |checkedOut|
    }
  }

  /** With no duplicate checked-out entry, the estimate counts the distinct items held. */
  lemma EstimatedCountIsItems(idx: Index)
    requires Distinct(idx.checkedOut)
    ensures idx.EstimatedCount() == |idx.entries| + |Elems(idx.checkedOut)|
  {
    DistinctCardinality(idx.checkedOut);
  }

  const EmptyIndex: Index := Index([], [], map[])

  /** countOfItemsPerFile.GetValueOrDefault(file). */
  function CountOf(counts: map<int32, int>, file: int32): int {
    GetValueOrDefault(counts, file, 0)
  }

  /** One step of ApplyTransactionOperationsInMemory's loop. */
  function ApplyOperation(idx: Index, op: Operation): (r: Index)
    ensures op.opType == Enqueue ==>
      && r.entries == idx.entries + [Slot(EntryOf(op), None)]
      && Keys(r.entries) == Keys(idx.entries) + [EntryOf(op)]
      && r.checkedOut == idx.checkedOut
      && r.counts.Keys == idx.counts.Keys + {op.fileNumber}
      && CountOf(r.counts, op.fileNumber) == CountOf(idx.counts, op.fileNumber) + 1
    ensures op.opType == Dequeue ==>
      && r.entries == idx.entries
      && Elems(r.checkedOut) == Elems(idx.checkedOut) - {EntryOf(op)}
      && CountOf(r.counts, op.fileNumber) == CountOf(idx.counts, op.fileNumber) - 1
    ensures op.opType == Reinstate ==>
      && Keys(r.entries) == [EntryOf(op)] + Keys(idx.entries)
      && Elems(r.checkedOut) == Elems(idx.checkedOut) - {EntryOf(op)}
      && r.counts == idx.counts
    ensures op.opType.Undefined? ==> r == idx
    ensures forall f :: f != op.fileNumber ==> CountOf(r.counts, f) == CountOf(idx.counts, f)
  {
    var e := EntryOf(op);
    match op.opType
    case Enqueue =>
      KeysAppend(idx.entries, [Slot(e, None)]);
      idx.(entries := idx.entries + [Slot(e, None)],
           counts := idx.counts[e.fileNumber := CountOf(idx.counts, e.fileNumber) + 1])
    case Dequeue =>
      idx.(checkedOut := SetRemove(idx.checkedOut, e),
           counts := idx.counts[e.fileNumber := CountOf(idx.counts, e.fileNumber) - 1])
    case Reinstate =>
      KeysAppend([Slot(e, None)], idx.entries);
      idx.(entries := [Slot(e, None)] + idx.entries,
           checkedOut := SetRemove(idx.checkedOut, e))
    case Undefined(_) => idx
  }

  /** The loop of ApplyTransactionOperationsInMemory, operation by operation in order. */
  function ApplyOperations(idx: Index, ops: seq<Operation>): (r: Index)
    decreases |ops|
  {
    if ops == [] then idx else ApplyOperations(ApplyOperation(idx, ops[0]), ops[1..])
  }

  lemma {:induction false} ApplyOperationsConcat(idx: Index, a: seq<Operation>, b: seq<Operation>)
    ensures ApplyOperations(idx, a + b) == ApplyOperations(ApplyOperations(idx, a), b)
    decreases |a|
  {
    if a == [] {
      assert a + b == b;
    } else {
      assert (a + b)[1..] == a[1..] + b;
      ApplyOperationsConcat(ApplyOperation(idx, a[0]), a[1..], b);
    }
  }

  /** The files whose count has dropped below one. */
  function Exhausted(counts: map<int32, int>): (files: set<int32>)
    ensures forall f :: f in files <==> f in counts && counts[f] < 1
  {
    set f | f in counts && counts[f] < 1
  }

  /** The loop's epilogue: the files whose count fell below one leave the map and are handed back. */
  function Prune(mid: Index): (r: (Index, set<int32>))
    ensures r.0.entries == mid.entries && r.0.checkedOut == mid.checkedOut
    ensures r.1 == Exhausted(mid.counts)
    ensures r.0.counts.Keys == mid.counts.Keys - r.1
    ensures forall f :: f in r.0.counts ==> r.0.counts[f] == mid.counts[f] >= 1
  {
    var removed := Exhausted(mid.counts);
    (mid.(counts := map f | f in mid.counts && f !in removed :: mid.counts[f]), removed)
  }

  /**
   * ApplyTransactionOperationsInMemory: apply every operation, then drop the
   * files whose count fell below one from the map and return them.
   */
  function ApplyInMemory(idx: Index, ops: seq<Operation>): (r: (Index, set<int32>))
    ensures var mid := ApplyOperations(idx, ops);
      && r.0.entries == mid.entries
      && r.0.checkedOut == mid.checkedOut
      && r.1 == Exhausted(mid.counts)
      && r.0.counts.Keys == mid.counts.Keys - r.1
      && (forall f :: f in r.0.counts ==> r.0.counts[f] == mid.counts[f] >= 1)
  {
    Prune(ApplyOperations(idx, ops))
  }

  /** The deletions of ApplyTransactionOperations: every returned file except the one being written. */
  function DeleteFiles(files: DataFiles, removed: set<int32>, current: int32): (r: DataFiles)
    ensures forall f :: f in r <==> f in files && (f !in removed || f == current)
    ensures forall f :: f in r ==> r[f] == files[f]
  {
    map f | f in files && (f !in removed || f == current) :: files[f]
  }

  /** ApplyTransactionOperations: apply in memory, then delete the exhausted data files. */
  function ApplyTransactionOperations(idx: Index, files: DataFiles, current: int32, ops: seq<Operation>)
    : (r: (Index, DataFiles))
    ensures r.0 == ApplyInMemory(idx, ops).0
    ensures r.1 == DeleteFiles(files, ApplyInMemory(idx, ops).1, current)
  {
    var (idx', removed) := ApplyInMemory(idx, ops);
    (idx', DeleteFiles(files, removed, current))
  }

  // ---------------------------------------------------------------------
  // Enqueue-only batches, and Reinstate batches
  // ---------------------------------------------------------------------

  /** One Enqueue operation per entry, in order. */
  function EnqueueAll(es: seq<Entry>): (ops: seq<Operation>)
    ensures |ops| == |es|
    ensures forall i :: 0 <= i < |es| ==> ops[i] == OperationOn(Enqueue, es[i])
  {
    seq(|es|, i requires 0 <= i < |es| => OperationOn(Enqueue, es[i]))
  }

  /** How many of the entries lie in the given data file. */
  function CountOfFile(es: seq<Entry>, file: int32): (n: nat)
    ensures n <= |es|
  {
    if es == [] then 0 else (if es[0].fileNumber == file then 1 else 0) + CountOfFile(es[1..], file)
  }

  lemma {:induction false} CountOfFileConcat(a: seq<Entry>, b: seq<Entry>, file: int32)
    ensures CountOfFile(a + b, file) == CountOfFile(a, file) + CountOfFile(b, file)
  {
    if a == [] {
      assert a + b == b;
    } else {
      assert (a + b)[1..] == a[1..] + b;
      CountOfFileConcat(a[1..], b, file);
    }
  }

  /**
   * Applying Enqueue operations appends their entries, without data, to the
   * tail in order, leaves the checked-out set alone and adds to each file's
   * count the number of entries enqueued into it.
   */
  lemma {:induction false} ApplyEnqueues(idx: Index, es: seq<Entry>)
    ensures var r := ApplyOperations(idx, EnqueueAll(es));
      && r.entries == idx.entries + Unread(es)
      && r.checkedOut == idx.checkedOut
      && (forall f :: CountOf(r.counts, f) == CountOf(idx.counts, f) + CountOfFile(es, f))
      && (forall f :: f in r.counts <==> f in idx.counts || CountOfFile(es, f) > 0)
    decreases |es|
  {
    if es != [] {
      var ops := EnqueueAll(es);
      var next := ApplyOperation(idx, ops[0]);
      assert ops[1..] == EnqueueAll(es[1..]);
      assert ApplyOperations(idx, ops) == ApplyOperations(next, ops[1..]);
      assert next.entries == idx.entries + [Slot(es[0], None)];
      ApplyEnqueues(next, es[1..]);
      assert Unread(es) == [Slot(es[0], None)] + Unread(es[1..]);
      assert idx.entries + [Slot(es[0], None)] + Unread(es[1..]) == idx.entries + Unread(es);
      var r := ApplyOperations(idx, ops);
      forall f
        ensures CountOf(r.counts, f) == CountOf(idx.counts, f) + CountOfFile(es, f)
        ensures f in r.counts <==> f in idx.counts || CountOfFile(es, f) > 0
      {
        assert CountOfFile(es, f) == (if es[0].fileNumber == f then 1 else 0) + CountOfFile(es[1..], f);
      }
    }
  }

  /** The entries of the Dequeue operations in a list, in order. */
  function Dequeued(ops: seq<Operation>): (es: seq<Entry>)
    ensures |es| <= |ops|
  {
    if ops == [] then []
    else (if ops[0].opType == Dequeue then [EntryOf(ops[0])] else []) + Dequeued(ops[1..])
  }

  /** One Reinstate operation per entry, in order. */
  function ReinstateAll(es: seq<Entry>): (ops: seq<Operation>)
    ensures |ops| == |es|
    ensures forall i :: 0 <= i < |es| ==> ops[i] == OperationOn(Reinstate, es[i])
  {
    seq(|es|, i requires 0 <= i < |es| => OperationOn(Reinstate, es[i]))
  }

  function Reverse<T>(s: seq<T>): (r: seq<T>)
    ensures |r| == |s|
    ensures forall i :: 0 <= i < |s| ==> r[i] == s[|s| - 1 - i]
  {
    seq(|s|, i requires 0 <= i < |s| => s[|s| - 1 - i])
  }

  /**
   * Applying Reinstate operations pushes each entry on the head in turn, so
   * the entries end up ahead of the queue in reverse order, all removed from
   * the checked-out set; the counts do not change.
   */
  lemma {:induction false} ApplyReinstates(idx: Index, es: seq<Entry>)
    ensures var r := ApplyOperations(idx, ReinstateAll(es));
      && Keys(r.entries) == Reverse(es) + Keys(idx.entries)
      && Elems(r.checkedOut) == Elems(idx.checkedOut) - Elems(es)
      && r.counts == idx.counts
    decreases |es|
  {
    if es != [] {
      var ops := ReinstateAll(es);
      var next := ApplyOperation(idx, ops[0]);
      assert ops[1..] == ReinstateAll(es[1..]);
      ApplyReinstates(next, es[1..]);
      assert Reverse(es[1..]) + [es[0]] == Reverse(es);
      assert Elems(es) == {es[0]} + Elems(es[1..]);
    }
  }

  // ---------------------------------------------------------------------
  // The count invariant
  // ---------------------------------------------------------------------

  /** Every identity held by the index: queued ones, then checked-out ones. */
  function Held(idx: Index): seq<Entry> {
    Keys(idx.entries) + idx.checkedOut
  }

  /** The number of live items (queued or checked out) in a data file. */
  function Live(idx: Index, file: int32): nat {
    CountOfFile(Held(idx), file)
  }

  /**
   * The index invariant: no identity is held twice, and every file's count
   * is its number of live items (zero for a file not in the map).
   */
  predicate Consistent(idx: Index) {
    && Distinct(Held(idx))
    && forall f :: CountOf(idx.counts, f) == Live(idx, f)
  }

  /**
   * An operation the engine can issue against this index: an Enqueue of a
   * fresh identity, or a Dequeue/Reinstate of a checked-out one.
   */
  predicate Admissible(idx: Index, op: Operation) {
    match op.opType
    case Enqueue => EntryOf(op) !in Held(idx)
    case Dequeue => EntryOf(op) in idx.checkedOut
    case Reinstate => EntryOf(op) in idx.checkedOut
    case Undefined(_) => true
  }

  predicate AdmissibleAll(idx: Index, ops: seq<Operation>)
    decreases |ops|
  {
    ops == [] || (Admissible(idx, ops[0]) && AdmissibleAll(ApplyOperation(idx, ops[0]), ops[1..]))
  }

  lemma {:induction false} CountOfFileRemove(s: seq<Entry>, e: Entry, file: int32)
    requires Distinct(s) && e in s
    ensures CountOfFile(SetRemove(s, e), file) == CountOfFile(s, file) - (if e.fileNumber == file then 1 else 0)
  {
    if s[0] == e {
      SetRemoveDistinct(s[1..], e);
      assert s[0] !in s[1..];
      assert SetRemove(s, e) == SetRemove(s[1..], e);
    } else {
      assert e in s[1..];
      CountOfFileRemove(s[1..], e, file);
      assert SetRemove(s, e) == [s[0]] + SetRemove(s[1..], e);
      assert ([s[0]] + SetRemove(s[1..], e))[1..] == SetRemove(s[1..], e);
    }
  }

  lemma ApplyOperationConsistent(idx: Index, op: Operation)
    requires Consistent(idx) && Admissible(idx, op)
    ensures Consistent(ApplyOperation(idx, op))
  {
    match op.opType
    case Enqueue => EnqueueConsistent(idx, op);
    case Dequeue => DequeueConsistent(idx, op);
    case Reinstate => ReinstateConsistent(idx, op);
    case Undefined(_) =>
  }

  lemma EnqueueConsistent(idx: Index, op: Operation)
    requires Consistent(idx) && op.opType == Enqueue && EntryOf(op) !in Held(idx)
    ensures Consistent(ApplyOperation(idx, op))
  {
    var r := ApplyOperation(idx, op);
    var e := EntryOf(op);
    var k := Keys(idx.entries);
    var c := idx.checkedOut;
    DistinctConcat(k, c);
    assert Held(r) == k + ([e] + c);
    DistinctConcat([e], c);
    DistinctConcat(k, [e] + c);
    forall f ensures CountOf(r.counts, f) == Live(r, f) {
      CountOfFileConcat(k, [e] + c, f);
      CountOfFileConcat([e], c, f);
      CountOfFileConcat(k, c, f);
    }
  }

  lemma DequeueConsistent(idx: Index, op: Operation)
    requires Consistent(idx) && op.opType == Dequeue && EntryOf(op) in idx.checkedOut
    ensures Consistent(ApplyOperation(idx, op))
  {
    var r := ApplyOperation(idx, op);
    var e := EntryOf(op);
    var k := Keys(idx.entries);
    var c := idx.checkedOut;
    DistinctConcat(k, c);
    SetRemoveDistinct(c, e);
    var c' := SetRemove(c, e);
    assert Held(r) == k + c';
    DistinctConcat(k, c');
    forall f ensures CountOf(r.counts, f) == Live(r, f) {
      CountOfFileConcat(k, c', f);
      CountOfFileConcat(k, c, f);
      CountOfFileRemove(c, e, f);
    }
  }

  lemma ReinstateConsistent(idx: Index, op: Operation)
    requires Consistent(idx) && op.opType == Reinstate && EntryOf(op) in idx.checkedOut
    ensures Consistent(ApplyOperation(idx, op))
  {
    var r := ApplyOperation(idx, op);
    var e := EntryOf(op);
    var k := Keys(idx.entries);
    var c := idx.checkedOut;
    DistinctConcat(k, c);
    SetRemoveDistinct(c, e);
    var c' := SetRemove(c, e);
    assert Held(r) == [e] + (k + c');
    assert e in Elems(c);
    assert e !in k;
    DistinctConcat(k, c');
    DistinctConcat([e], k + c');
    forall f ensures CountOf(r.counts, f) == Live(r, f) {
      CountOfFileConcat([e], k + c', f);
      CountOfFileConcat(k, c', f);
      CountOfFileConcat(k, c, f);
      CountOfFileRemove(c, e, f);
    }
  }

  lemma {:induction false} ApplyOperationsConsistent(idx: Index, ops: seq<Operation>)
    requires Consistent(idx) && AdmissibleAll(idx, ops)
    ensures Consistent(ApplyOperations(idx, ops))
    decreases |ops|
  {
    if ops != [] {
      ApplyOperationConsistent(idx, ops[0]);
      ApplyOperationsConsistent(ApplyOperation(idx, ops[0]), ops[1..]);
    }
  }

  /**
   * The invariant survives a whole batch; afterwards every remaining count is
   * positive, and no file handed back for deletion holds a live item.
   */
  lemma ApplyInMemoryConsistent(idx: Index, ops: seq<Operation>)
    requires Consistent(idx) && AdmissibleAll(idx, ops)
    ensures var r := ApplyInMemory(idx, ops);
      && Consistent(r.0)
      && (forall f :: f in r.0.counts ==> r.0.counts[f] >= 1)
      && (forall f :: f in r.1 ==> Live(r.0, f) == 0)
  {
    ApplyOperationsConsistent(idx, ops);
    var mid := ApplyOperations(idx, ops);
    var r := ApplyInMemory(idx, ops);
    assert Held(r.0) == Held(mid);
    forall f ensures CountOf(r.0.counts, f) == Live(r.0, f) {
      assert CountOf(mid.counts, f) == Live(mid, f);
    }
    forall f | f in r.1 ensures Live(r.0, f) == 0 {
      assert CountOf(mid.counts, f) == Live(mid, f);
    }
  }

  /**
   * The index side of the engine's Dequeue: the head leaves the queue and a
   * data-less copy of it joins the checked-out set.
   */
  function CheckOutHead(idx: Index): (r: Index)
    requires idx.entries != []
    ensures Keys(r.entries) == Keys(idx.entries)[1..]
    ensures Elems(r.checkedOut) == Elems(idx.checkedOut) + {idx.entries[0].entry}
    ensures r.counts == idx.counts
  {
    idx.(entries := idx.entries[1..], checkedOut := SetAdd(idx.checkedOut, idx.entries[0].entry))
  }

  /** Checking out the head keeps the invariant: the item stays live in the same file. */
  lemma CheckOutHeadConsistent(idx: Index)
    requires idx.entries != [] && Consistent(idx)
    ensures Consistent(CheckOutHead(idx))
    ensures idx.entries[0].entry in CheckOutHead(idx).checkedOut
  {
    var r := CheckOutHead(idx);
    var k := Keys(idx.entries);
    var c := idx.checkedOut;
    var h := k[0];
    assert k == [h] + k[1..];
    DistinctConcat(k, c);
    DistinctConcat([h], k[1..]);
    assert h !in c;
    assert r.checkedOut == c + [h];
    assert Keys(r.entries) == k[1..];
    assert Held(r) == k[1..] + (c + [h]);
    DistinctConcat(c, [h]);
    DistinctConcat(k[1..], c + [h]);
    forall f ensures CountOf(r.counts, f) == Live(r, f) {
      CountOfFileConcat(k, c, f);
      CountOfFileConcat([h], k[1..], f);
      CountOfFileConcat(k[1..], c + [h], f);
      CountOfFileConcat(c, [h], f);
    }
  }

  // ---------------------------------------------------------------------
  // Replay with Dequeue taking the item out of the queue
  // ---------------------------------------------------------------------

  lemma ElemsConcat<T>(a: seq<T>, b: seq<T>)
    ensures Elems(a + b) == Elems(a) + Elems(b)
  {
  }

  /** The slots left when every slot holding the entry is dropped (LinkedList.Remove until absent). */
  function DropEntry(slots: seq<Slot>, e: Entry): (r: seq<Slot>)
    ensures Keys(r) == SetRemove(Keys(slots), e)
  {
    if slots == [] then []
    else
      var head := if slots[0].entry == e then [] else [slots[0]];
      var rest := DropEntry(slots[1..], e);
      assert Keys(slots)[1..] == Keys(slots[1..]);
      KeysAppend(head, rest);
      head + rest
  }

  /**
   * One replay step as evidently intended: as ApplyOperation, except that a
   * Dequeue also takes the entry out of the queue. On replay nothing is
   * checked out, so a logged Dequeue finds its item where the Enqueue before
   * it put it: in the queue.
   */
  function ReplayOperation(idx: Index, op: Operation): (r: Index)
    ensures op.opType == Dequeue ==>
      && Keys(r.entries) == SetRemove(Keys(idx.entries), EntryOf(op))
      && r.checkedOut == SetRemove(idx.checkedOut, EntryOf(op))
      && r.counts == ApplyOperation(idx, op).counts
    ensures op.opType != Dequeue ==> r == ApplyOperation(idx, op)
  {
    var a := ApplyOperation(idx, op);
    if op.opType == Dequeue then a.(entries := DropEntry(idx.entries, EntryOf(op))) else a
  }

  function ReplayOperations(idx: Index, ops: seq<Operation>): (r: Index)
    decreases |ops|
  {
    if ops == [] then idx else ReplayOperations(ReplayOperation(idx, ops[0]), ops[1..])
  }

  /** The corrected ApplyTransactionOperationsInMemory. */
  function ReplayInMemory(idx: Index, ops: seq<Operation>): (r: (Index, set<int32>))
    ensures r.0.entries == ReplayOperations(idx, ops).entries
    ensures r.0.checkedOut == ReplayOperations(idx, ops).checkedOut
    ensures r.1 == Exhausted(ReplayOperations(idx, ops).counts)
  {
    Prune(ReplayOperations(idx, ops))
  }

  /** The corrected ApplyTransactionOperations. */
  function ReplayTransactionOperations(idx: Index, files: DataFiles, current: int32, ops: seq<Operation>)
    : (r: (Index, DataFiles))
    ensures r.0 == ReplayInMemory(idx, ops).0
    ensures r.1 == DeleteFiles(files, ReplayInMemory(idx, ops).1, current)
  {
    var (idx', removed) := ReplayInMemory(idx, ops);
    (idx', DeleteFiles(files, removed, current))
  }

  /** Without a Dequeue the corrected replay is the replay as written. */
  lemma {:induction false} ReplayWithoutDequeue(idx: Index, ops: seq<Operation>)
    requires forall i :: 0 <= i < |ops| ==> ops[i].opType != Dequeue
    ensures ReplayOperations(idx, ops) == ApplyOperations(idx, ops)
    ensures ReplayInMemory(idx, ops) == ApplyInMemory(idx, ops)
    decreases |ops|
  {
    if ops != [] {
      assert ops[0].opType != Dequeue;
      ReplayWithoutDequeue(ApplyOperation(idx, ops[0]), ops[1..]);
    }
  }

  /** The operations a commit logs: Reinstate is applied in memory only and never written. */
  predicate Logged(ops: seq<Operation>) {
    forall i :: 0 <= i < |ops| ==> ops[i].opType != Reinstate
  }

  /**
   * What replaying a log should rebuild from a live index: a consistent
   * index holding the same items, each once, all of them queued.
   */
  predicate Mirrors(x: Index, idx: Index) {
    && x.checkedOut == []
    && Consistent(x)
    && Elems(Keys(x.entries)) == Elems(Held(idx))
  }

  /** The corrected replay of a Dequeue of a queued item keeps the invariant. */
  lemma ReplayDequeueConsistent(x: Index, op: Operation)
    requires Consistent(x) && x.checkedOut == [] && op.opType == Dequeue && EntryOf(op) in Keys(x.entries)
    ensures Consistent(ReplayOperation(x, op))
    ensures ReplayOperation(x, op).checkedOut == []
    ensures Elems(Keys(ReplayOperation(x, op).entries)) == Elems(Keys(x.entries)) - {EntryOf(op)}
  {
    var r := ReplayOperation(x, op);
    var e := EntryOf(op);
    var k := Keys(x.entries);
    assert Held(x) == k;
    SetRemoveDistinct(k, e);
    assert Held(r) == SetRemove(k, e);
    forall f ensures CountOf(r.counts, f) == Live(r, f) {
      CountOfFileRemove(k, e, f);
    }
  }

  /** One logged operation, applied live and replayed, keeps the replayed index a mirror of the live one. */
  lemma MirrorStep(x: Index, idx: Index, op: Operation)
    requires Mirrors(x, idx) && Consistent(idx) && Admissible(idx, op) && op.opType != Reinstate
    ensures Mirrors(ReplayOperation(x, op), ApplyOperation(idx, op))
  {
    var e := EntryOf(op);
    var k, c := Keys(idx.entries), idx.checkedOut;
    var a := ApplyOperation(idx, op);
    assert Held(x) == Keys(x.entries);
    ElemsConcat(k, c);
    match op.opType
    case Enqueue =>
      assert e !in Elems(Held(idx));
      assert e !in Held(x);
      EnqueueConsistent(x, op);
      assert Held(a) == (k + [e]) + c;
      ElemsConcat(k + [e], c);
      ElemsConcat(k, [e]);
      ElemsConcat(Keys(x.entries), [e]);
    case Dequeue =>
      assert e in Elems(Held(idx));
      assert e in Keys(x.entries);
      ReplayDequeueConsistent(x, op);
      DistinctConcat(k, c);
      assert e in Elems(c);
      assert e !in Elems(k);
      ElemsConcat(k, a.checkedOut);
    case Undefined(_) =>
  }

  lemma {:induction false} MirrorOperations(x: Index, idx: Index, ops: seq<Operation>)
    requires Mirrors(x, idx) && Consistent(idx) && AdmissibleAll(idx, ops) && Logged(ops)
    ensures Mirrors(ReplayOperations(x, ops), ApplyOperations(idx, ops))
    decreases |ops|
  {
    if ops != [] {
      assert ops[0].opType != Reinstate;
      MirrorStep(x, idx, ops[0]);
      ApplyOperationConsistent(idx, ops[0]);
      MirrorOperations(ReplayOperation(x, ops[0]), ApplyOperation(idx, ops[0]), ops[1..]);
    }
  }

  /** Dropping exhausted files keeps the invariant. */
  lemma PruneConsistent(mid: Index)
    requires Consistent(mid)
    ensures Consistent(Prune(mid).0)
  {
    var r := Prune(mid);
    assert Held(r.0) == Held(mid);
    forall f ensures CountOf(r.0.counts, f) == Live(r.0, f) {
      assert CountOf(mid.counts, f) == Live(mid, f);
    }
  }

  /**
   * A batch of logged operations the engine can issue, applied live and
   * replayed with the corrected Dequeue, keeps the replayed index a mirror
   * of the live one.
   */
  lemma MirrorInMemory(x: Index, idx: Index, ops: seq<Operation>)
    requires Mirrors(x, idx) && Consistent(idx) && AdmissibleAll(idx, ops) && Logged(ops)
    ensures Mirrors(ReplayInMemory(x, ops).0, ApplyInMemory(idx, ops).0)
  {
    MirrorOperations(x, idx, ops);
    PruneConsistent(ReplayOperations(x, ops));
  }
}
