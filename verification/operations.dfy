/**
 * Operations recorded in the transaction log, and the entries they denote.
 * An entry is identified by its (file number, start, length) triple; the
 * bytes it carries after a read are kept beside it (see EntryIndex.Slot).
 */
module Operations {
  import opened Bytes
  import opened Wrappers

  /**
   * OperationType is a byte-backed enum: the three named tags, and whatever
   * other byte a log may hold, which a cast to the enum keeps as is.
   */
  datatype OperationType = Enqueue | Dequeue | Reinstate | Undefined(tag: uint8) {
    /** Undefined never shadows a named tag. */
    predicate Valid() {
      Undefined? ==> tag != 1 && tag != 2 && tag != 3
    }
  }

  /** `(byte)type`, as written by WriteEntryToTransactionLog. */
  function TypeByte(t: OperationType): (b: uint8)
    ensures t.Valid() ==> (t == Enqueue <==> b == 1)
    ensures t.Valid() ==> (t == Dequeue <==> b == 2)
    ensures t.Valid() ==> (t == Reinstate <==> b == 3)
  {
    match t
    case Enqueue => 1
    case Dequeue => 2
    case Reinstate => 3
    case Undefined(tag) => tag
  }

  /** `(OperationType)binaryReader.ReadByte()`, as done by replay. */
  function TypeOf(b: uint8): (t: OperationType)
    ensures t.Valid()
    ensures TypeByte(t) == b
  {
    if b == 1 then Enqueue
    else if b == 2 then Dequeue
    else if b == 3 then Reinstate
    else Undefined(b)
  }

  /** Writing a type's byte and casting it back is the identity. */
  lemma TypeRoundTrip(t: OperationType)
    requires t.Valid()
    ensures TypeOf(TypeByte(t)) == t
  {
  }

  /** The tag values are part of the on-disk format. */
  lemma TypeTags()
    ensures TypeByte(Enqueue) == 1 && TypeByte(Dequeue) == 2 && TypeByte(Reinstate) == 3
  {
  }

  datatype Operation = Operation(opType: OperationType, fileNumber: int32, start: int32, length: int32)

  /** The identity of a queued item: which data file, and where in it. */
  datatype Entry = Entry(fileNumber: int32, start: int32, length: int32)

  /** `new Entry(operation)`: the operation's coordinates, with no data yet. */
  function EntryOf(op: Operation): (e: Entry)
    ensures e.fileNumber == op.fileNumber && e.start == op.start && e.length == op.length
  {
    Entry(op.fileNumber, op.start, op.length)
  }

  /** An operation of the given type on an entry. */
  function OperationOn(t: OperationType, e: Entry): (op: Operation)
    ensures EntryOf(op) == e && op.opType == t
  {
    Operation(t, e.fileNumber, e.start, e.length)
  }

  /**
   * Entry.Equals and the `==`/`!=` operators, with null as None: two nulls
   * are equal (the reference-equality shortcut), null never equals an
   * entry, and two entries are equal iff their three fields are.
   */
  function EntryEquals(left: Option<Entry>, right: Option<Entry>): (r: bool)
    ensures r <==> left == right
    ensures left.Some? && right.Some? ==>
      (r <==> (&& left.value.fileNumber == right.value.fileNumber
               && left.value.start == right.value.start
               && left.value.length == right.value.length))
  {
    match (left, right)
    case (None, None) => true
    case (Some(a), Some(b)) => a.fileNumber == b.fileNumber && a.start == b.start && a.length == b.length
    case _ => false
  }

  function Pow2(n: nat): (r: nat)
    ensures r >= 1
  {
    if n == 0 then 1 else 2 * Pow2(n - 1)
  }

  /** The bitwise exclusive or of two naturals, lowest bit first. */
  function Xor(a: nat, b: nat): nat
    decreases a + b
  {
    if a == 0 then b else if b == 0 then a else (a + b) % 2 + 2 * Xor(a / 2, b / 2)
  }

  /** Exclusive or keeps `n`-bit words inside `n` bits. */
  lemma {:induction false} XorBound(a: nat, b: nat, n: nat)
    requires a < Pow2(n) && b < Pow2(n)
    ensures Xor(a, b) < Pow2(n)
    decreases a + b
  {
    if a != 0 && b != 0 {
      XorBound(a / 2, b / 2, n - 1);
    }
  }

  lemma WordSize()
    ensures Pow2(32) == Pow256(4) == 0x1_0000_0000 && Half(4) == 0x8000_0000
  {
    assert Pow256(1) == 256 && Pow256(2) == 65536 && Pow256(3) == 16777216;
    assert Pow2(8) == 256 && Pow2(16) == 65536 && Pow2(24) == 16777216;
  }

  /** The 32-bit exclusive or of two ints, on their two's-complement words. */
  function Xor32(x: int32, y: int32): int32 {
    WordSize();
    XorBound(ToUnsigned(x, 4), ToUnsigned(y, 4), 32);
    ToSigned(Xor(ToUnsigned(x, 4), ToUnsigned(y, 4)), 4)
  }

  /** Entry.GetHashCode: ((FileNumber * 397) ^ Start) * 397 ^ Length, in unchecked int arithmetic. */
  function HashCode(e: Entry): (h: int32)
  {
    Xor32(Wrap32(Xor32(Wrap32(e.fileNumber * 397), e.start) * 397), e.length)
  }

  /**
   * Two hashes worked through by hand. For Entry(16777216, 5, 7) the first
   * product 16777216 * 397 = 6660554752 overflows and wraps to -1929379840;
   * xor 5 gives -1929379835, times 397 wraps to -1459615807, xor 7 gives
   * -1459615802. For Entry(1, 2, 3) nothing wraps: (397 ^ 2) * 397 ^ 3.
   */
  lemma HashCodeWraps()
    ensures HashCode(Entry(16777216, 5, 7)) == -1459615802
    ensures HashCode(Entry(1, 2, 3)) == 158400
  {
    WordSize();
    assert Wrap32(16777216 * 397) == -1929379840;
    assert ToUnsigned(-1929379840, 4) == 2365587456 && ToUnsigned(5, 4) == 5;
    assert Xor(2365587456, 5) == 2365587461 by {
      assert Xor(295698432, 0) == 295698432;
      assert Xor(591396864, 1) == 591396865;
      assert Xor(1182793728, 2) == 1182793730;
    }
    assert ToSigned(2365587461, 4) == -1929379835;
    assert Wrap32(-1929379835 * 397) == -1459615807;
    assert ToUnsigned(-1459615807, 4) == 2835351489 && ToUnsigned(7, 4) == 7;
    assert Xor(2835351489, 7) == 2835351494 by {
      assert Xor(354418936, 0) == 354418936;
      assert Xor(708837872, 1) == 708837873;
      assert Xor(1417675744, 3) == 1417675747;
    }
    assert ToSigned(2835351494, 4) == -1459615802;
    assert ToUnsigned(397, 4) == 397 && ToUnsigned(2, 4) == 2 && ToSigned(399, 4) == 399;
    assert Xor(397, 2) == 399 by {
      assert Xor(99, 0) == 99;
      assert Xor(198, 1) == 199;
    }
    assert Wrap32(399 * 397) == 158403 && ToUnsigned(158403, 4) == 158403 && ToUnsigned(3, 4) == 3;
    assert Xor(158403, 3) == 158400 by {
      assert Xor(39600, 0) == 39600;
      assert Xor(79201, 1) == 79200;
    }
  }

  /** Extensions.GetValueOrDefault: the stored value, or `dflt` (default(T)) without adding the key. */
  function GetValueOrDefault<K, V>(m: map<K, V>, key: K, dflt: V): (r: V)
    ensures key in m ==> r == m[key]
    ensures key !in m ==> r == dflt
  {
    if key in m then m[key] else dflt
  }

  /**
   * Extensions.GetOrCreateValue: the stored value with the map unchanged, or
   * `created` (new T()) stored under the absent key and returned.
   */
  function GetOrCreateValue<K, V>(m: map<K, V>, key: K, created: V): (r: (V, map<K, V>))
    ensures key in r.1 && r.1[key] == r.0
    ensures key in m ==> r.0 == m[key] && r.1 == m
    ensures key !in m ==> r.0 == created && r.1 == m[key := created]
    ensures r.1.Keys == m.Keys + {key}
  {
    if key in m then (m[key], m) else (created, m[key := created])
  }
}
