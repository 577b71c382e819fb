/**
 * The on-disk constants of the transaction log: the operation separator and
 * the two 16-byte transaction markers, which are GUIDs in .NET's byte layout.
 */
module Constants {
  import opened Bytes
  import opened Wrappers
  import opened Errors

  /** The int written before every operation record. */
  const OperationSeparator: int32 := 0x42FEBCA1

  /** The separator's bytes on disk. */
  const OperationSeparatorBytes: seq<uint8> := [0xA1, 0xBC, 0xFE, 0x42]

  /** The on-disk separator is BitConverter.GetBytes(OperationSeparator). */
  lemma OperationSeparatorLayout()
    ensures Int32Bytes(OperationSeparator) == OperationSeparatorBytes
  {
  }

  /**
   * A GUID by its fields: a 32-bit, two 16-bit and eight single-byte parts,
   * the grouping of its text form "aaaaaaaa-bbbb-cccc-dddd-dddddddddddd".
   */
  datatype Guid = Guid(a: nat, b: nat, c: nat, d: seq<uint8>) {
    predicate Valid() {
      a < Pow256(4) && b < Pow256(2) && c < Pow256(2) && |d| == 8
    }
  }

  /** Guid.ToByteArray(): the first three fields little-endian, the last eight bytes as they are. */
  function GuidBytes(g: Guid): (bs: seq<uint8>)
    requires g.Valid()
    ensures |bs| == 16
  {
    LittleEndian(g.a, 4) + LittleEndian(g.b, 2) + LittleEndian(g.c, 2) + g.d
  }

  /** new Guid(byte[16]): the inverse layout of ToByteArray. */
  function GuidOf(bs: seq<uint8>): (g: Guid)
    requires |bs| == 16
    ensures g.Valid()
  {
    Guid(FromLittleEndian(bs[0..4]), FromLittleEndian(bs[4..6]), FromLittleEndian(bs[6..8]), bs[8..16])
  }

  lemma GuidOfBytes(g: Guid)
    requires g.Valid()
    ensures GuidOf(GuidBytes(g)) == g
  {
    var bs := GuidBytes(g);
    assert bs[0..4] == LittleEndian(g.a, 4);
    assert bs[4..6] == LittleEndian(g.b, 2);
    assert bs[6..8] == LittleEndian(g.c, 2);
    assert bs[8..16] == g.d;
    FromToLittleEndian(g.a, 4);
    FromToLittleEndian(g.b, 2);
    FromToLittleEndian(g.c, 2);
  }

  lemma BytesOfGuid(bs: seq<uint8>)
    requires |bs| == 16
    ensures GuidBytes(GuidOf(bs)) == bs
  {
    ToFromLittleEndian(bs[0..4]);
    ToFromLittleEndian(bs[4..6]);
    ToFromLittleEndian(bs[6..8]);
    assert bs == bs[0..4] + bs[4..6] + bs[6..8] + bs[8..16];
  }

  /**
   * Comparing the GUIDs built from two 16-byte reads is the same as
   * comparing the bytes, which is how the model compares markers.
   */
  lemma GuidEqualityIsByteEquality(x: seq<uint8>, y: seq<uint8>)
    requires |x| == 16 && |y| == 16
    ensures GuidOf(x) == GuidOf(y) <==> x == y
  {
    BytesOfGuid(x);
    BytesOfGuid(y);
  }

  /** b75bfb12-93bb-42b6-acb1-a897239ea3a5, field by field. */
  const StartTransactionGuid: Guid :=
    Guid(0xb75bfb12, 0x93bb, 0x42b6, [0xac, 0xb1, 0xa8, 0x97, 0x23, 0x9e, 0xa3, 0xa5])

  /** 866c9705-4456-4e9d-b452-3146b3bfa4ce, field by field. */
  const EndTransactionGuid: Guid :=
    Guid(0x866c9705, 0x4456, 0x4e9d, [0xb4, 0x52, 0x31, 0x46, 0xb3, 0xbf, 0xa4, 0xce])

  /** The 16 bytes that open every transaction. */
  const StartTransactionSeparator: seq<uint8> :=
    [0x12, 0xfb, 0x5b, 0xb7, 0xbb, 0x93, 0xb6, 0x42, 0xac, 0xb1, 0xa8, 0x97, 0x23, 0x9e, 0xa3, 0xa5]

  /** The 16 bytes that close every transaction. */
  const EndTransactionSeparator: seq<uint8> :=
    [0x05, 0x97, 0x6c, 0x86, 0x56, 0x44, 0x9d, 0x4e, 0xb4, 0x52, 0x31, 0x46, 0xb3, 0xbf, 0xa4, 0xce]

  /** The start marker is StartTransactionGuid.ToByteArray(), and reads back as that GUID. */
  lemma StartTransactionLayout()
    ensures GuidBytes(StartTransactionGuid) == StartTransactionSeparator
    ensures GuidOf(StartTransactionSeparator) == StartTransactionGuid
  {
    assert LittleEndian(0xb75bfb12, 4) == [0x12, 0xfb, 0x5b, 0xb7];
    assert LittleEndian(0x93bb, 2) == [0xbb, 0x93];
    assert LittleEndian(0x42b6, 2) == [0xb6, 0x42];
    GuidOfBytes(StartTransactionGuid);
  }

  /** The end marker is EndTransactionGuid.ToByteArray(), and reads back as that GUID. */
  lemma EndTransactionLayout()
    ensures GuidBytes(EndTransactionGuid) == EndTransactionSeparator
    ensures GuidOf(EndTransactionSeparator) == EndTransactionGuid
  {
    assert LittleEndian(0x866c9705, 4) == [0x05, 0x97, 0x6c, 0x86];
    assert LittleEndian(0x4456, 2) == [0x56, 0x44];
    assert LittleEndian(0x4e9d, 2) == [0x9d, 0x4e];
    GuidOfBytes(EndTransactionGuid);
  }

  /** Replay can tell "found the other marker" apart only because the markers differ. */
  lemma MarkersDiffer()
    ensures |StartTransactionSeparator| == 16 && |EndTransactionSeparator| == 16
    ensures StartTransactionSeparator != EndTransactionSeparator
    ensures StartTransactionGuid != EndTransactionGuid
  {
    assert StartTransactionSeparator[0] != EndTransactionSeparator[0];
  }

  /** The Marker enum: which transaction marker a check expects. */
  const StartTransaction: int32 := 0
  const EndTransaction: int32 := -1

  datatype MarkerChoice = MarkerChoice(expected: seq<uint8>, other: seq<uint8>, otherMarker: int32)

  /**
   * The marker selection at the top of AssertTransactionSeperator: the
   * expected and the other marker for the two enum values, an
   * InvalidProgramException for any other value.
   */
  function ChooseMarkers(which: int32): (r: Result<MarkerChoice, Error>)
    ensures r.Success? <==> which == StartTransaction || which == EndTransaction
    ensures r.Success? ==> r.value.expected != r.value.other
    ensures which == StartTransaction ==>
      r == Success(MarkerChoice(StartTransactionSeparator, EndTransactionSeparator, EndTransaction))
    ensures which == EndTransaction ==>
      r == Success(MarkerChoice(EndTransactionSeparator, StartTransactionSeparator, StartTransaction))
    ensures r.Failure? ==> r.error == WrongKindOfSeparator(which)
  {
    MarkersDiffer();
    if which == StartTransaction then
      Success(MarkerChoice(StartTransactionSeparator, EndTransactionSeparator, EndTransaction))
    else if which == EndTransaction then
      Success(MarkerChoice(EndTransactionSeparator, StartTransactionSeparator, StartTransaction))
    else
      Failure(WrongKindOfSeparator(which))
  }

  /** 32 MiB: the default maximum data-file size and suggested maximum log size. */
  const ThirtyTwoMegabytes: int := 32 * 1024 * 1024
}
