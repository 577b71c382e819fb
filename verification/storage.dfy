/**
 * Data files as byte sequences, with the FileStream behaviour the engine
 * relies on: opening a missing file finds it empty, SetLength truncates or
 * zero-extends, a write past the end fills the gap with zeros, and a read
 * loop raises when the file ends before the buffer is full.
 */
module Storage {
  import opened Bytes
  import opened Wrappers
  import opened Errors

  /** The data files of a queue directory, by file number. */
  type DataFiles = map<int32, seq<uint8>>

  /** A data file as FileMode.OpenOrCreate finds it: a missing file is empty. */
  function FileOf(files: DataFiles, n: int32): (bs: seq<uint8>)
    ensures n !in files ==> bs == []
    ensures n in files ==> bs == files[n]
  {
    if n in files then files[n] else []
  }

  function Zeros(n: nat): (z: seq<uint8>)
    ensures |z| == n
    ensures forall i :: 0 <= i < n ==> z[i] == 0
  {
    seq(n, i => 0)
  }

  function Max(a: int, b: int): int {
    if a < b then b else a
  }

  /** FileStream.SetLength: the file cut to `n` bytes, or grown to `n` with zero bytes. */
  function SetLength(file: seq<uint8>, n: nat): (r: seq<uint8>)
    ensures |r| == n
    ensures forall i :: 0 <= i < n ==> r[i] == if i < |file| then file[i] else 0
  {
    if n <= |file| then file[..n] else file + Zeros(n - |file|)
  }

  /**
   * Writing `data` at position `pos`: the bytes before it stay (a gap past
   * the old end reads as zeros), the data replaces what was there, and the
   * bytes after it stay.
   */
  function WriteAt(file: seq<uint8>, pos: nat, data: seq<uint8>): (r: seq<uint8>)
    ensures |r| == Max(|file|, pos + |data|)
    ensures r[pos..pos + |data|] == data
    ensures forall i :: 0 <= i < |r| && (i < pos || pos + |data| <= i) ==> r[i] == if i < |file| then file[i] else 0
  {
    var before := SetLength(file, Max(|file|, pos))[..pos];
    var after := if pos + |data| < |file| then file[pos + |data|..] else [];
    assert (before + data + after)[pos..pos + |data|] == data;
    before + data + after
  }

  /**
   * The read loop of ReadEntriesFromFile on an open file: `new byte[size]`
   * fails for a negative size, setting a negative Position fails, and the
   * do-while loop raises as soon as a read returns no bytes, which happens
   * at once for an empty buffer and whenever the file ends early.
   */
  function ReadFully(file: seq<uint8>, start: int, size: int): (r: Result<seq<uint8>, Error>)
    ensures r.Success? <==> 0 <= start && 0 < size && start + size <= |file|
    ensures r.Success? ==> r.value == file[start..start + size]
    ensures size < 0 ==> r == Failure(NegativeBufferSize(size))
    ensures 0 <= size && start < 0 ==> r == Failure(NegativePosition(start))
  {
    if size < 0 then Failure(NegativeBufferSize(size))
    else if start < 0 then Failure(NegativePosition(start))
    else if size == 0 || |file| < start + size then Failure(EndOfDataFile)
    else Success(file[start..start + size])
  }

  /** Whatever was written at a position reads back from there. */
  lemma WriteThenRead(file: seq<uint8>, pos: nat, data: seq<uint8>)
    requires data != []
    ensures ReadFully(WriteAt(file, pos, data), pos, |data|) == Success(data)
  {
  }

  /** A write leaves every other range of the file as it was. */
  lemma WriteKeepsOtherRanges(file: seq<uint8>, pos: nat, data: seq<uint8>, start: nat, size: nat)
    requires start + size <= |file|
    requires start + size <= pos || pos + |data| <= start
    ensures WriteAt(file, pos, data)[start..start + size] == file[start..start + size]
  {
    var r := WriteAt(file, pos, data);
    forall i | start <= i < start + size ensures r[i] == file[i] {
    }
  }
}
