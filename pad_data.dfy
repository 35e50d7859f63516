/** Inserting a run of zero bytes after the data section of a code binary,
    so that a later patch has room to grow the section. */
module PadData {

  import opened Bytes

  /** `b'\x00' * n`: a non-positive count gives no bytes. */
  function ZeroRun(n: int): (z: seq<byte>)
    ensures |z| == if n < 0 then 0 else n
    ensures forall i :: 0 <= i < |z| ==> z[i] == 0
  {
    if n <= 0 then [] else ZeroRun(n - 1) + [0]
  }

  /** Where the zeros go: `end = data_offset + data_size`, normalised the
      way Python normalises a slice bound (so an end past the file is the
      file's length and a negative end counts from the back). */
  function InsertionPoint(data: seq<byte>, dataOffset: int, dataSize: int): nat
  {
    PyIndex(dataOffset + dataSize, |data|)
  }

  /** `data[:end] + padding + data[end:]`. The bounds check is commented
      out in the script, so any end is accepted. */
  function PadDataSection(data: seq<byte>, dataOffset: int, dataSize: int, padSize: int): seq<byte>
  {
    var end := dataOffset + dataSize;
    PySlice(data, 0, end) + ZeroRun(padSize) + PySliceFrom(data, end)
  }

  /** The output is the input split at the insertion point with the zero
      run between the halves. */
  lemma PadDataSplit(data: seq<byte>, dataOffset: int, dataSize: int, padSize: int)
    ensures PadDataSection(data, dataOffset, dataSize, padSize)
      == data[..InsertionPoint(data, dataOffset, dataSize)] + ZeroRun(padSize) + data[InsertionPoint(data, dataOffset, dataSize)..]
  {
    var k := InsertionPoint(data, dataOffset, dataSize);
    assert PySlice(data, 0, dataOffset + dataSize) == data[..k];
  }

  /** The file grows by the padding size; the bytes before the insertion
      point are unchanged, the inserted bytes are zero, and the bytes from
      the insertion point on are shifted by the padding size. */
  lemma PadDataSpec(data: seq<byte>, dataOffset: int, dataSize: int, padSize: nat)
    ensures |PadDataSection(data, dataOffset, dataSize, padSize)| == |data| + padSize
    ensures forall i :: 0 <= i < InsertionPoint(data, dataOffset, dataSize) ==>
      PadDataSection(data, dataOffset, dataSize, padSize)[i] == data[i]
    ensures forall i :: InsertionPoint(data, dataOffset, dataSize) <= i < InsertionPoint(data, dataOffset, dataSize) + padSize ==>
      PadDataSection(data, dataOffset, dataSize, padSize)[i] == 0
    ensures forall i :: InsertionPoint(data, dataOffset, dataSize) <= i < |data| ==>
      PadDataSection(data, dataOffset, dataSize, padSize)[i + padSize] == data[i]
  {
    PadDataSplit(data, dataOffset, dataSize, padSize);
  }

  /** Removing the inserted run gives back the original file. */
  lemma PadDataUndone(data: seq<byte>, dataOffset: int, dataSize: int, padSize: nat)
    ensures var k := InsertionPoint(data, dataOffset, dataSize);
      var r := PadDataSection(data, dataOffset, dataSize, padSize);
      k + padSize <= |r| && r[..k] + r[k + padSize..] == data
  {
    var k := InsertionPoint(data, dataOffset, dataSize);
    var r := PadDataSection(data, dataOffset, dataSize, padSize);
    PadDataSplit(data, dataOffset, dataSize, padSize);
    assert r[..k] == data[..k];
    assert r[k + padSize..] == data[k..];
  }

  /** With the bounds check disabled, a section ending past the file puts
      the padding at the end of the file. */
  lemma PadPastEndAppends(data: seq<byte>, dataOffset: int, dataSize: int, padSize: int)
    requires dataOffset + dataSize >= |data|
    ensures PadDataSection(data, dataOffset, dataSize, padSize) == data + ZeroRun(padSize)
  {
    PadDataSplit(data, dataOffset, dataSize, padSize);
    assert data[..|data|] == data;
  }

  /** A non-positive padding size leaves the file as it was. */
  lemma PadNothing(data: seq<byte>, dataOffset: int, dataSize: int, padSize: int)
    requires padSize <= 0
    ensures PadDataSection(data, dataOffset, dataSize, padSize) == data
  {
    PadDataSplit(data, dataOffset, dataSize, padSize);
  }
}
