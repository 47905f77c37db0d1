/**
 * Offset bookkeeping of the model-matrix buffer (ModelMatrixBuffer.js): a
 * GPU buffer of `size` 4x4 float matrices filled by appending. The `gl.*`
 * uploads are left out; the write offset and the returned indices remain.
 */
module ModelMatrixBuffer {
  import opened Wrappers

  /** A buffer with room for `size` matrices and its running write offset. */
  datatype MatrixBuffer = MatrixBuffer(size: nat, offset: int)

  /** Bytes per 32-bit float component. */
  const FloatBytes: nat := 4

  /** Components of one 4x4 matrix. */
  const MatrixFloats: nat := 16

  /** Bytes of one 4x4 float matrix. */
  const MatrixBytes: nat := FloatBytes * MatrixFloats

  /** Result of `addModelMatrix`: the new state and the returned index (`undefined` when refused). */
  datatype AddResult = AddResult(buffer: MatrixBuffer, index: Option<real>)

  /** The constructor: an empty buffer. */
  function Create(size: nat): (b: MatrixBuffer)
    ensures b.offset == 0 && b.size == size
  {
    MatrixBuffer(size, 0)
  }

  /** `byteSize()`: room for `size` matrices of 64 bytes each. */
  function ByteSize(b: MatrixBuffer): (r: nat)
    ensures r == b.size * MatrixBytes
    ensures r % MatrixBytes == 0
  {
    b.size * 4 * 16
  }

  /** `clear()`: the offset goes back to 0; the size is kept. */
  function Clear(b: MatrixBuffer): (r: MatrixBuffer)
    ensures r.offset == 0 && r.size == b.size
  {
    b.(offset := 0)
  }

  /**
   * `setData(data)` with `data.length == len` floats, as written: the offset
   * becomes `len`, a count of floats, whereas every other use treats the
   * offset as bytes.
   */
  function SetData(b: MatrixBuffer, len: nat): (r: MatrixBuffer)
    ensures r.offset == len && r.size == b.size
  {
    b.(offset := len)
  }

  /** `setData` as evidently intended: the offset becomes the data's length in bytes. */
  function SetDataInBytes(b: MatrixBuffer, len: nat): (r: MatrixBuffer)
    ensures r.offset == len * FloatBytes && r.size == b.size
  {
    b.(offset := len * FloatBytes)
  }

  /** `lastIdx()`: the offset in matrices (JavaScript division, so a real). */
  function LastIdx(b: MatrixBuffer): (r: real)
    ensures r * MatrixBytes as real == b.offset as real
  {
    b.offset as real / MatrixBytes as real
  }

  /** The `addModelMatrix` capacity check, as written: refuse when the end would be reached. */
  predicate Refuses(b: MatrixBuffer, len: nat) {
    b.offset + len * FloatBytes >= ByteSize(b)
  }

  /**
   * `addModelMatrix(m)` with `m.length == len` floats, as written: refused
   * (returning `undefined`, no change) when the new end would reach the
   * capacity; otherwise the matrix is written at the offset, which advances
   * by `len * 4` bytes, and `lastIdx() - 1` is returned.
   */
  function AddModelMatrix(b: MatrixBuffer, len: nat): (r: AddResult)
    ensures Refuses(b, len) <==> r.index.None?
    ensures Refuses(b, len) ==> r.buffer == b
    ensures !Refuses(b, len) ==> r.buffer == b.(offset := b.offset + len * FloatBytes)
    ensures !Refuses(b, len) ==> r.buffer.offset < ByteSize(b)
    ensures !Refuses(b, len) ==> r.index == Some(LastIdx(r.buffer) - 1.0)
  {
    if Refuses(b, len) then AddResult(b, None)
    else
      var b' := b.(offset := b.offset + len * FloatBytes);
      AddResult(b', Some(LastIdx(b') - 1.0))
  }

  /** The capacity check as evidently intended (`>` as in the SSBO): an exact fill is allowed. */
  predicate Overflows(b: MatrixBuffer, len: nat) {
    b.offset + len * FloatBytes > ByteSize(b)
  }

  /** `addModelMatrix` with the intended capacity check. */
  function AddModelMatrixChecked(b: MatrixBuffer, len: nat): (r: AddResult)
    ensures Overflows(b, len) <==> r.index.None?
    ensures Overflows(b, len) ==> r.buffer == b
    ensures !Overflows(b, len) ==> r.buffer == b.(offset := b.offset + len * FloatBytes)
    ensures !Overflows(b, len) ==> r.buffer.offset <= ByteSize(b)
    ensures !Overflows(b, len) ==> r.index == Some(LastIdx(r.buffer) - 1.0)
  {
    if Overflows(b, len) then AddResult(b, None)
    else
      var b' := b.(offset := b.offset + len * FloatBytes);
      AddResult(b', Some(LastIdx(b') - 1.0))
  }
}
