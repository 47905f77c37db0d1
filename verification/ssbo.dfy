/**
 * Offset bookkeeping of a shader storage buffer (SSBO.js). The GPU-side
 * contents and every `gl.*` call are left out; what remains is the write
 * offset in bytes and the capacity arithmetic around it.
 */
module Ssbo {

  /**
   * An SSBO of `maxElementCount` elements, each `elementSize` components of
   * `bytesPerComponent` bytes, with the running write offset in bytes.
   */
  datatype Buffer = Buffer(maxElementCount: nat, elementSize: nat, bytesPerComponent: nat, byteOffset: int)

  /** Bytes per element. */
  function ElementBytes(b: Buffer): nat {
    b.elementSize * b.bytesPerComponent
  }

  /** `arrayLength()`: the number of components the buffer holds. */
  function ArrayLength(b: Buffer): (r: nat)
    ensures b.elementSize > 0 ==> r >= b.maxElementCount
  {
    b.maxElementCount * b.elementSize
  }

  /** `byteSize()`: the capacity in bytes; every component takes `bytesPerComponent` bytes. */
  function ByteSize(b: Buffer): (r: nat)
    ensures r == ArrayLength(b) * b.bytesPerComponent
    ensures r == b.maxElementCount * ElementBytes(b)
  {
    b.maxElementCount * b.elementSize * b.bytesPerComponent
  }

  /** The constructor: an empty buffer, write offset 0; components are 32-bit floats unless the caller says otherwise. */
  function Create(maxElementCount: nat, elementSize: nat, bytesPerComponent: nat := 4): (b: Buffer)
    ensures b.byteOffset == 0 && b.byteOffset <= ByteSize(b)
    ensures b.maxElementCount == maxElementCount && b.elementSize == elementSize
    ensures b.bytesPerComponent == bytesPerComponent
  {
    Buffer(maxElementCount, elementSize, bytesPerComponent, 0)
  }

  /** `clear()`: rewinds the offset only; the stale contents stay on the GPU. */
  function Clear(b: Buffer): (r: Buffer)
    ensures r.byteOffset == 0 && r.byteOffset <= ByteSize(r)
    ensures r.(byteOffset := b.byteOffset) == b
  {
    b.(byteOffset := 0)
  }

  /**
   * `setData(data)` with `data.length == len` components: the data is
   * written at byte 0 and the offset becomes its length in bytes. There is
   * no capacity check.
   */
  function SetData(b: Buffer, len: nat): (r: Buffer)
    ensures r.byteOffset == len * b.bytesPerComponent
    ensures r.(byteOffset := b.byteOffset) == b
  {
    b.(byteOffset := len * b.bytesPerComponent)
  }

  /** The offset plus `len` components would run past the end of the buffer. */
  predicate Overflows(b: Buffer, len: nat) {
    b.byteOffset + len * b.bytesPerComponent > ByteSize(b)
  }

  /**
   * `appendData(data)` with `data.length == len` components: refused (no
   * change at all) when it would run past the end; otherwise the data goes
   * at the current offset, which advances by its length in bytes.
   */
  function AppendData(b: Buffer, len: nat): (r: Buffer)
    ensures Overflows(b, len) ==> r == b
    ensures !Overflows(b, len) ==> r.byteOffset == b.byteOffset + len * b.bytesPerComponent
    ensures r.(byteOffset := b.byteOffset) == b
    ensures b.byteOffset <= ByteSize(b) ==> r.byteOffset <= ByteSize(r)
  {
    if Overflows(b, len) then b
    else b.(byteOffset := b.byteOffset + len * b.bytesPerComponent)
  }

  /** `lastIdx()`: index of the last element written (JavaScript division, so a real). */
  function LastIdx(b: Buffer): (r: real)
    requires ElementBytes(b) > 0
    ensures (r + 1.0) * ElementBytes(b) as real == b.byteOffset as real
  {
    b.byteOffset as real / ElementBytes(b) as real - 1.0
  }

  /** `spaceLeft()`, as written: `maxElementCount - lastIdx()`. */
  function SpaceLeft(b: Buffer): (r: real)
    requires ElementBytes(b) > 0
    ensures r == SpaceLeftIntended(b) + 1.0
  {
    b.maxElementCount as real - LastIdx(b)
  }

  /** `spaceLeft()` as evidently intended: capacity minus the elements stored. */
  function SpaceLeftIntended(b: Buffer): (r: real)
    requires ElementBytes(b) > 0
    ensures r * ElementBytes(b) as real == (ByteSize(b) - b.byteOffset) as real
  {
    var e := ElementBytes(b) as real;
    var stored := LastIdx(b) + 1.0;
    assert (b.maxElementCount as real - stored) * e == b.maxElementCount as real * e - stored * e;
    assert (b.maxElementCount * ElementBytes(b)) as real == b.maxElementCount as real * e;
    b.maxElementCount as real - stored
  }
}
