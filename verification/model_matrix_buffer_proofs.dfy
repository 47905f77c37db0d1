/** Properties of the model-matrix buffer: returned indices, capacity, and the `setData` unit mix-up. */
module ModelMatrixBufferProofs {
  import opened Wrappers
  import opened ModelMatrixBuffer

  function Min(a: int, b: int): int {
    if a <= b then a else b
  }

  /** `count` successive `addModelMatrix` calls with one 16-float matrix each, as written. */
  function AddRepeatedly(b: MatrixBuffer, count: nat): (MatrixBuffer, nat)
    decreases count
  {
    if count == 0 then (b, 0)
    else
      var r := AddModelMatrix(b, MatrixFloats);
      var (b', s) := AddRepeatedly(r.buffer, count - 1);
      (b', s + if r.index.Some? then 1 else 0)
  }

  /** The same with the intended capacity check. */
  function AddRepeatedlyChecked(b: MatrixBuffer, count: nat): (MatrixBuffer, nat)
    decreases count
  {
    if count == 0 then (b, 0)
    else
      var r := AddModelMatrixChecked(b, MatrixFloats);
      var (b', s) := AddRepeatedlyChecked(r.buffer, count - 1);
      (b', s + if r.index.Some? then 1 else 0)
  }

  lemma DivideMultiple(k: int)
    ensures (k * MatrixBytes) as real / MatrixBytes as real == k as real
  {
    assert (k * MatrixBytes) as real == k as real * MatrixBytes as real;
  }

  /**
   * With `k` whole matrices in the buffer, adding a 16-float matrix is
   * accepted exactly when `k + 1 < size` (the check refuses the last slot),
   * and it then returns `k`: the 0-based index of the matrix just added.
   */
  lemma AddReturnsIndexOfNewMatrix(b: MatrixBuffer, k: int)
    requires b.offset == k * MatrixBytes
    ensures var r := AddModelMatrix(b, MatrixFloats);
            && (r.index.Some? <==> k + 1 < b.size)
            && (r.index.Some? ==> r.index == Some(k as real) && r.buffer.offset == (k + 1) * MatrixBytes)
  {
    var r := AddModelMatrix(b, MatrixFloats);
    if r.index.Some? {
      DivideMultiple(k + 1);
    }
  }

  /** The same step with the intended check: accepted exactly when `k + 1 <= size`. */
  lemma AddCheckedReturnsIndexOfNewMatrix(b: MatrixBuffer, k: int)
    requires b.offset == k * MatrixBytes
    ensures var r := AddModelMatrixChecked(b, MatrixFloats);
            && (r.index.Some? <==> k + 1 <= b.size)
            && (r.index.Some? ==> r.index == Some(k as real) && r.buffer.offset == (k + 1) * MatrixBytes)
  {
    var r := AddModelMatrixChecked(b, MatrixFloats);
    if r.index.Some? {
      DivideMultiple(k + 1);
    }
  }

  lemma {:induction false} AddRepeatedlyFrom(b: MatrixBuffer, k: nat, count: nat)
    requires b.offset == k * MatrixBytes
    ensures var (b', s) := AddRepeatedly(b, count);
            && s <= count
            && (s == 0 || k + s < b.size)
            && (s == count || k + s + 1 >= b.size)
            && b' == b.(offset := (k + s) * MatrixBytes)
    decreases count
  {
    if count > 0 {
      AddReturnsIndexOfNewMatrix(b, k);
      var r := AddModelMatrix(b, MatrixFloats);
      var rest := AddRepeatedly(r.buffer, count - 1);
      assert AddRepeatedly(b, count) == (rest.0, rest.1 + if r.index.Some? then 1 else 0);
      if r.index.Some? {
        AddRepeatedlyFrom(r.buffer, k + 1, count - 1);
      } else {
        AddRepeatedlyFrom(b, k, count - 1);
      }
    }
  }

  lemma {:induction false} AddRepeatedlyCheckedFrom(b: MatrixBuffer, k: nat, count: nat)
    requires b.offset == k * MatrixBytes
    ensures var (b', s) := AddRepeatedlyChecked(b, count);
            && s <= count
            && (s == 0 || k + s <= b.size)
            && (s == count || k + s + 1 > b.size)
            && b' == b.(offset := (k + s) * MatrixBytes)
    decreases count
  {
    if count > 0 {
      AddCheckedReturnsIndexOfNewMatrix(b, k);
      var r := AddModelMatrixChecked(b, MatrixFloats);
      var rest := AddRepeatedlyChecked(r.buffer, count - 1);
      assert AddRepeatedlyChecked(b, count) == (rest.0, rest.1 + if r.index.Some? then 1 else 0);
      if r.index.Some? {
        AddRepeatedlyCheckedFrom(r.buffer, k + 1, count - 1);
      } else {
        AddRepeatedlyCheckedFrom(b, k, count - 1);
      }
    }
  }

  /**
   * As written, an empty buffer sized for `size` matrices accepts at most
   * `size - 1` of them: of `count` additions, `min(count, size - 1)` succeed.
   */
  lemma CapacityAsWritten(size: nat, count: nat)
    ensures AddRepeatedly(Create(size), count).1 == if size == 0 then 0 else Min(count, size - 1)
  {
    AddRepeatedlyFrom(Create(size), 0, count);
  }

  /** With the intended check an empty buffer takes exactly `min(count, size)` matrices. */
  lemma CapacityChecked(size: nat, count: nat)
    ensures AddRepeatedlyChecked(Create(size), count).1 == Min(count, size)
  {
    AddRepeatedlyCheckedFrom(Create(size), 0, count);
  }

  /** A buffer sized for one matrix refuses the first matrix as written, and takes it with the intended check. */
  lemma SingleMatrixRefused()
    ensures AddModelMatrix(Create(1), MatrixFloats).index == None
    ensures AddModelMatrixChecked(Create(1), MatrixFloats).index == Some(0.0)
  {
    AddCheckedReturnsIndexOfNewMatrix(Create(1), 0);
  }

  /**
   * As written, after `setData` with one 16-float matrix (64 bytes) the
   * offset is 16 rather than 64: `setData` counts floats while
   * `addModelMatrix` and `lastIdx` count bytes. The next `addModelMatrix`
   * therefore uses byte offset 16 and returns index 0.25 instead of 1.
   */
  lemma SetDataCountsFloats()
    ensures var b := SetData(Create(2), MatrixFloats);
            var r := AddModelMatrix(b, MatrixFloats);
            && b.offset == MatrixFloats && b.offset < MatrixBytes
            && r.buffer.offset == MatrixFloats + MatrixBytes
            && r.index == Some(0.25)
  {
  }

  /**
   * With `setData` counting bytes, loading `k` matrices leaves the offset at
   * `k` whole matrices, and adding one more then returns index `k`, when
   * there is room for it.
   */
  lemma SetDataInBytesThenAddAppends(size: nat, k: nat)
    requires k + 1 < size
    ensures var b := SetDataInBytes(Create(size), k * MatrixFloats);
            var r := AddModelMatrix(b, MatrixFloats);
            && b.offset == k * MatrixFloats * FloatBytes
            && r.index == Some(k as real)
  {
    var b := SetDataInBytes(Create(size), k * MatrixFloats);
    assert b.offset == k * MatrixBytes;
    AddReturnsIndexOfNewMatrix(b, k);
  }
}
