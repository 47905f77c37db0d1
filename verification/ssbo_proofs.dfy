/** Properties of the SSBO offset bookkeeping. */
module SsboProofs {
  import opened Ssbo

  /** Applies `appendData` for each component count in `lens`, in order. */
  function AppendAll(b: Buffer, lens: seq<nat>): Buffer
    decreases |lens|
  {
    if |lens| == 0 then b else AppendAll(AppendData(b, lens[0]), lens[1..])
  }

  /** An append that exactly fills the buffer is accepted. */
  lemma AppendExactFillAccepted(b: Buffer, len: nat)
    requires b.byteOffset + len * b.bytesPerComponent == ByteSize(b)
    ensures AppendData(b, len).byteOffset == ByteSize(b)
  {
  }

  /**
   * Starting within bounds, no sequence of appends moves the offset past
   * the end or backwards, and none changes the buffer's layout.
   */
  lemma {:induction false} AppendsStayInBounds(b: Buffer, lens: seq<nat>)
    requires 0 <= b.byteOffset <= ByteSize(b)
    ensures var r := AppendAll(b, lens);
            && b.byteOffset <= r.byteOffset <= ByteSize(b)
            && r.(byteOffset := b.byteOffset) == b
    decreases |lens|
  {
    if |lens| > 0 {
      AppendsStayInBounds(AppendData(b, lens[0]), lens[1..]);
    }
  }

  lemma DivideMultiple(k: int, d: nat)
    requires d > 0
    ensures (k * d) as real / d as real == k as real
  {
    assert (k * d) as real == k as real * d as real;
  }

  /** With `k` whole elements written, `lastIdx()` is `k - 1`; after `clear()` it is `-1`. */
  lemma LastIdxOfWholeElements(b: Buffer, k: int)
    requires ElementBytes(b) > 0
    requires b.byteOffset == k * ElementBytes(b)
    ensures LastIdx(b) == (k - 1) as real
    ensures LastIdx(Clear(b)) == -1.0
  {
    DivideMultiple(k, ElementBytes(b));
    DivideMultiple(0, ElementBytes(b));
  }

  lemma MulAssoc(a: int, b: int, c: int)
    ensures a * b * c == a * (b * c)
  {
  }

  lemma MulCancel(a: int, b: int, d: nat)
    requires d > 0
    ensures a * d <= b * d <==> a <= b
  {
    if a <= b {
      MulNonNegative(b - a, d);
      assert b * d - a * d == (b - a) * d;
    } else {
      MulNonNegative(a - b - 1, d);
      assert a * d - b * d == (a - b - 1) * d + d;
    }
  }

  lemma MulNonNegative(x: nat, d: nat)
    ensures x * d >= 0
  {
  }

  /**
   * Appending `e` whole elements to a buffer holding `k` whole elements is
   * accepted exactly when `k + e <= maxElementCount`, and then `lastIdx()`
   * moves forward by `e`.
   */
  lemma AppendWholeElements(b: Buffer, k: int, e: nat)
    requires ElementBytes(b) > 0
    requires b.byteOffset == k * ElementBytes(b)
    ensures !Overflows(b, e * b.elementSize) <==> k + e <= b.maxElementCount
    ensures !Overflows(b, e * b.elementSize) ==>
              LastIdx(AppendData(b, e * b.elementSize)) == LastIdx(b) + e as real
  {
    var eb := ElementBytes(b);
    MulAssoc(e, b.elementSize, b.bytesPerComponent);
    assert b.byteOffset + e * b.elementSize * b.bytesPerComponent == (k + e) * eb;
    MulCancel(k + e, b.maxElementCount, eb);
    LastIdxOfWholeElements(b, k);
    if !Overflows(b, e * b.elementSize) {
      LastIdxOfWholeElements(AppendData(b, e * b.elementSize), k + e);
    }
  }

  /**
   * `spaceLeft()` as written is one more than the room left: on an empty
   * buffer with room for one element it reports 2, yet a second
   * single-element append is refused.
   */
  lemma SpaceLeftOverstatesRoom()
    ensures var b := Clear(Create(1, 1));
            && SpaceLeft(b) == 2.0
            && !Overflows(b, 1)
            && Overflows(AppendData(b, 1), 1)
  {
    var b := Clear(Create(1, 1));
    LastIdxOfWholeElements(b, 0);
  }

  /**
   * The intended `spaceLeft()` is exactly the room left: with `k` whole
   * elements stored, `e` more whole elements can be appended if and only if
   * `e <= spaceLeft`.
   */
  lemma SpaceLeftIntendedIsRoom(b: Buffer, k: int, e: nat)
    requires ElementBytes(b) > 0
    requires b.byteOffset == k * ElementBytes(b)
    ensures SpaceLeftIntended(b) == (b.maxElementCount - k) as real
    ensures !Overflows(b, e * b.elementSize) <==> e as real <= SpaceLeftIntended(b)
  {
    LastIdxOfWholeElements(b, k);
    AppendWholeElements(b, k, e);
  }
}
