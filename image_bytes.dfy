/** Bytes and the row arithmetic shared by the RGBA8 helpers of src/image.c. */
module ImageBytes {

  /** `uint8_t` */
  newtype byte = x: int | 0 <= x < 0x100

  /** Row `row` of a buffer with `stride` bytes per row starts `row * stride` bytes after
      the first one, and the rows before the last lie before it. */
  lemma RowBefore(row: int, last: int, stride: int)
    requires 0 <= row <= last && 0 <= stride
    ensures 0 <= row * stride <= last * stride
  {
    assert (last - row) * stride >= 0;
  }

  /** Stepping one row forward adds the stride. */
  lemma RowStep(row: int, stride: int)
    ensures (row + 1) * stride == row * stride + stride
  {
  }
}
