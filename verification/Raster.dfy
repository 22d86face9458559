/**
 Strided 32-bit pixel buffers: where a byte of the buffer lies in the picture, and the arithmetic that
 keeps row copies inside it.
 */
module Raster {
  import opened Basics

  const MAX_BYTES: int := 64 * 1024 * 1024

  datatype Buffer = Buffer(
    handle: nat,
    size: Size,
    stride: U32,
    format: U32,
    generation: nat,
    bytes: seq<Byte>)

  /** Converts to `usize`, falling back when the value is negative. */
  function UsizeOr(x: int, fallback: nat): nat {
    if x < 0 then fallback else x
  }

  lemma NextRow(q: int, s: int)
    ensures (q + 1) * s == q * s + s
  {
  }

  /** The last byte of `h` rows of `stride` bytes lies inside them. */
  lemma IndexInside(q: int, m: int, stride: int, h: int)
    requires 0 <= q < h && 0 <= m < stride
    ensures 0 <= q * stride + m < h * stride
  {
    MulMonotone(0, q, stride);
    MulMonotone(q + 1, h, stride);
    NextRow(q, stride);
  }

  lemma DivideByStride(k: int, stride: int)
    requires 0 <= k && 0 < stride
    ensures k == (k / stride) * stride + k % stride && 0 <= k % stride < stride && 0 <= k / stride
  {
  }

  /** A byte lies in columns `[lo, lo + n)` of a row exactly when its index is in that run of bytes. */
  lemma ByteInRow(k: int, stride: int, row: int, lo: int, n: int)
    requires 0 <= k && 0 < stride && 0 <= row && 0 <= lo && 0 <= n && lo + n <= stride
    ensures row * stride + lo <= k < row * stride + lo + n <==> k / stride == row && lo <= k % stride < lo + n
  {
    var q, m := k / stride, k % stride;
    DivideByStride(k, stride);
    if q < row {
      MulMonotone(q + 1, row, stride);
      NextRow(q, stride);
    } else if q > row {
      MulMonotone(row + 1, q, stride);
      NextRow(row, stride);
    }
  }

  lemma RowOfByte(k: int, stride: int, h: int)
    requires 0 <= k < stride * h && 0 < stride
    ensures 0 <= k / stride < h && 0 <= k % stride < stride
    ensures k == (k / stride) * stride + k % stride
  {
    DivideByStride(k, stride);
    var q := k / stride;
    if q >= h {
      MulMonotone(h, q, stride);
    }
  }

  /** Products of a 32-bit stride and a 31-bit row number fit in a 64-bit `usize`. */
  lemma RowOffsetFits(row: int, stride: int)
    requires 0 <= row <= I32_MAX && 0 <= stride <= U32_MAX
    ensures 0 <= row * stride <= 0x7fff_ffff_0000_0000
  {
    MulMonotone(0, row, stride);
    MulMonotone(row, I32_MAX, stride);
  }
}
