/** The raster copies every render entry point ends with: the backend's
    4-byte-per-pixel raster (R, G, B, A, rows `rowLength` bytes apart) is
    copied pixel by pixel, or row by row, into a host buffer whose rows are
    `rowStride` bytes apart. Channels are copied in place, never reordered.

    The width and height of the copied block come from the host (the image
    buffer or the cairo surface); that the backend raster is at least that
    large is an assumption the C code never checks, stated here as the
    `Covers` precondition on the source. */
module Raster {
  import opened Types

  /** Bytes per pixel of the backend raster. */
  const SourceBpp: nat := 4

  /** Offset of byte `j` of row `y` in a buffer whose rows are `stride` bytes apart. */
  function RowOffset(stride: nat, y: nat, j: nat): nat {
    y * stride + j
  }

  /** Offset of channel `c` of pixel (`x`, `y`) when a pixel takes `bpp` bytes. */
  function PixelOffset(stride: nat, bpp: nat, y: nat, x: nat, c: nat): nat {
    RowOffset(stride, y, bpp * x + c)
  }

  /** A buffer of `len` bytes holds `rows` rows spaced `stride` apart, each
      with at least `rowBytes` bytes of pixel data. */
  predicate Covers(len: nat, stride: nat, rowBytes: nat, rows: nat) {
    rowBytes <= stride && rows * stride <= len
  }

  /** An image surface's buffer holds `height` rows of `stride` bytes, each
      with room for `width` pixels of 4 bytes (cairo's ARGB32 layout). */
  predicate SurfaceCovers(s: Surface) {
    Covers(|s.data|, s.stride, SourceBpp * s.width, s.height)
  }

  /** A successful render yields a raster at least `width` x `height`: the
      unchecked assumption the copy loops rest on. */
  predicate RasterCovers(r: Rendering, width: nat, height: nat) {
    Rendered(r) ==> Covers(|r.data.value|, r.rowLength, SourceBpp * width, height)
  }

  /** Byte `i` lies in the first `rowBytes` bytes of one of the first `rows`
      rows: the block a copy of that many rows and bytes may touch. */
  predicate InBlock(i: nat, stride: nat, rowBytes: nat, rows: nat) {
    stride > 0 && i / stride < rows && i % stride < rowBytes
  }

  /** Byte `i` is in the block, or in the first `j` bytes of row `rows`:
      what a row-major copy has reached part way through row `rows`. */
  predicate Reached(i: nat, stride: nat, rowBytes: nat, rows: nat, j: nat) {
    InBlock(i, stride, rowBytes, rows) || (stride > 0 && i / stride == rows && i % stride < j)
  }

  /** Channels 0..bpp-1 of every pixel of the width x height block of `out`
      hold the same channels of the same pixel of `src`. */
  ghost predicate PixelsCopied(out: seq<byte>, src: seq<byte>, rowLength: nat, rowStride: nat,
                               bpp: nat, width: nat, height: nat)
  {
    forall y: nat, x: nat, c: nat :: y < height && x < width && c < bpp ==>
      && PixelOffset(rowStride, bpp, y, x, c) < |out|
      && PixelOffset(rowLength, SourceBpp, y, x, c) < |src|
      && out[PixelOffset(rowStride, bpp, y, x, c)] == src[PixelOffset(rowLength, SourceBpp, y, x, c)]
  }

  /** As `PixelsCopied`, for the rows above `y` and the first `x` pixels of row `y`. */
  ghost predicate PixelsCopiedBefore(out: seq<byte>, src: seq<byte>, rowLength: nat, rowStride: nat,
                                     bpp: nat, width: nat, y: nat, x: nat)
  {
    forall yy: nat, xx: nat, c: nat :: ((yy < y && xx < width) || (yy == y && xx < x)) && c < bpp ==>
      && PixelOffset(rowStride, bpp, yy, xx, c) < |out|
      && PixelOffset(rowLength, SourceBpp, yy, xx, c) < |src|
      && out[PixelOffset(rowStride, bpp, yy, xx, c)] == src[PixelOffset(rowLength, SourceBpp, yy, xx, c)]
  }

  /** The first `rowBytes` bytes of each of the first `height` rows of `out`
      equal the same bytes of the same row of `src`. */
  ghost predicate RowsCopied(out: seq<byte>, src: seq<byte>, rowLength: nat, rowStride: nat,
                             rowBytes: nat, height: nat)
  {
    forall y: nat, j: nat :: y < height && j < rowBytes ==>
      && RowOffset(rowStride, y, j) < |out|
      && RowOffset(rowLength, y, j) < |src|
      && out[RowOffset(rowStride, y, j)] == src[RowOffset(rowLength, y, j)]
  }

  /** `out` has the length of `before` and agrees with it on every byte that
      is not in the block: row padding and the rows below are left alone. */
  ghost predicate UnchangedOutside(out: seq<byte>, before: seq<byte>, stride: nat, rowBytes: nat, rows: nat) {
    && |out| == |before|
    && forall i: nat :: i < |out| && !InBlock(i, stride, rowBytes, rows) ==> out[i] == before[i]
  }

  /** As `UnchangedOutside`, for the bytes a row-major copy has not reached. */
  ghost predicate UnchangedUnreached(out: seq<byte>, before: seq<byte>, stride: nat, rowBytes: nat,
                                     rows: nat, j: nat)
  {
    && |out| == |before|
    && forall i: nat :: i < |out| && !Reached(i, stride, rowBytes, rows, j) ==> out[i] == before[i]
  }

  /** Two rasters agree on channels 0..bpp-1 of every pixel of the block; the
      other bytes (alpha when bpp is 3, row padding, rows below) may differ. */
  ghost predicate SameChannels(src1: seq<byte>, src2: seq<byte>, rowLength: nat, bpp: nat, width: nat, height: nat) {
    forall y: nat, x: nat, c: nat ::
      && y < height && x < width && c < bpp
      && PixelOffset(rowLength, SourceBpp, y, x, c) < |src1|
      && PixelOffset(rowLength, SourceBpp, y, x, c) < |src2|
      ==> src1[PixelOffset(rowLength, SourceBpp, y, x, c)] == src2[PixelOffset(rowLength, SourceBpp, y, x, c)]
  }

  /** A later row starts at or after the end of an earlier one. */
  lemma {:induction false} RowsAreOrdered(stride: nat, y1: nat, y2: nat)
    requires y1 < y2
    ensures y1 * stride + stride <= y2 * stride
    decreases y2 - y1
  {
    if y1 + 1 < y2 {
      RowsAreOrdered(stride, y1, y2 - 1);
    }
    assert y2 * stride == (y2 - 1) * stride + stride;
  }

  /** Offsets grow with the row and, within a row, with the byte. */
  lemma OffsetOrder(stride: nat, y1: nat, j1: nat, y2: nat, j2: nat)
    requires j1 < stride
    requires y1 < y2 || (y1 == y2 && j1 < j2)
    ensures RowOffset(stride, y1, j1) < RowOffset(stride, y2, j2)
  {
    if y1 < y2 {
      RowsAreOrdered(stride, y1, y2);
    }
  }

  /** Row `y` ends inside a buffer that covers `rows` rows. */
  lemma RowFits(stride: nat, rows: nat, len: nat, y: nat)
    requires y < rows && rows * stride <= len
    ensures y * stride + stride <= len
  {
    RowsAreOrdered(stride, y, rows);
  }

  /** An offset in row `y` divides back into its row and its byte. */
  lemma RowDecomposition(stride: nat, y: nat, j: nat)
    requires j < stride
    ensures RowOffset(stride, y, j) / stride == y
    ensures RowOffset(stride, y, j) % stride == j
  {
    var n := RowOffset(stride, y, j);
    var q, r := n / stride, n % stride;
    assert n == q * stride + r;
    if q < y {
      OffsetOrder(stride, q, r, y, j);
      assert false;
    }
    if q > y {
      OffsetOrder(stride, y, j, q, r);
      assert false;
    }
  }

  /** Euclidean division of an offset by a positive stride. */
  lemma Euclid(n: nat, d: nat)
    requires d > 0
    ensures n == RowOffset(d, n / d, n % d)
  {
  }

  /** A byte within the first `bpp * width` bytes of a row belongs to one pixel and channel. */
  lemma PixelOfRowByte(j: nat, bpp: nat, width: nat) returns (x: nat, c: nat)
    requires bpp == 3 || bpp == 4
    requires j < bpp * width
    ensures x < width && c < bpp && j == bpp * x + c
  {
    if bpp == 3 {
      x, c := j / 3, j % 3;
    } else {
      x, c := j / 4, j % 4;
    }
  }

  /** Every byte of the block belongs to exactly one pixel and channel. */
  lemma BlockCoordinates(i: nat, stride: nat, bpp: nat, width: nat, rows: nat) returns (y: nat, x: nat, c: nat)
    requires bpp == 3 || bpp == 4
    requires InBlock(i, stride, bpp * width, rows)
    ensures y < rows && x < width && c < bpp
    ensures i == PixelOffset(stride, bpp, y, x, c)
  {
    y := i / stride;
    Euclid(i, stride);
    x, c := PixelOfRowByte(i % stride, bpp, width);
  }

  /** The RGB copy of `ps_page_render`: three bytes per target pixel,
      channel c of the target pixel taken from channel c of the source
      pixel, the source's fourth (alpha) byte never read. */
  method CopyRgb(src: seq<byte>, rowLength: nat, target: seq<byte>, rowStride: nat, width: nat, height: nat)
    returns (out: seq<byte>)
    requires Covers(|src|, rowLength, SourceBpp * width, height)
    requires Covers(|target|, rowStride, 3 * width, height)
    ensures PixelsCopied(out, src, rowLength, rowStride, 3, width, height)
    ensures UnchangedOutside(out, target, rowStride, 3 * width, height)
  {
    out := target;
    for y := 0 to height
      invariant PixelsCopiedBefore(out, src, rowLength, rowStride, 3, width, y, 0)
      invariant UnchangedUnreached(out, target, rowStride, 3 * width, y, 0)
    {
      RowFits(rowStride, height, |target|, y);
      RowFits(rowLength, height, |src|, y);
      for x := 0 to width
        invariant PixelsCopiedBefore(out, src, rowLength, rowStride, 3, width, y, x)
        invariant UnchangedUnreached(out, target, rowStride, 3 * width, y, 3 * x)
      {
        var p := PixelOffset(rowStride, 3, y, x, 0);
        var s := PixelOffset(rowLength, SourceBpp, y, x, 0);
        ghost var before := out;
        out := out[p := src[s]][p + 1 := src[s + 1]][p + 2 := src[s + 2]];
        RowDecomposition(rowStride, y, 3 * x);
        RowDecomposition(rowStride, y, 3 * x + 1);
        RowDecomposition(rowStride, y, 3 * x + 2);
        forall yy: nat, xx: nat, c: nat | ((yy < y && xx < width) || (yy == y && xx < x)) && c < 3
          ensures PixelOffset(rowStride, 3, yy, xx, c) < p
        {
          OffsetOrder(rowStride, yy, 3 * xx + c, y, 3 * x);
        }
      }
    }
  }

  /** The RGBA copy of `ps_page_render_cairo`: all four bytes of every
      pixel, alpha included, copied verbatim. */
  method CopyRgba(src: seq<byte>, rowLength: nat, target: seq<byte>, rowStride: nat, width: nat, height: nat)
    returns (out: seq<byte>)
    requires Covers(|src|, rowLength, SourceBpp * width, height)
    requires Covers(|target|, rowStride, 4 * width, height)
    ensures PixelsCopied(out, src, rowLength, rowStride, 4, width, height)
    ensures UnchangedOutside(out, target, rowStride, 4 * width, height)
  {
    out := target;
    for y := 0 to height
      invariant PixelsCopiedBefore(out, src, rowLength, rowStride, 4, width, y, 0)
      invariant UnchangedUnreached(out, target, rowStride, 4 * width, y, 0)
    {
      RowFits(rowStride, height, |target|, y);
      RowFits(rowLength, height, |src|, y);
      for x := 0 to width
        invariant PixelsCopiedBefore(out, src, rowLength, rowStride, 4, width, y, x)
        invariant UnchangedUnreached(out, target, rowStride, 4 * width, y, 4 * x)
      {
        var p := PixelOffset(rowStride, 4, y, x, 0);
        var s := PixelOffset(rowLength, SourceBpp, y, x, 0);
        out := out[p := src[s]][p + 1 := src[s + 1]][p + 2 := src[s + 2]][p + 3 := src[s + 3]];
        RowDecomposition(rowStride, y, 4 * x);
        RowDecomposition(rowStride, y, 4 * x + 1);
        RowDecomposition(rowStride, y, 4 * x + 2);
        RowDecomposition(rowStride, y, 4 * x + 3);
        forall yy: nat, xx: nat, c: nat | ((yy < y && xx < width) || (yy == y && xx < x)) && c < 4
          ensures PixelOffset(rowStride, 4, yy, xx, c) < p
        {
          OffsetOrder(rowStride, yy, 4 * xx + c, y, 4 * x);
        }
      }
    }
  }

  /** `memcpy(dest + d, src + s, n)`: the n bytes at `d` become the n bytes
      at `s` of `src`; every other byte of `dest` is kept. */
  function MemCopy(dest: seq<byte>, d: nat, src: seq<byte>, s: nat, n: nat): (r: seq<byte>)
    requires d + n <= |dest| && s + n <= |src|
    ensures |r| == |dest|
    ensures forall i :: d <= i < d + n ==> r[i] == src[s + (i - d)]
    ensures forall i :: 0 <= i < |dest| && !(d <= i < d + n) ==> r[i] == dest[i]
  {
    dest[..d] + src[s..s + n] + dest[d + n..]
  }

  /** The row copy of the current `ps_page_render_cairo`: one `memcpy` of
      `4 * width` bytes per row, from row y of the raster to row y of the
      surface. */
  method CopyRows(src: seq<byte>, rowLength: nat, target: seq<byte>, rowStride: nat, width: nat, height: nat)
    returns (out: seq<byte>)
    requires Covers(|src|, rowLength, SourceBpp * width, height)
    requires Covers(|target|, rowStride, SourceBpp * width, height)
    ensures RowsCopied(out, src, rowLength, rowStride, SourceBpp * width, height)
    ensures UnchangedOutside(out, target, rowStride, SourceBpp * width, height)
  {
    var n := SourceBpp * width;
    out := target;
    for y := 0 to height
      invariant RowsCopied(out, src, rowLength, rowStride, n, y)
      invariant UnchangedOutside(out, target, rowStride, n, y)
    {
      RowFits(rowStride, height, |target|, y);
      RowFits(rowLength, height, |src|, y);
      var d := RowOffset(rowStride, y, 0);
      out := MemCopy(out, d, src, RowOffset(rowLength, y, 0), n);
      forall yy: nat, j: nat | yy < y && j < n
        ensures RowOffset(rowStride, yy, j) < d
      {
        OffsetOrder(rowStride, yy, j, y, 0);
      }
      var rows := y + 1;
      forall i: nat | d <= i < d + n
        ensures InBlock(i, rowStride, n, rows)
      {
        RowDecomposition(rowStride, y, i - d);
      }
    }
  }

  /** The bytes of a copy are fixed by the bytes it reads: two copies of
      the same geometry into the same target, from rasters that agree on
      channels 0..bpp-1 of every pixel, leave byte-identical buffers. With
      equal rasters this is determinism; with bpp = 3 it says the RGB copy
      never lets alpha or row padding of the raster reach the target. */
  lemma CopyIsDetermined(out1: seq<byte>, out2: seq<byte>, target: seq<byte>, src1: seq<byte>, src2: seq<byte>,
                         rowLength: nat, rowStride: nat, bpp: nat, width: nat, height: nat)
    requires bpp == 3 || bpp == 4
    requires PixelsCopied(out1, src1, rowLength, rowStride, bpp, width, height)
    requires PixelsCopied(out2, src2, rowLength, rowStride, bpp, width, height)
    requires UnchangedOutside(out1, target, rowStride, bpp * width, height)
    requires UnchangedOutside(out2, target, rowStride, bpp * width, height)
    requires SameChannels(src1, src2, rowLength, bpp, width, height)
    ensures out1 == out2
  {
    forall i: nat | i < |out1|
      ensures out1[i] == out2[i]
    {
      if InBlock(i, rowStride, bpp * width, height) {
        var y, x, c := BlockCoordinates(i, rowStride, bpp, width, height);
        assert out1[PixelOffset(rowStride, bpp, y, x, c)] == src1[PixelOffset(rowLength, SourceBpp, y, x, c)];
        assert out2[PixelOffset(rowStride, bpp, y, x, c)] == src2[PixelOffset(rowLength, SourceBpp, y, x, c)];
      }
    }
  }

  /** A row copy of `4 * width` bytes is a per-pixel RGBA copy, and back. */
  lemma RowsCopiedIffPixelsCopied(out: seq<byte>, src: seq<byte>, rowLength: nat, rowStride: nat,
                                  width: nat, height: nat)
    ensures RowsCopied(out, src, rowLength, rowStride, SourceBpp * width, height)
        <==> PixelsCopied(out, src, rowLength, rowStride, SourceBpp, width, height)
  {
    if RowsCopied(out, src, rowLength, rowStride, SourceBpp * width, height) {
      forall y: nat, x: nat, c: nat | y < height && x < width && c < SourceBpp
        ensures PixelOffset(rowStride, SourceBpp, y, x, c) < |out|
        ensures PixelOffset(rowLength, SourceBpp, y, x, c) < |src|
        ensures out[PixelOffset(rowStride, SourceBpp, y, x, c)] == src[PixelOffset(rowLength, SourceBpp, y, x, c)]
      {
        assert 4 * x + c < SourceBpp * width;
        assert RowOffset(rowStride, y, 4 * x + c) < |out|;
      }
    }
    if PixelsCopied(out, src, rowLength, rowStride, SourceBpp, width, height) {
      forall y: nat, j: nat | y < height && j < SourceBpp * width
        ensures RowOffset(rowStride, y, j) < |out|
        ensures RowOffset(rowLength, y, j) < |src|
        ensures out[RowOffset(rowStride, y, j)] == src[RowOffset(rowLength, y, j)]
      {
        var x, c := PixelOfRowByte(j, SourceBpp, width);
        assert PixelOffset(rowStride, SourceBpp, y, x, c) < |out|;
      }
    }
  }

  /** The row-wise `memcpy` loop and the per-pixel RGBA loop, run on the
      same raster and surface, leave the same bytes. */
  lemma RowCopyMatchesPixelCopy(rowOut: seq<byte>, pixelOut: seq<byte>, target: seq<byte>, src: seq<byte>,
                                rowLength: nat, rowStride: nat, width: nat, height: nat)
    requires RowsCopied(rowOut, src, rowLength, rowStride, SourceBpp * width, height)
    requires UnchangedOutside(rowOut, target, rowStride, SourceBpp * width, height)
    requires PixelsCopied(pixelOut, src, rowLength, rowStride, SourceBpp, width, height)
    requires UnchangedOutside(pixelOut, target, rowStride, SourceBpp * width, height)
    ensures rowOut == pixelOut
  {
    RowsCopiedIffPixelsCopied(rowOut, src, rowLength, rowStride, width, height);
    CopyIsDetermined(rowOut, pixelOut, target, src, src, rowLength, rowStride, SourceBpp, width, height);
  }

  /** A copy of zero rows or zero columns leaves the target as it was. */
  lemma EmptyCopyIsNoOp(out: seq<byte>, target: seq<byte>, rowStride: nat, rowBytes: nat, height: nat)
    requires rowBytes == 0 || height == 0
    requires UnchangedOutside(out, target, rowStride, rowBytes, height)
    ensures out == target
  {
    assert forall i: nat | i < |out| :: !InBlock(i, rowStride, rowBytes, height);
    assert forall i :: 0 <= i < |out| ==> out[i] == target[i];
  }
}
