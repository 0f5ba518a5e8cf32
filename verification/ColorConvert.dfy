/**
 The two colour converters of libcolor: a crop of an NV12 frame to planar I420,
 and a planar I420 image into an NV12 frame. Both are specified, for every
 parity of every dimension, by the exact sequence of byte writes they make;
 ColorTheorems derives what those writes mean pixel by pixel.
 */
module ColorConvert {

  import opened CTypes

  datatype Rect = Rect(left: int, top: int, right: int, bottom: int) {
    function Width(): int { right - left + 1 }
    function Height(): int { bottom - top + 1 }
  }

  // ----- reading and writing flat buffers -----

  /**
   Offset of a row, and the size of the rows before it: the stride added once per
   row, as the moving pointers add it. It is row * stride (RowStartIsProduct).
   */
  function RowStart(stride: int, row: int): int
    decreases if row < 0 then 0 else row
  {
    if row <= 0 then 0 else RowStart(stride, row - 1) + stride
  }

  /** Offset of the byte at (row, col) of a plane that starts at `base`. */
  function Cell(base: int, stride: int, row: int, col: int): int {
    base + RowStart(stride, row) + col
  }

  /** The offset of a row is the product of row and stride. */
  lemma {:induction false} RowStartIsProduct(stride: int, row: nat)
    ensures RowStart(stride, row) == row * stride
  {
    if row > 0 {
      RowStartIsProduct(stride, row - 1);
    }
  }

  lemma {:induction false} RowStartAdds(stride: int, a: nat, b: nat)
    ensures RowStart(stride, a + b) == RowStart(stride, a) + RowStart(stride, b)
  {
    if b > 0 {
      RowStartAdds(stride, a, b - 1);
    }
  }

  lemma {:induction false} RowStartMono(stride: int, a: int, b: int)
    requires 0 <= a <= b && 0 <= stride
    ensures 0 <= RowStart(stride, a) <= RowStart(stride, b)
    decreases b
  {
    if a < b {
      RowStartMono(stride, a, b - 1);
    } else if a > 0 {
      RowStartMono(stride, a - 1, b - 1);
    }
  }

  lemma {:induction false} WiderRows(a: int, b: int, rows: nat)
    requires a <= b
    ensures RowStart(a, rows) <= RowStart(b, rows)
  {
    if rows > 0 {
      WiderRows(a, b, rows - 1);
    }
  }

  /** An even area is four times the area of a chroma plane. */
  lemma {:induction false} QuarterPlane(a: int, b: nat)
    ensures RowStart(2 * a, 2 * b) == 4 * RowStart(a, b) && RowStart(a, 2 * b) == 2 * RowStart(a, b)
  {
    if b > 0 {
      QuarterPlane(a, b - 1);
      assert RowStart(2 * a, 2 * b - 1) == RowStart(2 * a, 2 * (b - 1)) + 2 * a;
      assert RowStart(a, 2 * b - 1) == RowStart(a, 2 * (b - 1)) + a;
    }
  }

  /** A row that starts before another ends before it, too. */
  lemma RowBefore(stride: int, row: int, later: int, col: int)
    requires 0 <= col < stride && 0 <= row < later
    ensures 0 <= RowStart(stride, row) && RowStart(stride, row) + col < RowStart(stride, later)
  {
    RowStartMono(stride, row + 1, later);
    RowStartMono(stride, row, row);
  }

  function At(s: seq<byte>, i: int): byte {
    if 0 <= i < |s| then s[i] else 0
  }

  function Put(d: seq<byte>, i: int, v: byte): (r: seq<byte>)
    ensures |r| == |d|
  {
    if 0 <= i < |d| then d[i := v] else d
  }

  /** `memcpy(d + at, s + from, n)` */
  function CopyRun(d: seq<byte>, at: int, s: seq<byte>, from: int, n: int): (r: seq<byte>)
    ensures |r| == |d|
    ensures forall k :: 0 <= k < |d| ==> r[k] == if at <= k < at + n then At(s, from + k - at) else d[k]
  {
    seq(|d|, k requires 0 <= k < |d| => if at <= k < at + n then At(s, from + k - at) else d[k])
  }

  /** `n` row copies, both pointers advancing by their own stride. */
  function CopyRows(d: seq<byte>, at: int, dStride: int,
                    s: seq<byte>, from: int, sStride: int, width: int, n: nat): (r: seq<byte>)
    ensures |r| == |d|
  {
    if n == 0 then d
    else CopyRun(CopyRows(d, at, dStride, s, from, sStride, width, n - 1),
                 Cell(at, dStride, n - 1, 0), s, Cell(from, sStride, n - 1, 0), width)
  }

  /** Interleaved chroma to two planes: one row, one sample after the other. */
  function SplitRow(d: seq<byte>, u: int, v: int, s: seq<byte>, from: int, n: nat): (r: seq<byte>)
    ensures |r| == |d|
  {
    if n == 0 then d
    else
      var before := SplitRow(d, u, v, s, from, n - 1);
      Put(Put(before, u + n - 1, At(s, from + 2 * (n - 1))), v + n - 1, At(s, from + 2 * (n - 1) + 1))
  }

  function SplitRows(d: seq<byte>, u: int, v: int, stride: int,
                     s: seq<byte>, from: int, sStride: int, cols: nat, n: nat): (r: seq<byte>)
    ensures |r| == |d|
  {
    if n == 0 then d
    else SplitRow(SplitRows(d, u, v, stride, s, from, sStride, cols, n - 1),
                  Cell(u, stride, n - 1, 0), Cell(v, stride, n - 1, 0), s, Cell(from, sStride, n - 1, 0), cols)
  }

  /** Two chroma planes to interleaved chroma: one row, one sample after the other. */
  function MergeRow(d: seq<byte>, at: int, s: seq<byte>, u: int, v: int, n: nat): (r: seq<byte>)
    ensures |r| == |d|
  {
    if n == 0 then d
    else
      var before := MergeRow(d, at, s, u, v, n - 1);
      Put(Put(before, at + 2 * (n - 1), At(s, u + n - 1)), at + 2 * (n - 1) + 1, At(s, v + n - 1))
  }

  function MergeRows(d: seq<byte>, at: int, dStride: int,
                     s: seq<byte>, u: int, v: int, sStride: int, cols: nat, n: nat): (r: seq<byte>)
    ensures |r| == |d|
  {
    if n == 0 then d
    else MergeRow(MergeRows(d, at, dStride, s, u, v, sStride, cols, n - 1),
                  Cell(at, dStride, n - 1, 0), s, Cell(u, sStride, n - 1, 0), Cell(v, sStride, n - 1, 0), cols)
  }

  lemma SplitRowsStep(d: seq<byte>, u: int, v: int, stride: int,
                      s: seq<byte>, from: int, sStride: int, cols: nat, n: nat)
    ensures SplitRows(d, u, v, stride, s, from, sStride, cols, n + 1)
         == SplitRow(SplitRows(d, u, v, stride, s, from, sStride, cols, n),
                     Cell(u, stride, n, 0), Cell(v, stride, n, 0), s, Cell(from, sStride, n, 0), cols)
  {
  }

  lemma MergeRowsStep(d: seq<byte>, at: int, dStride: int,
                      s: seq<byte>, u: int, v: int, sStride: int, cols: nat, n: nat)
    ensures MergeRows(d, at, dStride, s, u, v, sStride, cols, n + 1)
         == MergeRow(MergeRows(d, at, dStride, s, u, v, sStride, cols, n),
                     Cell(at, dStride, n, 0), s, Cell(u, sStride, n, 0), Cell(v, sStride, n, 0), cols)
  {
  }

  // ----- the converters as functions of the two buffers -----

  ghost predicate InFrame(frameW: int, frameH: int, r: Rect) {
    0 <= r.left <= r.right < frameW && 0 <= r.top <= r.bottom < frameH
  }

  /** Where the decoder starts reading luma and chroma, and where it puts U and V. */
  function LumaStart(frameW: int, r: Rect): int { RowStart(frameW, r.top) + r.left }

  function ChromaStart(frameW: int, frameH: int, r: Rect): int {
    LumaStart(frameW, r) + RowStart(frameW, frameH - r.top / 2)
  }

  function UStart(w: int, h: int): int { RowStart(w, h) }

  function VStart(w: int, h: int): int { RowStart(w, h) + RowStart(w / 2, h) / 2 }

  /** Bytes of a w x h picture with its chroma, `w * h * 3 / 2`. */
  function ImageSize(w: int, h: int): int { RowStart(w, h) * 3 / 2 }

  /** Luma rows, then chroma rows, of a w x h crop that starts at `y0` and `uv0` in the frame. */
  function Planes(s: seq<byte>, frameW: int, y0: int, uv0: int, w: int, h: int, d: seq<byte>): (out: seq<byte>)
    requires 0 <= w && 0 <= h
    ensures |out| == |d|
  {
    SplitRows(CopyRows(d, 0, w, s, y0, frameW, w, h),
              UStart(w, h), VStart(w, h), w / 2, s, uv0, frameW, (w + 1) / 2, (h + 1) / 2)
  }

  function Decoded(s: seq<byte>, frameW: int, frameH: int, r: Rect, d: seq<byte>): (out: seq<byte>)
    requires InFrame(frameW, frameH, r)
    ensures |out| == |d|
  {
    Planes(s, frameW, LumaStart(frameW, r), ChromaStart(frameW, frameH, r), r.Width(), r.Height(), d)
  }

  function Encoded(s: seq<byte>, w: nat, h: nat, frameW: int, frameH: int, d: seq<byte>): (out: seq<byte>)
    ensures |out| == |d|
  {
    MergeRows(CopyRows(d, 0, frameW, s, 0, w, w, h),
              RowStart(frameW, frameH), frameW,
              s, RowStart(w, h), RowStart(w, h) + RowStart(w / 2, h / 2), w / 2, w / 2, h / 2)
  }

  /** The decoder's last chroma read lies inside the frame's memory. */
  ghost predicate ReadsFit(length: int, frameW: int, frameH: int, r: Rect) {
    var w, h := r.Width(), r.Height();
    && RowStart(frameW, frameH) <= length
    && Cell(ChromaStart(frameW, frameH, r), frameW, (h + 1) / 2 - 1, 2 * ((w + 1) / 2)) <= length
  }

  /** The decoder's last write of V lies inside the destination's memory. */
  ghost predicate WritesFit(length: int, w: int, h: int) {
    Cell(VStart(w, h), w / 2, (h + 1) / 2 - 1, (w + 1) / 2) <= length
  }

  // ----- the C functions -----

  method Memcpy(dst: array<byte>, at: int, src: array<byte>, from: int, n: int)
    requires src != dst
    requires 0 <= n && 0 <= at && at + n <= dst.Length && 0 <= from && from + n <= src.Length
    modifies dst
    ensures dst[..] == CopyRun(old(dst[..]), at, src[..], from, n)
  {
    forall k | 0 <= k < n {
      dst[at + k] := src[from + k];
    }
  }

  /** The decoder's inner loop. */
  method SplitChromaRow(src: array<byte>, pSrcUv: int, n: nat, dst: array<byte>, pDstU: int, pDstV: int)
    requires src != dst
    requires 0 <= pSrcUv && pSrcUv + 2 * n <= src.Length
    requires 0 <= pDstU && 0 <= pDstV && pDstU + n <= dst.Length && pDstV + n <= dst.Length
    modifies dst
    ensures dst[..] == SplitRow(old(dst[..]), pDstU, pDstV, src[..], pSrcUv, n)
  {
    for x := 0 to n
      invariant dst[..] == SplitRow(old(dst[..]), pDstU, pDstV, src[..], pSrcUv, x)
    {
      dst[pDstU + x] := src[pSrcUv + 2 * x];
      dst[pDstV + x] := src[pSrcUv + 2 * x + 1];
    }
  }

  /** The encoder's inner loop. */
  method MergeChromaRow(src: array<byte>, pSrcU: int, pSrcV: int, n: nat, dst: array<byte>, pDstUv: int)
    requires src != dst
    requires 0 <= pSrcU && 0 <= pSrcV && pSrcU + n <= src.Length && pSrcV + n <= src.Length
    requires 0 <= pDstUv && pDstUv + 2 * n <= dst.Length
    modifies dst
    ensures dst[..] == MergeRow(old(dst[..]), pDstUv, src[..], pSrcU, pSrcV, n)
  {
    var k := 0;
    for j := 0 to n
      invariant k == 2 * j
      invariant dst[..] == MergeRow(old(dst[..]), pDstUv, src[..], pSrcU, pSrcV, j)
    {
      dst[pDstUv + k] := src[pSrcU + j];
      dst[pDstUv + k + 1] := src[pSrcV + j];
      k := k + 2;
    }
  }

  /** Rows of `width` bytes starting at `base` all lie in a buffer of `length` bytes. */
  ghost predicate RowsFit(length: int, base: int, stride: int, width: int, rows: nat) {
    forall row :: 0 <= row < rows ==> 0 <= Cell(base, stride, row, 0) && Cell(base, stride, row, width) <= length
  }

  /** The luma loop of both converters. */
  method CopyPlane(src: array<byte>, from: int, sStride: int, width: nat, rows: nat,
                   dst: array<byte>, at: int, dStride: int)
    requires src != dst
    requires RowsFit(src.Length, from, sStride, width, rows) && RowsFit(dst.Length, at, dStride, width, rows)
    modifies dst
    ensures dst[..] == CopyRows(old(dst[..]), at, dStride, src[..], from, sStride, width, rows)
  {
    var pSrcY, pDstY := from, at;
    for y := 0 to rows
      invariant pSrcY == Cell(from, sStride, y, 0) && pDstY == Cell(at, dStride, y, 0)
      invariant dst[..] == CopyRows(old(dst[..]), at, dStride, src[..], from, sStride, width, y)
    {
      assert Cell(from, sStride, y, width) <= src.Length && Cell(at, dStride, y, width) <= dst.Length;
      Memcpy(dst, pDstY, src, pSrcY, width);
      pSrcY := pSrcY + sStride;
      pDstY := pDstY + dStride;
    }
  }

  /** The decoder's chroma loop. */
  method SplitPlane(src: array<byte>, from: int, sStride: int, cols: nat, rows: nat,
                    dst: array<byte>, u: int, v: int, dStride: int)
    requires src != dst
    requires RowsFit(src.Length, from, sStride, 2 * cols, rows)
    requires RowsFit(dst.Length, u, dStride, cols, rows) && RowsFit(dst.Length, v, dStride, cols, rows)
    modifies dst
    ensures dst[..] == SplitRows(old(dst[..]), u, v, dStride, src[..], from, sStride, cols, rows)
  {
    var pSrcUv, pDstU, pDstV := from, u, v;
    for y := 0 to rows
      invariant pSrcUv == Cell(from, sStride, y, 0)
      invariant pDstU == Cell(u, dStride, y, 0) && pDstV == Cell(v, dStride, y, 0)
      invariant dst[..] == SplitRows(old(dst[..]), u, v, dStride, src[..], from, sStride, cols, y)
    {
      assert Cell(from, sStride, y, 2 * cols) <= src.Length;
      assert Cell(u, dStride, y, cols) <= dst.Length && Cell(v, dStride, y, cols) <= dst.Length;
      SplitChromaRow(src, pSrcUv, cols, dst, pDstU, pDstV);
      SplitRowsStep(old(dst[..]), u, v, dStride, src[..], from, sStride, cols, y);
      pSrcUv := pSrcUv + sStride;
      pDstU := pDstU + dStride;
      pDstV := pDstV + dStride;
    }
  }

  /** The encoder's chroma loop. */
  method MergePlane(src: array<byte>, u: int, v: int, sStride: int, cols: nat, rows: nat,
                    dst: array<byte>, at: int, dStride: int)
    requires src != dst
    requires RowsFit(src.Length, u, sStride, cols, rows) && RowsFit(src.Length, v, sStride, cols, rows)
    requires RowsFit(dst.Length, at, dStride, 2 * cols, rows)
    modifies dst
    ensures dst[..] == MergeRows(old(dst[..]), at, dStride, src[..], u, v, sStride, cols, rows)
  {
    var pSrcU, pSrcV, pDstUv := u, v, at;
    for i := 0 to rows
      invariant pDstUv == Cell(at, dStride, i, 0)
      invariant pSrcU == Cell(u, sStride, i, 0) && pSrcV == Cell(v, sStride, i, 0)
      invariant dst[..] == MergeRows(old(dst[..]), at, dStride, src[..], u, v, sStride, cols, i)
    {
      assert Cell(u, sStride, i, cols) <= src.Length && Cell(v, sStride, i, cols) <= src.Length;
      assert Cell(at, dStride, i, 2 * cols) <= dst.Length;
      MergeChromaRow(src, pSrcU, pSrcV, cols, dst, pDstUv);
      MergeRowsStep(old(dst[..]), at, dStride, src[..], u, v, sStride, cols, i);
      pSrcU := pSrcU + sStride;
      pSrcV := pSrcV + sStride;
      pDstUv := pDstUv + dStride;
    }
  }

  /** Where the decoder starts to read, computed with products. */
  method DecoderSource(srcWidth: int, srcHeight: int, srcRect: Rect) returns (pSrcY: int, pSrcUv: int)
    requires InFrame(srcWidth, srcHeight, srcRect)
    ensures pSrcY == LumaStart(srcWidth, srcRect) && pSrcUv == ChromaStart(srcWidth, srcHeight, srcRect)
  {
    pSrcY := srcWidth * srcRect.top + srcRect.left;
    pSrcUv := pSrcY + srcWidth * (srcHeight - srcRect.top / 2);
    RowStartIsProduct(srcWidth, srcRect.top);
    RowStartIsProduct(srcWidth, srcHeight - srcRect.top / 2);
  }

  /** The sizes of the decoder's planes. */
  method DecoderSizes(dstWidth: nat, dstHeight: nat) returns (dstYSize: int, dstUvSize: int)
    ensures dstYSize == UStart(dstWidth, dstHeight) && dstYSize + dstUvSize == VStart(dstWidth, dstHeight)
  {
    dstYSize := dstWidth * dstHeight;
    dstUvSize := dstWidth / 2 * dstHeight / 2;
    RowStartIsProduct(dstWidth, dstHeight);
    RowStartIsProduct(dstWidth / 2, dstHeight);
  }

  /** The encoder's pointers behind the luma planes. */
  method EncoderPointers(srcWidth: nat, srcHeight: nat, dstWidth: nat, dstHeight: nat)
    returns (pSrcU: int, pSrcV: int, pDstUv: int)
    ensures pSrcU == RowStart(srcWidth, srcHeight)
    ensures pSrcV == RowStart(srcWidth, srcHeight) + RowStart(srcWidth / 2, srcHeight / 2)
    ensures pDstUv == RowStart(dstWidth, dstHeight)
  {
    pSrcU := srcWidth * srcHeight;
    pSrcV := pSrcU + (srcWidth / 2) * (srcHeight / 2);
    pDstUv := dstWidth * dstHeight;
    RowStartIsProduct(srcWidth, srcHeight);
    RowStartIsProduct(srcWidth / 2, srcHeight / 2);
    RowStartIsProduct(dstWidth, dstHeight);
  }

  method ConvertDecoderOutputToI420(src: array<byte>, srcWidth: int, srcHeight: int, srcRect: Rect, dst: array<byte>)
    returns (status: int)
    requires src != dst
    requires InFrame(srcWidth, srcHeight, srcRect) && RowStart(srcWidth, srcHeight) < INT_LIMIT
    requires ReadsFit(src.Length, srcWidth, srcHeight, srcRect)
    requires WritesFit(dst.Length, srcRect.Width(), srcRect.Height())
    modifies dst
    ensures status == 0
    ensures dst[..] == Decoded(src[..], srcWidth, srcHeight, srcRect, old(dst[..]))
  {
    var pSrcY, pSrcUv := DecoderSource(srcWidth, srcHeight, srcRect);
    var dstWidth := srcRect.right - srcRect.left + 1;
    var dstHeight := srcRect.bottom - srcRect.top + 1;
    DecoderLumaFits(src.Length, srcWidth, srcHeight, srcRect);
    DecoderChromaFits(src.Length, srcWidth, srcHeight, srcRect);
    DecoderWritesFit(dst.Length, dstWidth, dstHeight);
    WritePlanes(src, srcWidth, pSrcY, pSrcUv, dstWidth, dstHeight, dst);
    return 0;
  }

  /** The decoder's two loops. */
  method WritePlanes(src: array<byte>, srcWidth: int, pSrcY: int, pSrcUv: int, dstWidth: nat, dstHeight: nat,
                     dst: array<byte>)
    requires src != dst
    requires RowsFit(src.Length, pSrcY, srcWidth, dstWidth, dstHeight) && RowsFit(dst.Length, 0, dstWidth, dstWidth, dstHeight)
    requires RowsFit(src.Length, pSrcUv, srcWidth, 2 * ((dstWidth + 1) / 2), (dstHeight + 1) / 2)
    requires RowsFit(dst.Length, UStart(dstWidth, dstHeight), dstWidth / 2, (dstWidth + 1) / 2, (dstHeight + 1) / 2)
    requires RowsFit(dst.Length, VStart(dstWidth, dstHeight), dstWidth / 2, (dstWidth + 1) / 2, (dstHeight + 1) / 2)
    modifies dst
    ensures dst[..] == Planes(src[..], srcWidth, pSrcY, pSrcUv, dstWidth, dstHeight, old(dst[..]))
  {
    var dstYSize, dstUvSize := DecoderSizes(dstWidth, dstHeight);
    var dstUvStride := dstWidth / 2;
    var pDstY := 0;
    var pDstU := pDstY + dstYSize;
    var pDstV := pDstU + dstUvSize;
    CopyPlane(src, pSrcY, srcWidth, dstWidth, dstHeight, dst, pDstY, dstWidth);
    var tmp := (dstWidth + 1) / 2;
    SplitPlane(src, pSrcUv, srcWidth, tmp, (dstHeight + 1) / 2, dst, pDstU, pDstV, dstUvStride);
  }

  method ConvertI420ToEncoderInput(src: array<byte>, srcWidth: int, srcHeight: int,
                                   dstWidth: int, dstHeight: int, dstRect: Rect, dst: array<byte>)
    returns (status: int)
    requires src != dst
    requires 0 <= srcWidth <= dstWidth && 0 <= srcHeight <= dstHeight && RowStart(dstWidth, dstHeight) < INT_LIMIT
    requires RowStart(srcWidth, srcHeight) + 2 * RowStart(srcWidth / 2, srcHeight / 2) <= src.Length
    requires ImageSize(dstWidth, dstHeight) <= dst.Length
    modifies dst
    ensures status == 0
    ensures dst[..] == Encoded(src[..], srcWidth, srcHeight, dstWidth, dstHeight, old(dst[..]))
  {
    EncoderReadsFit(src.Length, srcWidth, srcHeight);
    EncoderWritesFit(dst.Length, srcWidth, srcHeight, dstWidth, dstHeight);
    CopyPlane(src, 0, srcWidth, srcWidth, srcHeight, dst, 0, dstWidth);
    var pSrcU, pSrcV, pDstUv := EncoderPointers(srcWidth, srcHeight, dstWidth, dstHeight);
    MergePlane(src, pSrcU, pSrcV, srcWidth / 2, srcWidth / 2, srcHeight / 2, dst, pDstUv, dstWidth);
    return 0;
  }

  /** The frame geometry an encoder is told about: size, crop and bytes. */
  method GetEncoderInputBufferInfo(actualWidth: int, actualHeight: int)
    returns (encoderWidth: int, encoderHeight: int, encoderRect: Rect, encoderBufferSize: int)
    requires 0 <= actualWidth && 0 <= actualHeight && 3 * (actualWidth * actualHeight) < INT_LIMIT
    ensures encoderWidth == encoderRect.Width() == actualWidth
    ensures encoderHeight == encoderRect.Height() == actualHeight
    ensures encoderRect.left == encoderRect.top == 0
    ensures EncoderStaysInside(actualWidth, actualHeight, encoderBufferSize, encoderWidth, encoderHeight, encoderBufferSize)
    ensures encoderBufferSize == actualWidth * actualHeight * 3 / 2 < INT_LIMIT
  {
    encoderWidth := actualWidth;
    encoderHeight := actualHeight;
    encoderRect := Rect(0, 0, actualWidth - 1, actualHeight - 1);
    encoderBufferSize := actualWidth * actualHeight * 3 / 2;
    ImageSizeIsProduct(actualWidth, actualHeight);
    EncoderInside(actualWidth, actualHeight, encoderWidth, encoderHeight);
  }

  lemma ImageSizeIsProduct(w: nat, h: nat)
    ensures w * h * 3 / 2 == ImageSize(w, h) && 2 * (w * h * 3 / 2) <= 3 * (w * h)
  {
    RowStartIsProduct(w, h);
    RowStartMono(w, 0, h);
  }

  /** Every byte the encoder conversion reads is in the image, and every byte it writes is in the frame. */
  ghost predicate EncoderStaysInside(w: nat, h: nat, imageSize: int, frameW: int, frameH: int, frameSize: int) {
    && RowsFit(imageSize, 0, w, w, h)
    && RowsFit(imageSize, RowStart(w, h), w / 2, w / 2, h / 2)
    && RowsFit(imageSize, RowStart(w, h) + RowStart(w / 2, h / 2), w / 2, w / 2, h / 2)
    && RowsFit(frameSize, 0, frameW, w, h)
    && RowsFit(frameSize, RowStart(frameW, frameH), frameW, 2 * (w / 2), h / 2)
  }

  lemma EncoderInside(w: nat, h: nat, frameW: int, frameH: int)
    requires w <= frameW && h <= frameH
    ensures EncoderStaysInside(w, h, ImageSize(w, h), frameW, frameH, ImageSize(frameW, frameH))
  {
    PlanesFitImage(w, h);
    EncoderReadsFit(ImageSize(w, h), w, h);
    EncoderWritesFit(ImageSize(frameW, frameH), w, h, frameW, frameH);
  }

  /** Luma and two planes of a quarter, rounded down, fit an image of the size. */
  lemma PlanesFitImage(w: nat, h: nat)
    ensures 0 <= RowStart(w, h) && 0 <= RowStart(w / 2, h / 2)
    ensures RowStart(w, h) + 2 * RowStart(w / 2, h / 2) <= ImageSize(w, h)
  {
    var a, b := w / 2, h / 2;
    QuarterPlane(a, b);
    WiderRows(2 * a, w, 2 * b);
    RowStartMono(w, 2 * b, h);
    RowStartMono(a, 0, b);
  }

  // ----- every access of the methods is in bounds -----

  /** Rows with a non-negative stride fit if the last one does. */
  lemma LastRowSuffices(length: int, base: int, stride: int, width: int, rows: nat)
    requires 0 <= base && 0 <= stride
    requires rows > 0 ==> Cell(base, stride, rows - 1, width) <= length
    ensures RowsFit(length, base, stride, width, rows)
  {
    forall row | 0 <= row < rows
      ensures 0 <= Cell(base, stride, row, 0) && Cell(base, stride, row, width) <= length
    {
      RowStartMono(stride, row, rows - 1);
    }
  }

  /** Rows no wider than their stride fit if they end in time. */
  lemma WholeRowsSuffice(length: int, base: int, stride: int, width: int, rows: nat)
    requires 0 <= base && 0 <= stride && width <= stride && base + RowStart(stride, rows) <= length
    ensures RowsFit(length, base, stride, width, rows)
  {
    LastRowSuffices(length, base, stride, width, rows);
  }

  lemma CropStart(frameW: int, frameH: int, r: Rect)
    requires InFrame(frameW, frameH, r)
    ensures 0 <= LumaStart(frameW, r) <= ChromaStart(frameW, frameH, r)
    ensures 0 <= RowStart(frameW, frameH)
  {
    RowStartMono(frameW, 0, r.top);
    RowStartMono(frameW, 0, frameH);
    RowStartMono(frameW, 0, frameH - r.top / 2);
  }

  lemma DecoderLumaFits(srcLen: int, frameW: int, frameH: int, r: Rect)
    requires InFrame(frameW, frameH, r) && RowStart(frameW, frameH) <= srcLen
    ensures RowsFit(srcLen, LumaStart(frameW, r), frameW, r.Width(), r.Height())
  {
    CropStart(frameW, frameH, r);
    RowStartAdds(frameW, r.top, r.Height() - 1);
    RowStartMono(frameW, r.bottom + 1, frameH);
    LastRowSuffices(srcLen, LumaStart(frameW, r), frameW, r.Width(), r.Height());
  }

  lemma DecoderChromaFits(srcLen: int, frameW: int, frameH: int, r: Rect)
    requires InFrame(frameW, frameH, r) && ReadsFit(srcLen, frameW, frameH, r)
    ensures RowsFit(srcLen, ChromaStart(frameW, frameH, r), frameW, 2 * ((r.Width() + 1) / 2), (r.Height() + 1) / 2)
  {
    CropStart(frameW, frameH, r);
    LastRowSuffices(srcLen, ChromaStart(frameW, frameH, r), frameW, 2 * ((r.Width() + 1) / 2), (r.Height() + 1) / 2);
  }

  lemma PlaneStarts(w: int, h: int)
    requires 0 <= w && 0 <= h
    ensures 0 <= UStart(w, h) <= VStart(w, h)
  {
    RowStartMono(w, 0, h);
    RowStartMono(w / 2, 0, h);
  }

  lemma DecoderWritesFit(dstLen: int, w: int, h: int)
    requires 1 <= w && 1 <= h && WritesFit(dstLen, w, h)
    ensures RowsFit(dstLen, 0, w, w, h)
    ensures RowsFit(dstLen, UStart(w, h), w / 2, (w + 1) / 2, (h + 1) / 2)
    ensures RowsFit(dstLen, VStart(w, h), w / 2, (w + 1) / 2, (h + 1) / 2)
  {
    PlaneStarts(w, h);
    RowStartMono(w / 2, 0, (h + 1) / 2 - 1);
    WholeRowsSuffice(dstLen, 0, w, w, h);
    LastRowSuffices(dstLen, UStart(w, h), w / 2, (w + 1) / 2, (h + 1) / 2);
    LastRowSuffices(dstLen, VStart(w, h), w / 2, (w + 1) / 2, (h + 1) / 2);
  }

  lemma EncoderReadsFit(srcLen: int, w: nat, h: nat)
    requires RowStart(w, h) + 2 * RowStart(w / 2, h / 2) <= srcLen
    ensures RowsFit(srcLen, 0, w, w, h)
    ensures RowsFit(srcLen, RowStart(w, h), w / 2, w / 2, h / 2)
    ensures RowsFit(srcLen, RowStart(w, h) + RowStart(w / 2, h / 2), w / 2, w / 2, h / 2)
  {
    RowStartMono(w, 0, h);
    RowStartMono(w / 2, 0, h / 2);
    WholeRowsSuffice(srcLen, 0, w, w, h);
    WholeRowsSuffice(srcLen, RowStart(w, h), w / 2, w / 2, h / 2);
    WholeRowsSuffice(srcLen, RowStart(w, h) + RowStart(w / 2, h / 2), w / 2, w / 2, h / 2);
  }

  /** At most half of a frame's rows, again, fit behind its luma. */
  lemma ChromaRowsFit(frameW: int, frameH: int, rows: int)
    requires 0 <= frameW && 0 <= 2 * rows <= frameH
    ensures 0 <= RowStart(frameW, frameH)
    ensures RowStart(frameW, frameH) + RowStart(frameW, rows) <= ImageSize(frameW, frameH)
  {
    RowStartAdds(frameW, rows, rows);
    RowStartMono(frameW, 0, frameH);
    RowStartMono(frameW, rows + rows, frameH);
  }

  lemma EncoderWritesFit(dstLen: int, w: nat, h: nat, frameW: int, frameH: int)
    requires w <= frameW && h <= frameH && ImageSize(frameW, frameH) <= dstLen
    ensures RowsFit(dstLen, 0, frameW, w, h)
    ensures RowsFit(dstLen, RowStart(frameW, frameH), frameW, 2 * (w / 2), h / 2)
  {
    ChromaRowsFit(frameW, frameH, h / 2);
    RowStartMono(frameW, h, frameH);
    WholeRowsSuffice(dstLen, 0, frameW, w, h);
    WholeRowsSuffice(dstLen, RowStart(frameW, frameH), frameW, 2 * (w / 2), h / 2);
  }
}
