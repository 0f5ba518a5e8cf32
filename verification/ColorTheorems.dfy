/**
 What the two colour conversions mean for pictures: every pixel lands where it
 belongs exactly when the crop is even, padding is never touched, and the
 conversions undo each other.
 */
module ColorTheorems {
  import opened CTypes
  import opened ColorConvert

  // ----- pixels -----

  /** Samples of a semi-planar frame: luma, then rows of interleaved U and V. */
  function NvY(f: seq<byte>, frameW: int, row: int, col: int): byte { At(f, Cell(0, frameW, row, col)) }

  function NvU(f: seq<byte>, frameW: int, frameH: int, j: int, i: int): byte {
    At(f, Cell(RowStart(frameW, frameH), frameW, j, 2 * i))
  }

  function NvV(f: seq<byte>, frameW: int, frameH: int, j: int, i: int): byte {
    At(f, Cell(RowStart(frameW, frameH), frameW, j, 2 * i + 1))
  }

  /**
   Samples of a planar I420 image: luma, then the U plane, then the V plane, one
   chroma sample for every two by two pixels with odd sizes rounded up. No two
   samples share a byte, whatever the size.
   */
  function PlY(b: seq<byte>, w: int, row: int, col: int): byte { At(b, Cell(0, w, row, col)) }

  function PlU(b: seq<byte>, w: int, h: int, j: int, i: int): byte {
    At(b, Cell(RowStart(w, h), (w + 1) / 2, j, i))
  }

  function PlV(b: seq<byte>, w: int, h: int, j: int, i: int): byte {
    At(b, Cell(RowStart(w, h) + RowStart((w + 1) / 2, (h + 1) / 2), (w + 1) / 2, j, i))
  }

  /** Samples of a crop of a frame, counted from the crop's corner. */
  function CropY(f: seq<byte>, frameW: int, r: Rect, y: int, x: int): byte {
    NvY(f, frameW, r.top + y, r.left + x)
  }

  function CropU(f: seq<byte>, frameW: int, frameH: int, r: Rect, j: int, i: int): byte {
    NvU(f, frameW, frameH, r.top / 2 + j, r.left / 2 + i)
  }

  function CropV(f: seq<byte>, frameW: int, frameH: int, r: Rect, j: int, i: int): byte {
    NvV(f, frameW, frameH, r.top / 2 + j, r.left / 2 + i)
  }

  /** `out` is the crop `r` of the frame `s`, sample by sample. */
  ghost predicate IsCrop(s: seq<byte>, frameW: int, frameH: int, r: Rect, out: seq<byte>) {
    var w, h := r.Width(), r.Height();
    && (forall y, x :: 0 <= y < h && 0 <= x < w ==> PlY(out, w, y, x) == CropY(s, frameW, r, y, x))
    && (forall j, i :: 0 <= j < (h + 1) / 2 && 0 <= i < (w + 1) / 2 ==>
          PlU(out, w, h, j, i) == CropU(s, frameW, frameH, r, j, i))
    && (forall j, i :: 0 <= j < (h + 1) / 2 && 0 <= i < (w + 1) / 2 ==>
          PlV(out, w, h, j, i) == CropV(s, frameW, frameH, r, j, i))
  }

  /** The top left w x h pixels of the frame `f` show the planar image `b`. */
  ghost predicate ShowsImage(b: seq<byte>, w: int, h: int, frameW: int, frameH: int, f: seq<byte>) {
    && (forall y, x :: 0 <= y < h && 0 <= x < w ==> NvY(f, frameW, y, x) == PlY(b, w, y, x))
    && (forall j, i :: 0 <= j < (h + 1) / 2 && 0 <= i < (w + 1) / 2 ==> NvU(f, frameW, frameH, j, i) == PlU(b, w, h, j, i))
    && (forall j, i :: 0 <= j < (h + 1) / 2 && 0 <= i < (w + 1) / 2 ==> NvV(f, frameW, frameH, j, i) == PlV(b, w, h, j, i))
  }

  predicate Even(r: Rect) {
    r.left % 2 == 0 && r.top % 2 == 0 && r.Width() % 2 == 0 && r.Height() % 2 == 0
  }

  // ----- what each sequence of writes leaves behind -----

  lemma {:induction false} CopyRowsHit(d: seq<byte>, at: int, dStride: int, s: seq<byte>, from: int, sStride: int,
                                       width: int, n: nat, row: int, col: int)
    requires 0 <= row < n && 0 <= col < width <= dStride
    requires 0 <= Cell(at, dStride, row, col) < |d|
    ensures CopyRows(d, at, dStride, s, from, sStride, width, n)[Cell(at, dStride, row, col)]
         == At(s, Cell(from, sStride, row, col))
  {
    if row < n - 1 {
      CopyRowsHit(d, at, dStride, s, from, sStride, width, n - 1, row, col);
      RowBefore(dStride, row, n - 1, col);
    }
  }

  lemma {:induction false} CopyRowsMiss(d: seq<byte>, at: int, dStride: int, s: seq<byte>, from: int, sStride: int,
                                        width: int, n: nat, p: int)
    requires 0 <= p < |d|
    requires forall row :: 0 <= row < n ==> !(Cell(at, dStride, row, 0) <= p < Cell(at, dStride, row, width))
    ensures CopyRows(d, at, dStride, s, from, sStride, width, n)[p] == d[p]
  {
    if n > 0 {
      CopyRowsMiss(d, at, dStride, s, from, sStride, width, n - 1, p);
      assert !(Cell(at, dStride, n - 1, 0) <= p < Cell(at, dStride, n - 1, width));
    }
  }

  lemma {:induction false} SplitRowValue(d: seq<byte>, u: int, v: int, s: seq<byte>, from: int, n: nat, p: int)
    requires 0 <= u && u + n <= v && v + n <= |d| && 0 <= p < |d|
    ensures SplitRow(d, u, v, s, from, n)[p]
         == if u <= p < u + n then At(s, from + 2 * (p - u))
            else if v <= p < v + n then At(s, from + 2 * (p - v) + 1)
            else d[p]
  {
    if n > 0 {
      SplitRowValue(d, u, v, s, from, n - 1, p);
    }
  }

  /** Bytes behind both rows are not written, wherever the rows overlap. */
  lemma {:induction false} SplitRowBehind(d: seq<byte>, u: int, v: int, s: seq<byte>, from: int, n: nat, p: int)
    requires u + n <= p && v + n <= p && 0 <= p < |d|
    ensures SplitRow(d, u, v, s, from, n)[p] == d[p]
  {
    if n > 0 {
      SplitRowBehind(d, u, v, s, from, n - 1, p);
    }
  }

  lemma {:induction false} MergeRowHit(d: seq<byte>, at: int, s: seq<byte>, u: int, v: int, n: nat, i: int)
    requires 0 <= at && at + 2 * n <= |d| && 0 <= i < n
    ensures MergeRow(d, at, s, u, v, n)[at + 2 * i] == At(s, u + i)
    ensures MergeRow(d, at, s, u, v, n)[at + 2 * i + 1] == At(s, v + i)
  {
    if i < n - 1 {
      MergeRowHit(d, at, s, u, v, n - 1, i);
    }
  }

  lemma {:induction false} MergeRowMiss(d: seq<byte>, at: int, s: seq<byte>, u: int, v: int, n: nat, p: int)
    requires 0 <= at && at + 2 * n <= |d|
    requires 0 <= p < at || at + 2 * n <= p < |d|
    ensures MergeRow(d, at, s, u, v, n)[p] == d[p]
  {
    if n > 0 {
      MergeRowMiss(d, at, s, u, v, n - 1, p);
    }
  }

  /** Rows of the two planes, placed one after the other without overlap. */
  ghost predicate PlanesApart(length: int, u: int, v: int, stride: int, cols: int, n: nat) {
    0 <= u && 0 <= cols <= stride && Cell(u, stride, n, 0) <= v && Cell(v, stride, n, 0) <= length
  }

  /** A cell lies among its plane's rows, and before the last row unless it is in it. */
  lemma CellInRows(base: int, stride: int, rows: nat, j: int, i: int)
    requires 0 <= j < rows && 0 <= i < stride
    ensures base <= Cell(base, stride, j, i) < Cell(base, stride, rows, 0)
    ensures base <= Cell(base, stride, rows - 1, 0) == Cell(base, stride, rows, 0) - stride
    ensures j < rows - 1 ==> Cell(base, stride, j, i) < Cell(base, stride, rows - 1, 0)
  {
    RowStartMono(stride, 0, rows - 1);
    RowBefore(stride, j, rows, i);
    if j < rows - 1 {
      RowBefore(stride, j, rows - 1, i);
    }
  }

  lemma FewerRowsApart(length: int, u: int, v: int, stride: int, cols: int, n: nat)
    requires n > 0 && PlanesApart(length, u, v, stride, cols, n)
    ensures PlanesApart(length, u, v, stride, cols, n - 1)
    ensures u <= Cell(u, stride, n - 1, 0) == Cell(u, stride, n, 0) - stride
    ensures v <= Cell(v, stride, n - 1, 0) == Cell(v, stride, n, 0) - stride
  {
    RowStartMono(stride, 0, n - 1);
  }

  lemma {:induction false} SplitRowsHit(d: seq<byte>, u: int, v: int, stride: int, s: seq<byte>, from: int, sStride: int,
                                        cols: nat, n: nat, j: int, i: int)
    requires PlanesApart(|d|, u, v, stride, cols, n)
    requires 0 <= j < n && 0 <= i < cols
    ensures 0 <= Cell(u, stride, j, i) < Cell(v, stride, j, i) < |d|
    ensures var out := SplitRows(d, u, v, stride, s, from, sStride, cols, n);
      && out[Cell(u, stride, j, i)] == At(s, Cell(from, sStride, j, 2 * i))
      && out[Cell(v, stride, j, i)] == At(s, Cell(from, sStride, j, 2 * i + 1))
  {
    var before := SplitRows(d, u, v, stride, s, from, sStride, cols, n - 1);
    var lu, lv, ls := Cell(u, stride, n - 1, 0), Cell(v, stride, n - 1, 0), Cell(from, sStride, n - 1, 0);
    var pu, pv := Cell(u, stride, j, i), Cell(v, stride, j, i);
    CellInRows(u, stride, n, j, i);
    CellInRows(v, stride, n, j, i);
    if j < n - 1 {
      FewerRowsApart(|d|, u, v, stride, cols, n);
      SplitRowsHit(d, u, v, stride, s, from, sStride, cols, n - 1, j, i);
    }
    SplitRowValue(before, lu, lv, s, ls, cols, pu);
    SplitRowValue(before, lu, lv, s, ls, cols, pv);
  }

  lemma {:induction false} SplitRowsMiss(d: seq<byte>, u: int, v: int, stride: int, s: seq<byte>, from: int, sStride: int,
                                         cols: nat, n: nat, p: int)
    requires PlanesApart(|d|, u, v, stride, cols, n)
    requires p < |d| && (0 <= p < u || (0 <= p && Cell(v, stride, n, 0) <= p))
    ensures SplitRows(d, u, v, stride, s, from, sStride, cols, n)[p] == d[p]
  {
    if n > 0 {
      FewerRowsApart(|d|, u, v, stride, cols, n);
      SplitRowsMiss(d, u, v, stride, s, from, sStride, cols, n - 1, p);
      SplitRowValue(SplitRows(d, u, v, stride, s, from, sStride, cols, n - 1),
                    Cell(u, stride, n - 1, 0), Cell(v, stride, n - 1, 0), s, Cell(from, sStride, n - 1, 0), cols, p);
    }
  }

  lemma {:induction false} SplitRowsBehind(d: seq<byte>, u: int, v: int, stride: int, s: seq<byte>, from: int,
                                           sStride: int, cols: nat, n: nat, p: int)
    requires u <= v && 0 <= p < |d|
    requires forall row :: 0 <= row < n ==> Cell(v, stride, row, cols) <= p
    ensures SplitRows(d, u, v, stride, s, from, sStride, cols, n)[p] == d[p]
  {
    if n > 0 {
      SplitRowsBehind(d, u, v, stride, s, from, sStride, cols, n - 1, p);
      assert Cell(v, stride, n - 1, cols) <= p;
      SplitRowBehind(SplitRows(d, u, v, stride, s, from, sStride, cols, n - 1),
                     Cell(u, stride, n - 1, 0), Cell(v, stride, n - 1, 0), s, Cell(from, sStride, n - 1, 0), cols, p);
    }
  }

  /** The last row written holds its samples. */
  lemma MergeRowsLast(d: seq<byte>, at: int, dStride: int, s: seq<byte>, u: int, v: int, sStride: int,
                      cols: nat, n: nat, i: int)
    requires 0 <= Cell(at, dStride, n, 0) && Cell(at, dStride, n, 0) + 2 * cols <= |d| && 0 <= i < cols
    ensures var out := MergeRows(d, at, dStride, s, u, v, sStride, cols, n + 1);
      && out[Cell(at, dStride, n, 0) + 2 * i] == At(s, Cell(u, sStride, n, 0) + i)
      && out[Cell(at, dStride, n, 0) + 2 * i + 1] == At(s, Cell(v, sStride, n, 0) + i)
  {
    MergeRowsStep(d, at, dStride, s, u, v, sStride, cols, n);
    MergeRowHit(MergeRows(d, at, dStride, s, u, v, sStride, cols, n), Cell(at, dStride, n, 0),
                s, Cell(u, sStride, n, 0), Cell(v, sStride, n, 0), cols, i);
  }

  /** Bytes outside a row are not changed by writing it. */
  lemma MergeRowsKeep(d: seq<byte>, at: int, dStride: int, s: seq<byte>, u: int, v: int, sStride: int,
                      cols: nat, n: nat, p: int)
    requires 0 <= Cell(at, dStride, n, 0) && Cell(at, dStride, n, 0) + 2 * cols <= |d|
    requires 0 <= p < Cell(at, dStride, n, 0) || Cell(at, dStride, n, 0) + 2 * cols <= p < |d|
    ensures MergeRows(d, at, dStride, s, u, v, sStride, cols, n + 1)[p]
         == MergeRows(d, at, dStride, s, u, v, sStride, cols, n)[p]
  {
    MergeRowsStep(d, at, dStride, s, u, v, sStride, cols, n);
    MergeRowMiss(MergeRows(d, at, dStride, s, u, v, sStride, cols, n), Cell(at, dStride, n, 0),
                 s, Cell(u, sStride, n, 0), Cell(v, sStride, n, 0), cols, p);
  }

  /** Both bytes of an interleaved sample lie in its row, and the rows lie in the buffer. */
  lemma PairInRows(length: int, at: int, stride: int, n: nat, j: int, i: int, cols: nat)
    requires 0 <= at && 2 * cols <= stride && Cell(at, stride, n, 0) <= length
    requires 0 <= j < n && 0 <= i < cols
    ensures 0 <= Cell(at, stride, j, 2 * i) && Cell(at, stride, j, 2 * i) + 1 < length
    ensures 0 <= Cell(at, stride, n - 1, 0) && Cell(at, stride, n - 1, 0) + 2 * cols <= length
    ensures j < n - 1 ==> Cell(at, stride, j, 2 * i) + 1 < Cell(at, stride, n - 1, 0)
  {
    CellInRows(at, stride, n, j, 2 * i + 1);
    RowStartMono(stride, 0, j);
  }

  lemma {:induction false} MergeRowsHit(d: seq<byte>, at: int, dStride: int, s: seq<byte>, u: int, v: int, sStride: int,
                                        cols: nat, n: nat, j: int, i: int)
    requires 0 <= at && 2 * cols <= dStride && Cell(at, dStride, n, 0) <= |d|
    requires 0 <= j < n && 0 <= i < cols
    ensures 0 <= Cell(at, dStride, j, 2 * i) && Cell(at, dStride, j, 2 * i) + 1 < |d|
    ensures var out, p := MergeRows(d, at, dStride, s, u, v, sStride, cols, n), Cell(at, dStride, j, 2 * i);
      out[p] == At(s, Cell(u, sStride, j, i)) && out[p + 1] == At(s, Cell(v, sStride, j, i))
  {
    var p := Cell(at, dStride, j, 2 * i);
    PairInRows(|d|, at, dStride, n, j, i, cols);
    if n == j + 1 {
      MergeRowsLast(d, at, dStride, s, u, v, sStride, cols, j, i);
      assert p == Cell(at, dStride, j, 0) + 2 * i;
    } else {
      MergeRowsHit(d, at, dStride, s, u, v, sStride, cols, n - 1, j, i);
      MergeRowsKeep(d, at, dStride, s, u, v, sStride, cols, n - 1, p);
      MergeRowsKeep(d, at, dStride, s, u, v, sStride, cols, n - 1, p + 1);
    }
  }

  lemma {:induction false} MergeRowsMiss(d: seq<byte>, at: int, dStride: int, s: seq<byte>, u: int, v: int, sStride: int,
                                         cols: nat, n: nat, p: int)
    requires 0 <= at && 0 <= dStride && 2 * cols <= dStride && Cell(at, dStride, n, 0) <= |d| && 0 <= p < |d|
    requires forall j :: 0 <= j < n ==> !(Cell(at, dStride, j, 0) <= p < Cell(at, dStride, j, 2 * cols))
    ensures MergeRows(d, at, dStride, s, u, v, sStride, cols, n)[p] == d[p]
  {
    if n > 0 {
      assert 0 <= Cell(at, dStride, n - 1, 0) <= Cell(at, dStride, n, 0) - dStride by { RowStartMono(dStride, 0, n - 1); }
      MergeRowsMiss(d, at, dStride, s, u, v, sStride, cols, n - 1, p);
      assert !(Cell(at, dStride, n - 1, 0) <= p < Cell(at, dStride, n - 1, 2 * cols));
      MergeRowsKeep(d, at, dStride, s, u, v, sStride, cols, n - 1, p);
    }
  }

  // ----- the decoder, pixel by pixel -----

  /** U and V rows of an even image do not run into each other. */
  lemma EvenPlanesApart(w: int, h: int)
    requires 0 <= w && 0 <= h && w % 2 == 0 && h % 2 == 0
    ensures 0 <= UStart(w, h) <= VStart(w, h) <= ImageSize(w, h)
    ensures VStart(w, h) == RowStart(w, h) + RowStart(w / 2, h / 2)
    ensures PlanesApart(ImageSize(w, h), UStart(w, h), VStart(w, h), w / 2, (w + 1) / 2, (h + 1) / 2)
    ensures Cell(VStart(w, h), w / 2, (h + 1) / 2, 0) == ImageSize(w, h)
  {
    var a, b := w / 2, h / 2;
    assert w == 2 * a && h == 2 * b && (w + 1) / 2 == a && (h + 1) / 2 == b;
    QuarterPlane(a, b);
    assert RowStart(w, h) == 4 * RowStart(a, b) && RowStart(a, h) == 2 * RowStart(a, b);
    RowStartMono(a, 0, b);
  }

  /** Where the decoder reads a luma sample. */
  lemma LumaAddress(frameW: int, r: Rect, y: nat, x: int)
    requires 0 <= r.top
    ensures Cell(LumaStart(frameW, r), frameW, y, x) == Cell(0, frameW, r.top + y, r.left + x)
  {
    RowStartAdds(frameW, r.top, y);
  }

  /** Where the decoder reads a chroma sample, whatever the parities. */
  lemma ChromaAddress(frameW: int, frameH: int, r: Rect, j: nat, i: int)
    requires InFrame(frameW, frameH, r)
    ensures Cell(ChromaStart(frameW, frameH, r), frameW, j, 2 * i)
         == Cell(RowStart(frameW, frameH), frameW, r.top - r.top / 2 + j, r.left + 2 * i)
  {
    var half, skipped := r.top / 2, r.top - r.top / 2;
    RowStartAdds(frameW, half, skipped);
    RowStartAdds(frameW, half, frameH - half);
    RowStartAdds(frameW, skipped, j);
  }

  /** Luma rows and chroma rows of a frame, put where a planar image has them. */
  function Planar(s: seq<byte>, frameW: int, y0: int, uv0: int, w: nat, h: nat, d: seq<byte>): (out: seq<byte>)
    ensures |out| == |d|
  {
    var cols, rows := (w + 1) / 2, (h + 1) / 2;
    SplitRows(CopyRows(d, 0, w, s, y0, frameW, w, h),
              RowStart(w, h), RowStart(w, h) + RowStart(cols, rows), cols, s, uv0, frameW, cols, rows)
  }

  function PlanarSize(w: nat, h: nat): int { RowStart(w, h) + 2 * RowStart((w + 1) / 2, (h + 1) / 2) }

  /** For even sizes that is what the decoder does. */
  lemma EvenPlanesArePlanar(s: seq<byte>, frameW: int, y0: int, uv0: int, w: nat, h: nat, d: seq<byte>)
    requires w % 2 == 0 && h % 2 == 0
    ensures Planes(s, frameW, y0, uv0, w, h, d) == Planar(s, frameW, y0, uv0, w, h, d)
    ensures PlanarSize(w, h) == ImageSize(w, h)
  {
    EvenPlanesApart(w, h);
  }

  lemma PlanarApart(length: int, w: nat, h: nat)
    requires PlanarSize(w, h) <= length
    ensures 0 <= RowStart(w, h) <= length
    ensures var cols, rows := (w + 1) / 2, (h + 1) / 2;
      PlanesApart(length, RowStart(w, h), RowStart(w, h) + RowStart(cols, rows), cols, cols, rows)
  {
    RowStartMono(w, 0, h);
    RowStartMono((w + 1) / 2, 0, (h + 1) / 2);
  }

  /** A planar image of any size holds its luma ... */
  lemma PlanarLuma(s: seq<byte>, frameW: int, y0: int, uv0: int, w: nat, h: nat, d: seq<byte>, y: int, x: int)
    requires 0 <= y < h && 0 <= x < w && PlanarSize(w, h) <= |d|
    ensures PlY(Planar(s, frameW, y0, uv0, w, h, d), w, y, x) == At(s, Cell(y0, frameW, y, x))
  {
    var cols, rows := (w + 1) / 2, (h + 1) / 2;
    PlanarApart(|d|, w, h);
    CellInRows(0, w, h, y, x);
    CopyRowsHit(d, 0, w, s, y0, frameW, w, h, y, x);
    SplitRowsMiss(CopyRows(d, 0, w, s, y0, frameW, w, h), RowStart(w, h), RowStart(w, h) + RowStart(cols, rows), cols,
                  s, uv0, frameW, cols, rows, Cell(0, w, y, x));
  }

  /** ... and its chroma. */
  lemma PlanarChroma(s: seq<byte>, frameW: int, y0: int, uv0: int, w: nat, h: nat, d: seq<byte>, j: int, i: int)
    requires 0 <= j < (h + 1) / 2 && 0 <= i < (w + 1) / 2 && PlanarSize(w, h) <= |d|
    ensures PlU(Planar(s, frameW, y0, uv0, w, h, d), w, h, j, i) == At(s, Cell(uv0, frameW, j, 2 * i))
    ensures PlV(Planar(s, frameW, y0, uv0, w, h, d), w, h, j, i) == At(s, Cell(uv0, frameW, j, 2 * i + 1))
  {
    var cols, rows := (w + 1) / 2, (h + 1) / 2;
    PlanarApart(|d|, w, h);
    SplitRowsHit(CopyRows(d, 0, w, s, y0, frameW, w, h), RowStart(w, h), RowStart(w, h) + RowStart(cols, rows), cols,
                 s, uv0, frameW, cols, rows, j, i);
  }

  /** The planes of either parity: nothing behind the last V sample put out is written. */
  lemma PlanesBehind(s: seq<byte>, frameW: int, y0: int, uv0: int, w: int, h: int, d: seq<byte>, p: int)
    requires 1 <= w && 1 <= h && p < |d|
    requires Cell(VStart(w, h), w / 2, (h + 1) / 2 - 1, (w + 1) / 2) <= p
    ensures 0 <= p && Planes(s, frameW, y0, uv0, w, h, d)[p] == d[p]
  {
    PlaneStarts(w, h);
    RowStartMono(w / 2, 0, (h + 1) / 2 - 1);
    LumaBehind(s, frameW, y0, w, h, d, p);
    RowsEnd(VStart(w, h), w / 2, (w + 1) / 2, (h + 1) / 2, p);
    SplitRowsBehind(CopyRows(d, 0, w, s, y0, frameW, w, h), UStart(w, h), VStart(w, h), w / 2,
                    s, uv0, frameW, (w + 1) / 2, (h + 1) / 2, p);
  }

  lemma LumaBehind(s: seq<byte>, frameW: int, y0: int, w: nat, h: nat, d: seq<byte>, p: int)
    requires 0 <= p < |d| && RowStart(w, h) <= p
    ensures CopyRows(d, 0, w, s, y0, frameW, w, h)[p] == d[p]
  {
    forall row | 0 <= row < h
      ensures Cell(0, w, row, w) <= p
    {
      RowStartMono(w, row + 1, h);
    }
    CopyRowsMiss(d, 0, w, s, y0, frameW, w, h, p);
  }

  lemma RowsEnd(base: int, stride: nat, width: int, rows: nat, p: int)
    requires rows > 0 && Cell(base, stride, rows - 1, width) <= p
    ensures forall row :: 0 <= row < rows ==> Cell(base, stride, row, width) <= p
  {
    forall row | 0 <= row < rows
      ensures Cell(base, stride, row, width) <= p
    {
      RowStartMono(stride, row, rows - 1);
    }
  }

  lemma DecodedLuma(s: seq<byte>, frameW: int, frameH: int, r: Rect, d: seq<byte>, y: int, x: int)
    requires InFrame(frameW, frameH, r) && r.Width() % 2 == 0 && r.Height() % 2 == 0
    requires ImageSize(r.Width(), r.Height()) <= |d|
    requires 0 <= y < r.Height() && 0 <= x < r.Width()
    ensures PlY(Decoded(s, frameW, frameH, r, d), r.Width(), y, x) == CropY(s, frameW, r, y, x)
  {
    var y0, uv0 := LumaStart(frameW, r), ChromaStart(frameW, frameH, r);
    EvenPlanesArePlanar(s, frameW, y0, uv0, r.Width(), r.Height(), d);
    PlanarLuma(s, frameW, y0, uv0, r.Width(), r.Height(), d, y, x);
    LumaAddress(frameW, r, y, x);
  }

  lemma DecodedChroma(s: seq<byte>, frameW: int, frameH: int, r: Rect, d: seq<byte>, j: int, i: int)
    requires InFrame(frameW, frameH, r) && r.Width() % 2 == 0 && r.Height() % 2 == 0
    requires ImageSize(r.Width(), r.Height()) <= |d|
    requires 0 <= j < r.Height() / 2 && 0 <= i < r.Width() / 2
    ensures var w, h, out := r.Width(), r.Height(), Decoded(s, frameW, frameH, r, d);
      && PlU(out, w, h, j, i) == At(s, Cell(RowStart(frameW, frameH), frameW, r.top - r.top / 2 + j, r.left + 2 * i))
      && PlV(out, w, h, j, i) == At(s, Cell(RowStart(frameW, frameH), frameW, r.top - r.top / 2 + j, r.left + 2 * i) + 1)
  {
    EvenPlanesArePlanar(s, frameW, LumaStart(frameW, r), ChromaStart(frameW, frameH, r), r.Width(), r.Height(), d);
    PlanarChroma(s, frameW, LumaStart(frameW, r), ChromaStart(frameW, frameH, r), r.Width(), r.Height(), d, j, i);
    ChromaAddress(frameW, frameH, r, j, i);
  }

  /** An even crop is decoded exactly, and nothing after the image is written. */
  lemma EvenCropDecodes(s: seq<byte>, frameW: int, frameH: int, r: Rect, d: seq<byte>)
    requires InFrame(frameW, frameH, r) && Even(r)
    requires ImageSize(r.Width(), r.Height()) <= |d|
    ensures 0 <= ImageSize(r.Width(), r.Height())
    ensures IsCrop(s, frameW, frameH, r, Decoded(s, frameW, frameH, r, d))
    ensures Decoded(s, frameW, frameH, r, d)[ImageSize(r.Width(), r.Height())..] == d[ImageSize(r.Width(), r.Height())..]
  {
    var w, h, out := r.Width(), r.Height(), Decoded(s, frameW, frameH, r, d);
    forall y, x | 0 <= y < h && 0 <= x < w
      ensures PlY(out, w, y, x) == CropY(s, frameW, r, y, x)
    {
      DecodedLuma(s, frameW, frameH, r, d, y, x);
    }
    forall j, i | 0 <= j < (h + 1) / 2 && 0 <= i < (w + 1) / 2
      ensures PlU(out, w, h, j, i) == CropU(s, frameW, frameH, r, j, i)
      ensures PlV(out, w, h, j, i) == CropV(s, frameW, frameH, r, j, i)
    {
      DecodedChroma(s, frameW, frameH, r, d, j, i);
    }
    DecodedTail(s, frameW, frameH, r, d);
  }

  lemma DecodedTail(s: seq<byte>, frameW: int, frameH: int, r: Rect, d: seq<byte>)
    requires InFrame(frameW, frameH, r) && r.Width() % 2 == 0 && r.Height() % 2 == 0
    requires ImageSize(r.Width(), r.Height()) <= |d|
    ensures 0 <= ImageSize(r.Width(), r.Height())
    ensures Decoded(s, frameW, frameH, r, d)[ImageSize(r.Width(), r.Height())..] == d[ImageSize(r.Width(), r.Height())..]
  {
    var w, h, out := r.Width(), r.Height(), Decoded(s, frameW, frameH, r, d);
    EvenPlanesApart(w, h);
    forall p | ImageSize(w, h) <= p < |d|
      ensures out[p] == d[p]
    {
      PlanesBehind(s, frameW, LumaStart(frameW, r), ChromaStart(frameW, frameH, r), w, h, d, p);
    }
  }

  // ----- and exactly for even crops -----

  /** All bytes zero except the one at `hot`. */
  function Spot(length: nat, hot: int): (s: seq<byte>)
    ensures |s| == length
    ensures forall k :: 0 <= k < length ==> s[k] == if k == hot then 1 else 0
  {
    seq(length, k => if k == hot then 1 else 0)
  }

  ghost predicate DecodesEveryFrame(srcLen: nat, dstLen: nat, frameW: int, frameH: int, r: Rect)
    requires InFrame(frameW, frameH, r)
  {
    forall s: seq<byte>, d: seq<byte> :: |s| == srcLen && |d| == dstLen ==>
      IsCrop(s, frameW, frameH, r, Decoded(s, frameW, frameH, r, d))
  }

  /** The crop's first U sample is read from the right byte only for an even corner. */
  lemma OddCornerMissesChroma(srcLen: nat, dstLen: nat, frameW: int, frameH: int, r: Rect)
    requires InFrame(frameW, frameH, r) && r.Width() % 2 == 0 && r.Height() % 2 == 0
    requires ReadsFit(srcLen, frameW, frameH, r) && ImageSize(r.Width(), r.Height()) <= dstLen
    requires r.left % 2 != 0 || r.top % 2 != 0
    ensures !DecodesEveryFrame(srcLen, dstLen, frameW, frameH, r)
  {
    var w, h := r.Width(), r.Height();
    var read := Cell(RowStart(frameW, frameH), frameW, r.top - r.top / 2, r.left);
    var wanted := Cell(RowStart(frameW, frameH), frameW, r.top / 2, 2 * (r.left / 2));
    assert 0 <= wanted < read < srcLen by {
      WantedInFrame(srcLen, frameW, frameH, r);
      if r.top % 2 != 0 {
        RowStartMono(frameW, r.top / 2 + 1, r.top - r.top / 2);
      }
    }
    var s, d := Spot(srcLen, read), Spot(dstLen, 0);
    DecodedChroma(s, frameW, frameH, r, d, 0, 0);
    assert PlU(Decoded(s, frameW, frameH, r, d), w, h, 0, 0) != CropU(s, frameW, frameH, r, 0, 0);
  }

  /** Where the chroma of a crop of any corner begins. */
  function CropChromaStart(frameW: int, frameH: int, r: Rect): int {
    Cell(RowStart(frameW, frameH), frameW, r.top / 2, 2 * (r.left / 2))
  }

  /** A crop of any size and from any corner can be put out: what the decoder misses is not asked in vain. */
  lemma EveryCropHasAnImage(s: seq<byte>, frameW: int, frameH: int, r: Rect, d: seq<byte>)
    requires InFrame(frameW, frameH, r) && PlanarSize(r.Width(), r.Height()) <= |d|
    ensures IsCrop(s, frameW, frameH, r,
                   Planar(s, frameW, LumaStart(frameW, r), CropChromaStart(frameW, frameH, r), r.Width(), r.Height(), d))
  {
    var w, h, y0, uv0 := r.Width(), r.Height(), LumaStart(frameW, r), CropChromaStart(frameW, frameH, r);
    var out := Planar(s, frameW, y0, uv0, w, h, d);
    forall y, x | 0 <= y < h && 0 <= x < w
      ensures PlY(out, w, y, x) == CropY(s, frameW, r, y, x)
    {
      PlanarLuma(s, frameW, y0, uv0, w, h, d, y, x);
      RowStartAdds(frameW, r.top, y);
    }
    forall j, i | 0 <= j < (h + 1) / 2 && 0 <= i < (w + 1) / 2
      ensures PlU(out, w, h, j, i) == CropU(s, frameW, frameH, r, j, i)
      ensures PlV(out, w, h, j, i) == CropV(s, frameW, frameH, r, j, i)
    {
      PlanarChroma(s, frameW, y0, uv0, w, h, d, j, i);
      RowStartAdds(frameW, r.top / 2, j);
    }
  }

  /** A stride longer by one puts every row one byte further per row. */
  lemma {:induction false} LongerStride(a: int, rows: nat)
    ensures RowStart(a + 1, rows) == RowStart(a, rows) + rows
  {
    if rows > 0 {
      LongerStride(a, rows - 1);
    }
  }

  /** For an odd size the decoder's last write comes before the last byte of the image. */
  lemma OddSizeEndsEarly(w: int, h: int)
    requires 1 <= w && 1 <= h && (w % 2 != 0 || h % 2 != 0)
    ensures Cell(VStart(w, h), w / 2, (h + 1) / 2 - 1, (w + 1) / 2) <= LastSample(w, h)
  {
    var a, rows := w / 2, (h + 1) / 2;
    RowStartAdds(a, rows, rows);
    if h % 2 == 0 {
      assert RowStart(a, h) / 2 == RowStart(a, rows);
    } else {
      assert RowStart(a, h) == RowStart(a, rows + rows) - a;
    }
    if w % 2 != 0 {
      LongerStride(a, rows);
    }
  }

  /** Where a planar image has its last V sample. */
  function LastSample(w: int, h: int): int {
    var cols, rows := (w + 1) / 2, (h + 1) / 2;
    Cell(RowStart(w, h) + RowStart(cols, rows), cols, rows - 1, cols - 1)
  }

  /** The decoder never writes the last sample of an odd image: the byte, if there is one, stays as it was. */
  lemma OddSizeMissesLastSample(s: seq<byte>, frameW: int, frameH: int, r: Rect, d: seq<byte>)
    requires InFrame(frameW, frameH, r) && (r.Width() % 2 != 0 || r.Height() % 2 != 0)
    ensures At(Decoded(s, frameW, frameH, r, d), LastSample(r.Width(), r.Height())) == At(d, LastSample(r.Width(), r.Height()))
  {
    var w, h := r.Width(), r.Height();
    var p := LastSample(w, h);
    OddSizeEndsEarly(w, h);
    if p < |d| {
      PlanesBehind(s, frameW, LumaStart(frameW, r), ChromaStart(frameW, frameH, r), w, h, d, p);
    }
  }

  /** An odd crop is not decoded: a frame whose last V sample is not what was in the buffer shows it. */
  lemma OddSizeLosesChroma(srcLen: nat, dstLen: nat, frameW: int, frameH: int, r: Rect)
    requires InFrame(frameW, frameH, r) && ReadsFit(srcLen, frameW, frameH, r)
    requires r.Width() % 2 != 0 || r.Height() % 2 != 0
    ensures !DecodesEveryFrame(srcLen, dstLen, frameW, frameH, r)
  {
    var w, h := r.Width(), r.Height();
    var j, i := (h + 1) / 2 - 1, (w + 1) / 2 - 1;
    var wanted := Cell(RowStart(frameW, frameH), frameW, r.top / 2 + j, 2 * (r.left / 2 + i) + 1);
    LastWantedInFrame(srcLen, frameW, frameH, r, j, i);
    var s, d := Spot(srcLen, wanted), Spot(dstLen, dstLen);
    var out := Decoded(s, frameW, frameH, r, d);
    OddSizeMissesLastSample(s, frameW, frameH, r, d);
    assert PlV(out, w, h, j, i) == 0 != CropV(s, frameW, frameH, r, j, i);
  }

  lemma LastWantedInFrame(srcLen: nat, frameW: int, frameH: int, r: Rect, j: int, i: int)
    requires InFrame(frameW, frameH, r) && ReadsFit(srcLen, frameW, frameH, r)
    requires j == (r.Height() + 1) / 2 - 1 && i == (r.Width() + 1) / 2 - 1
    ensures 0 <= Cell(RowStart(frameW, frameH), frameW, r.top / 2 + j, 2 * (r.left / 2 + i) + 1) < srcLen
  {
    CropStart(frameW, frameH, r);
    RowStartMono(frameW, 0, r.top / 2 + j);
    RowStartMono(frameW, r.top / 2 + j, r.top - r.top / 2 + j);
    DecoderChromaFits(srcLen, frameW, frameH, r);
    ChromaAddress(frameW, frameH, r, j, i);
    assert Cell(ChromaStart(frameW, frameH, r), frameW, j, 2 * ((r.Width() + 1) / 2)) <= srcLen;
  }

  lemma WantedInFrame(srcLen: nat, frameW: int, frameH: int, r: Rect)
    requires InFrame(frameW, frameH, r) && ReadsFit(srcLen, frameW, frameH, r)
    ensures 0 <= Cell(RowStart(frameW, frameH), frameW, r.top / 2, 2 * (r.left / 2))
    ensures Cell(RowStart(frameW, frameH), frameW, r.top / 2, 2 * (r.left / 2)) + 1 < srcLen
    ensures Cell(RowStart(frameW, frameH), frameW, r.top / 2, 2 * (r.left / 2))
         <= Cell(RowStart(frameW, frameH), frameW, r.top - r.top / 2, r.left) < srcLen
  {
    CropStart(frameW, frameH, r);
    RowStartMono(frameW, 0, r.top / 2);
    RowStartMono(frameW, r.top / 2, r.top - r.top / 2);
    DecoderChromaFits(srcLen, frameW, frameH, r);
    ChromaAddress(frameW, frameH, r, 0, 0);
    assert Cell(ChromaStart(frameW, frameH, r), frameW, 0, 2 * ((r.Width() + 1) / 2)) <= srcLen;
  }

  /**
   For any frame and crop the decoder may be called with: it extracts the crop
   from every frame content exactly when corner and size of the crop are even.
   */
  lemma DecoderExactIffEven(srcLen: nat, dstLen: nat, frameW: int, frameH: int, r: Rect)
    requires InFrame(frameW, frameH, r)
    requires ReadsFit(srcLen, frameW, frameH, r) && WritesFit(dstLen, r.Width(), r.Height())
    ensures DecodesEveryFrame(srcLen, dstLen, frameW, frameH, r) <==> Even(r)
  {
    var w, h := r.Width(), r.Height();
    if w % 2 != 0 || h % 2 != 0 {
      OddSizeLosesChroma(srcLen, dstLen, frameW, frameH, r);
    } else {
      assert ImageSize(w, h) <= dstLen by {
        EvenPlanesApart(w, h);
        assert Cell(VStart(w, h), w / 2, (h + 1) / 2 - 1, (w + 1) / 2) == Cell(VStart(w, h), w / 2, (h + 1) / 2, 0);
      }
      if !Even(r) {
        OddCornerMissesChroma(srcLen, dstLen, frameW, frameH, r);
      } else {
        forall s: seq<byte>, d: seq<byte> | |s| == srcLen && |d| == dstLen
          ensures IsCrop(s, frameW, frameH, r, Decoded(s, frameW, frameH, r, d))
        {
          EvenCropDecodes(s, frameW, frameH, r, d);
        }
      }
    }
  }
}
