/**
 The decoder at every size and corner, byte by byte: luma is always exact; where
 chroma samples share a byte the last one written stays; nothing else is touched.
 */
module ColorOddSizes {
  import opened CTypes
  import opened ColorConvert
  import opened ColorTheorems

  // ----- rows of samples that share bytes -----

  /** No sample of the row is written to `p`. */
  lemma {:induction false} SplitRowUnwritten(d: seq<byte>, u: int, v: int, s: seq<byte>, from: int, n: nat, p: int)
    requires 0 <= p < |d| && !(u <= p < u + n) && !(v <= p < v + n)
    ensures SplitRow(d, u, v, s, from, n)[p] == d[p]
  {
    if n > 0 {
      SplitRowUnwritten(d, u, v, s, from, n - 1, p);
    }
  }

  /** The last sample of the row that is written to `p` stays. */
  lemma {:induction false} SplitRowLast(d: seq<byte>, u: int, v: int, s: seq<byte>, from: int, n: nat,
                                        i: int, second: bool, p: int)
    requires 0 <= p < |d| && 0 <= i < n && p == (if second then v else u) + i
    requires !(u + i < p < u + n) && !(v + i < p < v + n) && (!second ==> v + i != p)
    ensures SplitRow(d, u, v, s, from, n)[p] == At(s, from + 2 * i + if second then 1 else 0)
  {
    if i < n - 1 {
      SplitRowLast(d, u, v, s, from, n - 1, i, second, p);
    }
  }

  /** No sample of the rows from `first` on is written to `p`. */
  ghost predicate Unwritten(u: int, v: int, stride: int, cols: nat, first: nat, n: nat, p: int) {
    forall j :: first <= j < n ==>
      !(Cell(u, stride, j, 0) <= p < Cell(u, stride, j, cols)) && !(Cell(v, stride, j, 0) <= p < Cell(v, stride, j, cols))
  }

  lemma LastRowUnwritten(d: seq<byte>, u: int, v: int, stride: int, s: seq<byte>, from: int, sStride: int,
                         cols: nat, last: nat, p: int)
    requires 0 <= p < |d|
    requires !(Cell(u, stride, last, 0) <= p < Cell(u, stride, last, cols))
    requires !(Cell(v, stride, last, 0) <= p < Cell(v, stride, last, cols))
    ensures SplitRows(d, u, v, stride, s, from, sStride, cols, last + 1)[p]
         == SplitRows(d, u, v, stride, s, from, sStride, cols, last)[p]
  {
    SplitRowsStep(d, u, v, stride, s, from, sStride, cols, last);
    SplitRowUnwritten(SplitRows(d, u, v, stride, s, from, sStride, cols, last),
                      Cell(u, stride, last, 0), Cell(v, stride, last, 0), s, Cell(from, sStride, last, 0), cols, p);
  }

  lemma {:induction false} SplitRowsUnwritten(d: seq<byte>, u: int, v: int, stride: int, s: seq<byte>, from: int,
                                              sStride: int, cols: nat, first: nat, n: nat, p: int)
    requires first <= n && 0 <= p < |d| && Unwritten(u, v, stride, cols, first, n, p)
    ensures SplitRows(d, u, v, stride, s, from, sStride, cols, n)[p]
         == SplitRows(d, u, v, stride, s, from, sStride, cols, first)[p]
  {
    if first < n {
      var last := n - 1;
      SplitRowsUnwritten(d, u, v, stride, s, from, sStride, cols, first, last, p);
      LastRowUnwritten(d, u, v, stride, s, from, sStride, cols, last, p);
    }
  }

  lemma SplitRowsLastRow(d: seq<byte>, u: int, v: int, stride: int, s: seq<byte>, from: int, sStride: int,
                         cols: nat, j: nat, i: int, second: bool, p: int)
    requires 0 <= p < |d| && 0 <= i < cols && p == Cell(if second then v else u, stride, j, i)
    requires !(Cell(u, stride, j, i) < p < Cell(u, stride, j, cols))
    requires !(Cell(v, stride, j, i) < p < Cell(v, stride, j, cols)) && (!second ==> Cell(v, stride, j, i) != p)
    ensures SplitRows(d, u, v, stride, s, from, sStride, cols, j + 1)[p]
         == At(s, Cell(from, sStride, j, 2 * i) + if second then 1 else 0)
  {
    var before, u', v', from' := SplitRows(d, u, v, stride, s, from, sStride, cols, j),
      Cell(u, stride, j, 0), Cell(v, stride, j, 0), Cell(from, sStride, j, 0);
    SplitRowsStep(d, u, v, stride, s, from, sStride, cols, j);
    SplitRowLast(before, u', v', s, from', cols, i, second, p);
    assert Cell(from, sStride, j, 2 * i) == from' + 2 * i;
  }

  lemma SplitRowsLast(d: seq<byte>, u: int, v: int, stride: int, s: seq<byte>, from: int, sStride: int,
                      cols: nat, n: nat, j: nat, i: int, second: bool, p: int)
    requires 0 <= p < |d| && j < n && 0 <= i < cols && p == Cell(if second then v else u, stride, j, i)
    requires !(Cell(u, stride, j, i) < p < Cell(u, stride, j, cols))
    requires !(Cell(v, stride, j, i) < p < Cell(v, stride, j, cols)) && (!second ==> Cell(v, stride, j, i) != p)
    requires Unwritten(u, v, stride, cols, j + 1, n, p)
    ensures SplitRows(d, u, v, stride, s, from, sStride, cols, n)[p]
         == At(s, Cell(from, sStride, j, 2 * i) + if second then 1 else 0)
  {
    SplitRowsUnwritten(d, u, v, stride, s, from, sStride, cols, j + 1, n, p);
    SplitRowsLastRow(d, u, v, stride, s, from, sStride, cols, j, i, second, p);
  }

  // ----- the decoder -----

  /** Where the decoder puts the U sample, or the second, V, of a pair. */
  function SampleAt(w: int, h: int, j: int, i: int, second: bool): int {
    Cell(if second then VStart(w, h) else UStart(w, h), w / 2, j, i)
  }

  /** It is the last one that the decoder writes to its byte. */
  ghost predicate LastWrite(w: int, h: int, j: int, i: int, second: bool) {
    var cols, rows, u, v, p := (w + 1) / 2, (h + 1) / 2, UStart(w, h), VStart(w, h), SampleAt(w, h, j, i, second);
    && 0 <= j < rows && 0 <= i < cols
    && !(Cell(u, w / 2, j, i) < p < Cell(u, w / 2, j, cols)) && !(Cell(v, w / 2, j, i) < p < Cell(v, w / 2, j, cols))
    && (!second ==> Cell(v, w / 2, j, i) != p)
    && Unwritten(u, v, w / 2, cols, j + 1, rows, p)
  }

  lemma SampleFits(length: int, w: int, h: int, j: int, i: int, second: bool)
    requires 1 <= w && 1 <= h && WritesFit(length, w, h) && 0 <= j < (h + 1) / 2 && 0 <= i < (w + 1) / 2
    ensures 0 <= SampleAt(w, h, j, i, second) < length
  {
    var u, v, stride, cols := UStart(w, h), VStart(w, h), w / 2, (w + 1) / 2;
    DecoderWritesFit(length, w, h);
    assert 0 <= Cell(u, stride, j, 0) && Cell(u, stride, j, cols) <= length;
    assert 0 <= Cell(v, stride, j, 0) && Cell(v, stride, j, cols) <= length;
  }

  lemma PlanesLast(s: seq<byte>, frameW: int, y0: int, uv0: int, w: int, h: int, d: seq<byte>, j: int, i: int, second: bool)
    requires 1 <= w && 1 <= h && LastWrite(w, h, j, i, second) && 0 <= SampleAt(w, h, j, i, second) < |d|
    ensures Planes(s, frameW, y0, uv0, w, h, d)[SampleAt(w, h, j, i, second)]
         == At(s, Cell(uv0, frameW, j, 2 * i) + if second then 1 else 0)
  {
    SplitRowsLast(CopyRows(d, 0, w, s, y0, frameW, w, h), UStart(w, h), VStart(w, h), w / 2, s, uv0, frameW,
                  (w + 1) / 2, (h + 1) / 2, j, i, second, SampleAt(w, h, j, i, second));
  }

  /**
   Crops of every size and corner, where U and V samples may share bytes: each
   byte holds the last sample written to it.
   */
  lemma LastWriteStays(s: seq<byte>, frameW: int, frameH: int, r: Rect, d: seq<byte>, j: int, i: int, second: bool)
    requires InFrame(frameW, frameH, r) && LastWrite(r.Width(), r.Height(), j, i, second)
    requires WritesFit(|d|, r.Width(), r.Height())
    ensures 0 <= SampleAt(r.Width(), r.Height(), j, i, second) < |d|
    ensures Decoded(s, frameW, frameH, r, d)[SampleAt(r.Width(), r.Height(), j, i, second)]
         == At(s, Cell(RowStart(frameW, frameH), frameW, r.top - r.top / 2 + j, r.left + 2 * i) + if second then 1 else 0)
  {
    var w, h, y0, uv0 := r.Width(), r.Height(), LumaStart(frameW, r), ChromaStart(frameW, frameH, r);
    SampleFits(|d|, w, h, j, i, second);
    PlanesLast(s, frameW, y0, uv0, w, h, d, j, i, second);
    ChromaAddress(frameW, frameH, r, j, i);
  }

  /** The luma of every crop is exact. */
  lemma LumaIsAlwaysExact(s: seq<byte>, frameW: int, frameH: int, r: Rect, d: seq<byte>, y: int, x: int)
    requires InFrame(frameW, frameH, r) && WritesFit(|d|, r.Width(), r.Height())
    requires 0 <= y < r.Height() && 0 <= x < r.Width()
    ensures PlY(Decoded(s, frameW, frameH, r, d), r.Width(), y, x) == CropY(s, frameW, r, y, x)
  {
    PlanesLumaAlways(s, frameW, LumaStart(frameW, r), ChromaStart(frameW, frameH, r), r.Width(), r.Height(), d, y, x);
    LumaAddress(frameW, r, y, x);
  }

  lemma PlanesLumaAlways(s: seq<byte>, frameW: int, y0: int, uv0: int, w: int, h: int, d: seq<byte>, y: int, x: int)
    requires 1 <= w && 1 <= h && WritesFit(|d|, w, h) && 0 <= y < h && 0 <= x < w
    ensures PlY(Planes(s, frameW, y0, uv0, w, h, d), w, y, x) == At(s, Cell(y0, frameW, y, x))
  {
    var p := Cell(0, w, y, x);
    LumaInBuffer(|d|, w, h, y, x);
    ChromaRowsFollow(w, h, p);
    CopyRowsHit(d, 0, w, s, y0, frameW, w, h, y, x);
    SplitRowsUnwritten(CopyRows(d, 0, w, s, y0, frameW, w, h), UStart(w, h), VStart(w, h), w / 2,
                       s, uv0, frameW, (w + 1) / 2, 0, (h + 1) / 2, p);
  }

  lemma LumaInBuffer(length: int, w: int, h: int, y: int, x: int)
    requires 1 <= w && 1 <= h && WritesFit(length, w, h) && 0 <= y < h && 0 <= x < w
    ensures 0 <= Cell(0, w, y, x) < UStart(w, h) <= length
  {
    CellInRows(0, w, h, y, x);
    PlaneStarts(w, h);
    RowStartMono(w / 2, 0, (h + 1) / 2 - 1);
  }

  lemma ChromaRowsFollow(w: int, h: int, p: int)
    requires 1 <= w && 1 <= h && p < UStart(w, h)
    ensures Unwritten(UStart(w, h), VStart(w, h), w / 2, (w + 1) / 2, 0, (h + 1) / 2, p)
  {
    var u, v, stride := UStart(w, h), VStart(w, h), w / 2;
    PlaneStarts(w, h);
    forall j | 0 <= j < (h + 1) / 2
      ensures p < Cell(u, stride, j, 0) && p < Cell(v, stride, j, 0)
    {
      RowStartMono(stride, 0, j);
    }
  }

  /** Behind the luma, a byte that no chroma sample is written to keeps what it had. */
  lemma UnwrittenStays(s: seq<byte>, frameW: int, frameH: int, r: Rect, d: seq<byte>, p: int)
    requires InFrame(frameW, frameH, r) && UStart(r.Width(), r.Height()) <= p < |d|
    requires var w, h := r.Width(), r.Height();
      Unwritten(UStart(w, h), VStart(w, h), w / 2, (w + 1) / 2, 0, (h + 1) / 2, p)
    ensures 0 <= p && Decoded(s, frameW, frameH, r, d)[p] == d[p]
  {
    var w, h, y0, uv0 := r.Width(), r.Height(), LumaStart(frameW, r), ChromaStart(frameW, frameH, r);
    PlaneStarts(w, h);
    LumaBehind(s, frameW, y0, w, h, d, p);
    SplitRowsUnwritten(CopyRows(d, 0, w, s, y0, frameW, w, h), UStart(w, h), VStart(w, h), w / 2,
                       s, uv0, frameW, (w + 1) / 2, 0, (h + 1) / 2, p);
  }
}
