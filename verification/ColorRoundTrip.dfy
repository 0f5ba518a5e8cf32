/**
 The conversions against each other: encoding then decoding returns the image,
 crops compose, and at one size the two are inverse permutations of the bytes.
 */
module ColorRoundTrip {
  import opened CTypes
  import opened ColorConvert
  import opened ColorTheorems

  // ----- the encoder, pixel by pixel -----

  /** A byte of the frame that belongs to no pixel of the w x h image. */
  ghost predicate IsPadding(w: int, h: int, frameW: int, frameH: int, p: int) {
    && (forall y :: 0 <= y < h ==> !(Cell(0, frameW, y, 0) <= p < Cell(0, frameW, y, w)))
    && (forall j :: 0 <= j < h / 2 ==>
          !(Cell(RowStart(frameW, frameH), frameW, j, 0) <= p < Cell(RowStart(frameW, frameH), frameW, j, 2 * (w / 2))))
  }

  function LumaEncoded(s: seq<byte>, w: nat, h: nat, frameW: int, d: seq<byte>): (out: seq<byte>)
    ensures |out| == |d|
  {
    CopyRows(d, 0, frameW, s, 0, w, w, h)
  }

  /** The luma of an image of either parity lands at its pixels, ... */
  lemma EncodedLuma(s: seq<byte>, w: nat, h: nat, frameW: int, frameH: int, d: seq<byte>, y: int, x: int)
    requires w <= frameW && h <= frameH && ImageSize(frameW, frameH) <= |d|
    requires 0 <= y < h && 0 <= x < w
    ensures NvY(Encoded(s, w, h, frameW, frameH, d), frameW, y, x) == PlY(s, w, y, x)
  {
    var p, base := Cell(0, frameW, y, x), RowStart(frameW, frameH);
    assert 0 <= p < base && Cell(base, frameW, h / 2, 0) <= |d| by {
      CellInRows(0, frameW, frameH, y, x);
      ChromaRowsFit(frameW, frameH, h / 2);
    }
    forall j | 0 <= j < h / 2
      ensures p < Cell(base, frameW, j, 0)
    {
      RowStartMono(frameW, 0, j);
    }
    CopyRowsHit(d, 0, frameW, s, 0, w, w, h, y, x);
    MergeRowsMiss(LumaEncoded(s, w, h, frameW, d), base, frameW,
                  s, RowStart(w, h), RowStart(w, h) + RowStart(w / 2, h / 2), w / 2, w / 2, h / 2, p);
  }

  /** ... and so do its whole two by two blocks of chroma, from planes of rounded-down size. */
  lemma EncodedChroma(s: seq<byte>, w: nat, h: nat, frameW: int, frameH: int, d: seq<byte>, j: int, i: int)
    requires w <= frameW && h <= frameH && ImageSize(frameW, frameH) <= |d|
    requires 0 <= j < h / 2 && 0 <= i < w / 2
    ensures var out := Encoded(s, w, h, frameW, frameH, d);
      && NvU(out, frameW, frameH, j, i) == At(s, Cell(RowStart(w, h), w / 2, j, i))
      && NvV(out, frameW, frameH, j, i) == At(s, Cell(RowStart(w, h) + RowStart(w / 2, h / 2), w / 2, j, i))
  {
    ChromaRowsFit(frameW, frameH, h / 2);
    var u, v, base := RowStart(w, h), RowStart(w, h) + RowStart(w / 2, h / 2), RowStart(frameW, frameH);
    MergeRowsHit(LumaEncoded(s, w, h, frameW, d), base, frameW, s, u, v, w / 2, w / 2, h / 2, j, i);
  }

  /** Every even image is shown by the frame it is encoded into. */
  lemma EncoderShowsImage(s: seq<byte>, w: nat, h: nat, frameW: int, frameH: int, d: seq<byte>)
    requires w <= frameW && h <= frameH && ImageSize(frameW, frameH) <= |d| && w % 2 == 0 && h % 2 == 0
    ensures ShowsImage(s, w, h, frameW, frameH, Encoded(s, w, h, frameW, frameH, d))
  {
    var out := Encoded(s, w, h, frameW, frameH, d);
    forall y, x | 0 <= y < h && 0 <= x < w
      ensures NvY(out, frameW, y, x) == PlY(s, w, y, x)
    {
      EncodedLuma(s, w, h, frameW, frameH, d, y, x);
    }
    forall j, i | 0 <= j < (h + 1) / 2 && 0 <= i < (w + 1) / 2
      ensures NvU(out, frameW, frameH, j, i) == PlU(s, w, h, j, i)
      ensures NvV(out, frameW, frameH, j, i) == PlV(s, w, h, j, i)
    {
      EncodedChroma(s, w, h, frameW, frameH, d, j, i);
    }
  }

  /** Bytes of the frame outside the image keep their old value. */
  lemma EncoderKeepsPadding(s: seq<byte>, w: nat, h: nat, frameW: int, frameH: int, d: seq<byte>, p: int)
    requires w <= frameW && h <= frameH && ImageSize(frameW, frameH) <= |d|
    requires 0 <= p < |d| && IsPadding(w, h, frameW, frameH, p)
    ensures Encoded(s, w, h, frameW, frameH, d)[p] == d[p]
  {
    ChromaRowsFit(frameW, frameH, h / 2);
    CopyRowsMiss(d, 0, frameW, s, 0, w, w, h, p);
    MergeRowsMiss(LumaEncoded(s, w, h, frameW, d), RowStart(frameW, frameH), frameW,
                  s, RowStart(w, h), RowStart(w, h) + RowStart(w / 2, h / 2), w / 2, w / 2, h / 2, p);
  }

  /** The frame's byte for the last V sample of an odd image lies outside every row that is written. */
  lemma OddImageEndsInPadding(w: int, h: int, frameW: int, frameH: int, p: int)
    requires 1 <= w <= frameW && 1 <= h <= frameH && (w % 2 != 0 || h % 2 != 0)
    requires p == Cell(RowStart(frameW, frameH), frameW, (h + 1) / 2 - 1, 2 * ((w + 1) / 2 - 1) + 1)
    ensures 0 <= p && IsPadding(w, h, frameW, frameH, p)
  {
    var rows, base := (h + 1) / 2, RowStart(frameW, frameH);
    RowStartMono(frameW, 0, frameH);
    RowStartMono(frameW, 0, rows - 1);
    forall y | 0 <= y < h
      ensures Cell(0, frameW, y, w) <= p
    {
      RowStartMono(frameW, y + 1, frameH);
    }
    forall j | 0 <= j < h / 2
      ensures !(Cell(base, frameW, j, 0) <= p < Cell(base, frameW, j, 2 * (w / 2)))
    {
      if j < rows - 1 {
        RowStartMono(frameW, j + 1, rows - 1);
      }
    }
  }

  /** The encoder never writes the last V sample of an odd image. */
  lemma OddImageMissesLastSample(s: seq<byte>, w: nat, h: nat, frameW: int, frameH: int, d: seq<byte>)
    requires 1 <= w <= frameW && 1 <= h <= frameH && ImageSize(frameW, frameH) <= |d|
    requires w % 2 != 0 || h % 2 != 0
    ensures var j, i := (h + 1) / 2 - 1, (w + 1) / 2 - 1;
      NvV(Encoded(s, w, h, frameW, frameH, d), frameW, frameH, j, i) == NvV(d, frameW, frameH, j, i)
  {
    var p := Cell(RowStart(frameW, frameH), frameW, (h + 1) / 2 - 1, 2 * ((w + 1) / 2 - 1) + 1);
    OddImageEndsInPadding(w, h, frameW, frameH, p);
    if p < |d| {
      EncoderKeepsPadding(s, w, h, frameW, frameH, d, p);
    }
  }

  ghost predicate EncodesEveryImage(srcLen: nat, dstLen: nat, w: nat, h: nat, frameW: int, frameH: int) {
    forall s: seq<byte>, d: seq<byte> :: |s| == srcLen && |d| == dstLen ==>
      ShowsImage(s, w, h, frameW, frameH, Encoded(s, w, h, frameW, frameH, d))
  }

  /** For any image and any frame that holds it: every content is shown exactly when the image's size is even. */
  lemma EncoderExactIffEven(srcLen: nat, dstLen: nat, w: nat, h: nat, frameW: int, frameH: int)
    requires 1 <= w <= frameW && 1 <= h <= frameH
    requires PlanarSize(w, h) <= srcLen && ImageSize(frameW, frameH) <= dstLen
    ensures EncodesEveryImage(srcLen, dstLen, w, h, frameW, frameH) <==> w % 2 == 0 && h % 2 == 0
  {
    if w % 2 == 0 && h % 2 == 0 {
      forall s: seq<byte>, d: seq<byte> | |s| == srcLen && |d| == dstLen
        ensures ShowsImage(s, w, h, frameW, frameH, Encoded(s, w, h, frameW, frameH, d))
      {
        EncoderShowsImage(s, w, h, frameW, frameH, d);
      }
    } else {
      var j, i := (h + 1) / 2 - 1, (w + 1) / 2 - 1;
      var s, d := Spot(srcLen, LastSample(w, h)), Spot(dstLen, dstLen);
      PlanarApart(srcLen, w, h);
      CellInRows(RowStart(w, h) + RowStart((w + 1) / 2, (h + 1) / 2), (w + 1) / 2, (h + 1) / 2, j, i);
      OddImageMissesLastSample(s, w, h, frameW, frameH, d);
      assert PlV(s, w, h, j, i) == 1;
      assert NvV(Encoded(s, w, h, frameW, frameH, d), frameW, frameH, j, i) == 0;
    }
  }

  // ----- an image is determined by its pixels -----

  /** Every offset into some rows is a cell of one of them. */
  lemma {:induction false} CellOf(p: int, stride: int, rows: nat) returns (row: int, col: int)
    requires 0 < stride && 0 <= p < RowStart(stride, rows)
    ensures 0 <= row < rows && 0 <= col < stride && p == Cell(0, stride, row, col)
  {
    if p >= RowStart(stride, rows - 1) {
      row, col := rows - 1, p - RowStart(stride, rows - 1);
    } else {
      row, col := CellOf(p, stride, rows - 1);
    }
  }

  /** Two planar images of one even size with the same samples. */
  ghost predicate SameSamples(a: seq<byte>, b: seq<byte>, w: int, h: int) {
    && (forall y, x :: 0 <= y < h && 0 <= x < w ==> PlY(a, w, y, x) == PlY(b, w, y, x))
    && (forall j, i :: 0 <= j < h / 2 && 0 <= i < w / 2 ==> PlU(a, w, h, j, i) == PlU(b, w, h, j, i))
    && (forall j, i :: 0 <= j < h / 2 && 0 <= i < w / 2 ==> PlV(a, w, h, j, i) == PlV(b, w, h, j, i))
  }

  /** The plane, row and column of a byte of an even image. */
  lemma SampleOf(w: int, h: int, p: int) returns (plane: int, row: int, col: int)
    requires 0 < w && 0 < h && w % 2 == 0 && h % 2 == 0 && 0 <= p < ImageSize(w, h)
    ensures plane == 0 ==> 0 <= row < h && 0 <= col < w && p == Cell(0, w, row, col)
    ensures plane == 1 ==> 0 <= row < h / 2 && 0 <= col < w / 2 && p == Cell(UStart(w, h), w / 2, row, col)
    ensures plane == 2 ==> 0 <= row < h / 2 && 0 <= col < w / 2 && p == Cell(VStart(w, h), w / 2, row, col)
    ensures 0 <= plane <= 2
  {
    EvenPlanesApart(w, h);
    if p < UStart(w, h) {
      plane := 0;
      row, col := CellOf(p, w, h);
    } else if p < VStart(w, h) {
      plane := 1;
      row, col := CellOf(p - UStart(w, h), w / 2, h / 2);
    } else {
      plane := 2;
      row, col := CellOf(p - VStart(w, h), w / 2, h / 2);
    }
  }

  lemma SameSamplesSameBytes(a: seq<byte>, b: seq<byte>, w: int, h: int)
    requires 0 < w && 0 < h && w % 2 == 0 && h % 2 == 0
    requires ImageSize(w, h) <= |a| && ImageSize(w, h) <= |b| && SameSamples(a, b, w, h)
    ensures 0 <= ImageSize(w, h) && a[..ImageSize(w, h)] == b[..ImageSize(w, h)]
  {
    EvenPlanesApart(w, h);
    forall p | 0 <= p < ImageSize(w, h)
      ensures a[p] == b[p]
    {
      var plane, row, col := SampleOf(w, h, p);
      if plane == 0 {
        assert PlY(a, w, row, col) == PlY(b, w, row, col);
      } else if plane == 1 {
        assert PlU(a, w, h, row, col) == PlU(b, w, h, row, col);
      } else {
        assert PlV(a, w, h, row, col) == PlV(b, w, h, row, col);
      }
    }
  }

  // ----- encode, then decode -----

  function WholeImage(w: int, h: int): Rect { Rect(0, 0, w - 1, h - 1) }

  /** The whole-image crop of a frame that shows an image has the image's samples. */
  lemma ShownCropSamples(img: seq<byte>, w: int, h: int, frameW: int, frameH: int, frame: seq<byte>, out: seq<byte>)
    requires 0 < w && 0 < h && w % 2 == 0 && h % 2 == 0
    requires ShowsImage(img, w, h, frameW, frameH, frame) && IsCrop(frame, frameW, frameH, WholeImage(w, h), out)
    ensures SameSamples(out, img, w, h)
  {
    var r := WholeImage(w, h);
    forall y, x | 0 <= y < h && 0 <= x < w
      ensures PlY(out, w, y, x) == PlY(img, w, y, x)
    {
      assert PlY(out, w, y, x) == CropY(frame, frameW, r, y, x);
    }
    forall j, i | 0 <= j < h / 2 && 0 <= i < w / 2
      ensures PlU(out, w, h, j, i) == PlU(img, w, h, j, i)
      ensures PlV(out, w, h, j, i) == PlV(img, w, h, j, i)
    {
      assert PlU(out, w, h, j, i) == CropU(frame, frameW, frameH, r, j, i);
      assert PlV(out, w, h, j, i) == CropV(frame, frameW, frameH, r, j, i);
    }
  }

  /**
   An even image put into any frame that holds it comes back byte for byte when
   its rectangle is decoded; nothing behind the decoded image is touched.
   */
  lemma DecodeUndoesEncode(img: seq<byte>, w: int, h: int, frameW: int, frameH: int, f: seq<byte>, d: seq<byte>)
    requires 0 < w <= frameW && 0 < h <= frameH && w % 2 == 0 && h % 2 == 0
    requires |img| == ImageSize(w, h) <= |d| && ImageSize(frameW, frameH) <= |f|
    ensures Decoded(Encoded(img, w, h, frameW, frameH, f), frameW, frameH, WholeImage(w, h), d)
         == img + d[ImageSize(w, h)..]
  {
    var frame := Encoded(img, w, h, frameW, frameH, f);
    EncoderShowsImage(img, w, h, frameW, frameH, f);
    DecodeOfShown(img, w, h, frameW, frameH, frame, d);
  }

  /** Decoding a frame that shows an image gives that image. */
  lemma DecodeOfShown(img: seq<byte>, w: int, h: int, frameW: int, frameH: int, frame: seq<byte>, d: seq<byte>)
    requires 0 < w <= frameW && 0 < h <= frameH && w % 2 == 0 && h % 2 == 0
    requires |img| == ImageSize(w, h) <= |d| && ShowsImage(img, w, h, frameW, frameH, frame)
    ensures Decoded(frame, frameW, frameH, WholeImage(w, h), d) == img + d[|img|..]
  {
    var out := Decoded(frame, frameW, frameH, WholeImage(w, h), d);
    assert SameSamples(out, img, w, h) by {
      EvenCropDecodes(frame, frameW, frameH, WholeImage(w, h), d);
      ShownCropSamples(img, w, h, frameW, frameH, frame, out);
    }
    SameSamplesSameBytes(out, img, w, h);
    DecodedTail(frame, frameW, frameH, WholeImage(w, h), d);
    HeadAndTail(out, img, d);
  }

  lemma HeadAndTail(out: seq<byte>, head: seq<byte>, d: seq<byte>)
    requires |head| <= |out| == |d| && out[..|head|] == head[..|head|] && out[|head|..] == d[|head|..]
    ensures out == head + d[|head|..]
  {
    assert out == out[..|head|] + out[|head|..];
  }

  // ----- crops of crops -----

  function Shifted(inner: Rect, outer: Rect): Rect {
    Rect(outer.left + inner.left, outer.top + inner.top, outer.left + inner.right, outer.top + inner.bottom)
  }

  /** The crop `r` of `s` and the crop `r'` of `s'` have the same samples. */
  ghost predicate SameCrops(s: seq<byte>, w1: int, h1: int, r: Rect, s': seq<byte>, w2: int, h2: int, r': Rect) {
    && (forall y, x :: 0 <= y < r.Height() && 0 <= x < r.Width() ==> CropY(s, w1, r, y, x) == CropY(s', w2, r', y, x))
    && (forall j, i :: 0 <= j < r.Height() / 2 && 0 <= i < r.Width() / 2 ==>
          CropU(s, w1, h1, r, j, i) == CropU(s', w2, h2, r', j, i))
    && (forall j, i :: 0 <= j < r.Height() / 2 && 0 <= i < r.Width() / 2 ==>
          CropV(s, w1, h1, r, j, i) == CropV(s', w2, h2, r', j, i))
  }

  /** Crops with the same samples decode to the same bytes. */
  lemma CropsAgree(s: seq<byte>, w1: int, h1: int, r: Rect, s': seq<byte>, w2: int, h2: int, r': Rect, d: seq<byte>)
    requires InFrame(w1, h1, r) && InFrame(w2, h2, r') && Even(r) && Even(r')
    requires r.Width() == r'.Width() && r.Height() == r'.Height()
    requires ImageSize(r.Width(), r.Height()) <= |d|
    requires SameCrops(s, w1, h1, r, s', w2, h2, r')
    ensures Decoded(s, w1, h1, r, d) == Decoded(s', w2, h2, r', d)
  {
    var w, h := r.Width(), r.Height();
    var a, b := Decoded(s, w1, h1, r, d), Decoded(s', w2, h2, r', d);
    EvenCropDecodes(s, w1, h1, r, d);
    EvenCropDecodes(s', w2, h2, r', d);
    SameSamplesSameBytes(a, b, w, h);
    assert a == a[..ImageSize(w, h)] + a[ImageSize(w, h)..];
    assert b == b[..ImageSize(w, h)] + b[ImageSize(w, h)..];
  }

  /** A chroma sample of the inner crop, traced to the original frame. */
  lemma InnerCropChroma(s: seq<byte>, frameW: int, frameH: int, outer: Rect, inner: Rect,
                        image: seq<byte>, frame: seq<byte>, j: int, i: int)
    requires InFrame(frameW, frameH, outer) && Even(outer)
    requires InFrame(outer.Width(), outer.Height(), inner) && Even(inner)
    requires IsCrop(s, frameW, frameH, outer, image)
    requires ShowsImage(image, outer.Width(), outer.Height(), outer.Width(), outer.Height(), frame)
    requires 0 <= j < inner.Height() / 2 && 0 <= i < inner.Width() / 2
    ensures var w, h, both := outer.Width(), outer.Height(), Shifted(inner, outer);
      && CropU(frame, w, h, inner, j, i) == CropU(s, frameW, frameH, both, j, i)
      && CropV(frame, w, h, inner, j, i) == CropV(s, frameW, frameH, both, j, i)
  {
    var w, h := outer.Width(), outer.Height();
    var j', i' := inner.top / 2 + j, inner.left / 2 + i;
    assert NvU(frame, w, h, j', i') == PlU(image, w, h, j', i') == CropU(s, frameW, frameH, outer, j', i');
    assert NvV(frame, w, h, j', i') == PlV(image, w, h, j', i') == CropV(s, frameW, frameH, outer, j', i');
  }

  /** An inner crop of a frame that shows a crop is a crop of the original frame. */
  lemma InnerCropSamples(s: seq<byte>, frameW: int, frameH: int, outer: Rect, inner: Rect,
                         image: seq<byte>, frame: seq<byte>)
    requires InFrame(frameW, frameH, outer) && Even(outer)
    requires InFrame(outer.Width(), outer.Height(), inner) && Even(inner)
    requires IsCrop(s, frameW, frameH, outer, image)
    requires ShowsImage(image, outer.Width(), outer.Height(), outer.Width(), outer.Height(), frame)
    ensures SameCrops(frame, outer.Width(), outer.Height(), inner, s, frameW, frameH, Shifted(inner, outer))
  {
    var w, h, both := outer.Width(), outer.Height(), Shifted(inner, outer);
    forall y, x | 0 <= y < inner.Height() && 0 <= x < inner.Width()
      ensures CropY(frame, w, inner, y, x) == CropY(s, frameW, both, y, x)
    {
      var y', x' := inner.top + y, inner.left + x;
      assert NvY(frame, w, y', x') == PlY(image, w, y', x') == CropY(s, frameW, outer, y', x');
    }
    forall j, i | 0 <= j < inner.Height() / 2 && 0 <= i < inner.Width() / 2
      ensures CropU(frame, w, h, inner, j, i) == CropU(s, frameW, frameH, both, j, i)
      ensures CropV(frame, w, h, inner, j, i) == CropV(s, frameW, frameH, both, j, i)
    {
      InnerCropChroma(s, frameW, frameH, outer, inner, image, frame, j, i);
    }
  }

  lemma ShiftedFits(frameW: int, frameH: int, outer: Rect, inner: Rect)
    requires InFrame(frameW, frameH, outer) && Even(outer)
    requires InFrame(outer.Width(), outer.Height(), inner) && Even(inner)
    ensures InFrame(frameW, frameH, Shifted(inner, outer)) && Even(Shifted(inner, outer))
    ensures Shifted(inner, outer).Width() == inner.Width() && Shifted(inner, outer).Height() == inner.Height()
  {
  }

  /**
   Decoding a crop, re-encoding it tightly and cropping again is decoding the
   inner crop of the original frame at once.
   */
  lemma CropsCompose(s: seq<byte>, frameW: int, frameH: int, outer: Rect, inner: Rect,
                     d1: seq<byte>, f: seq<byte>, d2: seq<byte>)
    requires InFrame(frameW, frameH, outer) && Even(outer)
    requires InFrame(outer.Width(), outer.Height(), inner) && Even(inner)
    requires ImageSize(outer.Width(), outer.Height()) <= |d1| && ImageSize(outer.Width(), outer.Height()) <= |f|
    requires ImageSize(inner.Width(), inner.Height()) <= |d2|
    ensures var w, h := outer.Width(), outer.Height();
      var image := Decoded(s, frameW, frameH, outer, d1);
      var reencoded := Encoded(image, w, h, w, h, f);
      Decoded(reencoded, w, h, inner, d2) == Decoded(s, frameW, frameH, Shifted(inner, outer), d2)
  {
    var w, h := outer.Width(), outer.Height();
    var image := Decoded(s, frameW, frameH, outer, d1);
    var reencoded := Encoded(image, w, h, w, h, f);
    assert SameCrops(reencoded, w, h, inner, s, frameW, frameH, Shifted(inner, outer)) by {
      EvenCropDecodes(s, frameW, frameH, outer, d1);
      EncoderShowsImage(image, w, h, w, h, f);
      InnerCropSamples(s, frameW, frameH, outer, inner, image, reencoded);
    }
    ShiftedFits(frameW, frameH, outer, inner);
    CropsAgree(reencoded, w, h, inner, s, frameW, frameH, Shifted(inner, outer), d2);
  }

  // ----- one size: inverse permutations of the bytes -----

  function Evens(t: seq<byte>): (e: seq<byte>)
    ensures |e| == (|t| + 1) / 2
  {
    seq((|t| + 1) / 2, k requires 0 <= k < (|t| + 1) / 2 => t[2 * k])
  }

  function Odds(t: seq<byte>): (o: seq<byte>)
    ensures |o| == |t| / 2
  {
    seq(|t| / 2, k requires 0 <= k < |t| / 2 => t[2 * k + 1])
  }

  lemma {:induction false} EvensAndOddsKeepBytes(t: seq<byte>)
    requires |t| % 2 == 0
    ensures multiset(Evens(t)) + multiset(Odds(t)) == multiset(t)
  {
    if t == [] {
      assert Evens(t) == [] && Odds(t) == [];
    } else {
      EvensAndOddsKeepBytes(t[2..]);
      assert Evens(t) == [t[0]] + Evens(t[2..]);
      assert Odds(t) == [t[1]] + Odds(t[2..]);
      assert t == [t[0]] + [t[1]] + t[2..];
    }
  }

  lemma {:induction false} InterleavedCell(base: int, w: int, row: nat, col: int)
    requires w % 2 == 0
    ensures Cell(base, w, row, 2 * col) == base + 2 * Cell(0, w / 2, row, col)
  {
    if row > 0 {
      InterleavedCell(base, w, row - 1, col);
    }
  }

  /** A frame of exactly the image's size is decoded from its first byte and its first chroma byte. */
  lemma TightIsPlanes(f: seq<byte>, w: int, h: int, d: seq<byte>)
    requires 0 < w && 0 < h
    ensures Decoded(f, w, h, WholeImage(w, h), d) == Planes(f, w, 0, UStart(w, h), w, h, d)
  {
    var r := WholeImage(w, h);
    assert LumaStart(w, r) == 0 && r.top / 2 == 0;
    assert ChromaStart(w, h, r) == UStart(w, h) && r.Width() == w && r.Height() == h;
  }

  /** Byte p of a tight frame decoded to `out`, by plane; `u` and `v` are the plane starts. */
  ghost predicate TightByte(f: seq<byte>, out: seq<byte>, u: int, v: int, p: int) {
    At(out, p) == if p < u then At(f, p) else if p < v then At(f, u + 2 * (p - u)) else At(f, u + 2 * (p - v) + 1)
  }

  lemma TightDecodeByte(f: seq<byte>, w: int, h: int, d: seq<byte>, u: int, v: int, p: int)
    requires 0 < w && 0 < h && w % 2 == 0 && h % 2 == 0 && PlanarSize(w, h) <= |d|
    requires u == UStart(w, h) && v == VStart(w, h) && v - u == RowStart(w / 2, h / 2) && 0 <= p < v + (v - u)
    ensures TightByte(f, Planar(f, w, 0, u, w, h, d), u, v, p)
  {
    if p < u {
      var row, col := CellOf(p, w, h);
      PlanarLuma(f, w, 0, u, w, h, d, row, col);
    } else {
      var q := if p < v then p - u else p - v;
      var row, col := CellOf(q, w / 2, h / 2);
      PlanarChroma(f, w, 0, u, w, h, d, row, col);
      InterleavedCell(u, w, row, col);
    }
  }

  /** Putting the bytes together, with the plane starts as plain numbers. */
  lemma AssembleTight(f: seq<byte>, out: seq<byte>, u: int, v: int)
    requires 0 <= u <= v && |f| == |out| == v + (v - u)
    requires forall p :: 0 <= p < |f| ==> TightByte(f, out, u, v, p)
    ensures out == f[..u] + (Evens(f[u..]) + Odds(f[u..]))
  {
    var c := f[u..];
    var chroma := Evens(c) + Odds(c);
    assert |c| == 2 * (v - u) && |Evens(c)| == v - u;
    forall p | 0 <= p < |f|
      ensures out[p] == (f[..u] + chroma)[p]
    {
      assert TightByte(f, out, u, v, p);
      if u <= p < v {
        assert chroma[p - u] == c[2 * (p - u)] == f[u + 2 * (p - u)];
      } else if v <= p {
        assert chroma[p - u] == Odds(c)[p - v] == c[2 * (p - v) + 1] == f[u + (2 * (p - v) + 1)];
      }
    }
  }

  lemma TightPlanes(f: seq<byte>, w: int, h: int, d: seq<byte>, u: int, v: int)
    requires 0 < w && 0 < h && w % 2 == 0 && h % 2 == 0 && |f| == |d| == ImageSize(w, h)
    requires 0 <= u == UStart(w, h) && v == VStart(w, h) && v - u == RowStart(w / 2, h / 2) && u <= v
    requires |f| == v + (v - u)
    ensures Planes(f, w, 0, u, w, h, d) == f[..u] + (Evens(f[u..]) + Odds(f[u..]))
  {
    EvenPlanesArePlanar(f, w, 0, u, w, h, d);
    var out := Planar(f, w, 0, u, w, h, d);
    forall p | 0 <= p < |f|
      ensures TightByte(f, out, u, v, p)
    {
      TightDecodeByte(f, w, h, d, u, v, p);
    }
    AssembleTight(f, out, u, v);
  }

  /** A tight frame decodes to its luma, then every other chroma byte, then the rest. */
  lemma TightDecode(f: seq<byte>, w: int, h: int, d: seq<byte>)
    requires 0 < w && 0 < h && w % 2 == 0 && h % 2 == 0
    requires |f| == |d| == ImageSize(w, h)
    ensures 0 <= UStart(w, h) <= |f| && |f[UStart(w, h)..]| % 2 == 0
    ensures Decoded(f, w, h, WholeImage(w, h), d)
         == f[..UStart(w, h)] + (Evens(f[UStart(w, h)..]) + Odds(f[UStart(w, h)..]))
  {
    EvenPlanesApart(w, h);
    TightIsPlanes(f, w, h, d);
    TightPlanes(f, w, h, d, UStart(w, h), VStart(w, h));
  }

  /** At one even size the decoder moves every byte of the frame to one place of the image. */
  lemma DecodePermutesBytes(f: seq<byte>, w: int, h: int, d: seq<byte>)
    requires 0 < w && 0 < h && w % 2 == 0 && h % 2 == 0
    requires |f| == |d| == ImageSize(w, h)
    ensures multiset(Decoded(f, w, h, WholeImage(w, h), d)) == multiset(f)
  {
    TightDecode(f, w, h, d);
    SplitTailKeepsBytes(f, UStart(w, h));
  }

  lemma SplitTailKeepsBytes(f: seq<byte>, n: nat)
    requires n <= |f| && |f[n..]| % 2 == 0
    ensures multiset(f[..n] + (Evens(f[n..]) + Odds(f[n..]))) == multiset(f)
  {
    EvensAndOddsKeepBytes(f[n..]);
    assert f == f[..n] + f[n..];
  }

  /** Different tight frames of one even size decode to different images. */
  lemma TightDecodeInjective(f: seq<byte>, g: seq<byte>, w: int, h: int, d: seq<byte>)
    requires 0 < w && 0 < h && w % 2 == 0 && h % 2 == 0
    requires |f| == |g| == |d| == ImageSize(w, h)
    requires Decoded(f, w, h, WholeImage(w, h), d) == Decoded(g, w, h, WholeImage(w, h), d)
    ensures f == g
  {
    TightDecode(f, w, h, d);
    TightDecode(g, w, h, d);
    PartsDetermine(f, g, UStart(w, h));
  }

  lemma PartsDetermine(f: seq<byte>, g: seq<byte>, n: nat)
    requires n <= |f| == |g|
    requires f[..n] + (Evens(f[n..]) + Odds(f[n..])) == g[..n] + (Evens(g[n..]) + Odds(g[n..]))
    ensures f == g
  {
    var a, b := Evens(f[n..]) + Odds(f[n..]), Evens(g[n..]) + Odds(g[n..]);
    assert f[..n] == (f[..n] + a)[..n] == (g[..n] + b)[..n] == g[..n];
    assert a == (f[..n] + a)[n..] == (g[..n] + b)[n..] == b;
    SplitsDetermine(f[n..], g[n..]);
    assert f == f[..n] + f[n..] && g == g[..n] + g[n..];
  }

  /** At one even size the encoder undoes the decoder as well, so both are bijections. */
  lemma EncodeUndoesDecode(f: seq<byte>, w: int, h: int, d: seq<byte>, f': seq<byte>)
    requires 0 < w && 0 < h && w % 2 == 0 && h % 2 == 0
    requires |f| == |d| == |f'| == ImageSize(w, h)
    ensures Encoded(Decoded(f, w, h, WholeImage(w, h), d), w, h, w, h, f') == f
  {
    var img := Decoded(f, w, h, WholeImage(w, h), d);
    DecodeUndoesEncode(img, w, h, w, h, f', d);
    assert d[ImageSize(w, h)..] == [];
    TightDecodeInjective(f, Encoded(img, w, h, w, h, f'), w, h, d);
  }

  lemma SplitsDetermine(a: seq<byte>, b: seq<byte>)
    requires |a| == |b| && Evens(a) + Odds(a) == Evens(b) + Odds(b)
    ensures a == b
  {
    assert (Evens(a) + Odds(a))[..|Evens(a)|] == Evens(a);
    assert (Evens(b) + Odds(b))[..|Evens(b)|] == Evens(b);
    assert (Evens(a) + Odds(a))[|Evens(a)|..] == Odds(a);
    assert (Evens(b) + Odds(b))[|Evens(b)|..] == Odds(b);
    forall k | 0 <= k < |a|
      ensures a[k] == b[k]
    {
      if k % 2 == 0 {
        assert a[k] == Evens(a)[k / 2] == Evens(b)[k / 2] == b[k];
      } else {
        assert a[k] == Odds(a)[k / 2] == Odds(b)[k / 2] == b[k];
      }
    }
  }

  lemma EncodePermutesBytes(img: seq<byte>, w: int, h: int, f: seq<byte>)
    requires 0 < w && 0 < h && w % 2 == 0 && h % 2 == 0
    requires |img| == |f| == ImageSize(w, h)
    ensures multiset(Encoded(img, w, h, w, h, f)) == multiset(img)
  {
    var frame := Encoded(img, w, h, w, h, f);
    DecodeUndoesEncode(img, w, h, w, h, f, f);
    assert f[ImageSize(w, h)..] == [];
    DecodePermutesBytes(frame, w, h, f);
    assert Decoded(frame, w, h, WholeImage(w, h), f) == img;
  }
}
