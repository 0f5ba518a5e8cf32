/**
 Metadata in a parcel: its size, a blob with the metadata at an aligned place
 inside it, and the offset of that place. Any list of optional metadata read
 back is the list that was written, wherever the two blobs lie in memory.

 A blob's bytes are symbolic: byte k of the compact image of a metadata buffer,
 or padding. The library copies images in and out and recognises a whole one.
 */
module MetadataParcel {
  import opened Wrappers
  import opened CTypes
  import opened Division
  import opened MetadataLibrary
  import opened CameraMetadata
  import World = MetadataWorld

  // ----- ALIGN_TO -----

  /** x & ~y */
  function AndNot(x: nat, y: nat): nat {
    if x == 0 then 0 else 2 * AndNot(x / 2, y / 2) + if x % 2 == 1 && y % 2 == 0 then 1 else 0
  }

  /** The macro on 64-bit addresses. */
  function AlignTo(val: int, alignment: nat): int
    requires alignment > 0
  {
    AndNot(ToSizeT(val + (alignment - 1)), alignment - 1)
  }

  lemma {:induction false} AndNotZero(x: nat)
    ensures AndNot(x, 0) == x
  {
    if x > 0 {
      AndNotZero(x / 2);
    }
  }

  lemma ModOfDouble(x: nat, p: nat)
    requires p > 0
    ensures x % (2 * p) == 2 * (x / 2 % p) + x % 2
  {
    var q, r := x / 2 / p, x / 2 % p;
    DivMod(x / 2, p);
    assert (2 * p) * q == 2 * (p * q);
    DivisionIsUnique(x, 2 * p, q, 2 * r + x % 2);
  }

  /** An odd mask clears the last bit. */
  lemma AndNotOdd(x: nat, y: nat)
    ensures AndNot(x, 2 * y + 1) == 2 * AndNot(x / 2, y)
  {
    assert (2 * y + 1) / 2 == y && (2 * y + 1) % 2 == 1;
  }

  lemma AndNotStep(x: nat, y: nat)
    requires AndNot(x / 2, y) == x / 2 - x / 2 % (y + 1)
    ensures AndNot(x, 2 * y + 1) == x - x % (2 * (y + 1))
  {
    AndNotOdd(x, y);
    ModOfDouble(x, y + 1);
  }

  /** Masking the low bits rounds down to a multiple of the power of two. */
  lemma {:induction false} AndNotMask(x: nat, k: nat)
    ensures AndNot(x, Pow2(k) - 1) == x - x % Pow2(k)
  {
    if k == 0 {
      AndNotZero(x);
    } else {
      var p := Pow2(k - 1);
      AndNotMask(x / 2, k - 1);
      AndNotStep(x, p - 1);
    }
  }

  /** Rounding up by adding a - 1 and rounding down gives the least multiple not below. */
  lemma RoundUpIsLeast(val: int, a: nat, start: int)
    requires a > 0 && start == (val + a - 1) - (val + a - 1) % a
    ensures start % a == 0 && val <= start < val + a
    ensures forall other :: val <= other && other % a == 0 ==> start <= other
  {
    var q := (val + a - 1) / a;
    DivMod(val + a - 1, a);
    DivisionIsUnique(start, a, q, 0);
    forall other | val <= other && other % a == 0
      ensures start <= other
    {
      DivMod(other, a);
      if other / a < q {
        Gap(a, other / a, q);
      } else if q < other / a {
        Gap(a, q, other / a);
      }
    }
  }

  /** ALIGN_TO gives the least aligned address that is not below its argument. */
  lemma AlignToIsLeast(val: int, k: nat)
    requires 0 <= val && val + Pow2(k) - 1 < SIZE_LIMIT
    ensures var start := AlignTo(val, Pow2(k));
      && start % Pow2(k) == 0 && val <= start < val + Pow2(k)
      && forall other :: val <= other && other % Pow2(k) == 0 ==> start <= other
  {
    var a := Pow2(k);
    assert ToSizeT(val + (a - 1)) == val + a - 1;
    AndNotMask(val + a - 1, k);
    RoundUpIsLeast(val, a, AlignTo(val, a));
  }

  // ----- blobs -----

  const HEADER_SIZE: nat := 48
  const ENTRY_SIZE: nat := 16

  /** get_camera_metadata_compact_size; only that it is positive and a function of the contents matters. */
  function CompactSize(m: Metadata): (n: nat)
    ensures n > 0
  {
    HEADER_SIZE + ENTRY_SIZE * |m.entries| + DataCount(m.entries)
  }

  datatype Cell = Pad | Piece(m: Metadata, k: nat)

  /** What copy_camera_metadata writes. */
  function Image(m: Metadata): seq<Cell> {
    seq(CompactSize(m), k requires 0 <= k < CompactSize(m) => Piece(Compact(m), k))
  }

  /** What allocate_copy_camera_metadata_checked makes of the bytes it is given. */
  function Recognise(cells: seq<Cell>): Option<Metadata> {
    if cells == [] || cells[0].Pad? then None
    else
      var m := cells[0].m;
      if CompactSize(m) <= |cells| && cells[..CompactSize(m)] == Image(m) && Compact(m) == m then Some(m) else None
  }

  function Blank(n: nat): seq<Cell> {
    seq(n, k => Pad)
  }

  // ----- parcels -----

  datatype Item = Int32(v: int) | Blob(cells: seq<Cell>)

  function NextInt(items: seq<Item>, pos: nat): Option<int> {
    if pos < |items| && items[pos].Int32? then Some(items[pos].v) else None
  }

  /** readBlob gives any number of bytes up to the number that was written; what is left of the blob is skipped. */
  function NextBlob(items: seq<Item>, pos: nat, length: nat): Option<seq<Cell>> {
    if pos < |items| && items[pos].Blob? && length <= |items[pos].cells| then Some(items[pos].cells[..length]) else None
  }

  /** The blob of a metadata buffer, given the address the parcel put the blob at. */
  function Padded(m: Metadata, offset: nat, blobSize: nat): (cells: seq<Cell>)
    requires offset + CompactSize(m) <= blobSize
    ensures |cells| == blobSize
  {
    Blank(offset) + Image(m) + Blank(blobSize - offset - CompactSize(m))
  }

  /** An address at which a blob can be put and aligned inside. */
  ghost predicate GoodAddress(address: int, lg: nat) {
    0 <= address && address + Pow2(lg) - 1 < SIZE_LIMIT
  }

  lemma OffsetFits(address: int, lg: nat)
    requires GoodAddress(address, lg)
    ensures 0 <= AlignTo(address, Pow2(lg)) - address < Pow2(lg)
  {
    AlignToIsLeast(address, lg);
  }

  function Written(metadata: Option<Metadata>, address: int, lg: nat): seq<Item>
    requires GoodAddress(address, lg)
  {
    if metadata.None? then [Int32(0)]
    else
      var blobSize := CompactSize(metadata.value) + Pow2(lg);
      var offset := AlignTo(address, Pow2(lg)) - address;
      OffsetFits(address, lg);
      [Int32(ToInt32(blobSize)), Blob(Padded(metadata.value, offset, blobSize)), Int32(ToInt32(offset))]
  }

  /**
   What is written says where the metadata is: at the least aligned address of
   the blob, whole, with nothing but padding around it.
   */
  lemma WrittenIsAligned(m: Metadata, address: int, lg: nat) returns (cells: seq<Cell>, off: nat)
    requires GoodAddress(address, lg)
    ensures Written(Some(m), address, lg) == [Int32(ToInt32(|cells|)), Blob(cells), Int32(ToInt32(off))]
    ensures |cells| == CompactSize(m) + Pow2(lg)
    ensures 0 <= off < Pow2(lg) && (address + off) % Pow2(lg) == 0
    ensures forall place :: address <= place && place % Pow2(lg) == 0 ==> address + off <= place
    ensures off + CompactSize(m) <= |cells| && cells[off..off + CompactSize(m)] == Image(m)
    ensures forall k :: 0 <= k < |cells| && !(off <= k < off + CompactSize(m)) ==> cells[k] == Pad
    ensures Pow2(lg) <= INT_LIMIT ==> ToInt32(off) == off
  {
    off := LeastOffset(address, lg);
    cells := Padded(m, off, CompactSize(m) + Pow2(lg));
    PaddedAround(m, off, CompactSize(m) + Pow2(lg));
    SmallIsUnchanged(off);
  }

  lemma LeastOffset(address: int, lg: nat) returns (off: nat)
    requires GoodAddress(address, lg)
    ensures off == AlignTo(address, Pow2(lg)) - address < Pow2(lg) && (address + off) % Pow2(lg) == 0
    ensures forall place :: address <= place && place % Pow2(lg) == 0 ==> address + off <= place
  {
    AlignToIsLeast(address, lg);
    off := AlignTo(address, Pow2(lg)) - address;
  }

  lemma PaddedAround(m: Metadata, off: nat, blobSize: nat)
    requires off + CompactSize(m) <= blobSize
    ensures var cells := Padded(m, off, blobSize);
      && cells[off..off + CompactSize(m)] == Image(m)
      && forall k :: 0 <= k < |cells| && !(off <= k < off + CompactSize(m)) ==> cells[k] == Pad
  {
  }

  lemma SmallIsUnchanged(n: nat)
    ensures n < INT_LIMIT ==> ToInt32(n) == n
  {
  }

  datatype ReadResult = ReadResult(status: Status, metadata: Option<Metadata>, pos: nat)

  /** The static readFromParcel. */
  function ReadOne(items: seq<Item>, pos: nat, lg: nat): ReadResult {
    var sizeRead, alignment := NextInt(items, pos), Pow2(lg);
    if sizeRead.None? then ReadResult(NOT_ENOUGH_DATA, None, pos)
    else
      var blobSize := ToSizeT(sizeRead.value);
      if blobSize == 0 then ReadResult(OK, None, pos + 1)
      else if blobSize <= alignment then ReadResult(BAD_VALUE, None, pos + 1)
      else
        var blob := NextBlob(items, pos + 1, blobSize);
        if blob.None? then ReadResult(NOT_ENOUGH_DATA, None, pos + 1)
        else
          var offsetRead := NextInt(items, pos + 2);
          if offsetRead.None? then ReadResult(NOT_ENOUGH_DATA, None, pos + 2)
          else
            var offset := ToSizeT(offsetRead.value);
            if offset >= alignment then ReadResult(BAD_VALUE, None, pos + 3)
            else
              var metadata := Recognise(blob.value[offset..offset + (blobSize - alignment)]);
              ReadResult(if metadata.None? then BAD_VALUE else OK, metadata, pos + 3)
  }

  /** Each way a read can end, by what the parcel holds. Metadata is handed out only with OK. */
  lemma ReadTells(items: seq<Item>, pos: nat, lg: nat)
    ensures var r, size := ReadOne(items, pos, lg), NextInt(items, pos);
      var blob := if size.Some? then NextBlob(items, pos + 1, ToSizeT(size.value)) else None;
      var offset := NextInt(items, pos + 2);
      var none, tooSmall := size.Some? && ToSizeT(size.value) == 0, size.Some? && 0 < ToSizeT(size.value) <= Pow2(lg);
      && (r.status == NOT_ENOUGH_DATA <==> size.None? || (!none && !tooSmall && (blob.None? || offset.None?)))
      && (size.None? ==> r.pos == pos)
      && (size.Some? && !none && !tooSmall && blob.None? ==> r.pos == pos + 1)
      && (blob.Some? && !none && !tooSmall && offset.None? ==> r.pos == pos + 2)
      && (none ==> r == ReadResult(OK, None, pos + 1))
      && (tooSmall ==> r == ReadResult(BAD_VALUE, None, pos + 1))
      && (r.status == OK ==> (r.metadata.None? <==> none))
      && (r.status != OK ==> r.metadata == None)
      && (blob.Some? && offset.Some? && !none && !tooSmall ==>
            && r.pos == pos + 3
            && (ToSizeT(offset.value) >= Pow2(lg) ==> r.status == BAD_VALUE)
            && (ToSizeT(offset.value) < Pow2(lg) ==>
                  var from, size := ToSizeT(offset.value), ToSizeT(size.value) - Pow2(lg);
                  && r.metadata == Recognise(blob.value[from..from + size])
                  && (r.status == if r.metadata.Some? then OK else BAD_VALUE)))
  {
  }

  /** A blob is taken for metadata exactly if it begins with the whole image of a compact one. */
  lemma RecognisedIff(cells: seq<Cell>, m: Metadata)
    ensures Recognise(cells) == Some(m) <==> Compact(m) == m && Image(m) <= cells
  {
    if Compact(m) == m && Image(m) <= cells {
      assert cells == Image(m) + cells[CompactSize(m)..];
      RecogniseImage(m, cells[CompactSize(m)..]);
    }
  }

  // ----- one metadata buffer, written and read -----

  lemma RecogniseImage(m: Metadata, rest: seq<Cell>)
    ensures Recognise(Image(m) + rest) == Some(Compact(m))
  {
    var cells := Image(m) + rest;
    assert cells[0] == Piece(Compact(m), 0);
    assert cells[..CompactSize(m)] == Image(m);
    assert Compact(Compact(m)) == Compact(m) && CompactSize(Compact(m)) == CompactSize(m);
    assert forall k :: 0 <= k < CompactSize(m) ==> Image(Compact(m))[k] == Image(m)[k];
  }

  /** The size in the parcel is the blob's size: it fits an int32. */
  predicate Fits31(metadata: Option<Metadata>, lg: nat) {
    metadata.Some? ==> CompactSize(metadata.value) + Pow2(lg) < INT_LIMIT
  }

  function CompactOption(metadata: Option<Metadata>): Option<Metadata> {
    if metadata.None? then None else Some(Compact(metadata.value))
  }

  /** Reading where something was written gives its compact copy and consumes exactly it. */
  lemma ReadUndoesWrite(before: seq<Item>, metadata: Option<Metadata>, after: seq<Item>,
                        writer: int, lg: nat)
    requires GoodAddress(writer, lg) && Fits31(metadata, lg)
    ensures var items := before + Written(metadata, writer, lg) + after;
      ReadOne(items, |before|, lg)
      == ReadResult(OK, CompactOption(metadata), |before| + |Written(metadata, writer, lg)|)
  {
    var written := Written(metadata, writer, lg);
    var items := before + written + after;
    assert forall i :: 0 <= i < |written| ==> items[|before| + i] == written[i];
    if metadata.Some? {
      var m, alignment := metadata.value, Pow2(lg);
      var blobSize, offset := CompactSize(m) + alignment, AlignTo(writer, alignment) - writer;
      OffsetFits(writer, lg);
      assert items[|before|] == Int32(ToInt32(blobSize)) && items[|before| + 2] == Int32(ToInt32(offset));
      assert items[|before| + 1] == Blob(Padded(m, offset, blobSize));
      ReadTriple(items, |before|, m, offset, lg);
    }
  }

  /** Reading three items that describe a metadata buffer placed at an offset below the alignment. */
  lemma ReadTriple(items: seq<Item>, pos: nat, m: Metadata, offset: nat, lg: nat)
    requires pos + 3 <= |items| && offset < Pow2(lg) && CompactSize(m) + Pow2(lg) < INT_LIMIT
    requires items[pos] == Int32(ToInt32(CompactSize(m) + Pow2(lg)))
    requires items[pos + 1] == Blob(Padded(m, offset, CompactSize(m) + Pow2(lg)))
    requires items[pos + 2] == Int32(ToInt32(offset))
    ensures ReadOne(items, pos, lg) == ReadResult(OK, Some(Compact(m)), pos + 3)
  {
    var blobSize := CompactSize(m) + Pow2(lg);
    CastLosesBigSizes(blobSize);
    CastLosesBigSizes(offset);
    RecognisePadded(m, offset, blobSize);
    assert Padded(m, offset, blobSize)[..blobSize] == Padded(m, offset, blobSize);
  }

  lemma RecognisePadded(m: Metadata, offset: nat, blobSize: nat)
    requires offset + CompactSize(m) <= blobSize
    ensures Recognise(Padded(m, offset, blobSize)[offset..offset + CompactSize(m)]) == Some(Compact(m))
  {
    assert Padded(m, offset, blobSize)[offset..offset + CompactSize(m)] == Image(m) + [];
    RecogniseImage(m, []);
  }

  /** A blob too big for the int32 in front of it is never read back. */
  lemma TooBigIsNotRead(before: seq<Item>, m: Metadata, after: seq<Item>, writer: int, lg: nat)
    requires GoodAddress(writer, lg) && !Fits31(Some(m), lg) && CompactSize(m) + Pow2(lg) < SIZE_LIMIT / 2
    ensures ReadOne(before + Written(Some(m), writer, lg) + after, |before|, lg).metadata == None
  {
    var offset, cells := WrittenBlob(m, writer, lg);
    TooBigItems(before, Written(Some(m), writer, lg), after, m, offset, cells, lg);
  }

  lemma WrittenBlob(m: Metadata, writer: int, lg: nat) returns (offset: nat, cells: seq<Cell>)
    requires GoodAddress(writer, lg)
    ensures offset + CompactSize(m) <= |cells| == CompactSize(m) + Pow2(lg) && cells == Padded(m, offset, |cells|)
    ensures Written(Some(m), writer, lg)[..2] == [Int32(ToInt32(|cells|)), Blob(cells)]
  {
    OffsetFits(writer, lg);
    offset := AlignTo(writer, Pow2(lg)) - writer;
    cells := Padded(m, offset, CompactSize(m) + Pow2(lg));
  }

  lemma TooBigItems(before: seq<Item>, written: seq<Item>, after: seq<Item>, m: Metadata, offset: nat, cells: seq<Cell>,
                    lg: nat)
    requires |written| >= 2 && written[..2] == [Int32(ToInt32(|cells|)), Blob(cells)]
    requires offset + CompactSize(m) <= |cells| == CompactSize(m) + Pow2(lg) && cells == Padded(m, offset, |cells|)
    requires INT_LIMIT <= |cells| < SIZE_LIMIT / 2
    ensures ReadOne(before + written + after, |before|, lg).metadata == None
  {
    var items := before + written + after;
    assert items[|before|] == written[..2][0] && items[|before| + 1] == written[..2][1];
    CastLosesBigSizes(|cells|);
    WrongSizeIsNotRead(items, |before|, ToInt32(|cells|), m, offset, cells, lg);
  }

  /** With another size than its own a blob is not read, or too little of it to make sense of. */
  lemma WrongSizeIsNotRead(items: seq<Item>, pos: nat, size: int, m: Metadata, offset: nat, cells: seq<Cell>, lg: nat)
    requires pos + 1 < |items| && items[pos] == Int32(size) && items[pos + 1] == Blob(cells)
    requires offset + CompactSize(m) <= |cells| == CompactSize(m) + Pow2(lg) && cells == Padded(m, offset, |cells|)
    requires ToSizeT(size) != |cells|
    ensures ReadOne(items, pos, lg).metadata == None
  {
    var blobSize, alignment := ToSizeT(size), Pow2(lg);
    if alignment < blobSize < |cells| && NextInt(items, pos + 2).Some? {
      var at := ToSizeT(NextInt(items, pos + 2).value);
      if at < alignment {
        PartIsNotRecognised(m, offset, |cells|, at, cells[..blobSize][at..at + (blobSize - alignment)]);
      }
    }
  }

  /** A part of a blob that is shorter than the image in it is not recognised. */
  lemma PartIsNotRecognised(m: Metadata, offset: nat, blobSize: nat, at: nat, part: seq<Cell>)
    requires offset + CompactSize(m) <= blobSize && |part| < CompactSize(m) && at + |part| <= blobSize
    requires part == Padded(m, offset, blobSize)[at..at + |part|]
    ensures Recognise(part) == None
  {
    if part != [] {
      assert part[0] == Padded(m, offset, blobSize)[at];
      assert part[0].Piece? ==> part[0].m == Compact(m);
      assert CompactSize(Compact(m)) == CompactSize(m);
    }
  }

  /** A size through int32 and back: unchanged below 2^31, changed from there on. */
  lemma CastLosesBigSizes(n: nat)
    requires n < SIZE_LIMIT / 2
    ensures ToSizeT(ToInt32(n)) == n <==> n < INT_LIMIT
  {
  }

  /** One buffer survives the parcel exactly when its blob size is below 2^31. */
  lemma SurvivesIffFits(m: Metadata, writer: int, lg: nat)
    requires GoodAddress(writer, lg) && CompactSize(m) + Pow2(lg) < SIZE_LIMIT / 2
    ensures ReadOne(Written(Some(m), writer, lg), 0, lg).metadata == Some(Compact(m)) <==> Fits31(Some(m), lg)
  {
    var items := Written(Some(m), writer, lg);
    assert [] + items + [] == items;
    if Fits31(Some(m), lg) {
      ReadUndoesWrite([], Some(m), [], writer, lg);
    } else {
      TooBigIsNotRead([], m, [], writer, lg);
    }
  }

  // ----- a list -----

  ghost predicate Sendable(list: seq<Option<Metadata>>, writers: seq<int>, lg: nat) {
    |writers| == |list| && forall i :: 0 <= i < |list| ==> GoodAddress(writers[i], lg) && Fits31(list[i], lg)
  }

  function WriteList(list: seq<Option<Metadata>>, writers: seq<int>, lg: nat): seq<Item>
    requires Sendable(list, writers, lg)
  {
    if list == [] then [] else Written(list[0], writers[0], lg) + WriteList(list[1..], writers[1..], lg)
  }

  /** Reads until the list is complete or a read fails. */
  function ReadList(items: seq<Item>, pos: nat, count: nat, lg: nat): (seq<Option<Metadata>>, nat)
    decreases count
  {
    if count == 0 then ([], pos)
    else
      var one := ReadOne(items, pos, lg);
      if one.status != OK then ([], pos)
      else
        var (rest, end) := ReadList(items, one.pos, count - 1, lg);
        ([one.metadata] + rest, end)
  }

  /** `count` reads from `pos` succeed, give `list` and stop at `end`. */
  ghost predicate ListReads(items: seq<Item>, pos: nat, count: nat, lg: nat, list: seq<Option<Metadata>>, end: nat) {
    ReadList(items, pos, count, lg) == (list, end)
  }

  lemma ReadListStep(items: seq<Item>, pos: nat, mid: nat, end: nat,
                     first: Option<Metadata>, rest: seq<Option<Metadata>>, count: nat, lg: nat)
    requires ReadOne(items, pos, lg) == ReadResult(OK, first, mid)
    requires ListReads(items, mid, count, lg, rest, end)
    ensures ListReads(items, pos, count + 1, lg, [first] + rest, end)
  {
  }

  function CompactList(list: seq<Option<Metadata>>): seq<Option<Metadata>> {
    seq(|list|, i requires 0 <= i < |list| => CompactOption(list[i]))
  }

  lemma FirstSurvives(items: seq<Item>, before: seq<Item>, list: seq<Option<Metadata>>, after: seq<Item>,
                      writers: seq<int>, lg: nat)
    requires Sendable(list, writers, lg) && list != []
    requires items == before + WriteList(list, writers, lg) + after
    ensures var first := Written(list[0], writers[0], lg);
      && ReadOne(items, |before|, lg) == ReadResult(OK, CompactOption(list[0]), |before + first|)
      && items == (before + first) + WriteList(list[1..], writers[1..], lg) + after
      && |before + WriteList(list, writers, lg)| == |(before + first) + WriteList(list[1..], writers[1..], lg)|
  {
    var first, rest := Written(list[0], writers[0], lg), WriteList(list[1..], writers[1..], lg);
    Regroup(before, first, rest, after);
    ReadUndoesWrite(before, list[0], rest + after, writers[0], lg);
  }

  /** The list read is the list written, compacted; every item written is consumed and no more. */
  lemma {:induction false} ListSurvives(items: seq<Item>, before: seq<Item>, list: seq<Option<Metadata>>,
                                        after: seq<Item>, writers: seq<int>, lg: nat)
    requires Sendable(list, writers, lg)
    requires items == before + WriteList(list, writers, lg) + after
    ensures ListReads(items, |before|, |list|, lg, CompactList(list), |before + WriteList(list, writers, lg)|)
    decreases |list|
  {
    if list == [] {
      assert before + WriteList(list, writers, lg) == before;
    } else {
      var seen, others, end := before + Written(list[0], writers[0], lg), list[1..], |before + WriteList(list, writers, lg)|;
      FirstSurvives(items, before, list, after, writers, lg);
      ListSurvives(items, seen, others, after, writers[1..], lg);
      assert CompactList(list) == [CompactOption(list[0])] + CompactList(others);
      ReadListStep(items, |before|, |seen|, end, CompactOption(list[0]), CompactList(others), |others|, lg);
    }
  }

  lemma Regroup(a: seq<Item>, b: seq<Item>, c: seq<Item>, d: seq<Item>)
    ensures a + (b + c) + d == a + b + (c + d)
    ensures a + (b + c) + d == (a + b) + c + d
  {
  }

  // ----- the same in place -----

  class Parcel {
    var items: seq<Item>
    var pos: nat

    constructor ()
      ensures items == [] && pos == 0
    {
      items := [];
      pos := 0;
    }

    method WriteInt32(v: int)
      modifies this
      ensures items == old(items) + [Int32(v)] && pos == old(pos)
    {
      items := items + [Int32(v)];
    }

    method WriteBlob(cells: seq<Cell>)
      modifies this
      ensures items == old(items) + [Blob(cells)] && pos == old(pos)
    {
      items := items + [Blob(cells)];
    }

    method ReadInt32() returns (v: Option<int>)
      modifies this
      ensures items == old(items) && v == NextInt(items, old(pos))
      ensures pos == old(pos) + if v.Some? then 1 else 0
    {
      v := NextInt(items, pos);
      pos := pos + if v.Some? then 1 else 0;
    }

    method ReadBlob(length: nat) returns (cells: Option<seq<Cell>>)
      modifies this
      ensures items == old(items) && cells == NextBlob(items, old(pos), length)
      ensures pos == old(pos) + if cells.Some? then 1 else 0
    {
      cells := NextBlob(items, pos, length);
      pos := pos + if cells.Some? then 1 else 0;
    }
  }

  /** The static writeToParcel; `address` is where the parcel puts the blob. */
  method WriteToParcel(parcel: Parcel, metadata: Option<Metadata>, address: int, lg: nat)
    requires GoodAddress(address, lg)
    modifies parcel
    ensures parcel.items == old(parcel.items) + Written(metadata, address, lg) && parcel.pos == old(parcel.pos)
  {
    if metadata.None? {
      parcel.WriteInt32(0);
      return;
    }
    var metadataSize := CompactSize(metadata.value);
    var alignment := Pow2(lg);
    var blobSize := metadataSize + alignment;
    parcel.WriteInt32(ToInt32(blobSize));
    var metadataStart := AlignTo(address, alignment);
    var offset := metadataStart - address;
    OffsetFits(address, lg);
    parcel.WriteBlob(Padded(metadata.value, offset, blobSize));
    parcel.WriteInt32(ToInt32(offset));
  }

  lemma PointerDifference(address: int, offset: nat)
    requires offset < SIZE_LIMIT
    ensures ToSizeT(ToSizeT(address + offset) - address) == offset
  {
  }

  /** The buffer a read hands out: a new one for metadata that was recognised, if there is memory for it. */
  function HandOut(read: ReadResult, h: Heap, granted: bool): (Status, Ptr, Heap) {
    if read.status != OK || read.metadata.None? then (read.status, NULL, h)
    else if !granted then (BAD_VALUE, NULL, h)
    else (OK, h.next, Allocate(h, read.metadata.value))
  }

  /**
   The static readFromParcel. The reader's blob lies at `address`, and the result
   does not depend on it.
   */
  method ReadFromParcel(lib: MetadataHeap, parcel: Parcel, address: int, lg: nat, granted: bool)
    returns (err: Status, out: Ptr)
    requires Sound(lib.heap)
    modifies lib, parcel
    ensures parcel.items == old(parcel.items) && parcel.pos == ReadOne(old(parcel.items), old(parcel.pos), lg).pos
    ensures (err, out, lib.heap) == HandOut(ReadOne(old(parcel.items), old(parcel.pos), lg), old(lib.heap), granted)
  {
    out := NULL;
    var sizeRead := parcel.ReadInt32();
    if sizeRead.None? {
      return NOT_ENOUGH_DATA, NULL;
    }
    var blobSize := ToSizeT(sizeRead.value);
    var alignment := Pow2(lg);
    if blobSize == 0 {
      return OK, NULL;
    }
    if blobSize <= alignment {
      return BAD_VALUE, NULL;
    }
    var metadataSize := blobSize - alignment;
    var blob := parcel.ReadBlob(blobSize);
    if blob.None? {
      return NOT_ENOUGH_DATA, NULL;
    }
    var offsetRead := parcel.ReadInt32();
    if offsetRead.None? {
      return NOT_ENOUGH_DATA, NULL;
    }
    var offset := ToSizeT(offsetRead.value);
    if offset >= alignment {
      return BAD_VALUE, NULL;
    }
    var metadataStart := ToSizeT(address + offset);
    var from := ToSizeT(metadataStart - address);
    PointerDifference(address, offset);
    out := AllocateCopyChecked(lib, blob.value[from..from + metadataSize], granted);
    err := if out == NULL then BAD_VALUE else OK;
  }

  /** allocate_copy_camera_metadata_checked */
  method AllocateCopyChecked(lib: MetadataHeap, cells: seq<Cell>, granted: bool) returns (p: Ptr)
    requires Sound(lib.heap)
    modifies lib
    ensures Recognise(cells).None? || !granted ==> p == NULL && lib.heap == old(lib.heap)
    ensures Recognise(cells).Some? && granted ==>
      p == old(lib.heap).next != NULL && lib.heap == Allocate(old(lib.heap), Recognise(cells).value)
  {
    p := NULL;
    var metadata := Recognise(cells);
    if metadata.Some? && granted {
      p := lib.heap.next;
      lib.heap := Allocate(lib.heap, metadata.value);
    }
  }

  /** The member readFromParcel: the object is replaced only after a successful read. */
  method ReadIntoObject(target: Wrapper, lib: MetadataHeap, parcel: Parcel?, address: int, lg: nat, granted: bool)
    returns (res: Status)
    requires Sound(lib.heap)
    modifies target, lib, parcel
    ensures parcel == null || old(target.mLocked) ==>
      && res == (if parcel == null then BAD_VALUE else INVALID_OPERATION)
      && target.Abs() == old(target.Abs()) && lib.heap == old(lib.heap)
    ensures parcel != null ==> parcel.items == old(parcel.items)
    ensures parcel != null && old(target.mLocked) ==> parcel.pos == old(parcel.pos)
    ensures parcel != null && !old(target.mLocked) ==>
      var read := ReadOne(old(parcel.items), old(parcel.pos), lg);
      var parsed := if read.status == OK then Some(read.metadata) else None;
      var installed := World.Install(old(target.Abs()), old(lib.heap), parsed, granted);
      && res == HandOut(read, old(lib.heap), granted).0 && parcel.pos == read.pos
      && (res == OK <==> installed.status == OK)
      && target.Abs() == installed.obj && lib.heap == installed.heap
  {
    if parcel == null {
      return BAD_VALUE;
    }
    if target.mLocked {
      return INVALID_OPERATION;
    }
    var err, buffer := ReadFromParcel(lib, parcel, address, lg, granted);
    if err != OK {
      return err;
    }
    target.ClearBuffer(lib);
    target.mBuffer := buffer;
    return OK;
  }

  // ----- from object to object -----

  /**
   An object written to a parcel and read into another, unlocked one: the reader
   holds the same entries in a new compact buffer, the parcel is consumed to the
   end of what was written, and lookups find the same.
   */
  lemma ParcelCopiesObject(w: World.World, from: World.Id, to: World.Id, before: seq<Item>, after: seq<Item>,
                           writer: int, lg: nat)
    requires World.Inv(w) && from in w.objs && to in w.objs && !w.objs[to].locked
    requires w.objs[from].buffer != NULL && w.objs[from].buffer != w.objs[to].buffer
    requires GoodAddress(writer, lg) && Fits31(Some(w.heap.bufs[w.objs[from].buffer]), lg)
    ensures var m := w.heap.bufs[w.objs[from].buffer];
      var read := ReadOne(before + Written(Some(m), writer, lg) + after, |before|, lg);
      && read.status == OK && read.pos == |before + Written(Some(m), writer, lg)|
      && HandOut(read, w.heap, true) == (OK, w.heap.next, Allocate(w.heap, Compact(m)))
      && var w' := World.Step(w, World.ReadInto(to, Some(read.metadata), true));
         && to in w'.objs && w'.objs[to] == Object(w.heap.next, false) && w.heap.next in w'.heap.bufs
         && w'.heap.bufs[w.heap.next].entries == m.entries && w.heap.next !in w.heap.bufs
         && forall tag :: Find(w'.objs[to], w'.heap, tag) == Find(w.objs[from].(locked := false), w.heap, tag)
  {
    var m := w.heap.bufs[w.objs[from].buffer];
    ReadUndoesWrite(before, Some(m), after, writer, lg);
  }

  /** A null object travels as well, and empties the reader. */
  lemma ParcelCopiesNothing(w: World.World, to: World.Id, before: seq<Item>, after: seq<Item>, writer: int, lg: nat)
    requires World.Inv(w) && to in w.objs && !w.objs[to].locked && GoodAddress(writer, lg)
    ensures var read := ReadOne(before + Written(None, writer, lg) + after, |before|, lg);
      && read == ReadResult(OK, None, |before| + 1) && HandOut(read, w.heap, true) == (OK, NULL, w.heap)
      && World.Step(w, World.ReadInto(to, Some(read.metadata), true)).objs[to] == Object(NULL, false)
  {
    ReadUndoesWrite(before, None, after, writer, lg);
  }

  /** A failed read, and one whose copy is refused memory, hands out nothing and allocates nothing. */
  lemma FailedReadHandsOutNothing(read: ReadResult, h: Heap, granted: bool)
    requires read.status != OK || (read.metadata.Some? && !granted)
    ensures var (status, p, h') := HandOut(read, h, granted);
      status != OK && p == NULL && h' == h && (read.status != OK ==> status == read.status)
      && (read.status == OK ==> status == BAD_VALUE)
  {
  }
}
