/**
 The wire form of a graphic buffer: a header of ten ints with the geometry, the
 64-bit id in two halves and the sizes of the native handle, followed by the
 handle's ints, with the handle's file descriptors beside it.
 */
module GraphicBufferWire {
  import opened Wrappers
  import opened CTypes

  datatype Status = NO_ERROR | NO_MEMORY | BAD_TYPE | BAD_VALUE | INVALID_OPERATION | DEVICE_ERROR

  datatype Handle = Handle(key: nat, fds: seq<int32>, ints: seq<int32>)

  datatype Geometry = Geometry(width: int32, height: int32, stride: int32, format: int32, usage: int32)

  const NO_GEOMETRY := Geometry(0, 0, 0, 0, 0)

  /** The character constant 'GBFR'. */
  const GBFR: int32 := 0x47424652

  const HEADER: nat := 10
  const INT_SIZE: nat := 4
  const MAX_NUMBER: nat := 4096

  // ----- the 64-bit id as two signed halves -----

  function HighHalf(id: int): int32 { ToInt32(id / UINT_LIMIT) as int32 }

  function LowHalf(id: int): int32 { ToInt32(id % UINT_LIMIT) as int32 }

  /** `(uint64_t)high << 32 | (uint32_t)low` */
  function Joined(high: int32, low: int32): int {
    ToSizeT(ToSizeT(high as int) * UINT_LIMIT) + ToUint32(low as int)
  }

  /** Converting to int32 and reading the bits back unsigned changes nothing. */
  lemma UnsignedOfSigned(x: int)
    requires 0 <= x < UINT_LIMIT
    ensures ToUint32(ToInt32(x)) == x
  {
  }

  lemma SignedOfUnsigned(x: int32)
    ensures ToInt32(ToUint32(x as int)) == x as int
  {
  }

  /** The upper half of a sign-extended int is shifted out. */
  lemma JoinedIsSum(high: int32, low: int32)
    ensures Joined(high, low) == ToUint32(high as int) * UINT_LIMIT + ToUint32(low as int)
  {
  }

  lemma JoinUndoesSplit(id: int)
    requires IsUint64(id)
    ensures Joined(HighHalf(id), LowHalf(id)) == id
  {
    JoinedIsSum(HighHalf(id), LowHalf(id));
    UnsignedOfSigned(id / UINT_LIMIT);
    UnsignedOfSigned(id % UINT_LIMIT);
  }

  lemma SplitUndoesJoin(high: int32, low: int32)
    ensures IsUint64(Joined(high, low))
    ensures HighHalf(Joined(high, low)) == high && LowHalf(Joined(high, low)) == low
  {
    JoinedIsSum(high, low);
    SignedOfUnsigned(high);
    SignedOfUnsigned(low);
  }

  // ----- what is written -----

  function NumFds(handle: Option<Handle>): nat { if handle.Some? then |handle.value.fds| else 0 }

  function NumInts(handle: Option<Handle>): nat { if handle.Some? then |handle.value.ints| else 0 }

  function FdsOf(handle: Option<Handle>): seq<int32> { if handle.Some? then handle.value.fds else [] }

  function IntsOf(handle: Option<Handle>): seq<int32> { if handle.Some? then handle.value.ints else [] }

  function FlattenedSize(handle: Option<Handle>): nat { (HEADER + NumInts(handle)) * INT_SIZE }

  function Header(g: Geometry, id: int, handle: Option<Handle>): (s: seq<int32>)
    requires NumFds(handle) < INT_LIMIT && NumInts(handle) < INT_LIMIT
    ensures |s| == HEADER
  {
    [GBFR, g.width, g.height, g.stride, g.format, g.usage, HighHalf(id), LowHalf(id),
     NumFds(handle) as int32, NumInts(handle) as int32]
  }

  function Flat(g: Geometry, id: int, handle: Option<Handle>): (s: seq<int32>)
    requires NumFds(handle) < INT_LIMIT && NumInts(handle) < INT_LIMIT
    ensures |s| == HEADER + NumInts(handle)
  {
    Header(g, id, handle) + IntsOf(handle)
  }

  /** `piece` written over `s` from `at` on. */
  function Over(s: seq<int32>, at: nat, piece: seq<int32>): (r: seq<int32>)
    requires at + |piece| <= |s|
    ensures |r| == |s| && r[at..at + |piece|] == piece
  {
    s[..at] + piece + s[at + |piece|..]
  }

  // ----- what is read -----

  datatype Message = Message(status: Status, geometry: Geometry, id: int, fds: seq<int32>, ints: seq<int32>)

  const REFUSED := Message(BAD_TYPE, NO_GEOMETRY, 0, [], [])

  /** The ints behind `buf` can be read as far as the code reads before it knows their number. */
  ghost predicate Readable(buf: seq<int32>, size: nat, fds: seq<int32>, count: nat) {
    && size <= |buf| * INT_SIZE && count <= |fds|
    && (size >= 8 * INT_SIZE && buf[0] == GBFR ==> HEADER <= |buf|)
  }

  /**
   The checks of unflatten in order, and the fields it takes over. A message
   without fds and ints carries no geometry.
   */
  function Parse(buf: seq<int32>, size: nat, fds: seq<int32>, count: nat): Message
    requires Readable(buf, size, fds, count)
  {
    if size < 8 * INT_SIZE then REFUSED.(status := NO_MEMORY)
    else if buf[0] != GBFR then REFUSED
    else
      var numFds, numInts := ToSizeT(buf[8] as int), ToSizeT(buf[9] as int);
      if numFds >= MAX_NUMBER || numInts >= MAX_NUMBER - 10 then REFUSED.(status := BAD_VALUE)
      else if size < (HEADER + numInts) * INT_SIZE then REFUSED.(status := NO_MEMORY)
      else if count < numFds then REFUSED.(status := NO_MEMORY)
      else
        Message(NO_ERROR,
                if numFds + numInts > 0 then Geometry(buf[1], buf[2], buf[3], buf[4], buf[5]) else NO_GEOMETRY,
                Joined(buf[6], buf[7]), fds[..numFds], buf[HEADER..HEADER + numInts])
  }

  lemma OverTwice(s: seq<int32>, at: nat, a: seq<int32>, b: seq<int32>)
    requires at + |a| + |b| <= |s|
    ensures Over(Over(s, at, a), at + |a|, b) == Over(s, at, a + b)
  {
  }

  // ----- flatten and unflatten against each other -----

  /** Handles unflatten accepts. */
  predicate Transferable(handle: Option<Handle>) {
    NumFds(handle) < MAX_NUMBER && NumInts(handle) < MAX_NUMBER - 10
  }

  /** What a flattened buffer parses to, from the start of what was written. */
  lemma ParseOfFlat(g: Geometry, id: int, handle: Option<Handle>, rest: seq<int32>, fdsRest: seq<int32>,
                    size: nat, count: nat)
    requires IsUint64(id) && NumFds(handle) < INT_LIMIT && NumInts(handle) < INT_LIMIT
    requires FlattenedSize(handle) <= size <= |Flat(g, id, handle) + rest| * INT_SIZE
    requires NumFds(handle) <= count <= |FdsOf(handle) + fdsRest|
    ensures var m := Parse(Flat(g, id, handle) + rest, size, FdsOf(handle) + fdsRest, count);
      if Transferable(handle)
      then m == Message(NO_ERROR, if NumFds(handle) + NumInts(handle) > 0 then g else NO_GEOMETRY, id,
                        FdsOf(handle), IntsOf(handle))
      else m.status == BAD_VALUE
  {
    var buf := Flat(g, id, handle) + rest;
    assert forall k :: 0 <= k < HEADER ==> buf[k] == Header(g, id, handle)[k];
    SizeOfCast(buf[8]);
    SizeOfCast(buf[9]);
    assert buf[HEADER..HEADER + NumInts(handle)] == IntsOf(handle);
    assert (FdsOf(handle) + fdsRest)[..NumFds(handle)] == FdsOf(handle);
    JoinUndoesSplit(id);
  }

  /** The receiving buffer shows what the message says: geometry, id, fds and ints. */
  predicate Restored(m: Message, g: Geometry, id: int, handle: Option<Handle>) {
    && m.status == NO_ERROR && m.geometry == g && m.id == id
    && (handle.Some? <==> |m.fds| + |m.ints| > 0) && m.fds == FdsOf(handle) && m.ints == IntsOf(handle)
  }

  /**
   A buffer comes back whole exactly when its handle is small enough and is
   either not empty, or absent from a buffer without geometry.
   */
  lemma RoundTripExactly(g: Geometry, id: int, handle: Option<Handle>, rest: seq<int32>, fdsRest: seq<int32>,
                         size: nat, count: nat)
    requires IsUint64(id) && NumFds(handle) < INT_LIMIT && NumInts(handle) < INT_LIMIT
    requires FlattenedSize(handle) <= size <= |Flat(g, id, handle) + rest| * INT_SIZE
    requires NumFds(handle) <= count <= |FdsOf(handle) + fdsRest|
    ensures Restored(Parse(Flat(g, id, handle) + rest, size, FdsOf(handle) + fdsRest, count), g, id, handle)
      <==> Transferable(handle) && (NumFds(handle) + NumInts(handle) > 0 || (handle.None? && g == NO_GEOMETRY))
  {
    ParseOfFlat(g, id, handle, rest, fdsRest, size, count);
  }

  /**
   Flattening what was accepted gives back exactly the ints and fds that were
   read; a message without a handle is reproduced only if its geometry is zero.
   */
  lemma FlattenUndoesParse(buf: seq<int32>, size: nat, fds: seq<int32>, count: nat, key: nat)
    requires Readable(buf, size, fds, count) && Parse(buf, size, fds, count).status == NO_ERROR
    ensures var m := Parse(buf, size, fds, count);
      var handle := if |m.fds| + |m.ints| > 0 then Some(Handle(key, m.fds, m.ints)) else None;
      && HEADER + |m.ints| <= |buf| && |m.fds| <= |fds|
      && FdsOf(handle) == fds[..|m.fds|]
      && (Flat(m.geometry, m.id, handle) == buf[..HEADER + |m.ints|]
          <==> handle.Some? || Geometry(buf[1], buf[2], buf[3], buf[4], buf[5]) == NO_GEOMETRY)
  {
    var m := Parse(buf, size, fds, count);
    var handle := if |m.fds| + |m.ints| > 0 then Some(Handle(key, m.fds, m.ints)) else None;
    var header, read := Header(m.geometry, m.id, handle), buf[..HEADER + |m.ints|];
    SplitUndoesJoin(buf[6], buf[7]);
    SizeOfCast(buf[8]);
    SizeOfCast(buf[9]);
    assert IntsOf(handle) == m.ints == read[HEADER..];
    assert read == read[..HEADER] + read[HEADER..];
    if handle.Some? || Geometry(buf[1], buf[2], buf[3], buf[4], buf[5]) == NO_GEOMETRY {
      assert forall k :: 0 <= k < HEADER ==> header[k] == read[k];
      assert header == read[..HEADER];
    } else {
      assert forall k :: 0 <= k < HEADER ==> Flat(m.geometry, m.id, handle)[k] == header[k];
    }
  }

  /** An int that passes as a small size is itself small and not negative. */
  lemma SizeOfCast(x: int32)
    ensures ToSizeT(x as int) < MAX_NUMBER || 0 <= x ==> ToSizeT(x as int) == x as int
  {
  }
}
