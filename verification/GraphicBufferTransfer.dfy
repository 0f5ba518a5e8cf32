/**
 What a buffer holds after each operation: a buffer that receives a flattened
 one becomes its equal, a message cut short is refused, and an allocated buffer
 has the geometry that was asked for.
 */
module GraphicBufferTransfer {
  import opened Wrappers
  import opened CTypes
  import opened Division
  import opened GraphicBufferWire
  import opened GraphicBuffer

  // ----- the wire layout -----

  /** Where each field lies, and how long a flattened buffer is. */
  lemma WireLayout(g: Geometry, id: int, handle: Option<Handle>)
    requires IsUint64(id) && NumFds(handle) < INT_LIMIT && NumInts(handle) < INT_LIMIT
    ensures var buf := Flat(g, id, handle);
      && |buf| == 10 + NumInts(handle) && |buf| * 4 == FlattenedSize(handle)
      && buf[0] == 0x47424652
      && buf[1] == g.width && buf[2] == g.height && buf[3] == g.stride && buf[4] == g.format && buf[5] == g.usage
      && id == ToUint32(buf[6] as int) * 0x1_0000_0000 + ToUint32(buf[7] as int)
      && buf[8] as int == NumFds(handle) && buf[9] as int == NumInts(handle)
      && (handle.Some? ==> buf[10..] == handle.value.ints)
  {
    var buf := Flat(g, id, handle);
    assert forall k :: 0 <= k < HEADER ==> buf[k] == Header(g, id, handle)[k];
    JoinUndoesSplit(id);
    JoinedIsSum(HighHalf(id), LowHalf(id));
  }

  // ----- from buffer to buffer -----

  /** The sender can be flattened into int32 sizes. */
  predicate Sendable(a: Buffer) {
    IsUint64(a.id) && NumFds(a.handle) < INT_LIMIT && NumInts(a.handle) < INT_LIMIT
  }

  /** What the receiver reads: the flattened sender, with anything behind it. */
  ghost predicate Arrives(a: Buffer, rest: seq<int32>, fdsRest: seq<int32>, size: nat, count: nat)
    requires Sendable(a)
  {
    && FlattenedSize(a.handle) <= size <= |Flat(a.geometry, a.id, a.handle) + rest| * INT_SIZE
    && NumFds(a.handle) <= count <= |FdsOf(a.handle) + fdsRest|
  }

  function Received(a: Buffer, rest: seq<int32>, fdsRest: seq<int32>, size: nat, count: nat): Message
    requires Sendable(a) && Arrives(a, rest, fdsRest, size, count)
  {
    Parse(Flat(a.geometry, a.id, a.handle) + rest, size, FdsOf(a.handle) + fdsRest, count)
  }

  /**
   The receiver of a buffer with a handle of transferable size becomes its equal,
   whatever it was before, and owns a new native handle.
   */
  lemma ReceiverEqualsSender(a: Buffer, b: Buffer, env: Env, rest: seq<int32>, fdsRest: seq<int32>,
                             size: nat, count: nat, freed: bool)
    requires Sendable(a) && Arrives(a, rest, fdsRest, size, count)
    requires NumFds(a.handle) < 4096 && NumInts(a.handle) < 4086 && NumFds(a.handle) + NumInts(a.handle) > 0
    ensures var (status, b', env') := TakeOver(b, env, Received(a, rest, fdsRest, size, count), freed, true, true);
      && status == NO_ERROR
      && b'.geometry == a.geometry && b'.id == a.id && b'.owner == ownHandle && b'.handle.Some?
      && b'.handle.value.fds == a.handle.value.fds && b'.handle.value.ints == a.handle.value.ints
      && b'.handle.value.key == Destroy(b, env, freed).next && b'.handle.value.key in env'.native
  {
    ParseOfFlat(a.geometry, a.id, a.handle, rest, fdsRest, size, count);
  }

  /** Without fds and ints only the id travels; the receiver gives up its handle. */
  lemma EmptyHandleTravels(a: Buffer, b: Buffer, env: Env, rest: seq<int32>, fdsRest: seq<int32>,
                           size: nat, count: nat, freed: bool, created: bool, registered: bool)
    requires Sendable(a) && Arrives(a, rest, fdsRest, size, count) && NumFds(a.handle) + NumInts(a.handle) == 0
    ensures TakeOver(b, env, Received(a, rest, fdsRest, size, count), freed, created, registered)
         == (NO_ERROR, Buffer(NO_GEOMETRY, a.id, None, ownHandle), Destroy(b, env, freed))
  {
    ParseOfFlat(a.geometry, a.id, a.handle, rest, fdsRest, size, count);
  }

  /**
   If the handle cannot be created the receiver keeps its id and owner, if it
   cannot be registered it has the sender's id; it is left without handle and
   geometry either way.
   */
  lemma FailedReceiver(a: Buffer, b: Buffer, env: Env, rest: seq<int32>, fdsRest: seq<int32>,
                       size: nat, count: nat, freed: bool)
    requires Sendable(a) && Arrives(a, rest, fdsRest, size, count)
    requires NumFds(a.handle) < 4096 && NumInts(a.handle) < 4086 && NumFds(a.handle) + NumInts(a.handle) > 0
    ensures var m := Received(a, rest, fdsRest, size, count);
      && TakeOver(b, env, m, freed, false, true)
         == (NO_MEMORY, Buffer(NO_GEOMETRY, b.id, None, b.owner), Destroy(b, env, freed))
      && var (status, b', env') := TakeOver(b, env, m, freed, true, false);
         status != NO_ERROR && b' == Buffer(NO_GEOMETRY, a.id, None, ownHandle)
  {
    ParseOfFlat(a.geometry, a.id, a.handle, rest, fdsRest, size, count);
  }

  /** A handle with too many fds or ints is refused, and the receiver forgets its own. */
  lemma TooManyRefused(a: Buffer, b: Buffer, env: Env, rest: seq<int32>, fdsRest: seq<int32>,
                       size: nat, count: nat, freed: bool, created: bool, registered: bool)
    requires Sendable(a) && Arrives(a, rest, fdsRest, size, count)
    requires NumFds(a.handle) >= 4096 || NumInts(a.handle) >= 4086
    ensures TakeOver(b, env, Received(a, rest, fdsRest, size, count), freed, created, registered)
         == (BAD_VALUE, Buffer(NO_GEOMETRY, b.id, None, b.owner), env)
  {
    ParseOfFlat(a.geometry, a.id, a.handle, rest, fdsRest, size, count);
  }

  // ----- refused messages -----

  /** A flattened buffer cut short anywhere, or short of fds, is refused; the receiver stays as it is. */
  lemma CutShortIsRefused(a: Buffer, b: Buffer, env: Env, rest: seq<int32>, fds: seq<int32>,
                          size: nat, count: nat, freed: bool, created: bool, registered: bool)
    requires Sendable(a) && Transferable(a.handle)
    requires size <= |Flat(a.geometry, a.id, a.handle) + rest| * INT_SIZE && count <= |fds|
    requires size < FlattenedSize(a.handle) || count < NumFds(a.handle)
    ensures Readable(Flat(a.geometry, a.id, a.handle) + rest, size, fds, count)
    ensures var m := Parse(Flat(a.geometry, a.id, a.handle) + rest, size, fds, count);
      TakeOver(b, env, m, freed, created, registered) == (NO_MEMORY, b, env)
  {
    var buf := Flat(a.geometry, a.id, a.handle) + rest;
    assert forall k :: 0 <= k < HEADER ==> buf[k] == Header(a.geometry, a.id, a.handle)[k];
    SizeOfCast(buf[8]);
    SizeOfCast(buf[9]);
  }

  /** So is anything long enough that does not begin with the magic number. */
  lemma WrongMagicIsRefused(buf: seq<int32>, size: nat, fds: seq<int32>, count: nat, b: Buffer, env: Env,
                            freed: bool, created: bool, registered: bool)
    requires Readable(buf, size, fds, count) && size >= 32 && buf[0] != 0x47424652
    ensures TakeOver(b, env, Parse(buf, size, fds, count), freed, created, registered) == (BAD_TYPE, b, env)
  {
  }

  // ----- allocated buffers -----

  /** A buffer of its own gets what it asks for; only the stride is the device's. */
  lemma ReallocateGives(b: Buffer, env: Env, g: Geometry, bpp: nat, freed: bool, grant: Grant)
    requires b.owner == ownData
    requires b.handle == None || g.width != b.geometry.width || g.height != b.geometry.height
      || g.format != b.geometry.format || g.usage != b.geometry.usage
    ensures var (status, b', env') := Reallocate(b, env, g, bpp, freed, Some(grant));
      && status == NO_ERROR && b'.id == b.id && b'.owner == ownData
      && b'.geometry == Geometry(g.width, g.height, grant.stride, g.format, g.usage)
      && b'.handle == Some(Handle(env.next, grant.fds, grant.ints))
      && env.next in env'.device && env.next in env'.table
      && (b.handle.Some? && freed && b.handle.value.key < env.next ==>
            b.handle.value.key !in env'.device && b.handle.value.key !in env'.table)
  {
  }

  /** Nothing happens for the same geometry, or to a buffer that is not its own owner. */
  lemma ReallocateChangesNothing(b: Buffer, env: Env, g: Geometry, bpp: nat, freed: bool, grant: Option<Grant>)
    requires b.owner != ownData
      || (b.handle.Some? && g.width == b.geometry.width && g.height == b.geometry.height
          && g.format == b.geometry.format && g.usage == b.geometry.usage)
    ensures Reallocate(b, env, g, bpp, freed, grant)
         == (if b.owner == ownData then NO_ERROR else INVALID_OPERATION, b, env)
  {
  }

  /** A refused device leaves the buffer without a handle, with its old geometry but for the stride. */
  lemma RefusedReallocate(b: Buffer, env: Env, g: Geometry, bpp: nat, freed: bool)
    requires b.owner == ownData
    requires b.handle == None || g.width != b.geometry.width || g.height != b.geometry.height
      || g.format != b.geometry.format || g.usage != b.geometry.usage
    ensures var (status, b', env') := Reallocate(b, env, g, bpp, freed, None);
      && status != NO_ERROR && env'.next == env.next
      && b' == Buffer(Geometry(b.geometry.width, b.geometry.height, 0, b.geometry.format, b.geometry.usage),
                      b.id, None, ownData)
  {
  }

  // ----- the allocator's list -----

  lemma ModProduct(a: int, b: int, n: nat)
    requires n > 0
    ensures ((a % n) * b) % n == (a * b) % n
  {
    var q := a / n;
    DivMod(a, n);
    DivMod((a % n) * b, n);
    assert a * b == n * (q * b) + (a % n) * b;
    assert n * (q * b + ((a % n) * b) / n) == n * (q * b) + n * (((a % n) * b) / n);
    DivisionIsUnique(a * b, n, q * b + ((a % n) * b) / n, ((a % n) * b) % n);
  }

  /** The recorded size is the product of height, stride and bytes per pixel, modulo 2^32. */
  lemma RecordSizeIsProduct(h: int32, stride: int32, bpp: nat)
    ensures 0 <= RecordSize(h, stride, bpp) < 0x1_0000_0000
    ensures RecordSize(h, stride, bpp) == (h as int * stride as int * bpp) % 0x1_0000_0000
    ensures 0 <= h as int * stride as int * bpp < 0x1_0000_0000 ==>
      RecordSize(h, stride, bpp) == h as int * stride as int * bpp
  {
    var x, y := h as int, stride as int;
    ModProduct(x, ToUint32(y), UINT_LIMIT);
    ModProduct(y, x, UINT_LIMIT);
    assert x * ToUint32(y) == ToUint32(y) * x && x * y == y * x;
    ModProduct(ToUint32(x) * ToUint32(y), bpp, UINT_LIMIT);
    ModProduct(x * y, bpp, UINT_LIMIT);
  }

  /** What is listed for an allocation: its size as allocated, one pixel if a side was zero. */
  lemma ListedAsAllocated(env: Env, w: int32, h: int32, format: int32, bpp: nat, grant: Grant)
    ensures var env' := Allocate(env, w, h, format, bpp, Some(grant));
      && env.next in env'.table && env.next in env'.device && env'.next == env.next + 1
      && (forall key :: key in env.table && key != env.next ==> key in env'.table && env'.table[key] == env.table[key])
    ensures var record := Allocate(env, w, h, format, bpp, Some(grant)).table[env.next];
      && (w != 0 && h != 0 ==> record.w == w && record.h == h)
      && (w == 0 || h == 0 ==> record.w == record.h == 1)
      && record.stride == grant.stride && record.format == format
      && record.size == (record.h as int * grant.stride as int * bpp) % UINT_LIMIT
  {
    RecordSizeIsProduct(if w == 0 || h == 0 then 1 else h, grant.stride, bpp);
  }

  // ----- misuse is noticed -----

  /** Freeing, closing or registering what is not live is misuse, and nothing else is. */
  lemma MisuseIsNoticed(env: Env, key: Key, freed: bool)
    ensures Free(env, key, freed).misused <==> env.misused || key !in env.device
    ensures Close(env, key).misused <==> env.misused || key !in env.native
    ensures Register(env, key).misused <==> env.misused || key !in env.native
    ensures Free(Free(env, key, true), key, freed).misused && Close(Close(env, key), key).misused
  {
  }
}
