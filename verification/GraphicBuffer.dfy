/**
 Graphic buffers and the allocator behind them: a buffer owns a device handle,
 owns a native handle or borrows one, and must give each back in its own way.

 The device's, the mapper's and the handle library's answers are parameters:
 `grant` is what the device allocates, `freed`, `created` and `registered`
 tell whether the call succeeded.
 */
module GraphicBuffer {
  import opened Wrappers
  import opened CTypes
  import opened GraphicBufferWire

  datatype Owner = ownNone | ownHandle | ownData

  datatype Buffer = Buffer(geometry: Geometry, id: int, handle: Option<Handle>, owner: Owner)

  type Key = nat

  /** An entry of the allocator's list. */
  datatype Rec = Rec(w: int32, h: int32, stride: int32, format: int32, size: int)

  /**
   Live device handles and native handles, the allocator's list, the next unused
   key, and whether a handle that was not live was ever freed, closed or registered.
   */
  datatype Env = Env(device: set<Key>, native: set<Key>, table: map<Key, Rec>, next: Key, misused: bool)

  datatype Grant = Grant(stride: int32, fds: seq<int32>, ints: seq<int32>)

  // ----- the allocator -----

  /** `height * stride * bpp` in 32-bit unsigned arithmetic. */
  function RecordSize(h: int32, stride: int32, bpp: nat): int {
    ToUint32(ToUint32(ToUint32(h as int) * ToUint32(stride as int)) * bpp)
  }

  /** A buffer without width or height is allocated as one pixel. */
  function Allocate(env: Env, w: int32, h: int32, format: int32, bpp: nat, grant: Option<Grant>): Env {
    if grant.None? then env
    else
      var (w1, h1) := if w == 0 || h == 0 then (1, 1) else (w, h);
      var record := Rec(w1, h1, grant.value.stride, format, RecordSize(h1, grant.value.stride, bpp));
      env.(device := env.device + {env.next}, table := env.table[env.next := record], next := env.next + 1)
  }

  function Free(env: Env, key: Key, freed: bool): Env {
    var env1 := env.(misused := env.misused || key !in env.device);
    if freed then env1.(device := env1.device - {key}, table := env1.table - {key}) else env1
  }

  // ----- native handles -----

  function Create(env: Env): Env {
    env.(native := env.native + {env.next}, next := env.next + 1)
  }

  function Register(env: Env, key: Key): Env {
    env.(misused := env.misused || key !in env.native)
  }

  /** unregister, close and delete */
  function Close(env: Env, key: Key): Env {
    env.(misused := env.misused || key !in env.native, native := env.native - {key})
  }

  // ----- operations of a buffer -----

  function FreeHandle(b: Buffer, env: Env, freed: bool): Env
    requires b.handle.Some?
  {
    match b.owner
    case ownHandle => Close(env, b.handle.value.key)
    case ownData => Free(env, b.handle.value.key, freed)
    case ownNone => env
  }

  function Destroy(b: Buffer, env: Env, freed: bool): Env {
    if b.handle.Some? then FreeHandle(b, env, freed) else env
  }

  /** A refused allocation leaves only the stride changed. */
  function InitSize(b: Buffer, env: Env, g: Geometry, bpp: nat, grant: Option<Grant>): (Status, Buffer, Env) {
    var env1 := Allocate(env, g.width, g.height, g.format, bpp, grant);
    if grant.None? then (DEVICE_ERROR, b.(geometry := b.geometry.(stride := 0)), env1)
    else
      var handle := Handle(env.next, grant.value.fds, grant.value.ints);
      (NO_ERROR, b.(geometry := g.(stride := grant.value.stride), handle := Some(handle)), env1)
  }

  function Reallocate(b: Buffer, env: Env, g: Geometry, bpp: nat, freed: bool, grant: Option<Grant>)
    : (Status, Buffer, Env)
  {
    if b.owner != ownData then (INVALID_OPERATION, b, env)
    else if b.handle.Some? && g == b.geometry.(stride := g.stride) then (NO_ERROR, b, env)
    else
      var env1 := if b.handle.Some? then Free(env, b.handle.value.key, freed) else env;
      InitSize(b.(handle := None), env1, g, bpp, grant)
  }

  /** unflatten, given what the message parses to. */
  function TakeOver(b: Buffer, env: Env, m: Message, freed: bool, created: bool, registered: bool)
    : (Status, Buffer, Env)
  {
    if m.status == BAD_VALUE then (m.status, b.(geometry := NO_GEOMETRY, handle := None), env)
    else if m.status != NO_ERROR then (m.status, b, env)
    else
      var env1 := Destroy(b, env, freed);
      if |m.fds| + |m.ints| == 0 then (NO_ERROR, Buffer(NO_GEOMETRY, m.id, None, ownHandle), env1)
      else if !created then (NO_MEMORY, b.(geometry := NO_GEOMETRY, handle := None), env1)
      else
        var env2 := Register(Create(env1), env1.next);
        if !registered then (DEVICE_ERROR, Buffer(NO_GEOMETRY, m.id, None, ownHandle), env2)
        else (NO_ERROR, Buffer(m.geometry, m.id, Some(Handle(env1.next, m.fds, m.ints)), ownHandle), env2)
  }

  // ----- the same in place -----

  /** The device, the handle library and the allocator's list. */
  class Gralloc {
    var env: Env

    constructor ()
      ensures env == Env({}, {}, map[], 0, false)
    {
      env := Env({}, {}, map[], 0, false);
    }

    method Alloc(w: int32, h: int32, format: int32, bpp: nat, grant: Option<Grant>)
      returns (err: Status, handle: Option<Handle>, stride: int32)
      modifies this
      ensures env == Allocate(old(env), w, h, format, bpp, grant)
      ensures grant.None? ==> err == DEVICE_ERROR && handle == None && stride == 0
      ensures grant.Some? ==>
        err == NO_ERROR && stride == grant.value.stride
        && handle == Some(Handle(old(env).next, grant.value.fds, grant.value.ints))
    {
      var width, height := w, h;
      if width == 0 || height == 0 {
        width, height := 1, 1;
      }
      if grant.None? {
        return DEVICE_ERROR, None, 0;
      }
      err, stride := NO_ERROR, grant.value.stride;
      handle := Some(Handle(env.next, grant.value.fds, grant.value.ints));
      var rec := Rec(width, height, stride, format, RecordSize(height, stride, bpp));
      env := env.(device := env.device + {env.next}, table := env.table[env.next := rec], next := env.next + 1);
    }

    method FreeBuffer(key: Key, freed: bool) returns (err: Status)
      modifies this
      ensures env == Free(old(env), key, freed)
      ensures err == if freed then NO_ERROR else DEVICE_ERROR
    {
      env := env.(misused := env.misused || key !in env.device);
      err := DEVICE_ERROR;
      if freed {
        env := env.(device := env.device - {key});
        err := NO_ERROR;
        env := env.(table := env.table - {key});
      }
    }

    method CreateHandle() returns (key: Key)
      modifies this
      ensures env == Create(old(env)) && key == old(env).next
    {
      key := env.next;
      env := Create(env);
    }

    method RegisterBuffer(key: Key)
      modifies this
      ensures env == Register(old(env), key)
    {
      env := Register(env, key);
    }

    method CloseHandle(key: Key)
      modifies this
      ensures env == Close(old(env), key)
    {
      env := Close(env, key);
    }
  }

  method CopyInts(dst: array<int32>, at: nat, src: seq<int32>)
    requires at + |src| <= dst.Length
    modifies dst
    ensures dst[..] == Over(old(dst[..]), at, src)
  {
    forall k | 0 <= k < |src| {
      dst[at + k] := src[k];
    }
  }

  class NativeBuffer {
    var geometry: Geometry
    var mId: int
    var handle: Option<Handle>
    var mOwner: Owner

    ghost function Abs(): Buffer
      reads this
    {
      Buffer(geometry, mId, handle, mOwner)
    }

    constructor (id: int)
      ensures Abs() == Buffer(NO_GEOMETRY, id, None, ownData)
    {
      geometry, mId, handle, mOwner := NO_GEOMETRY, id, None, ownData;
    }

    constructor Sized(gralloc: Gralloc, id: int, g: Geometry, bpp: nat, grant: Option<Grant>)
      modifies gralloc
      ensures (Abs(), gralloc.env)
           == (var (_, b, env) := InitSize(Buffer(NO_GEOMETRY, id, None, ownData), old(gralloc.env), g, bpp, grant); (b, env))
    {
      geometry, mId, handle, mOwner := NO_GEOMETRY, id, None, ownData;
      new;
      var initCheck := DoInitSize(gralloc, g, bpp, grant);
    }

    constructor FromHandle(id: int, g: Geometry, inHandle: Option<Handle>, keepOwnership: bool)
      ensures Abs() == Buffer(g, id, inHandle, if keepOwnership then ownHandle else ownNone)
    {
      mOwner := if keepOwnership then ownHandle else ownNone;
      geometry, mId, handle := g, id, inHandle;
    }

    /** The destructor. */
    method Finish(gralloc: Gralloc, freed: bool)
      modifies gralloc
      ensures gralloc.env == Destroy(Abs(), old(gralloc.env), freed)
    {
      if handle.Some? {
        DoFreeHandle(gralloc, freed);
      }
    }

    method DoFreeHandle(gralloc: Gralloc, freed: bool)
      requires handle.Some?
      modifies gralloc
      ensures gralloc.env == FreeHandle(Abs(), old(gralloc.env), freed)
    {
      if mOwner == ownHandle {
        gralloc.CloseHandle(handle.value.key);
      } else if mOwner == ownData {
        var err := gralloc.FreeBuffer(handle.value.key, freed);
      }
    }

    method DoInitSize(gralloc: Gralloc, g: Geometry, bpp: nat, grant: Option<Grant>) returns (err: Status)
      requires handle == None
      modifies this, gralloc
      ensures (err, Abs(), gralloc.env) == InitSize(old(Abs()), old(gralloc.env), g, bpp, grant)
    {
      var stride: int32;
      err, handle, stride := gralloc.Alloc(g.width, g.height, g.format, bpp, grant);
      geometry := geometry.(stride := stride);
      if err == NO_ERROR {
        geometry := geometry.(width := g.width, height := g.height, format := g.format, usage := g.usage);
      }
    }

    method DoReallocate(gralloc: Gralloc, g: Geometry, bpp: nat, freed: bool, grant: Option<Grant>)
      returns (err: Status)
      modifies this, gralloc
      ensures (err, Abs(), gralloc.env) == Reallocate(old(Abs()), old(gralloc.env), g, bpp, freed, grant)
    {
      if mOwner != ownData {
        return INVALID_OPERATION;
      }
      if handle.Some? && g.width == geometry.width && g.height == geometry.height
         && g.format == geometry.format && g.usage == geometry.usage {
        return NO_ERROR;
      }
      if handle.Some? {
        var freeErr := gralloc.FreeBuffer(handle.value.key, freed);
        handle := None;
      }
      err := DoInitSize(gralloc, g, bpp, grant);
    }

    /**
     The cursor `at` counts ints, but is moved by the size in bytes, as in the
     source; `size` and `count` are what remains for the next object.
     */
    method Flatten(buf: array<int32>, at: nat, size: nat, fds: array<int32>, fdsAt: nat, count: nat)
      returns (status: Status, at': nat, size': nat, fdsAt': nat, count': nat)
      requires buf != fds && NumFds(handle) < INT_LIMIT && NumInts(handle) < INT_LIMIT
      requires at <= buf.Length && size <= (buf.Length - at) * INT_SIZE
      requires fdsAt <= fds.Length && count <= fds.Length - fdsAt
      modifies buf, fds
      ensures status == if size < FlattenedSize(handle) || count < NumFds(handle) then NO_MEMORY else NO_ERROR
      ensures status != NO_ERROR ==>
        buf[..] == old(buf[..]) && fds[..] == old(fds[..]) && (at', size', fdsAt', count') == (at, size, fdsAt, count)
      ensures status == NO_ERROR ==>
        && at + HEADER + NumInts(handle) <= buf.Length && fdsAt + NumFds(handle) <= fds.Length
        && buf[..] == Over(old(buf[..]), at, Flat(geometry, mId, handle))
        && fds[..] == Over(old(fds[..]), fdsAt, FdsOf(handle))
        && at' == at + FlattenedSize(handle) && size' == size - FlattenedSize(handle)
        && fdsAt' == fdsAt + NumFds(handle) && count' == count - NumFds(handle)
    {
      at', size', fdsAt', count' := at, size, fdsAt, count;
      var sizeNeeded := FlattenedSize(handle);
      if size < sizeNeeded {
        return NO_MEMORY, at', size', fdsAt', count';
      }
      var fdCountNeeded := NumFds(handle);
      if count < fdCountNeeded {
        return NO_MEMORY, at', size', fdsAt', count';
      }
      CopyInts(buf, at, Header(geometry, mId, handle));
      CopyInts(fds, fdsAt, FdsOf(handle));
      CopyInts(buf, at + HEADER, IntsOf(handle));
      OverTwice(old(buf[..]), at, Header(geometry, mId, handle), IntsOf(handle));
      at', size' := at + sizeNeeded, size - sizeNeeded;
      fdsAt', count' := fdsAt + fdCountNeeded, count - fdCountNeeded;
      status := NO_ERROR;
    }

    method Unflatten(gralloc: Gralloc, buf: array<int32>, at: nat, size: nat, fds: array<int32>, fdsAt: nat, count: nat,
                     freed: bool, created: bool, registered: bool)
      returns (status: Status, at': nat, size': nat, fdsAt': nat, count': nat)
      requires at <= buf.Length && fdsAt <= fds.Length
      requires Readable(buf[at..], size, fds[fdsAt..], count)
      modifies this, gralloc
      ensures var m := Parse(buf[at..], size, fds[fdsAt..], count);
        && (status, Abs(), gralloc.env) == TakeOver(old(Abs()), old(gralloc.env), m, freed, created, registered)
        && (status != NO_ERROR ==> (at', size', fdsAt', count') == (at, size, fdsAt, count))
        && (status == NO_ERROR ==>
              && at' == at + (HEADER + |m.ints|) * INT_SIZE && size' == size - (HEADER + |m.ints|) * INT_SIZE
              && fdsAt' == fdsAt + |m.fds| && count' == count - |m.fds|)
    {
      at', size', fdsAt', count' := at, size, fdsAt, count;
      if size < 8 * INT_SIZE {
        return NO_MEMORY, at', size', fdsAt', count';
      }
      if buf[at] != GBFR {
        return BAD_TYPE, at', size', fdsAt', count';
      }
      var numFds, numInts := ToSizeT(buf[at + 8] as int), ToSizeT(buf[at + 9] as int);
      if numFds >= MAX_NUMBER || numInts >= MAX_NUMBER - 10 {
        geometry, handle := NO_GEOMETRY, None;
        return BAD_VALUE, at', size', fdsAt', count';
      }
      var sizeNeeded := (HEADER + numInts) * INT_SIZE;
      if size < sizeNeeded {
        return NO_MEMORY, at', size', fdsAt', count';
      }
      if count < numFds {
        return NO_MEMORY, at', size', fdsAt', count';
      }
      ghost var m := Parse(buf[at..], size, fds[fdsAt..], count);
      assert m.fds == fds[fdsAt..fdsAt + numFds] && m.ints == buf[at + HEADER..at + HEADER + numInts];
      status := Accept(gralloc, Geometry(buf[at + 1], buf[at + 2], buf[at + 3], buf[at + 4], buf[at + 5]),
                       buf[at + 6], buf[at + 7], fds[fdsAt..fdsAt + numFds], buf[at + HEADER..at + HEADER + numInts],
                       freed, created, registered);
      if status == NO_ERROR {
        at', size' := at + sizeNeeded, size - sizeNeeded;
        fdsAt', count' := fdsAt + numFds, count - numFds;
      }
    }

    /** The part of unflatten after its checks: give up the former handle, take over the message. */
    method Accept(gralloc: Gralloc, g: Geometry, high: int32, low: int32, fds: seq<int32>, ints: seq<int32>,
                  freed: bool, created: bool, registered: bool)
      returns (status: Status)
      modifies this, gralloc
      ensures var m := Message(NO_ERROR, if |fds| + |ints| > 0 then g else NO_GEOMETRY, Joined(high, low), fds, ints);
        (status, Abs(), gralloc.env) == TakeOver(old(Abs()), old(gralloc.env), m, freed, created, registered)
    {
      if handle.Some? {
        DoFreeHandle(gralloc, freed);
      }
      if |fds| != 0 || |ints| != 0 {
        geometry := g;
        if !created {
          geometry, handle := NO_GEOMETRY, None;
          return NO_MEMORY;
        }
        var key := gralloc.CreateHandle();
        handle := Some(Handle(key, fds, ints));
      } else {
        geometry, handle := NO_GEOMETRY, None;
      }
      mId := Joined(high, low);
      mOwner := ownHandle;
      if handle.Some? {
        gralloc.RegisterBuffer(handle.value.key);
        if !registered {
          geometry, handle := NO_GEOMETRY, None;
          return DEVICE_ERROR;
        }
      }
      status := NO_ERROR;
    }
  }
}
