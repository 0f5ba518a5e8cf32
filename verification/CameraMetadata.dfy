/**
 The CameraMetadata wrapper: an object that owns at most one metadata buffer,
 grows it on demand and can be locked. Each public operation is a function of
 the object and the heap; the class performs the operations in place and is
 proved equal to those functions.

 `granted` is the answer of the one allocation an operation may attempt.
 */
module CameraMetadata {
  import opened Wrappers
  import opened CTypes
  import opened MetadataLibrary

  datatype Object = Object(buffer: Ptr, locked: bool)

  datatype Outcome = Outcome(obj: Object, heap: Heap, status: Status)

  ghost predicate Usable(o: Object, h: Heap) {
    Sound(h) && NullOrLive(h, o.buffer)
  }

  // ----- ownership of the buffer -----

  function Clear(o: Object, h: Heap): Outcome {
    if o.locked || o.buffer == NULL then Outcome(o, h, OK)
    else Outcome(o.(buffer := NULL), Free(h, o.buffer), OK)
  }

  function Destroy(o: Object, h: Heap): Heap {
    Clear(o.(locked := false), h).heap
  }

  function Acquire(o: Object, h: Heap, p: Ptr): Outcome {
    if o.locked then Outcome(o, h, OK)
    else
      var cleared := Clear(o, h);
      Outcome(cleared.obj.(buffer := p), cleared.heap, OK)
  }

  function Released(o: Object): Ptr {
    if o.locked then NULL else o.buffer
  }

  function Release(o: Object): Object {
    if o.locked then o else o.(buffer := NULL)
  }

  /** clone_camera_metadata: a compact copy, or NULL for NULL or a failed allocation. */
  function Clone(h: Heap, p: Ptr, granted: bool): (Ptr, Heap)
    requires NullOrLive(h, p)
  {
    if p == NULL || !granted then (NULL, h) else (h.next, Allocate(h, Compact(h.bufs[p])))
  }

  function Assign(o: Object, h: Heap, p: Ptr, granted: bool): Outcome
    requires NullOrLive(h, p)
  {
    if o.locked || p == o.buffer then Outcome(o, h, OK)
    else
      var (copy, h1) := Clone(h, p, granted);
      var cleared := Clear(o, h1);
      Outcome(cleared.obj.(buffer := copy), cleared.heap, OK)
  }

  function Unlock(o: Object, p: Ptr): (Object, Status) {
    if !o.locked then (o, INVALID_OPERATION)
    else if p != o.buffer then (o, BAD_VALUE)
    else (o.(locked := false), OK)
  }

  // ----- growth -----

  /** The capacity after asking for room for `count` items. */
  function Grown(count: nat, cap: nat): nat {
    if count > cap then 2 * count else cap
  }

  function Resize(o: Object, h: Heap, extraEntries: nat, extraData: nat, granted: bool): (r: Outcome)
    requires Usable(o, h)
    ensures Usable(r.obj, r.heap) && (r.status == OK <==> r.obj.buffer != NULL)
    ensures r.obj.locked == o.locked
  {
    if o.buffer == NULL then
      if !granted then Outcome(o, h, NO_MEMORY)
      else Outcome(o.(buffer := h.next), Allocate(h, Empty(2 * extraEntries, 2 * extraData)), OK)
    else
      var m := h.bufs[o.buffer];
      var entryCap := Grown(|m.entries| + extraEntries, m.entryCap);
      var dataCap := Grown(DataCount(m.entries) + extraData, m.dataCap);
      if entryCap <= m.entryCap && dataCap <= m.dataCap then Outcome(o, h, OK)
      else if !granted then Outcome(o.(buffer := NULL), h, NO_MEMORY)
      else
        var bigger := AppendAll(Empty(entryCap, dataCap), m).0;
        Outcome(o.(buffer := h.next), Free(Allocate(h, bigger), o.buffer), OK)
  }

  // ----- contents -----

  predicate NeedsGrowth(m: Metadata, extraEntries: nat, extraData: nat) {
    |m.entries| + extraEntries > m.entryCap || DataCount(m.entries) + extraData > m.dataCap
  }

  /**
   The buffer to append is still there when it is read: growing the object's own
   buffer frees it, so that buffer may be appended to itself only if it has room.
   */
  predicate StaysReadable(o: Object, h: Heap, p: Ptr, granted: bool)
    requires Usable(o, h)
  {
    && p in h.bufs
    && (p == o.buffer && !o.locked && granted ==>
          !NeedsGrowth(h.bufs[p], |h.bufs[p].entries|, DataCount(h.bufs[p].entries)))
  }

  function Append(o: Object, h: Heap, p: Ptr, granted: bool): Outcome
    requires Usable(o, h) && StaysReadable(o, h, p, granted)
  {
    if o.locked then Outcome(o, h, INVALID_OPERATION)
    else
      var other := h.bufs[p];
      var sized := Resize(o, h, |other.entries|, DataCount(other.entries), granted);
      if sized.obj.buffer == NULL then Outcome(sized.obj, sized.heap, ERROR)
      else
        var (m, status) := AppendAll(sized.heap.bufs[sized.obj.buffer], other);
        Outcome(sized.obj, Store(sized.heap, sized.obj.buffer, m), status)
  }

  function Sort(o: Object, h: Heap): Outcome
    requires Usable(o, h)
  {
    if o.locked then Outcome(o, h, INVALID_OPERATION)
    else if o.buffer == NULL then Outcome(o, h, ERROR)
    else
      var m := h.bufs[o.buffer];
      Outcome(o, Store(h, o.buffer, m.(entries := SortByTag(m.entries))), OK)
  }

  /** An update whose data lies in the buffer itself is refused. */
  function UpdateImpl(o: Object, h: Heap, known: bool, tag: Tag, data: seq<byte>, inside: bool, granted: bool): Outcome
    requires Usable(o, h)
  {
    if o.locked then Outcome(o, h, INVALID_OPERATION)
    else if !known then Outcome(o, h, BAD_VALUE)
    else if inside then Outcome(o, h, INVALID_OPERATION)
    else
      var sized := Resize(o, h, 1, EntryDataSize(data), granted);
      if sized.status != OK then sized
      else
        var p := sized.obj.buffer;
        var m := sized.heap.bufs[p];
        var i := FindIndex(m.entries, tag);
        var (m', status) := if i == |m.entries| then AddEntry(m, tag, data) else UpdateEntry(m, i, data);
        Outcome(sized.obj, Store(sized.heap, p, m'), status)
  }

  /** The typed updates: the tag must exist and have the type of the data. */
  function Update(o: Object, h: Heap, types: map<Tag, TagType>, expected: TagType,
                  tag: Tag, data: seq<byte>, inside: bool, granted: bool): Outcome
    requires Usable(o, h)
  {
    if o.locked then Outcome(o, h, INVALID_OPERATION)
    else if tag !in types || types[tag] != expected then Outcome(o, h, INVALID_OPERATION)
    else UpdateImpl(o, h, true, tag, data, inside, granted)
  }

  function Erase(o: Object, h: Heap, tag: Tag): Outcome
    requires Usable(o, h)
  {
    if o.locked then Outcome(o, h, INVALID_OPERATION)
    else if o.buffer == NULL then Outcome(o, h, ERROR)
    else
      var m := h.bufs[o.buffer];
      var i := FindIndex(m.entries, tag);
      if i == |m.entries| then Outcome(o, h, OK)
      else Outcome(o, Store(h, o.buffer, DeleteEntry(m, i)), OK)
  }

  /** The data found for a tag; nothing for a locked object, no buffer or no entry. */
  function Find(o: Object, h: Heap, tag: Tag): Option<seq<byte>>
    requires Usable(o, h)
  {
    if o.locked || o.buffer == NULL then None
    else
      var entries := h.bufs[o.buffer].entries;
      var i := FindIndex(entries, tag);
      if i == |entries| then None else Some(entries[i].data)
  }

  // ----- two objects -----

  /** Swap of the buffers of two objects, refused when either is locked. */
  function Swap(a: Object, b: Object): (Object, Object) {
    if a.locked || b.locked then (a, b) else (a.(buffer := b.buffer), b.(buffer := a.buffer))
  }

  // ----- the same operations in place -----

  /** The heap of metadata buffers; its methods are the library's allocation calls. */
  class MetadataHeap {
    var heap: Heap

    constructor ()
      ensures heap == EMPTY_HEAP
    {
      heap := EMPTY_HEAP;
    }

    method AllocateMetadata(entryCap: nat, dataCap: nat, granted: bool) returns (p: Ptr)
      modifies this
      ensures granted ==> p == old(heap.next) && heap == Allocate(old(heap), Empty(entryCap, dataCap))
      ensures !granted ==> p == NULL && heap == old(heap)
    {
      p := NULL;
      if granted {
        p := heap.next;
        heap := Allocate(heap, Empty(entryCap, dataCap));
      }
    }

    method CloneMetadata(src: Ptr, granted: bool) returns (p: Ptr)
      requires NullOrLive(heap, src)
      modifies this
      ensures (p, heap) == Clone(old(heap), src, granted)
    {
      p := NULL;
      if src != NULL && granted {
        p := heap.next;
        heap := Allocate(heap, Compact(heap.bufs[src]));
      }
    }

    method FreeMetadata(p: Ptr)
      modifies this
      ensures heap == Free(old(heap), p)
    {
      heap := Free(heap, p);
    }

    method AppendMetadata(dst: Ptr, src: Ptr) returns (res: Status)
      requires NullOrLive(heap, dst) && src in heap.bufs
      modifies this
      ensures dst == NULL ==> res == ERROR && heap == old(heap)
      ensures dst != NULL ==>
        var (m, status) := AppendAll(old(heap).bufs[dst], old(heap).bufs[src]);
        res == status && heap == Store(old(heap), dst, m)
    {
      if dst == NULL {
        return ERROR;
      }
      var (m, status) := AppendAll(heap.bufs[dst], heap.bufs[src]);
      heap := Store(heap, dst, m);
      return status;
    }
  }

  class Wrapper {
    var mBuffer: Ptr
    var mLocked: bool

    ghost function Abs(): Object
      reads this
    {
      Object(mBuffer, mLocked)
    }

    constructor ()
      ensures Abs() == Object(NULL, false)
    {
      mBuffer := NULL;
      mLocked := false;
    }

    constructor WithCapacity(lib: MetadataHeap, entryCap: nat, dataCap: nat, granted: bool)
      modifies lib
      ensures !mLocked
      ensures granted ==> mBuffer == old(lib.heap.next) && lib.heap == Allocate(old(lib.heap), Empty(entryCap, dataCap))
      ensures !granted ==> mBuffer == NULL && lib.heap == old(lib.heap)
    {
      mLocked := false;
      mBuffer := NULL;
      new;
      mBuffer := lib.AllocateMetadata(entryCap, dataCap, granted);
    }

    constructor Copy(lib: MetadataHeap, other: Wrapper, granted: bool)
      requires Usable(other.Abs(), lib.heap)
      modifies lib
      ensures !mLocked && (mBuffer, lib.heap) == Clone(old(lib.heap), old(other.mBuffer), granted)
    {
      mLocked := false;
      mBuffer := NULL;
      new;
      mBuffer := lib.CloneMetadata(other.mBuffer, granted);
    }

    constructor Adopt(lib: MetadataHeap, buffer: Ptr)
      modifies lib
      ensures Outcome(Abs(), lib.heap, OK) == Acquire(Object(NULL, false), old(lib.heap), buffer)
    {
      mBuffer := NULL;
      mLocked := false;
      new;
      AcquireBuffer(lib, buffer);
    }

    method AssignFrom(lib: MetadataHeap, buffer: Ptr, granted: bool)
      requires NullOrLive(lib.heap, buffer)
      modifies this, lib
      ensures Outcome(Abs(), lib.heap, OK) == Assign(old(Abs()), old(lib.heap), buffer, granted)
    {
      if mLocked {
        return;
      }
      if buffer != mBuffer {
        var newBuffer := lib.CloneMetadata(buffer, granted);
        ClearBuffer(lib);
        mBuffer := newBuffer;
      }
    }

    /** The destructor. */
    method Finish(lib: MetadataHeap)
      modifies this, lib
      ensures lib.heap == Destroy(old(Abs()), old(lib.heap))
    {
      mLocked := false;
      ClearBuffer(lib);
    }

    method GetAndLock() returns (buffer: Ptr)
      modifies this
      ensures buffer == old(mBuffer) && Abs() == Object(old(mBuffer), true)
    {
      mLocked := true;
      return mBuffer;
    }

    method UnlockBuffer(buffer: Ptr) returns (res: Status)
      modifies this
      ensures (Abs(), res) == Unlock(old(Abs()), buffer)
    {
      if !mLocked {
        return INVALID_OPERATION;
      }
      if buffer != mBuffer {
        return BAD_VALUE;
      }
      mLocked := false;
      return OK;
    }

    method ReleaseBuffer() returns (released: Ptr)
      modifies this
      ensures released == Released(old(Abs())) && Abs() == Release(old(Abs()))
    {
      if mLocked {
        return NULL;
      }
      released := mBuffer;
      mBuffer := NULL;
    }

    method ClearBuffer(lib: MetadataHeap)
      modifies this, lib
      ensures Outcome(Abs(), lib.heap, OK) == Clear(old(Abs()), old(lib.heap))
    {
      if mLocked {
        return;
      }
      if mBuffer != NULL {
        lib.FreeMetadata(mBuffer);
        mBuffer := NULL;
      }
    }

    method AcquireBuffer(lib: MetadataHeap, buffer: Ptr)
      modifies this, lib
      ensures Outcome(Abs(), lib.heap, OK) == Acquire(old(Abs()), old(lib.heap), buffer)
    {
      if mLocked {
        return;
      }
      ClearBuffer(lib);
      mBuffer := buffer;
    }

    /** Takes the buffer out of another object, or out of this one. */
    method AcquireFrom(lib: MetadataHeap, other: Wrapper)
      modifies this, other, lib
      ensures old(mLocked) ==> lib.heap == old(lib.heap) && Abs() == old(Abs()) && other.Abs() == old(other.Abs())
      ensures !old(mLocked) && this != other ==>
        && Outcome(Abs(), lib.heap, OK) == Acquire(old(Abs()), old(lib.heap), Released(old(other.Abs())))
        && other.Abs() == Release(old(other.Abs()))
      ensures this == other ==> Abs() == old(Abs()) && lib.heap == old(lib.heap)
    {
      if mLocked {
        return;
      }
      var released := other.ReleaseBuffer();
      AcquireBuffer(lib, released);
    }

    method SwapWith(other: Wrapper)
      modifies this, other
      ensures this != other ==> (Abs(), other.Abs()) == Swap(old(Abs()), old(other.Abs()))
      ensures this == other ==> Abs() == old(Abs())
    {
      if mLocked {
        return;
      } else if other.mLocked {
        return;
      }
      var thisBuf := mBuffer;
      var otherBuf := other.mBuffer;
      other.mBuffer := thisBuf;
      mBuffer := otherBuf;
    }

    method ResizeIfNeeded(lib: MetadataHeap, extraEntries: nat, extraData: nat, granted: bool) returns (res: Status)
      requires Usable(Abs(), lib.heap)
      modifies this, lib
      ensures Outcome(Abs(), lib.heap, res) == Resize(old(Abs()), old(lib.heap), extraEntries, extraData, granted)
    {
      if mBuffer == NULL {
        mBuffer := lib.AllocateMetadata(extraEntries * 2, extraData * 2, granted);
        if mBuffer == NULL {
          return NO_MEMORY;
        }
      } else {
        var currentEntryCount := |lib.heap.bufs[mBuffer].entries|;
        var currentEntryCap := lib.heap.bufs[mBuffer].entryCap;
        var newEntryCount := currentEntryCount + extraEntries;
        newEntryCount := if newEntryCount > currentEntryCap then newEntryCount * 2 else currentEntryCap;

        var currentDataCount := DataCount(lib.heap.bufs[mBuffer].entries);
        var currentDataCap := lib.heap.bufs[mBuffer].dataCap;
        var newDataCount := currentDataCount + extraData;
        newDataCount := if newDataCount > currentDataCap then newDataCount * 2 else currentDataCap;

        if newEntryCount > currentEntryCap || newDataCount > currentDataCap {
          var oldBuffer := mBuffer;
          mBuffer := lib.AllocateMetadata(newEntryCount, newDataCount, granted);
          if mBuffer == NULL {
            return NO_MEMORY;
          }
          var appended := lib.AppendMetadata(mBuffer, oldBuffer);
          lib.FreeMetadata(oldBuffer);
        }
      }
      return OK;
    }

    method AppendFrom(lib: MetadataHeap, other: Ptr, granted: bool) returns (res: Status)
      requires Usable(Abs(), lib.heap)
      requires StaysReadable(Abs(), lib.heap, other, granted)
      modifies this, lib
      ensures Outcome(Abs(), lib.heap, res) == Append(old(Abs()), old(lib.heap), other, granted)
    {
      if mLocked {
        return INVALID_OPERATION;
      }
      var extraEntries := |lib.heap.bufs[other].entries|;
      var extraData := DataCount(lib.heap.bufs[other].entries);
      var sized := ResizeIfNeeded(lib, extraEntries, extraData, granted);
      res := lib.AppendMetadata(mBuffer, other);
    }

    method SortEntries(lib: MetadataHeap) returns (res: Status)
      requires Usable(Abs(), lib.heap)
      modifies lib
      ensures Outcome(Abs(), lib.heap, res) == Sort(old(Abs()), old(lib.heap))
    {
      if mLocked {
        return INVALID_OPERATION;
      }
      if mBuffer == NULL {
        return ERROR;
      }
      var m := lib.heap.bufs[mBuffer];
      lib.heap := Store(lib.heap, mBuffer, m.(entries := SortByTag(m.entries)));
      return OK;
    }

    method UpdateTyped(lib: MetadataHeap, types: map<Tag, TagType>, expected: TagType,
                       tag: Tag, data: seq<byte>, inside: bool, granted: bool)
      returns (res: Status)
      requires Usable(Abs(), lib.heap)
      modifies this, lib
      ensures Outcome(Abs(), lib.heap, res)
           == Update(old(Abs()), old(lib.heap), types, expected, tag, data, inside, granted)
    {
      if mLocked {
        return INVALID_OPERATION;
      }
      if tag !in types || types[tag] != expected {
        return INVALID_OPERATION;
      }
      res := UpdateEntries(lib, tag in types, tag, data, inside, granted);
    }

    method UpdateEntries(lib: MetadataHeap, known: bool, tag: Tag, data: seq<byte>, inside: bool, granted: bool)
      returns (res: Status)
      requires Usable(Abs(), lib.heap)
      modifies this, lib
      ensures Outcome(Abs(), lib.heap, res)
           == UpdateImpl(old(Abs()), old(lib.heap), known, tag, data, inside, granted)
    {
      if mLocked {
        return INVALID_OPERATION;
      }
      if !known {
        return BAD_VALUE;
      }
      if inside {
        return INVALID_OPERATION;
      }
      res := ResizeIfNeeded(lib, 1, EntryDataSize(data), granted);
      if res == OK {
        var m := lib.heap.bufs[mBuffer];
        var i := FindIndex(m.entries, tag);
        if i == |m.entries| {
          var (added, status) := AddEntry(m, tag, data);
          lib.heap := Store(lib.heap, mBuffer, added);
          res := status;
        } else {
          var (updated, status) := UpdateEntry(m, i, data);
          lib.heap := Store(lib.heap, mBuffer, updated);
          res := status;
        }
      }
    }

    method FindEntry(lib: MetadataHeap, tag: Tag) returns (data: Option<seq<byte>>)
      requires Usable(Abs(), lib.heap)
      ensures data == Find(Abs(), lib.heap, tag)
    {
      if mLocked || mBuffer == NULL {
        return None;
      }
      var entries := lib.heap.bufs[mBuffer].entries;
      var i := FindIndex(entries, tag);
      data := if i == |entries| then None else Some(entries[i].data);
    }

    method EraseEntry(lib: MetadataHeap, tag: Tag) returns (res: Status)
      requires Usable(Abs(), lib.heap)
      modifies lib
      ensures Outcome(Abs(), lib.heap, res) == Erase(old(Abs()), old(lib.heap), tag)
    {
      if mLocked {
        return INVALID_OPERATION;
      }
      if mBuffer == NULL {
        return ERROR;
      }
      var m := lib.heap.bufs[mBuffer];
      var i := FindIndex(m.entries, tag);
      if i == |m.entries| {
        return OK;
      }
      lib.heap := Store(lib.heap, mBuffer, DeleteEntry(m, i));
      return OK;
    }
  }
}
