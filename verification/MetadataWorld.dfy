/**
 Any number of CameraMetadata objects over one heap: whatever public operations
 are run on them, with or without successful allocation, every buffer has at
 most one owner and is freed at most once; and a locked object keeps its buffer.
 */
module MetadataWorld {
  import opened Wrappers
  import opened CTypes
  import opened MetadataLibrary
  import opened CameraMetadata

  type Id = nat

  /** The objects, the heap, and the buffers the caller is responsible for. */
  datatype World = World(objs: map<Id, Object>, heap: Heap, held: set<Ptr>)

  datatype Op =
    | New(id: Id)
    | NewCapacity(id: Id, entryCap: nat, dataCap: nat, granted: bool)
    | NewCopy(id: Id, other: Id, granted: bool)
    | NewAdopt(id: Id, p: Ptr)
    | Delete(id: Id)
    | Lock(id: Id)
    | UnlockWith(id: Id, p: Ptr)
    | ReleaseOf(id: Id)
    | ClearOf(id: Id)
    | AcquireRaw(id: Id, p: Ptr)
    | AcquireOf(id: Id, other: Id)
    | AssignRaw(id: Id, p: Ptr, granted: bool)
    | AppendRaw(id: Id, p: Ptr, granted: bool)
    | SortOf(id: Id)
    | UpdateOf(id: Id, types: map<Tag, TagType>, expected: TagType, tag: Tag, data: seq<byte>, inside: bool, granted: bool)
    | EraseOf(id: Id, tag: Tag)
    | ReadInto(id: Id, parsed: Option<Option<Metadata>>, granted: bool)
    | SwapOf(id: Id, other: Id)
    | CallerReads(m: Metadata)
    | CallerFrees(p: Ptr)

  /** The pointers and objects an operation is given must be ones the caller may use. */
  ghost predicate Enabled(w: World, op: Op) {
    match op
    case New(id) => id !in w.objs
    case NewCapacity(id, _, _, _) => id !in w.objs
    case NewCopy(id, other, _) => id !in w.objs && other in w.objs
    case NewAdopt(id, p) => id !in w.objs && (p == NULL || p in w.held)
    case AcquireRaw(id, p) => id in w.objs && (p == NULL || p in w.held)
    case AcquireOf(id, other) => id in w.objs && other in w.objs
    case AssignRaw(id, p, _) => id in w.objs && NullOrLive(w.heap, p)
    case AppendRaw(id, p, granted) =>
      id in w.objs && Usable(w.objs[id], w.heap) && StaysReadable(w.objs[id], w.heap, p, granted)
    case SwapOf(id, other) => id in w.objs && other in w.objs
    case CallerReads(_) => true
    case CallerFrees(p) => p in w.held
    case _ => op.id in w.objs
  }

  // ----- one step -----

  /**
   Member readFromParcel: `parsed` is None for a failed read, Some(None) for a
   null one. A refused allocation of the copy counts as malformed.
   */
  function Install(o: Object, h: Heap, parsed: Option<Option<Metadata>>, granted: bool): Outcome {
    if o.locked then Outcome(o, h, INVALID_OPERATION)
    else if parsed.None? || (parsed.value.Some? && !granted) then Outcome(o, h, BAD_VALUE)
    else
      var h1 := if parsed.value.None? then h else Allocate(h, parsed.value.value);
      var cleared := Clear(o, h1);
      Outcome(cleared.obj.(buffer := if parsed.value.None? then NULL else h.next), cleared.heap, OK)
  }

  predicate IsLocal(op: Op) {
    op.Lock? || op.UnlockWith? || op.ReleaseOf? || op.ClearOf? || op.AcquireRaw? || op.AssignRaw? || op.AppendRaw?
    || op.SortOf? || op.UpdateOf? || op.EraseOf? || op.ReadInto?
  }

  /** Operations on one object that leave the caller's buffers alone. */
  ghost function Private(w: World, op: Op): Outcome
    requires IsLocal(op) && Enabled(w, op) && Usable(w.objs[op.id], w.heap)
  {
    var o, h := w.objs[op.id], w.heap;
    if op.Lock? then Outcome(o.(locked := true), h, OK)
    else if op.UnlockWith? then Outcome(Unlock(o, op.p).0, h, OK)
    else if op.ClearOf? then Clear(o, h)
    else if op.AssignRaw? then Assign(o, h, op.p, op.granted)
    else if op.AppendRaw? then Append(o, h, op.p, op.granted)
    else if op.SortOf? then Sort(o, h)
    else if op.UpdateOf? then Update(o, h, op.types, op.expected, op.tag, op.data, op.inside, op.granted)
    else if op.EraseOf? then Erase(o, h, op.tag)
    else if op.ReadInto? then Install(o, h, op.parsed, op.granted)
    else Outcome(o, h, OK)
  }

  /** The object, heap and caller's buffers after an operation on one object. */
  ghost function Local(w: World, op: Op): (Object, Heap, set<Ptr>)
    requires IsLocal(op) && Enabled(w, op) && Usable(w.objs[op.id], w.heap)
  {
    var o, h := w.objs[op.id], w.heap;
    if op.ReleaseOf? then (Release(o), h, w.held + ({Released(o)} - {NULL}))
    else if op.AcquireRaw? then
      var r := Acquire(o, h, op.p);
      (r.obj, r.heap, if o.locked then w.held else w.held - {op.p})
    else
      var r := Private(w, op);
      (r.obj, r.heap, w.held)
  }

  function Put(w: World, id: Id, o: Object, h: Heap, held: set<Ptr>): World {
    World(w.objs[id := o], h, held)
  }

  ghost function ApplyLocal(w: World, op: Op): World
    requires IsLocal(op) && Enabled(w, op) && Usable(w.objs[op.id], w.heap)
  {
    var (o, h, held) := Local(w, op);
    Put(w, op.id, o, h, held)
  }

  /** Constructors start from an empty unlocked object. */
  function Fresh(w: World, id: Id): World {
    w.(objs := w.objs[id := Object(NULL, false)])
  }

  /** acquire(CameraMetadata&): release the other object's buffer, then take it. */
  function AcquireFromOther(w: World, id: Id, other: Id): World
    requires id in w.objs && other in w.objs
  {
    if w.objs[id].locked then w
    else
      var p := Released(w.objs[other]);
      var released := w.objs[other := Release(w.objs[other])];
      var r := Acquire(released[id], w.heap, p);
      World(released[id := r.obj], r.heap, w.held)
  }

  function SwapTwo(w: World, id: Id, other: Id): World
    requires id in w.objs && other in w.objs
  {
    var (a, b) := Swap(w.objs[id], w.objs[other]);
    if id == other then w else w.(objs := w.objs[id := a][other := b])
  }

  ghost function Step(w: World, op: Op): World
    requires Inv(w) && Enabled(w, op)
  {
    match op
    case New(id) => Fresh(w, id)
    case NewCapacity(id, entryCap, dataCap, granted) =>
      if !granted then Fresh(w, id)
      else Put(w, id, Object(w.heap.next, false), Allocate(w.heap, Empty(entryCap, dataCap)), w.held)
    case NewCopy(id, other, granted) =>
      var (p, h) := Clone(w.heap, w.objs[other].buffer, granted);
      Put(w, id, Object(p, false), h, w.held)
    case NewAdopt(id, p) => Put(w, id, Acquire(Object(NULL, false), w.heap, p).obj, w.heap, w.held - {p})
    case Delete(id) => World(w.objs - {id}, Destroy(w.objs[id], w.heap), w.held)
    case AcquireOf(id, other) => AcquireFromOther(w, id, other)
    case SwapOf(id, other) => SwapTwo(w, id, other)
    case CallerReads(m) => World(w.objs, Allocate(w.heap, m), w.held + {w.heap.next})
    case CallerFrees(p) => World(w.objs, Free(w.heap, p), w.held - {p})
    case _ => ApplyLocal(w, op)
  }

  // ----- the invariant -----

  /** Every address handed out is live and never freed, or gone and freed exactly once. */
  ghost predicate Accounted(h: Heap) {
    && Sound(h) && !h.misused
    && (forall p :: h.freed[p] <= 1)
    && (forall p :: h.freed[p] == 1 <==> NULL < p < h.next && p !in h.bufs)
  }

  ghost predicate Inv(w: World) {
    && Accounted(w.heap)
    && (forall id :: id in w.objs ==> NullOrLive(w.heap, w.objs[id].buffer) && w.objs[id].buffer !in w.held)
    && (forall i, j :: i in w.objs && j in w.objs && i != j ==>
          w.objs[i].buffer == NULL || w.objs[i].buffer != w.objs[j].buffer)
    && (forall p :: p in w.held ==> p in w.heap.bufs)
  }

  ghost predicate Owned(objs: map<Id, Object>, p: Ptr) {
    exists id :: id in objs && objs[id].buffer == p
  }

  /** Live buffers nobody is responsible for. */
  ghost function Leaked(w: World): set<Ptr> {
    set p | p in w.heap.bufs && p !in w.held && !Owned(w.objs, p)
  }

  // ----- heap accounting -----

  lemma AllocateAccounted(h: Heap, m: Metadata)
    requires Accounted(h)
    ensures Accounted(Allocate(h, m)) && h.next !in h.bufs && h.next != NULL
  {
  }

  lemma FreeAccounted(h: Heap, p: Ptr)
    requires Accounted(h) && p in h.bufs
    ensures Accounted(Free(h, p))
  {
    assert h.freed[p] == 0;
  }

  lemma StoreAccounted(h: Heap, p: Ptr, m: Metadata)
    requires Accounted(h) && p in h.bufs
    ensures Accounted(Store(h, p, m))
  {
    assert Store(h, p, m).bufs.Keys == h.bufs.Keys;
  }

  // ----- operations that change one object -----

  /** What an operation on one object may do to the heap and the caller's buffers. */
  ghost predicate Proper(w: World, id: Id, o: Object, h: Heap, held: set<Ptr>)
    requires id in w.objs
  {
    var before := w.objs[id].buffer;
    && Accounted(h)
    && (forall p :: p in w.heap.bufs ==> p in h.bufs || p == before)
    && (forall p :: p in h.bufs ==> p in w.heap.bufs || p == o.buffer || p in held)
    && (o.buffer == NULL
        || (o.buffer in h.bufs && o.buffer !in held
            && (o.buffer == before || o.buffer in w.held || o.buffer !in w.heap.bufs)))
    && (forall p :: p in held ==> p in h.bufs && (p in w.held || p == before || p !in w.heap.bufs))
    && (forall p :: p in w.held ==> p in held || p == o.buffer)
    && (forall p :: p in w.heap.bufs && p in h.bufs && p != o.buffer ==> h.bufs[p] == w.heap.bufs[p])
  }

  lemma ProperKeepsInv(w: World, id: Id, o: Object, h: Heap, held: set<Ptr>)
    requires Inv(w) && id in w.objs && Proper(w, id, o, h, held)
    ensures Inv(Put(w, id, o, h, held))
  {
  }

  /** Only the object's own former buffer can become nobody's. */
  lemma ProperLeaks(w: World, id: Id, o: Object, h: Heap, held: set<Ptr>)
    requires Inv(w) && id in w.objs && Proper(w, id, o, h, held)
    ensures var before := w.objs[id].buffer;
      Leaked(Put(w, id, o, h, held))
      == Leaked(w) + if before in h.bufs && before != o.buffer && before !in held then {before} else {}
  {
    var before, w' := w.objs[id].buffer, Put(w, id, o, h, held);
    forall p | p in h.bufs
      ensures Owned(w'.objs, p) <==> p == o.buffer || (p != before && Owned(w.objs, p))
    {
      if p == o.buffer {
        assert w'.objs[id].buffer == p;
      } else if p != before && Owned(w.objs, p) {
        var k :| k in w.objs && w.objs[k].buffer == p;
        assert w'.objs[k].buffer == p;
      }
    }
  }

  /** A resize that needs a new buffer, is refused one, and so loses the old one. */
  ghost predicate ResizeLoses(o: Object, h: Heap, extraEntries: nat, extraData: nat, granted: bool)
    requires Usable(o, h)
  {
    !granted && o.buffer != NULL && NeedsGrowth(h.bufs[o.buffer], extraEntries, extraData)
  }

  /** The operation is an accepted update or append whose resize is refused memory. */
  ghost predicate Loses(w: World, op: Op)
    requires Enabled(w, op) && Inv(w)
  {
    && (op.UpdateOf? || op.AppendRaw?) && !w.objs[op.id].locked
    && (op.UpdateOf? ==>
          && op.tag in op.types && op.types[op.tag] == op.expected && !op.inside
          && ResizeLoses(w.objs[op.id], w.heap, 1, EntryDataSize(op.data), op.granted))
    && (op.AppendRaw? ==>
          var entries := w.heap.bufs[op.p].entries;
          ResizeLoses(w.objs[op.id], w.heap, |entries|, DataCount(entries), op.granted))
  }

  ghost function Lost(w: World, op: Op): set<Ptr>
    requires Enabled(w, op) && Inv(w)
  {
    if Loses(w, op) then {w.objs[op.id].buffer} else {}
  }

  // ----- each operation on one object is proper -----

  /** What resizing does to the heap: nothing, a new buffer, or the old buffer dropped. */
  lemma ResizeProper(w: World, id: Id, extraEntries: nat, extraData: nat, granted: bool)
    requires Inv(w) && id in w.objs
    ensures var o, r := w.objs[id], Resize(w.objs[id], w.heap, extraEntries, extraData, granted);
      && Proper(w, id, r.obj, r.heap, w.held)
      && (ResizeLoses(o, w.heap, extraEntries, extraData, granted) <==>
            o.buffer in r.heap.bufs && o.buffer != r.obj.buffer && o.buffer !in w.held)
      && (r.obj.buffer == o.buffer ==> r.heap == w.heap)
  {
    var o, h := w.objs[id], w.heap;
    var r := Resize(o, h, extraEntries, extraData, granted);
    if r.heap != h {
      var m := r.heap.bufs[r.obj.buffer];
      AllocateAccounted(h, m);
      if o.buffer != NULL {
        FreeAccounted(Allocate(h, m), o.buffer);
      }
    }
  }

  /** Rewriting the owned buffer after a proper change is still proper. */
  lemma StoreProper(w: World, id: Id, o: Object, h: Heap, m: Metadata)
    requires Inv(w) && id in w.objs && Proper(w, id, o, h, w.held) && o.buffer != NULL
    ensures Proper(w, id, o, Store(h, o.buffer, m), w.held)
  {
    StoreAccounted(h, o.buffer, m);
  }

  /** Freeing the object's own buffer, with any proper replacement already in place. */
  lemma ReplaceProper(w: World, id: Id, h: Heap, p: Ptr)
    requires Inv(w) && id in w.objs && Accounted(h)
    requires w.heap.bufs.Keys <= h.bufs.Keys <= w.heap.bufs.Keys + {p}
    requires forall q :: q in w.heap.bufs ==> h.bufs[q] == w.heap.bufs[q]
    requires p == NULL || (p in h.bufs && p !in w.heap.bufs)
    ensures var o := w.objs[id].(locked := false);
      Proper(w, id, Clear(o, h).obj.(buffer := p), Clear(o, h).heap, w.held)
    ensures w.objs[id].buffer !in Clear(w.objs[id].(locked := false), h).heap.bufs
  {
    if w.objs[id].buffer != NULL {
      FreeAccounted(h, w.objs[id].buffer);
    }
  }

  lemma AppendProper(w: World, op: Op)
    requires Inv(w) && op.AppendRaw? && Enabled(w, op)
    ensures var r := Private(w, op); Proper(w, op.id, r.obj, r.heap, w.held)
    ensures var r, before := Private(w, op), w.objs[op.id].buffer;
      Loses(w, op) <==> before in r.heap.bufs && before != r.obj.buffer && before !in w.held
  {
    var o, other := w.objs[op.id], w.heap.bufs[op.p];
    if !o.locked {
      var sized := Resize(o, w.heap, |other.entries|, DataCount(other.entries), op.granted);
      ResizeProper(w, op.id, |other.entries|, DataCount(other.entries), op.granted);
      if sized.obj.buffer != NULL {
        StoreProper(w, op.id, sized.obj, sized.heap, AppendAll(sized.heap.bufs[sized.obj.buffer], other).0);
      }
    }
  }

  lemma UpdateProper(w: World, op: Op)
    requires Inv(w) && op.UpdateOf? && Enabled(w, op)
    ensures var r := Private(w, op); Proper(w, op.id, r.obj, r.heap, w.held)
    ensures var r, before := Private(w, op), w.objs[op.id].buffer;
      Loses(w, op) <==> before in r.heap.bufs && before != r.obj.buffer && before !in w.held
  {
    var o := w.objs[op.id];
    if !o.locked && op.tag in op.types && op.types[op.tag] == op.expected && !op.inside {
      var sized := Resize(o, w.heap, 1, EntryDataSize(op.data), op.granted);
      ResizeProper(w, op.id, 1, EntryDataSize(op.data), op.granted);
      if sized.status == OK {
        var r := Private(w, op);
        StoreProper(w, op.id, sized.obj, sized.heap, r.heap.bufs[r.obj.buffer]);
      }
    }
  }

  lemma AssignProper(w: World, op: Op)
    requires Inv(w) && op.AssignRaw? && Enabled(w, op)
    ensures var r := Private(w, op); Proper(w, op.id, r.obj, r.heap, w.held)
    ensures var r, before := Private(w, op), w.objs[op.id].buffer;
      !(before in r.heap.bufs && before != r.obj.buffer)
  {
    var o := w.objs[op.id];
    if !o.locked && op.p != o.buffer {
      var (copy, h1) := Clone(w.heap, op.p, op.granted);
      if copy != NULL {
        AllocateAccounted(w.heap, Compact(w.heap.bufs[op.p]));
      }
      ReplaceProper(w, op.id, h1, copy);
    }
  }

  lemma ReadProper(w: World, op: Op)
    requires Inv(w) && op.ReadInto? && Enabled(w, op)
    ensures var r := Private(w, op); Proper(w, op.id, r.obj, r.heap, w.held)
    ensures var r, before := Private(w, op), w.objs[op.id].buffer;
      !(before in r.heap.bufs && before != r.obj.buffer)
  {
    var o, h := w.objs[op.id], w.heap;
    if !o.locked && op.parsed.Some? {
      if op.parsed.value.None? {
        ReplaceProper(w, op.id, h, NULL);
      } else {
        AllocateAccounted(h, op.parsed.value.value);
        ReplaceProper(w, op.id, Allocate(h, op.parsed.value.value), h.next);
      }
    }
  }

  lemma AcquireProper(w: World, op: Op)
    requires Inv(w) && op.AcquireRaw? && Enabled(w, op)
    ensures var (o, h, held) := Local(w, op); Proper(w, op.id, o, h, held)
    ensures var (o, h, held) := Local(w, op);
      var before := w.objs[op.id].buffer;
      !(before in h.bufs && before != o.buffer)
  {
    var o := w.objs[op.id];
    if !o.locked && o.buffer != NULL {
      FreeAccounted(w.heap, o.buffer);
    }
  }

  lemma RewriteProper(w: World, op: Op)
    requires Inv(w) && (op.SortOf? || op.EraseOf?) && Enabled(w, op)
    ensures var r := Private(w, op);
      Proper(w, op.id, r.obj, r.heap, w.held) && r.obj.buffer == w.objs[op.id].buffer
  {
    var o, r := w.objs[op.id], Private(w, op);
    if r.heap != w.heap {
      StoreProper(w, op.id, o, w.heap, r.heap.bufs[o.buffer]);
    }
  }

  lemma LocalProper(w: World, op: Op)
    requires Inv(w) && IsLocal(op) && Enabled(w, op)
    ensures var (o, h, held) := Local(w, op); Proper(w, op.id, o, h, held)
    ensures var (o, h, held) := Local(w, op);
      var before := w.objs[op.id].buffer;
      Loses(w, op) <==> before in h.bufs && before != o.buffer && before !in held
  {
    var o := w.objs[op.id];
    match op
    case AppendRaw(_, _, _) => AppendProper(w, op);
    case UpdateOf(_, _, _, _, _, _, _) => UpdateProper(w, op);
    case AssignRaw(_, _, _) => AssignProper(w, op);
    case ReadInto(_, _, _) => ReadProper(w, op);
    case AcquireRaw(_, _) => AcquireProper(w, op);
    case ClearOf(_) =>
      if !o.locked && o.buffer != NULL { FreeAccounted(w.heap, o.buffer); }
    case SortOf(_) => RewriteProper(w, op);
    case EraseOf(_, _) => RewriteProper(w, op);
    case _ =>
  }

  lemma LocalStep(w: World, op: Op)
    requires Inv(w) && IsLocal(op) && Enabled(w, op)
    ensures Inv(ApplyLocal(w, op)) && Leaked(ApplyLocal(w, op)) == Leaked(w) + Lost(w, op)
  {
    var (o, h, held) := Local(w, op);
    LocalProper(w, op);
    ProperKeepsInv(w, op.id, o, h, held);
    ProperLeaks(w, op.id, o, h, held);
  }

  // ----- the other operations -----

  lemma FreshKeeps(w: World, id: Id)
    requires Inv(w) && id !in w.objs
    ensures Inv(Fresh(w, id)) && Leaked(Fresh(w, id)) == Leaked(w)
  {
    SameOwners(w, Fresh(w, id), id);
  }

  /** Worlds that differ in an object without a buffer have the same owners. */
  lemma SameOwners(w: World, w': World, id: Id)
    requires w.heap == w'.heap && w.held == w'.held && NULL !in w.heap.bufs
    requires id in w'.objs && w'.objs == w.objs[id := w'.objs[id]]
    requires w'.objs[id].buffer == NULL && (id in w.objs ==> w.objs[id].buffer == NULL)
    ensures Leaked(w) == Leaked(w')
  {
    forall p | p in w.heap.bufs
      ensures Owned(w.objs, p) <==> Owned(w'.objs, p)
    {
      if Owned(w.objs, p) {
        var k :| k in w.objs && w.objs[k].buffer == p;
        assert w'.objs[k].buffer == p;
      }
    }
  }

  predicate IsConstructor(op: Op) {
    op.New? || op.NewCapacity? || op.NewCopy? || op.NewAdopt?
  }

  /** An object without a buffer gets a newly allocated one. */
  lemma NewBufferProper(w: World, id: Id, m: Metadata)
    requires Inv(w) && id in w.objs && w.objs[id].buffer == NULL
    ensures Proper(w, id, Object(w.heap.next, false), Allocate(w.heap, m), w.held)
  {
    AllocateAccounted(w.heap, m);
  }

  /** Every constructor gives the new object its first buffer in a proper way. */
  lemma ConstructorProper(w: World, op: Op)
    requires Inv(w) && Enabled(w, op) && IsConstructor(op) && Inv(Fresh(w, op.id))
    ensures op.id in Step(w, op).objs
    ensures var w' := Step(w, op); Proper(Fresh(w, op.id), op.id, w'.objs[op.id], w'.heap, w'.held)
  {
    if op.NewCapacity? {
      NewBufferProper(Fresh(w, op.id), op.id, Empty(op.entryCap, op.dataCap));
    } else if op.NewCopy? {
      CopyProper(w, op);
    } else if op.NewAdopt? {
      AdoptProper(w, op);
    }
  }

  lemma AdoptProper(w: World, op: Op)
    requires Inv(w) && Enabled(w, op) && op.NewAdopt? && Inv(Fresh(w, op.id))
    ensures op.id in Step(w, op).objs
    ensures var w' := Step(w, op); Proper(Fresh(w, op.id), op.id, w'.objs[op.id], w'.heap, w'.held)
  {
  }

  lemma CopyProper(w: World, op: Op)
    requires Inv(w) && Enabled(w, op) && op.NewCopy? && Inv(Fresh(w, op.id))
    ensures op.id in Step(w, op).objs
    ensures var w' := Step(w, op); Proper(Fresh(w, op.id), op.id, w'.objs[op.id], w'.heap, w'.held)
  {
    if w.objs[op.other].buffer != NULL {
      NewBufferProper(Fresh(w, op.id), op.id, Compact(w.heap.bufs[w.objs[op.other].buffer]));
    }
  }

  lemma ConstructorIsPut(w: World, op: Op)
    requires Inv(w) && Enabled(w, op) && IsConstructor(op)
    ensures op.id in Step(w, op).objs
    ensures var w' := Step(w, op); w' == Put(Fresh(w, op.id), op.id, w'.objs[op.id], w'.heap, w'.held)
  {
  }

  lemma ConstructorStep(w: World, op: Op)
    requires Inv(w) && Enabled(w, op) && IsConstructor(op)
    ensures Inv(Step(w, op)) && Leaked(Step(w, op)) == Leaked(w)
  {
    var w' := Step(w, op);
    FreshKeeps(w, op.id);
    ConstructorIsPut(w, op);
    ConstructorProper(w, op);
    PutKeeps(Fresh(w, op.id), op.id, w'.objs[op.id], w'.heap, w'.held);
  }

  /** A proper change of an object that had no buffer keeps the invariant and leaks nothing. */
  lemma PutKeeps(w: World, id: Id, o: Object, h: Heap, held: set<Ptr>)
    requires Inv(w) && id in w.objs && w.objs[id].buffer == NULL && Proper(w, id, o, h, held)
    ensures Inv(Put(w, id, o, h, held)) && Leaked(Put(w, id, o, h, held)) == Leaked(w)
  {
    ProperKeepsInv(w, id, o, h, held);
    ProperLeaks(w, id, o, h, held);
  }

  lemma DeleteStep(w: World, id: Id)
    requires Inv(w) && id in w.objs
    ensures Inv(Step(w, Delete(id))) && Leaked(Step(w, Delete(id))) == Leaked(w)
  {
    var empty := Object(NULL, false);
    var h := Destroy(w.objs[id], w.heap);
    if w.objs[id].buffer != NULL {
      FreeAccounted(w.heap, w.objs[id].buffer);
    }
    ProperKeepsInv(w, id, empty, h, w.held);
    ProperLeaks(w, id, empty, h, w.held);
    RemoveEmpty(Put(w, id, empty, h, w.held), id);
    assert (w.objs[id := empty]) - {id} == w.objs - {id};
  }

  lemma RemoveEmpty(w: World, id: Id)
    requires Inv(w) && id in w.objs && w.objs[id].buffer == NULL
    ensures Inv(w.(objs := w.objs - {id})) && Leaked(w.(objs := w.objs - {id})) == Leaked(w)
  {
    var w' := w.(objs := w.objs - {id});
    assert w.objs == w'.objs[id := w.objs[id]];
    SameOwners(w', w, id);
  }

  /** acquire(CameraMetadata&) is a release into the caller's hands and an acquire from there. */
  lemma AcquireIsReleaseThenTake(w: World, id: Id, other: Id)
    requires Inv(w) && id in w.objs && other in w.objs && !w.objs[id].locked
    ensures Inv(ApplyLocal(w, ReleaseOf(other)))
    ensures Enabled(ApplyLocal(w, ReleaseOf(other)), AcquireRaw(id, Released(w.objs[other])))
    ensures AcquireFromOther(w, id, other)
         == ApplyLocal(ApplyLocal(w, ReleaseOf(other)), AcquireRaw(id, Released(w.objs[other])))
  {
    LocalStep(w, ReleaseOf(other));
  }

  lemma AcquireStep(w: World, id: Id, other: Id)
    requires Inv(w) && id in w.objs && other in w.objs
    ensures Inv(AcquireFromOther(w, id, other)) && Leaked(AcquireFromOther(w, id, other)) == Leaked(w)
  {
    if !w.objs[id].locked {
      AcquireIsReleaseThenTake(w, id, other);
      LocalStep(w, ReleaseOf(other));
      LocalStep(ApplyLocal(w, ReleaseOf(other)), AcquireRaw(id, Released(w.objs[other])));
    }
  }

  /** A swap passes each buffer from one owner to another. */
  lemma SwapKeepsOwned(w: World, id: Id, other: Id, p: Ptr)
    requires Inv(w) && id in w.objs && other in w.objs
    ensures Owned(w.objs, p) <==> Owned(SwapTwo(w, id, other).objs, p)
  {
    var w' := SwapTwo(w, id, other);
    if w' != w {
      if Owned(w.objs, p) {
        var k :| k in w.objs && w.objs[k].buffer == p;
        assert w'.objs[if k == id then other else if k == other then id else k].buffer == p;
      }
      if Owned(w'.objs, p) {
        var k :| k in w'.objs && w'.objs[k].buffer == p;
        assert w.objs[if k == id then other else if k == other then id else k].buffer == p;
      }
    }
  }

  lemma SwapStep(w: World, id: Id, other: Id)
    requires Inv(w) && id in w.objs && other in w.objs
    ensures Inv(SwapTwo(w, id, other)) && Leaked(SwapTwo(w, id, other)) == Leaked(w)
  {
    forall p
      ensures Owned(w.objs, p) <==> Owned(SwapTwo(w, id, other).objs, p)
    {
      SwapKeepsOwned(w, id, other, p);
    }
  }

  lemma CallerStep(w: World, op: Op)
    requires Inv(w) && Enabled(w, op) && (op.CallerReads? || op.CallerFrees?)
    ensures Inv(Step(w, op)) && Leaked(Step(w, op)) == Leaked(w)
  {
    if op.CallerReads? {
      AllocateAccounted(w.heap, op.m);
      assert !Owned(w.objs, w.heap.next);
    } else {
      FreeAccounted(w.heap, op.p);
      assert !Owned(w.objs, op.p);
    }
  }

  /**
   One public operation, allocation granted or not: ownership stays exclusive,
   nothing is freed twice, and exactly the buffer of a refused resize is lost.
   */
  lemma StepKeepsOwnership(w: World, op: Op)
    requires Inv(w) && Enabled(w, op)
    ensures Inv(Step(w, op)) && Leaked(Step(w, op)) == Leaked(w) + Lost(w, op)
  {
    if IsLocal(op) {
      LocalStep(w, op);
    } else {
      match op
      case Delete(id) => DeleteStep(w, id);
      case AcquireOf(id, other) => AcquireStep(w, id, other);
      case SwapOf(id, other) => SwapStep(w, id, other);
      case CallerReads(_) => CallerStep(w, op);
      case CallerFrees(_) => CallerStep(w, op);
      case _ => ConstructorStep(w, op);
    }
  }

  // ----- runs -----

  const EMPTY_WORLD := World(map[], EMPTY_HEAP, {})

  /** Every operation of the run is one the caller may perform when its turn comes. */
  ghost predicate EnabledRun(w: World, ops: seq<Op>)
    requires Inv(w)
    decreases |ops|
  {
    ops == [] || (Enabled(w, ops[0]) && (StepKeepsOwnership(w, ops[0]); EnabledRun(Step(w, ops[0]), ops[1..])))
  }

  ghost function RunAll(w: World, ops: seq<Op>): (w': World)
    requires Inv(w) && EnabledRun(w, ops)
    ensures Inv(w')
    decreases |ops|
  {
    if ops == [] then w
    else
      StepKeepsOwnership(w, ops[0]);
      RunAll(Step(w, ops[0]), ops[1..])
  }

  /** Some operation of the run is refused memory while its object has a buffer to grow. */
  ghost predicate RunLoses(w: World, ops: seq<Op>)
    requires Inv(w) && EnabledRun(w, ops)
    decreases |ops|
  {
    ops != [] && (Loses(w, ops[0]) || (StepKeepsOwnership(w, ops[0]); RunLoses(Step(w, ops[0]), ops[1..])))
  }

  lemma {:induction false} LeaksOnlyGrow(w: World, ops: seq<Op>)
    requires Inv(w) && EnabledRun(w, ops)
    ensures Leaked(w) <= Leaked(RunAll(w, ops))
    ensures Leaked(w) == {} ==> (Leaked(RunAll(w, ops)) == {} <==> !RunLoses(w, ops))
    decreases |ops|
  {
    if ops != [] {
      StepKeepsOwnership(w, ops[0]);
      LeaksOnlyGrow(Step(w, ops[0]), ops[1..]);
    }
  }

  /** Where a buffer that was handed out is now. */
  ghost predicate WithOneOwner(w: World, p: Ptr) {
    && w.heap.freed[p] == 0 && p in w.heap.bufs && p !in w.held
    && (exists id :: id in w.objs && w.objs[id].buffer == p
          && (forall other :: other in w.objs && w.objs[other].buffer == p ==> other == id))
  }

  ghost predicate WithCaller(w: World, p: Ptr) {
    w.heap.freed[p] == 0 && p in w.held && !Owned(w.objs, p)
  }

  ghost predicate FreedOnce(w: World, p: Ptr) {
    w.heap.freed[p] == 1 && p !in w.heap.bufs && p !in w.held && !Owned(w.objs, p)
  }

  /** In every run each buffer ever allocated is with one owner, with the caller, freed once, or leaked. */
  lemma BuffersAccountedFor(ops: seq<Op>, p: Ptr)
    requires EnabledRun(EMPTY_WORLD, ops)
    ensures var w := RunAll(EMPTY_WORLD, ops);
      && !w.heap.misused
      && (NULL < p < w.heap.next ==> WithOneOwner(w, p) || WithCaller(w, p) || FreedOnce(w, p) || p in Leaked(w))
  {
    var w := RunAll(EMPTY_WORLD, ops);
    if NULL < p < w.heap.next {
      if p in w.held {
        assert !Owned(w.objs, p);
      } else if p in w.heap.bufs && Owned(w.objs, p) {
        var id :| id in w.objs && w.objs[id].buffer == p;
        assert forall other :: other in w.objs && w.objs[other].buffer == p ==> other == id;
      } else if p !in w.heap.bufs {
        assert !Owned(w.objs, p);
      }
    }
  }

  /**
   Conservation: starting from nothing, every buffer ever allocated is owned by
   exactly one object, held by the caller or freed exactly once, if and only if
   no update or append was refused memory for growing an existing buffer.
   */
  lemma ConservationExactly(ops: seq<Op>)
    requires EnabledRun(EMPTY_WORLD, ops)
    ensures var w := RunAll(EMPTY_WORLD, ops);
      (forall p :: NULL < p < w.heap.next ==> WithOneOwner(w, p) || WithCaller(w, p) || FreedOnce(w, p))
      <==> !RunLoses(EMPTY_WORLD, ops)
  {
    var w := RunAll(EMPTY_WORLD, ops);
    assert Leaked(EMPTY_WORLD) == {};
    LeaksOnlyGrow(EMPTY_WORLD, ops);
    if Leaked(w) == {} {
      forall p | NULL < p < w.heap.next
        ensures WithOneOwner(w, p) || WithCaller(w, p) || FreedOnce(w, p)
      {
        BuffersAccountedFor(ops, p);
      }
    } else {
      var p :| p in Leaked(w);
      assert NULL < p < w.heap.next;
      assert !WithOneOwner(w, p) && !WithCaller(w, p) && !FreedOnce(w, p);
    }
  }

  // ----- leaks do happen -----

  /** From every reachable state, an update that is refused memory can leak the buffer of any unlocked object. */
  lemma AnyBufferCanLeak(w: World, id: Id, tag: Tag) returns (op: Op)
    requires Inv(w) && id in w.objs && w.objs[id].buffer != NULL && !w.objs[id].locked
    ensures Enabled(w, op) && Loses(w, op) && Leaked(Step(w, op)) == Leaked(w) + {w.objs[id].buffer}
  {
    var data: seq<byte> := seq(w.heap.bufs[w.objs[id].buffer].dataCap + 5, k => 0);
    op := UpdateOf(id, map[tag := TypeByte], TypeByte, tag, data, false, false);
    assert EntryDataSize(data) >= |data|;
    StepKeepsOwnership(w, op);
  }

  /** The shortest run that loses a buffer: one object, and an update for which there is no memory. */
  lemma RefusedUpdateLeaks()
    ensures var ops := [NewCapacity(0, 0, 0, true), UpdateOf(0, map[1 := TypeByte], TypeByte, 1, [7], false, false)];
      EnabledRun(EMPTY_WORLD, ops) && RunLoses(EMPTY_WORLD, ops) && Leaked(RunAll(EMPTY_WORLD, ops)) == {1}
  {
    var first, second := NewCapacity(0, 0, 0, true), UpdateOf(0, map[1 := TypeByte], TypeByte, 1, [7], false, false);
    StepKeepsOwnership(EMPTY_WORLD, first);
    var w := Step(EMPTY_WORLD, first);
    assert Leaked(EMPTY_WORLD) == {};
    StepKeepsOwnership(w, second);
    assert w.objs[0].buffer == 1 && Lost(w, second) == {1};
    assert [first, second][1..] == [second] && [second][1..] == [];
    assert RunAll(w, [second]) == Step(w, second);
  }

  // ----- the lock -----

  /** The operation neither destroys the object nor unlocks it with its own pointer. */
  predicate RespectsLock(w: World, id: Id, op: Op)
    requires id in w.objs
  {
    !(op.Delete? && op.id == id) && !(op.UnlockWith? && op.id == id && op.p == w.objs[id].buffer)
  }

  /** The object is unchanged, and so is its buffer, bit for bit. */
  ghost predicate SameObject(w: World, w': World, id: Id)
    requires id in w.objs
  {
    && id in w'.objs && w'.objs[id] == w.objs[id]
    && (w.objs[id].buffer in w.heap.bufs ==>
          && w.objs[id].buffer in w'.heap.bufs
          && w'.heap.bufs[w.objs[id].buffer] == w.heap.bufs[w.objs[id].buffer])
  }

  lemma LocalRespectsLock(w: World, id: Id, op: Op)
    requires Inv(w) && id in w.objs && w.objs[id].locked && IsLocal(op) && Enabled(w, op) && RespectsLock(w, id, op)
    ensures SameObject(w, ApplyLocal(w, op), id)
  {
    LocalProper(w, op);
    LocalStep(w, op);
  }

  lemma StepRespectsLock(w: World, id: Id, op: Op)
    requires Inv(w) && id in w.objs && w.objs[id].locked && Enabled(w, op) && RespectsLock(w, id, op)
    ensures SameObject(w, Step(w, op), id)
  {
    if IsLocal(op) {
      LocalRespectsLock(w, id, op);
    } else if op.AcquireOf? && !w.objs[op.id].locked {
      var p, w1 := Released(w.objs[op.other]), ApplyLocal(w, ReleaseOf(op.other));
      AcquireIsReleaseThenTake(w, op.id, op.other);
      LocalRespectsLock(w, id, ReleaseOf(op.other));
      LocalStep(w, ReleaseOf(op.other));
      LocalRespectsLock(w1, id, AcquireRaw(op.id, p));
    } else if op.Delete? {
      if w.objs[op.id].buffer != NULL {
        FreeAccounted(w.heap, w.objs[op.id].buffer);
      }
    }
  }

  ghost predicate RunRespectsLock(w: World, id: Id, ops: seq<Op>)
    requires Inv(w) && EnabledRun(w, ops) && id in w.objs
    decreases |ops|
  {
    ops == []
    || (RespectsLock(w, id, ops[0])
        && (StepKeepsOwnership(w, ops[0]); id in Step(w, ops[0]).objs && RunRespectsLock(Step(w, ops[0]), id, ops[1..])))
  }

  /**
   From getAndLock until the object is unlocked with that same pointer or
   destroyed, no run of operations on any objects changes the object or the
   contents of its buffer.
   */
  lemma {:induction false} LockedBufferIsStable(w: World, id: Id, ops: seq<Op>)
    requires Inv(w) && id in w.objs && w.objs[id].locked
    requires EnabledRun(w, ops) && RunRespectsLock(w, id, ops)
    ensures SameObject(w, RunAll(w, ops), id)
    decreases |ops|
  {
    if ops != [] {
      StepKeepsOwnership(w, ops[0]);
      StepRespectsLock(w, id, ops[0]);
      LockedBufferIsStable(Step(w, ops[0]), id, ops[1..]);
    }
  }

  /** Of all operations on any objects, exactly the right unlock and destruction end a lock. */
  lemma LockEndsIff(w: World, id: Id, op: Op)
    requires Inv(w) && id in w.objs && w.objs[id].locked && Enabled(w, op)
    ensures id in Step(w, op).objs && Step(w, op).objs[id].locked <==> RespectsLock(w, id, op)
  {
    if RespectsLock(w, id, op) {
      StepRespectsLock(w, id, op);
    }
  }
}
