/**
 What each operation on CameraMetadata objects leaves behind, told by what the
 objects hold and what lookups find: copies hold the same entries, swaps
 exchange them, and a locked object refuses every change.
 */
module MetadataLaws {
  import opened Wrappers
  import opened CTypes
  import opened MetadataLibrary
  import opened CameraMetadata
  import opened MetadataMap
  import opened MetadataWorld

  // ----- copies -----

  /** Object `id` owns a new buffer with the entries that `p` had and no room to spare; all else is as it was. */
  ghost predicate OwnsCopy(w: World, w': World, id: Id, p: Ptr)
    requires p in w.heap.bufs && id in w'.objs
  {
    var q := w'.objs[id].buffer;
    && !w'.objs[id].locked && q in w'.heap.bufs && q !in w.heap.bufs && w.heap.freed[q] == 0
    && w'.heap.bufs[q].entries == w.heap.bufs[p].entries
    && w'.heap.bufs[q].entryCap == |w.heap.bufs[p].entries| && w'.heap.bufs[q].dataCap == DataCount(w.heap.bufs[p].entries)
    && (forall other :: other in w.objs && other != id ==> other in w'.objs && w'.objs[other] == w.objs[other])
    && (forall r :: r in w.heap.bufs && (id in w.objs ==> r != w.objs[id].buffer) ==>
          r in w'.heap.bufs && w'.heap.bufs[r] == w.heap.bufs[r])
  }

  /** Lookups in the copy find what lookups in the original find. */
  lemma CopyFindsTheSame(w: World, w': World, id: Id, p: Ptr, tag: Tag)
    requires Inv(w) && Inv(w') && p in w.heap.bufs && id in w'.objs && OwnsCopy(w, w', id, p)
    ensures Find(w'.objs[id], w'.heap, tag) == Find(Object(p, false), w.heap, tag)
  {
  }

  /** Assignment copies: a fresh buffer with the same entries; the former buffer is freed, the original kept. */
  lemma AssignCopies(w: World, id: Id, p: Ptr)
    requires Inv(w) && id in w.objs && !w.objs[id].locked && p in w.heap.bufs && p != w.objs[id].buffer
    ensures var w', before := Step(w, AssignRaw(id, p, true)), w.objs[id].buffer;
      && OwnsCopy(w, w', id, p) && Inv(w')
      && p in w'.heap.bufs && w'.heap.bufs[p] == w.heap.bufs[p]
      && (before != NULL ==> before !in w'.heap.bufs && w'.heap.freed[before] == 1)
      && forall tag :: Find(w'.objs[id], w'.heap, tag) == Find(Object(p, false), w.heap, tag)
  {
    var w' := Step(w, AssignRaw(id, p, true));
    StepKeepsOwnership(w, AssignRaw(id, p, true));
    forall tag
      ensures Find(w'.objs[id], w'.heap, tag) == Find(Object(p, false), w.heap, tag)
    {
      CopyFindsTheSame(w, w', id, p, tag);
    }
  }

  /** Assignment to a locked object, or of the object's own buffer, does nothing. */
  lemma AssignChangesNothing(w: World, id: Id, p: Ptr, granted: bool)
    requires Inv(w) && id in w.objs && NullOrLive(w.heap, p) && (w.objs[id].locked || p == w.objs[id].buffer)
    ensures Step(w, AssignRaw(id, p, granted)) == w
  {
    assert w.objs[id := w.objs[id]] == w.objs;
  }

  /** Assignment of NULL, or one that is refused memory, empties the object. */
  lemma AssignEmpties(w: World, id: Id, p: Ptr, granted: bool)
    requires Inv(w) && id in w.objs && !w.objs[id].locked && NullOrLive(w.heap, p) && p != w.objs[id].buffer
    requires p == NULL || !granted
    ensures var w', before := Step(w, AssignRaw(id, p, granted)), w.objs[id].buffer;
      && w'.objs[id] == Object(NULL, false) && w'.heap.next == w.heap.next
      && w'.heap.bufs.Keys == w.heap.bufs.Keys - {before}
  {
  }

  /** The copy constructor copies, too, whatever lock the original is under. */
  lemma CopyConstructorCopies(w: World, id: Id, other: Id)
    requires Inv(w) && id !in w.objs && other in w.objs && w.objs[other].buffer != NULL
    ensures var w' := Step(w, NewCopy(id, other, true));
      && id in w'.objs && OwnsCopy(w, w', id, w.objs[other].buffer) && Inv(w')
      && w'.objs[other] == w.objs[other]
      && forall tag :: Find(w'.objs[id], w'.heap, tag) == Find(w.objs[other].(locked := false), w.heap, tag)
  {
    var w' := Step(w, NewCopy(id, other, true));
    StepKeepsOwnership(w, NewCopy(id, other, true));
    forall tag
      ensures Find(w'.objs[id], w'.heap, tag) == Find(w.objs[other].(locked := false), w.heap, tag)
    {
      CopyFindsTheSame(w, w', id, w.objs[other].buffer, tag);
    }
  }

  /** A constructor with capacities has room for exactly what it was asked for. */
  lemma NewHasCapacity(w: World, id: Id, entryCap: nat, dataCap: nat)
    requires Inv(w) && id !in w.objs
    ensures var w' := Step(w, NewCapacity(id, entryCap, dataCap, true));
      && id in w'.objs && !w'.objs[id].locked && w'.objs[id].buffer in w'.heap.bufs && w'.objs[id].buffer !in w.heap.bufs
      && var m := w'.heap.bufs[w'.objs[id].buffer]; m.entries == [] && m.entryCap == entryCap && m.dataCap == dataCap
  {
  }

  /** A constructor from a raw buffer takes it from the caller, as it is. */
  lemma AdoptTakes(w: World, id: Id, p: Ptr)
    requires Inv(w) && id !in w.objs && p in w.held
    ensures var w' := Step(w, NewAdopt(id, p));
      w'.objs == w.objs[id := Object(p, false)] && w'.heap == w.heap && w'.held == w.held - {p}
  {
  }

  // ----- swap, acquire and release -----

  /** Two unlocked objects exchange everything lookups find; if either is locked nothing changes. */
  lemma SwapExchanges(w: World, id: Id, other: Id)
    requires Inv(w) && id in w.objs && other in w.objs
    ensures var w' := Step(w, SwapOf(id, other));
      if w.objs[id].locked || w.objs[other].locked then w' == w
      else
        && w'.heap == w.heap && w'.held == w.held && w'.objs.Keys == w.objs.Keys
        && (forall k :: k in w.objs && k != id && k != other ==> w'.objs[k] == w.objs[k])
        && !w'.objs[id].locked && !w'.objs[other].locked
        && w'.objs[id].buffer == w.objs[other].buffer && w'.objs[other].buffer == w.objs[id].buffer
        && (forall tag :: Find(w'.objs[id], w'.heap, tag) == Find(w.objs[other], w.heap, tag))
        && (forall tag :: Find(w'.objs[other], w'.heap, tag) == Find(w.objs[id], w.heap, tag))
  {
    if id == other {
      assert SwapTwo(w, id, other) == w;
    } else if w.objs[id].locked || w.objs[other].locked {
      assert w.objs[id := w.objs[id]][other := w.objs[other]] == w.objs;
    }
  }

  /** A swap done twice is undone. */
  lemma SwapUndoesSwap(w: World, id: Id, other: Id)
    requires Inv(w) && id in w.objs && other in w.objs
    ensures Inv(Step(w, SwapOf(id, other))) && Enabled(Step(w, SwapOf(id, other)), SwapOf(id, other))
    ensures Step(Step(w, SwapOf(id, other)), SwapOf(id, other)) == w
  {
    StepKeepsOwnership(w, SwapOf(id, other));
    assert Step(Step(w, SwapOf(id, other)), SwapOf(id, other)).objs == w.objs;
  }

  /** acquire of another object moves its buffer over, if neither is locked; a locked giver leaves the taker empty. */
  lemma AcquireMoves(w: World, id: Id, other: Id)
    requires Inv(w) && id in w.objs && other in w.objs && id != other && !w.objs[id].locked
    ensures var w' := Step(w, AcquireOf(id, other));
      && id in w'.objs && other in w'.objs
      && (if w.objs[other].locked then w'.objs[other] == w.objs[other] && w'.objs[id].buffer == NULL
          else w'.objs[other].buffer == NULL && w'.objs[id].buffer == w.objs[other].buffer)
      && (w.objs[id].buffer != NULL ==> w'.heap.freed[w.objs[id].buffer] == 1)
      && (w.objs[other].buffer != NULL ==>
            w.objs[other].buffer in w'.heap.bufs
            && w'.heap.bufs[w.objs[other].buffer] == w.heap.bufs[w.objs[other].buffer])
  {
  }

  /** What release gives up, acquire takes back: the object and every buffer are as before. */
  lemma AcquireUndoesRelease(w: World, id: Id)
    requires Inv(w) && id in w.objs && !w.objs[id].locked && w.objs[id].buffer != NULL
    ensures var p, w1 := w.objs[id].buffer, Step(w, ReleaseOf(id));
      && Inv(w1) && p in w1.held && id in w1.objs && w1.objs[id].buffer == NULL
      && Step(w1, AcquireRaw(id, p)) == w
  {
    StepKeepsOwnership(w, ReleaseOf(id));
    var p, w1 := w.objs[id].buffer, Step(w, ReleaseOf(id));
    assert w1.held - {p} == w.held;
    assert w1.objs[id := w.objs[id]] == w.objs;
  }

  // ----- the lock -----

  lemma LockLocks(w: World, id: Id)
    requires Inv(w) && id in w.objs
    ensures var w' := Step(w, Lock(id));
      w'.objs == w.objs[id := Object(w.objs[id].buffer, true)] && w'.heap == w.heap && w'.held == w.held
  {
  }

  /** unlock tells what was wrong, and changes nothing then. */
  lemma UnlockTells(o: Object, p: Ptr)
    ensures var (o', status) := Unlock(o, p);
      && o'.buffer == o.buffer
      && (status == OK <==> o.locked && p == o.buffer)
      && (status == INVALID_OPERATION <==> !o.locked)
      && (status == BAD_VALUE <==> o.locked && p != o.buffer)
      && (if status == OK then !o'.locked else o' == o)
  {
  }

  /** On a locked object every operation that could change it is refused, says so, and finds nothing. */
  lemma LockedRefuses(o: Object, h: Heap, p: Ptr, types: map<Tag, TagType>, expected: TagType, tag: Tag, data: seq<byte>,
                      parsed: Option<Option<Metadata>>, known: bool, inside: bool, granted: bool)
    requires Usable(o, h) && o.locked && p in h.bufs
    ensures StaysReadable(o, h, p, granted) && Append(o, h, p, granted) == Outcome(o, h, INVALID_OPERATION)
    ensures Sort(o, h) == Erase(o, h, tag) == Outcome(o, h, INVALID_OPERATION)
    ensures UpdateImpl(o, h, known, tag, data, inside, granted) == Outcome(o, h, INVALID_OPERATION)
    ensures Update(o, h, types, expected, tag, data, inside, granted) == Outcome(o, h, INVALID_OPERATION)
    ensures Install(o, h, parsed, granted) == Outcome(o, h, INVALID_OPERATION)
    ensures Clear(o, h).obj == Acquire(o, h, p).obj == Assign(o, h, p, granted).obj == Release(o) == o
    ensures Clear(o, h).heap == Acquire(o, h, p).heap == Assign(o, h, p, granted).heap == h
    ensures Released(o) == NULL && Find(o, h, tag) == None
  {
  }

  // ----- sort -----

  ghost predicate Ascending(entries: seq<Entry>) {
    forall i, j :: 0 <= i < j < |entries| ==> entries[i].tag <= entries[j].tag
  }

  lemma {:induction false} InsertKeepsAscending(e: Entry, s: seq<Entry>)
    requires Ascending(s)
    ensures Ascending(InsertByTag(e, s)) && multiset(InsertByTag(e, s)) == multiset{e} + multiset(s)
  {
    if s != [] && e.tag > s[0].tag {
      InsertKeepsAscending(e, s[1..]);
      var rest := InsertByTag(e, s[1..]);
      assert s == [s[0]] + s[1..];
      forall j | 0 <= j < |rest|
        ensures s[0].tag <= rest[j].tag
      {
        assert rest[j] in multiset(rest);
        assert rest[j] == e || rest[j] in multiset(s[1..]);
      }
    }
  }

  lemma {:induction false} SortAscends(entries: seq<Entry>)
    ensures Ascending(SortByTag(entries)) && multiset(SortByTag(entries)) == multiset(entries)
  {
    if entries != [] {
      SortAscends(entries[1..]);
      InsertKeepsAscending(entries[0], SortByTag(entries[1..]));
      assert entries == [entries[0]] + entries[1..];
    }
  }

  /** sort leaves the object with the same entries in ascending order of tags, in the same buffer. */
  lemma SortOrdersObject(w: World, id: Id)
    requires Inv(w) && id in w.objs && !w.objs[id].locked && w.objs[id].buffer != NULL
    ensures var w', p := Step(w, SortOf(id)), w.objs[id].buffer;
      && Sort(w.objs[id], w.heap).status == OK
      && w'.objs == w.objs && w'.held == w.held && p in w'.heap.bufs
      && Ascending(w'.heap.bufs[p].entries)
      && multiset(w'.heap.bufs[p].entries) == multiset(w.heap.bufs[p].entries)
      && w'.heap.bufs[p].entryCap == w.heap.bufs[p].entryCap && w'.heap.bufs[p].dataCap == w.heap.bufs[p].dataCap
      && forall r :: r in w.heap.bufs && r != p ==> r in w'.heap.bufs && w'.heap.bufs[r] == w.heap.bufs[r]
  {
    SortAscends(w.heap.bufs[w.objs[id].buffer].entries);
    assert w.objs[id := w.objs[id]] == w.objs;
  }

  // ----- what updates and erases report -----

  /** An unlocked object that has to grow for an update and gets no memory is left empty, and says why. */
  lemma RefusedUpdateEmpties(o: Object, h: Heap, tag: Tag, data: seq<byte>)
    requires Usable(o, h) && !o.locked
    requires o.buffer == NULL || NeedsGrowth(h.bufs[o.buffer], 1, EntryDataSize(data))
    ensures UpdateImpl(o, h, true, tag, data, false, false) == Outcome(Object(NULL, false), h, NO_MEMORY)
  {
  }

  /** Each refusal of an update by name; a refused update changes nothing. */
  lemma UpdateTells(o: Object, h: Heap, types: map<Tag, TagType>, expected: TagType, tag: Tag, data: seq<byte>,
                    known: bool, inside: bool, granted: bool)
    requires Usable(o, h) && !o.locked
    ensures (tag !in types || types[tag] != expected) || inside ==>
      Update(o, h, types, expected, tag, data, inside, granted) == Outcome(o, h, INVALID_OPERATION)
    ensures !known ==> UpdateImpl(o, h, known, tag, data, inside, granted) == Outcome(o, h, BAD_VALUE)
    ensures known && inside ==> UpdateImpl(o, h, known, tag, data, inside, granted) == Outcome(o, h, INVALID_OPERATION)
  {
  }

  /** Erasing and sorting without a buffer is an error; erasing a missing tag is not. */
  lemma EraseTells(o: Object, h: Heap, tag: Tag)
    requires Usable(o, h) && !o.locked
    ensures Erase(o, h, tag).status == (if o.buffer == NULL then ERROR else OK)
    ensures Sort(o, h).status == (if o.buffer == NULL then ERROR else OK)
    ensures Find(o, h, tag) == None ==> Erase(o, h, tag).obj == o && Erase(o, h, tag).heap == h
    ensures Erase(o, h, tag).obj == o
  {
  }

  /**
   A dimension that has to grow gets exactly twice what is then needed, so as
   much again can be added; a dimension with room keeps its capacity.
   */
  lemma GrowsToTwiceTheNeed(o: Object, h: Heap, extraEntries: nat, extraData: nat)
    requires Usable(o, h)
    ensures var r := Resize(o, h, extraEntries, extraData, true);
      var (before, m) := (if o.buffer == NULL then Empty(0, 0) else h.bufs[o.buffer], r.heap.bufs[r.obj.buffer]);
      var (entries, data) := (|before.entries| + extraEntries, DataCount(before.entries) + extraData);
      && (entries > before.entryCap ==> m.entryCap == 2 * entries)
      && (entries <= before.entryCap ==> m.entryCap == before.entryCap)
      && (data > before.dataCap ==> m.dataCap == 2 * data)
      && (data <= before.dataCap ==> m.dataCap == before.dataCap)
      && (NeedsGrowth(before, extraEntries, extraData) || o.buffer == NULL <==> r.obj.buffer != o.buffer)
  {
  }

  /** An append without memory for a first or a larger buffer fails and leaves the object empty. */
  lemma RefusedAppendEmpties(o: Object, h: Heap, p: Ptr)
    requires Usable(o, h) && !o.locked && p in h.bufs
    requires o.buffer == NULL || NeedsGrowth(h.bufs[o.buffer], |h.bufs[p].entries|, DataCount(h.bufs[p].entries))
    ensures Append(o, h, p, false) == Outcome(Object(NULL, false), h, ERROR)
  {
  }

  /** Freeing a buffer that is not live is misuse, and nothing else is. */
  lemma MisuseIsNoticed(h: Heap, p: Ptr)
    ensures Free(h, p).misused <==> h.misused || p !in h.bufs
    ensures Free(Free(h, p), p).misused && Free(h, p).freed[p] == h.freed[p] + 1
  {
  }

  // ----- readFromParcel -----

  /** The object holds exactly what was parsed, in a new buffer, and its former buffer is freed. */
  lemma InstallHoldsParsed(w: World, id: Id, m: Metadata)
    requires Inv(w) && id in w.objs && !w.objs[id].locked
    ensures var w', before := Step(w, ReadInto(id, Some(Some(m)), true)), w.objs[id].buffer;
      && Install(w.objs[id], w.heap, Some(Some(m)), true).status == OK
      && !w'.objs[id].locked && w'.objs[id].buffer in w'.heap.bufs && w'.objs[id].buffer !in w.heap.bufs
      && w'.heap.bufs[w'.objs[id].buffer] == m
      && (before != NULL ==> before !in w'.heap.bufs && w'.heap.freed[before] == 1)
  {
  }

  /** A null parcel item empties the object; a failed read or allocation leaves it alone. */
  lemma InstallOtherwise(w: World, id: Id, m: Metadata)
    requires Inv(w) && id in w.objs && !w.objs[id].locked
    ensures Step(w, ReadInto(id, None, true)) == Step(w, ReadInto(id, Some(Some(m)), false)) == w
    ensures Install(w.objs[id], w.heap, None, true).status == BAD_VALUE
    ensures Install(w.objs[id], w.heap, Some(Some(m)), false).status == BAD_VALUE
    ensures var w' := Step(w, ReadInto(id, Some(None), true));
      && Install(w.objs[id], w.heap, Some(None), true).status == OK
      && w'.objs[id] == Object(NULL, false) && w'.heap.bufs.Keys == w.heap.bufs.Keys - {w.objs[id].buffer}
  {
    assert w.objs[id := w.objs[id]] == w.objs;
  }
}
