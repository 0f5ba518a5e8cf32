/**
 A CameraMetadata object used by update, erase, sort and clear is a map from
 tags to values and never runs out of room; an append is a union of two maps
 exactly when they share no tag.
 */
module MetadataMap {
  import opened Wrappers
  import opened CTypes
  import opened MetadataLibrary
  import opened CameraMetadata

  type Values = map<Tag, seq<byte>>

  // ----- entries as a map -----

  ghost predicate UniqueTags(entries: seq<Entry>) {
    forall i, j :: 0 <= i < j < |entries| ==> entries[i].tag != entries[j].tag
  }

  ghost predicate Has(entries: seq<Entry>, tag: Tag) {
    exists i :: 0 <= i < |entries| && entries[i].tag == tag
  }

  ghost predicate Represents(entries: seq<Entry>, m: Values) {
    && UniqueTags(entries)
    && (forall i :: 0 <= i < |entries| ==> entries[i].tag in m && m[entries[i].tag] == entries[i].data)
    && (forall t :: t in m ==> Has(entries, t))
  }

  lemma UniqueInsert(a: seq<Entry>, e: Entry, b: seq<Entry>)
    requires UniqueTags(a + b) && !Has(a + b, e.tag)
    ensures UniqueTags(a + [e] + b)
  {
    var xs, ys := a + b, a + [e] + b;
    assert forall i :: 0 <= i < |a| ==> ys[i] == xs[i];
    assert forall i :: |a| < i < |ys| ==> ys[i] == xs[i - 1];
    assert forall i :: 0 <= i < |xs| ==> xs[i].tag != e.tag;
  }

  lemma RepresentsInsert(a: seq<Entry>, e: Entry, b: seq<Entry>, m: Values)
    requires Represents(a + b, m) && e.tag !in m
    ensures Represents(a + [e] + b, m[e.tag := e.data])
  {
    var xs, ys := a + b, a + [e] + b;
    UniqueInsert(a, e, b);
    forall i | 0 <= i < |ys|
      ensures ys[i].tag in m[e.tag := e.data] && m[e.tag := e.data][ys[i].tag] == ys[i].data
    {
      assert ys[i] == if i < |a| then xs[i] else if i == |a| then e else xs[i - 1];
    }
    forall t | t in m[e.tag := e.data]
      ensures Has(ys, t)
    {
      if t == e.tag {
        assert ys[|a|].tag == t;
      } else {
        var i :| 0 <= i < |xs| && xs[i].tag == t;
        assert ys[if i < |a| then i else i + 1].tag == t;
      }
    }
  }

  lemma RepresentsRemove(a: seq<Entry>, e: Entry, b: seq<Entry>, m: Values)
    requires Represents(a + [e] + b, m)
    ensures Represents(a + b, m - {e.tag}) && e.tag in m && m[e.tag] == e.data
  {
    var xs, ys := a + [e] + b, a + b;
    assert xs[|a|] == e;
    assert forall i :: 0 <= i < |a| ==> ys[i] == xs[i];
    assert forall i :: |a| <= i < |ys| ==> ys[i] == xs[i + 1];
    forall t | t in m - {e.tag}
      ensures Has(ys, t)
    {
      var i :| 0 <= i < |xs| && xs[i].tag == t;
      assert ys[if i < |a| then i else i - 1].tag == t;
    }
  }

  // The three edits of an entry list, on the map and on the byte count.

  lemma AddRepresents(entries: seq<Entry>, e: Entry, m: Values)
    requires Represents(entries, m) && e.tag !in m
    ensures Represents(entries + [e], m[e.tag := e.data])
  {
    assert entries == entries + [] && entries + [e] + [] == entries + [e];
    RepresentsInsert(entries, e, [], m);
  }

  lemma DeleteRepresents(entries: seq<Entry>, i: nat, m: Values)
    requires i < |entries| && Represents(entries, m)
    ensures Represents(entries[..i] + entries[i + 1..], m - {entries[i].tag})
    ensures entries[i].tag in m && m[entries[i].tag] == entries[i].data
  {
    assert entries == entries[..i] + [entries[i]] + entries[i + 1..];
    RepresentsRemove(entries[..i], entries[i], entries[i + 1..], m);
  }

  lemma DropFirstRepresents(entries: seq<Entry>, m: Values)
    requires entries != [] && Represents(entries, m)
    ensures Represents(entries[1..], m - {entries[0].tag})
    ensures (m - {entries[0].tag})[entries[0].tag := entries[0].data] == m
  {
    var e, rest := entries[0], entries[1..];
    forall t | t in m - {e.tag}
      ensures Has(rest, t)
    {
      var i :| 0 <= i < |entries| && entries[i].tag == t;
      assert rest[i - 1].tag == t;
    }
  }

  lemma ReplaceRepresents(entries: seq<Entry>, i: nat, data: seq<byte>, m: Values)
    requires i < |entries| && Represents(entries, m)
    ensures Represents(entries[i := Entry(entries[i].tag, data)], m[entries[i].tag := data])
  {
    var tag := entries[i].tag;
    DeleteRepresents(entries, i, m);
    RepresentsInsert(entries[..i], Entry(tag, data), entries[i + 1..], m - {tag});
    assert entries[i := Entry(tag, data)] == entries[..i] + [Entry(tag, data)] + entries[i + 1..];
    assert (m - {tag})[tag := data] == m[tag := data];
  }

  lemma InsertRepresents(e: Entry, entries: seq<Entry>, m: Values)
    requires Represents(entries, m) && e.tag !in m
    ensures Represents(InsertByTag(e, entries), m[e.tag := e.data])
  {
    var k := InsertPosition(e, entries);
    assert entries == entries[..k] + entries[k..];
    RepresentsInsert(entries[..k], e, entries[k..], m);
  }

  /** FindIndex decides membership and finds the mapped value. */
  lemma FindsMapped(entries: seq<Entry>, m: Values, tag: Tag)
    requires Represents(entries, m)
    ensures FindIndex(entries, tag) < |entries| <==> tag in m
    ensures tag in m ==> entries[FindIndex(entries, tag)].data == m[tag]
  {
    if tag in m {
      var i :| 0 <= i < |entries| && entries[i].tag == tag;
    }
  }

  lemma {:induction false} InsertPosition(e: Entry, sorted: seq<Entry>) returns (k: nat)
    ensures k <= |sorted| && InsertByTag(e, sorted) == sorted[..k] + [e] + sorted[k..]
  {
    if sorted == [] || e.tag <= sorted[0].tag {
      k := 0;
    } else {
      var k' := InsertPosition(e, sorted[1..]);
      k := k' + 1;
      assert sorted[..k] == [sorted[0]] + sorted[1..][..k'];
      assert sorted[k..] == sorted[1..][k'..];
    }
  }

  lemma {:induction false} SortKeepsMap(entries: seq<Entry>, m: Values)
    requires Represents(entries, m)
    ensures Represents(SortByTag(entries), m)
  {
    if entries != [] {
      var e := entries[0];
      DropFirstRepresents(entries, m);
      SortKeepsMap(entries[1..], m - {e.tag});
      InsertRepresents(e, SortByTag(entries[1..]), m - {e.tag});
    }
  }

  // ----- out-of-line bytes -----

  lemma {:induction false} DataCountConcat(a: seq<Entry>, b: seq<Entry>)
    ensures DataCount(a + b) == DataCount(a) + DataCount(b)
  {
    if b == [] {
      assert a + b == a;
    } else {
      DataCountConcat(a, b[..|b| - 1]);
      assert (a + b)[..|a + b| - 1] == a + b[..|b| - 1];
    }
  }

  lemma DataCountAdd(entries: seq<Entry>, e: Entry)
    ensures DataCount(entries + [e]) == DataCount(entries) + EntryDataSize(e.data)
  {
    assert (entries + [e])[..|entries|] == entries;
  }

  lemma DataCountInsert(a: seq<Entry>, e: Entry, b: seq<Entry>)
    ensures DataCount(a + [e] + b) == DataCount(a + b) + EntryDataSize(e.data)
  {
    DataCountConcat(a + [e], b);
    DataCountAdd(a, e);
    DataCountConcat(a, b);
  }

  /** DataCount of a list given as its parts around one entry. */
  lemma DataCountAround(whole: seq<Entry>, a: seq<Entry>, e: Entry, b: seq<Entry>)
    requires whole == a + [e] + b
    ensures DataCount(whole) == DataCount(a + b) + EntryDataSize(e.data)
  {
    DataCountInsert(a, e, b);
  }

  lemma PartsAround<T>(whole: seq<T>, i: nat)
    requires i < |whole|
    ensures whole == whole[..i] + [whole[i]] + whole[i + 1..]
  {
  }

  lemma DataCountDelete(entries: seq<Entry>, i: nat)
    requires i < |entries|
    ensures DataCount(entries[..i] + entries[i + 1..]) == DataCount(entries) - EntryDataSize(entries[i].data)
  {
    PartsAround(entries, i);
    DataCountAround(entries, entries[..i], entries[i], entries[i + 1..]);
  }

  lemma DataCountDropFirst(entries: seq<Entry>)
    requires entries != []
    ensures DataCount(entries) == DataCount(entries[1..]) + EntryDataSize(entries[0].data)
  {
    DataCountDelete(entries, 0);
    assert entries[..0] + entries[1..] == entries[1..];
  }

  lemma DataCountReplace(entries: seq<Entry>, i: nat, e: Entry)
    requires i < |entries|
    ensures DataCount(entries[i := e])
         == DataCount(entries) - EntryDataSize(entries[i].data) + EntryDataSize(e.data)
  {
    DataCountDelete(entries, i);
    DataCountAround(entries[i := e], entries[..i], e, entries[i + 1..]);
  }

  lemma InsertDataCount(e: Entry, sorted: seq<Entry>)
    ensures DataCount(InsertByTag(e, sorted)) == DataCount(sorted) + EntryDataSize(e.data)
    ensures |InsertByTag(e, sorted)| == |sorted| + 1
  {
    var k := InsertPosition(e, sorted);
    assert sorted == sorted[..k] + sorted[k..];
    DataCountInsert(sorted[..k], e, sorted[k..]);
  }

  lemma {:induction false} SortKeepsDataCount(entries: seq<Entry>)
    ensures DataCount(SortByTag(entries)) == DataCount(entries) && |SortByTag(entries)| == |entries|
  {
    if entries != [] {
      SortKeepsDataCount(entries[1..]);
      InsertDataCount(entries[0], SortByTag(entries[1..]));
      DataCountDropFirst(entries);
    }
  }

  // ----- the buffer after one operation -----

  /** The object has no buffer and the map is empty, or its buffer holds the map. */
  ghost predicate Holds(o: Object, h: Heap, m: Values) {
    && Usable(o, h) && !o.locked
    && if o.buffer == NULL then m == map[]
       else BufferHolds(h.bufs[o.buffer], m)
  }

  ghost predicate BufferHolds(b: Metadata, m: Values) {
    Fits(b) && Represents(b.entries, m)
  }

  function EntriesOf(o: Object, h: Heap): seq<Entry>
    requires Usable(o, h)
  {
    if o.buffer == NULL then [] else h.bufs[o.buffer].entries
  }

  /** Growing never changes an entry and leaves the room asked for. */
  lemma ResizeMakesRoom(o: Object, h: Heap, extraEntries: nat, extraData: nat)
    requires Usable(o, h) && (o.buffer != NULL ==> Fits(h.bufs[o.buffer]))
    ensures var r := Resize(o, h, extraEntries, extraData, true);
      var entries := EntriesOf(o, h);
      && r.status == OK && r.obj.buffer != NULL
      && r.heap.bufs[r.obj.buffer].entries == entries
      && |entries| + extraEntries <= r.heap.bufs[r.obj.buffer].entryCap
      && DataCount(entries) + extraData <= r.heap.bufs[r.obj.buffer].dataCap
  {
    if o.buffer != NULL {
      assert [] + h.bufs[o.buffer].entries == h.bufs[o.buffer].entries;
    }
  }

  lemma ResizeHolds(o: Object, h: Heap, extraEntries: nat, extraData: nat, m: Values)
    requires Holds(o, h, m)
    ensures var r := Resize(o, h, extraEntries, extraData, true);
      r.status == OK && r.obj.buffer != NULL && !r.obj.locked && BufferHolds(r.heap.bufs[r.obj.buffer], m)
  {
    ResizeMakesRoom(o, h, extraEntries, extraData);
    var r := Resize(o, h, extraEntries, extraData, true);
    if o.buffer == NULL {
      assert r.heap.bufs[r.obj.buffer].entries == [];
    } else {
      assert r.heap.bufs[r.obj.buffer].entries == h.bufs[o.buffer].entries;
    }
  }

  /** In a buffer with room, adding or overwriting an entry succeeds and changes one key. */
  lemma PutInBuffer(b: Metadata, tag: Tag, data: seq<byte>, m: Values)
    requires BufferHolds(b, m)
    requires |b.entries| + 1 <= b.entryCap && DataCount(b.entries) + EntryDataSize(data) <= b.dataCap
    ensures var i := FindIndex(b.entries, tag);
      var r := if i == |b.entries| then AddEntry(b, tag, data) else UpdateEntry(b, i, data);
      r.1 == OK && BufferHolds(r.0, m[tag := data])
  {
    var i := FindIndex(b.entries, tag);
    FindsMapped(b.entries, m, tag);
    if i == |b.entries| {
      AddRepresents(b.entries, Entry(tag, data), m);
      DataCountAdd(b.entries, Entry(tag, data));
    } else {
      ReplaceRepresents(b.entries, i, data, m);
      DataCountReplace(b.entries, i, Entry(tag, data));
    }
  }

  lemma DeleteFromBuffer(b: Metadata, tag: Tag, m: Values)
    requires BufferHolds(b, m) && tag in m
    ensures FindIndex(b.entries, tag) < |b.entries|
    ensures BufferHolds(DeleteEntry(b, FindIndex(b.entries, tag)), m - {tag})
  {
    FindsMapped(b.entries, m, tag);
    DeleteRepresents(b.entries, FindIndex(b.entries, tag), m);
    DataCountDelete(b.entries, FindIndex(b.entries, tag));
  }

  /** An update that is not refused for its type or its source succeeds and overwrites one key. */
  lemma UpdateIsMapUpdate(o: Object, h: Heap, tag: Tag, data: seq<byte>, m: Values)
    requires Holds(o, h, m)
    ensures var r := UpdateImpl(o, h, true, tag, data, false, true);
      r.status == OK && Holds(r.obj, r.heap, m[tag := data])
  {
    var sized := Resize(o, h, 1, EntryDataSize(data), true);
    ResizeMakesRoom(o, h, 1, EntryDataSize(data));
    ResizeHolds(o, h, 1, EntryDataSize(data), m);
    var b := sized.heap.bufs[sized.obj.buffer];
    PutInBuffer(b, tag, data, m);
  }

  lemma EraseIsMapErase(o: Object, h: Heap, tag: Tag, m: Values)
    requires Holds(o, h, m)
    ensures var r := Erase(o, h, tag); Holds(r.obj, r.heap, m - {tag})
  {
    if tag in m {
      DeleteFromBuffer(h.bufs[o.buffer], tag, m);
    } else {
      assert m - {tag} == m;
      if o.buffer != NULL {
        FindsMapped(h.bufs[o.buffer].entries, m, tag);
      }
    }
  }

  // ----- append -----

  lemma ConcatRepresents(a: seq<Entry>, b: seq<Entry>, m: Values, n: Values)
    requires Represents(a, m) && Represents(b, n) && m.Keys !! n.Keys
    ensures Represents(a + b, m + n)
  {
    forall t | t in m + n
      ensures Has(a + b, t)
    {
      if t in n {
        var i :| 0 <= i < |b| && b[i].tag == t;
        assert (a + b)[|a| + i].tag == t;
      } else {
        var i :| 0 <= i < |a| && a[i].tag == t;
        assert (a + b)[i].tag == t;
      }
    }
  }

  /** A tag in both lists is twice in their concatenation. */
  lemma ConcatRepeats(a: seq<Entry>, b: seq<Entry>, m: Values, n: Values)
    requires Represents(a, m) && Represents(b, n) && !(m.Keys !! n.Keys)
    ensures !UniqueTags(a + b)
  {
    var t :| t in m && t in n;
    assert Has(a, t) && Has(b, t);
    var i :| 0 <= i < |a| && a[i].tag == t;
    var j :| 0 <= j < |b| && b[j].tag == t;
    assert (a + b)[i].tag == (a + b)[|a| + j].tag;
  }

  /** With memory granted an append succeeds: the entries are the object's, then the other buffer's. */
  lemma AppendConcatenates(o: Object, h: Heap, p: Ptr)
    requires Usable(o, h) && !o.locked && StaysReadable(o, h, p, true)
    requires o.buffer != NULL ==> Fits(h.bufs[o.buffer])
    ensures var r := Append(o, h, p, true);
      && r.status == OK && r.obj.buffer != NULL && !r.obj.locked && Usable(r.obj, r.heap)
      && EntriesOf(r.obj, r.heap) == EntriesOf(o, h) + h.bufs[p].entries
      && Fits(r.heap.bufs[r.obj.buffer])
  {
    var other := h.bufs[p].entries;
    ResizeMakesRoom(o, h, |other|, DataCount(other));
    DataCountConcat(EntriesOf(o, h), other);
  }

  /**
   An append leaves the object a map if and only if the two have no tag in
   common, and then the map is the union of both.
   */
  lemma AppendIsUnionIffDisjoint(o: Object, h: Heap, p: Ptr, m: Values, n: Values)
    requires Holds(o, h, m) && StaysReadable(o, h, p, true) && BufferHolds(h.bufs[p], n)
    ensures var r := Append(o, h, p, true);
      && (m.Keys !! n.Keys ==> Holds(r.obj, r.heap, m + n))
      && ((exists any :: Holds(r.obj, r.heap, any)) <==> m.Keys !! n.Keys)
  {
    var r := Append(o, h, p, true);
    AppendConcatenates(o, h, p);
    assert Represents(EntriesOf(o, h), m);
    if m.Keys !! n.Keys {
      ConcatRepresents(EntriesOf(o, h), h.bufs[p].entries, m, n);
      assert Holds(r.obj, r.heap, m + n);
    } else {
      ConcatRepeats(EntriesOf(o, h), h.bufs[p].entries, m, n);
    }
  }

  // ----- runs -----

  datatype MapOp =
    | OpUpdate(expected: TagType, tag: Tag, data: seq<byte>, inside: bool)
    | OpErase(tag: Tag)
    | OpSort
    | OpClear

  /** The update is of the tag's own type and its data lies outside the buffer. */
  predicate Accepted(types: map<Tag, TagType>, op: MapOp)
    requires op.OpUpdate?
  {
    op.tag in types && types[op.tag] == op.expected && !op.inside
  }

  ghost function Perform(types: map<Tag, TagType>, op: MapOp, o: Object, h: Heap): Outcome
    requires Usable(o, h)
  {
    match op
    case OpUpdate(expected, tag, data, inside) => Update(o, h, types, expected, tag, data, inside, true)
    case OpErase(tag) => Erase(o, h, tag)
    case OpSort => Sort(o, h)
    case OpClear => Clear(o, h)
  }

  function PerformOnMap(types: map<Tag, TagType>, op: MapOp, m: Values): Values {
    match op
    case OpUpdate(_, tag, data, _) => if Accepted(types, op) then m[tag := data] else m
    case OpErase(tag) => m - {tag}
    case OpSort => m
    case OpClear => map[]
  }

  lemma OpRefinesMap(types: map<Tag, TagType>, op: MapOp, o: Object, h: Heap, m: Values)
    requires Holds(o, h, m)
    ensures var r := Perform(types, op, o, h); Holds(r.obj, r.heap, PerformOnMap(types, op, m))
    ensures op.OpUpdate? ==> (Perform(types, op, o, h).status == OK <==> Accepted(types, op))
  {
    match op
    case OpUpdate(expected, tag, data, inside) =>
      if Accepted(types, op) {
        UpdateIsMapUpdate(o, h, tag, data, m);
      }
    case OpErase(tag) =>
      EraseIsMapErase(o, h, tag, m);
    case OpSort =>
      if o.buffer != NULL {
        SortKeepsMap(h.bufs[o.buffer].entries, m);
        SortKeepsDataCount(h.bufs[o.buffer].entries);
      }
    case OpClear =>
  }

  /** The state after a run of operations on a new object. */
  ghost function Run(types: map<Tag, TagType>, ops: seq<MapOp>, h: Heap): (r: Outcome)
    requires Sound(h)
    ensures Usable(r.obj, r.heap)
    decreases |ops|
  {
    if ops == [] then Outcome(Object(NULL, false), h, OK)
    else
      var before := Run(types, ops[..|ops| - 1], h);
      Perform(types, ops[|ops| - 1], before.obj, before.heap)
  }

  function RunOnMap(types: map<Tag, TagType>, ops: seq<MapOp>): Values {
    if ops == [] then map[]
    else PerformOnMap(types, ops[|ops| - 1], RunOnMap(types, ops[..|ops| - 1]))
  }

  /** Any run of operations on a new object leaves it holding the plain map's values. */
  lemma {:induction false} RunHoldsMap(types: map<Tag, TagType>, ops: seq<MapOp>, h: Heap)
    requires Sound(h)
    ensures var r := Run(types, ops, h); Holds(r.obj, r.heap, RunOnMap(types, ops))
    decreases |ops|
  {
    if ops != [] {
      var rest, before := ops[..|ops| - 1], Run(types, ops[..|ops| - 1], h);
      RunHoldsMap(types, rest, h);
      OpRefinesMap(types, ops[|ops| - 1], before.obj, before.heap, RunOnMap(types, rest));
    }
  }

  /**
   The object behaves as a map: after any run every lookup answers from the map,
   and any further update succeeds exactly when it is accepted.
   */
  lemma RunRefinesMap(types: map<Tag, TagType>, ops: seq<MapOp>, h: Heap, tag: Tag, next: MapOp)
    requires Sound(h) && next.OpUpdate?
    ensures var r, m := Run(types, ops, h), RunOnMap(types, ops);
      && Find(r.obj, r.heap, tag) == (if tag in m then Some(m[tag]) else None)
      && (Perform(types, next, r.obj, r.heap).status == OK <==> Accepted(types, next))
  {
    var r, m := Run(types, ops, h), RunOnMap(types, ops);
    RunHoldsMap(types, ops, h);
    OpRefinesMap(types, next, r.obj, r.heap, m);
    if r.obj.buffer != NULL {
      FindsMapped(r.heap.bufs[r.obj.buffer].entries, m, tag);
    }
  }
}
