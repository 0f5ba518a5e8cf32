/**
 How often a CameraMetadata object reallocates: each reallocation at least
 doubles the product of its two capacities, and the capacities are bounded by
 what the run stores, so the number of reallocations is logarithmic.
 */
module MetadataGrowth {
  import opened CTypes
  import opened MetadataLibrary
  import opened CameraMetadata
  import opened MetadataMap

  /** The room of an object; no buffer counts as two capacities of zero. */
  function Room(o: Object, h: Heap): nat
    requires NullOrLive(h, o.buffer)
  {
    if o.buffer == NULL then 1 else (h.bufs[o.buffer].entryCap + 1) * (h.bufs[o.buffer].dataCap + 1)
  }

  lemma ProductDoubles(a: nat, b: nat, a': nat, b': nat)
    requires a <= a' && b <= b' && (2 * a <= a' || 2 * b <= b')
    ensures 2 * (a * b) <= a' * b'
  {
    if 2 * a <= a' {
      assert 2 * a * b <= a' * b;
      assert a' * b <= a' * b';
    } else {
      assert a * (2 * b) <= a * b';
      assert a * b' <= a' * b';
    }
  }

  /** Whatever is asked for: either nothing is allocated, or one buffer with at least twice the room. */
  lemma ResizeDoublesRoom(o: Object, h: Heap, extraEntries: nat, extraData: nat, granted: bool)
    requires Usable(o, h) && extraEntries + extraData > 0
    ensures var r := Resize(o, h, extraEntries, extraData, granted);
      || (r.heap.next == h.next && (r.status == OK ==> r.obj == o && r.heap == h))
      || (r.heap.next == h.next + 1 && 2 * Room(o, h) <= Room(r.obj, r.heap))
  {
    var r := Resize(o, h, extraEntries, extraData, granted);
    if r.heap.next != h.next {
      var b := r.heap.bufs[r.obj.buffer];
      if o.buffer == NULL {
        ProductDoubles(1, 1, b.entryCap + 1, b.dataCap + 1);
      } else {
        var m := h.bufs[o.buffer];
        ProductDoubles(m.entryCap + 1, m.dataCap + 1, b.entryCap + 1, b.dataCap + 1);
      }
    }
  }

  // ----- what a run can store -----

  /** Updates and erases of the given tags only, each value with at most `s` out-of-line bytes, and sorts. */
  ghost predicate Stays(ops: seq<MapOp>, tags: set<Tag>, s: nat) {
    forall i :: 0 <= i < |ops| ==> StaysOp(ops[i], tags, s)
  }

  ghost predicate SmallValues(m: Values, tags: set<Tag>, s: nat) {
    m.Keys <= tags && forall t :: t in m ==> EntryDataSize(m[t]) <= s
  }

  lemma {:induction false} RunStoresSmallValues(types: map<Tag, TagType>, ops: seq<MapOp>, tags: set<Tag>, s: nat)
    requires Stays(ops, tags, s)
    ensures SmallValues(RunOnMap(types, ops), tags, s)
    decreases |ops|
  {
    if ops != [] {
      assert Stays(ops[..|ops| - 1], tags, s);
      RunStoresSmallValues(types, ops[..|ops| - 1], tags, s);
      var last := ops[|ops| - 1];
    }
  }

  lemma MulMono(a: nat, b: nat, c: nat, d: nat)
    requires a <= b && c <= d
    ensures a * c <= b * d
  {
    assert a * c <= b * c;
    assert b * c <= b * d;
  }

  lemma MulStep(n: nat, s: nat)
    ensures (n + 1) * s == n * s + s
  {
  }

  lemma {:induction false} EntryPerKey(entries: seq<Entry>, m: Values)
    requires Represents(entries, m)
    ensures |entries| == |m.Keys|
  {
    if entries == [] {
      assert forall t :: t in m ==> !Has(entries, t);
      assert m.Keys == {};
    } else {
      DropFirstRepresents(entries, m);
      EntryPerKey(entries[1..], m - {entries[0].tag});
      assert (m - {entries[0].tag}).Keys == m.Keys - {entries[0].tag};
    }
  }

  lemma {:induction false} DataPerEntry(entries: seq<Entry>, s: nat)
    requires forall i :: 0 <= i < |entries| ==> EntryDataSize(entries[i].data) <= s
    ensures DataCount(entries) <= |entries| * s
  {
    if entries != [] {
      DataPerEntry(entries[..|entries| - 1], s);
      MulStep(|entries| - 1, s);
    }
  }

  lemma SubsetCardinality<T>(a: set<T>, b: set<T>)
    requires a <= b
    ensures |a| <= |b|
  {
    assert b == a + (b - a);
  }

  /** An unlocked object that stores at most m entries and m * s bytes of data. */
  ghost predicate StoresWithin(o: Object, h: Heap, m: nat, s: nat) {
    && Usable(o, h) && !o.locked
    && (o.buffer != NULL ==>
          && Fits(h.bufs[o.buffer])
          && |h.bufs[o.buffer].entries| <= m && DataCount(h.bufs[o.buffer].entries) <= m * s)
  }

  /** What a run stores fits m tags of s bytes each. */
  lemma RunStoresLittle(types: map<Tag, TagType>, ops: seq<MapOp>, h0: Heap, tags: set<Tag>, s: nat)
    requires Sound(h0) && Stays(ops, tags, s)
    ensures var r := Run(types, ops, h0); StoresWithin(r.obj, r.heap, |tags|, s)
  {
    var r, m := Run(types, ops, h0), RunOnMap(types, ops);
    RunHoldsMap(types, ops, h0);
    RunStoresSmallValues(types, ops, tags, s);
    if r.obj.buffer != NULL {
      var entries := r.heap.bufs[r.obj.buffer].entries;
      EntryPerKey(entries, m);
      SubsetCardinality(m.Keys, tags);
      DataPerEntry(entries, s);
      MulMono(|entries|, |tags|, s, s);
    }
  }

  // ----- the bound -----

  /** Capacities stay below twice what m + 1 entries need, and the room pays for k allocations. */
  ghost predicate GrownWithin(o: Object, h: Heap, k: nat, m: nat, s: nat)
    requires NullOrLive(h, o.buffer)
  {
    && Pow2(k) <= Room(o, h)
    && (o.buffer != NULL ==>
          h.bufs[o.buffer].entryCap <= 2 * (m + 1) && h.bufs[o.buffer].dataCap <= 2 * ((m + 1) * s))
  }

  lemma UpdateGrowsWithin(o: Object, h: Heap, tag: Tag, data: seq<byte>, k: nat, m: nat, s: nat)
    requires StoresWithin(o, h, m, s) && GrownWithin(o, h, k, m, s) && EntryDataSize(data) <= s
    ensures var r := UpdateImpl(o, h, true, tag, data, false, true);
      && h.next <= r.heap.next && NullOrLive(r.heap, r.obj.buffer)
      && GrownWithin(r.obj, r.heap, k + (r.heap.next - h.next), m, s)
  {
    var size := EntryDataSize(data);
    var r := Resize(o, h, 1, size, true);
    MulStep(m, s);
    ResizeCapacities(o, h, size, m, m * s, s);
    ResizeDoublesRoom(o, h, 1, size, true);
    StoreKeepsCapacity(o, h, tag, data);
  }

  /** Growing for one entry at most doubles what is in use with it. */
  lemma ResizeCapacities(o: Object, h: Heap, size: nat, m: nat, used: nat, s: nat)
    requires Usable(o, h) && size <= s
    requires o.buffer != NULL ==>
      && |h.bufs[o.buffer].entries| <= m && DataCount(h.bufs[o.buffer].entries) <= used
      && h.bufs[o.buffer].entryCap <= 2 * (m + 1) && h.bufs[o.buffer].dataCap <= 2 * (used + s)
    ensures var r := Resize(o, h, 1, size, true);
      && r.heap.bufs[r.obj.buffer].entryCap <= 2 * (m + 1)
      && r.heap.bufs[r.obj.buffer].dataCap <= 2 * (used + s)
  {
  }

  lemma StoreKeepsCapacity(o: Object, h: Heap, tag: Tag, data: seq<byte>)
    requires Usable(o, h) && !o.locked
    ensures var sized := Resize(o, h, 1, EntryDataSize(data), true);
      var r := UpdateImpl(o, h, true, tag, data, false, true);
      && r.obj == sized.obj && r.heap.next == sized.heap.next && NullOrLive(r.heap, r.obj.buffer)
      && r.heap.bufs[r.obj.buffer].entryCap == sized.heap.bufs[sized.obj.buffer].entryCap
      && r.heap.bufs[r.obj.buffer].dataCap == sized.heap.bufs[sized.obj.buffer].dataCap
  {
  }

  lemma OpGrowsWithin(types: map<Tag, TagType>, op: MapOp, o: Object, h: Heap, k: nat, m: nat, s: nat)
    requires StoresWithin(o, h, m, s) && GrownWithin(o, h, k, m, s)
    requires !op.OpClear? && (op.OpUpdate? ==> EntryDataSize(op.data) <= s)
    ensures var r := Perform(types, op, o, h);
      && h.next <= r.heap.next && NullOrLive(r.heap, r.obj.buffer)
      && GrownWithin(r.obj, r.heap, k + (r.heap.next - h.next), m, s)
  {
    if op.OpUpdate? && Accepted(types, op) {
      UpdateGrowsWithin(o, h, op.tag, op.data, k, m, s);
    }
  }

  /** The number of buffers a run from an empty object has allocated. */
  ghost function Allocations(types: map<Tag, TagType>, ops: seq<MapOp>, h0: Heap): int
    requires Sound(h0)
  {
    Run(types, ops, h0).heap.next - h0.next
  }

  ghost predicate GrownSince(h0: Heap, r: Outcome, m: nat, s: nat)
    requires NullOrLive(r.heap, r.obj.buffer) && h0.next <= r.heap.next
  {
    GrownWithin(r.obj, r.heap, r.heap.next - h0.next, m, s)
  }

  ghost predicate StaysOp(op: MapOp, tags: set<Tag>, s: nat) {
    !op.OpClear? && (op.OpUpdate? ==> op.tag in tags && EntryDataSize(op.data) <= s)
  }

  lemma GrowthStep(types: map<Tag, TagType>, op: MapOp, before: Outcome, h0: Heap, tags: set<Tag>, s: nat)
    requires StoresWithin(before.obj, before.heap, |tags|, s) && h0.next <= before.heap.next
    requires GrownSince(h0, before, |tags|, s) && StaysOp(op, tags, s)
    ensures var r := Perform(types, op, before.obj, before.heap);
      NullOrLive(r.heap, r.obj.buffer) && h0.next <= r.heap.next && GrownSince(h0, r, |tags|, s)
  {
    OpGrowsWithin(types, op, before.obj, before.heap, before.heap.next - h0.next, |tags|, s);
  }

  lemma {:induction false} RunGrowsWithin(types: map<Tag, TagType>, ops: seq<MapOp>, h0: Heap, tags: set<Tag>, s: nat)
    requires Sound(h0) && Stays(ops, tags, s)
    ensures h0.next <= Run(types, ops, h0).heap.next && GrownSince(h0, Run(types, ops, h0), |tags|, s)
    decreases |ops|
  {
    if ops != [] {
      var rest, last := ops[..|ops| - 1], ops[|ops| - 1];
      assert Stays(rest, tags, s) && StaysOp(last, tags, s);
      RunGrowsWithin(types, rest, h0, tags, s);
      RunStoresLittle(types, rest, h0, tags, s);
      GrowthStep(types, last, Run(types, rest, h0), h0, tags, s);
    }
  }

  /**
   A run of any length that touches m tags, with at most s out-of-line bytes a
   value, allocates k buffers with 2^k <= (2m + 3)(2(m + 1)s + 1).
   */
  lemma AllocationsAreLogarithmic(types: map<Tag, TagType>, ops: seq<MapOp>, h0: Heap, tags: set<Tag>, s: nat)
    requires Sound(h0) && Stays(ops, tags, s)
    ensures 0 <= Allocations(types, ops, h0)
    ensures Pow2(Allocations(types, ops, h0)) <= (2 * |tags| + 3) * (2 * ((|tags| + 1) * s) + 1)
  {
    RunGrowsWithin(types, ops, h0, tags, s);
    var r := Run(types, ops, h0);
    MulMono(0, |tags| + 1, 0, s);
    if r.obj.buffer == NULL {
      MulMono(1, 2 * |tags| + 3, 1, 2 * ((|tags| + 1) * s) + 1);
    } else {
      var b := r.heap.bufs[r.obj.buffer];
      MulMono(b.entryCap + 1, 2 * |tags| + 3, b.dataCap + 1, 2 * ((|tags| + 1) * s) + 1);
    }
  }
}
