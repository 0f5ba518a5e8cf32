/**
 The part of the camera_metadata C library that CameraMetadata uses, as a small
 contract: a buffer is a list of entries with a capacity for entries and for
 out-of-line data, and a heap hands out and takes back buffers.
 */
module MetadataLibrary {
  import opened Wrappers
  import opened CTypes

  type Tag = nat

  datatype TagType = TypeByte | TypeInt32 | TypeFloat | TypeInt64 | TypeDouble | TypeRational

  datatype Status = OK | INVALID_OPERATION | BAD_VALUE | NO_MEMORY | NAME_NOT_FOUND | NOT_ENOUGH_DATA | ERROR

  datatype Entry = Entry(tag: Tag, data: seq<byte>)

  datatype Metadata = Metadata(entries: seq<Entry>, entryCap: nat, dataCap: nat)

  // ----- sizes -----

  /** Out-of-line bytes of an entry: none up to four, then rounded up to eight. */
  function EntryDataSize(data: seq<byte>): (n: nat)
    ensures |data| <= 4 ==> n == 0
    ensures |data| > 4 ==> n % 8 == 0 && |data| <= n < |data| + 8
  {
    if |data| <= 4 then 0 else (|data| + 7) / 8 * 8
  }

  function DataCount(entries: seq<Entry>): nat {
    if entries == [] then 0 else DataCount(entries[..|entries| - 1]) + EntryDataSize(entries[|entries| - 1].data)
  }

  predicate Fits(m: Metadata) {
    |m.entries| <= m.entryCap && DataCount(m.entries) <= m.dataCap
  }

  // ----- buffer operations -----

  function Empty(entryCap: nat, dataCap: nat): Metadata {
    Metadata([], entryCap, dataCap)
  }

  /** A copy with capacities cut down to the contents. */
  function Compact(m: Metadata): (r: Metadata)
    ensures Fits(r)
  {
    Metadata(m.entries, |m.entries|, DataCount(m.entries))
  }

  function AppendAll(dst: Metadata, src: Metadata): (Metadata, Status) {
    if |dst.entries| + |src.entries| > dst.entryCap || DataCount(dst.entries) + DataCount(src.entries) > dst.dataCap
    then (dst, ERROR)
    else (dst.(entries := dst.entries + src.entries), OK)
  }

  /** Index of the first entry with the tag, or the number of entries. */
  function FindIndex(entries: seq<Entry>, tag: Tag): (i: nat)
    ensures i <= |entries|
    ensures i < |entries| ==> entries[i].tag == tag
    ensures forall k :: 0 <= k < i ==> entries[k].tag != tag
  {
    if entries == [] || entries[0].tag == tag then 0 else 1 + FindIndex(entries[1..], tag)
  }

  function AddEntry(m: Metadata, tag: Tag, data: seq<byte>): (Metadata, Status) {
    if |m.entries| >= m.entryCap || DataCount(m.entries) + EntryDataSize(data) > m.dataCap then (m, ERROR)
    else (m.(entries := m.entries + [Entry(tag, data)]), OK)
  }

  function UpdateEntry(m: Metadata, i: nat, data: seq<byte>): (Metadata, Status)
    requires i < |m.entries|
  {
    if DataCount(m.entries) - EntryDataSize(m.entries[i].data) + EntryDataSize(data) > m.dataCap then (m, ERROR)
    else (m.(entries := m.entries[i := Entry(m.entries[i].tag, data)]), OK)
  }

  function DeleteEntry(m: Metadata, i: nat): Metadata
    requires i < |m.entries|
  {
    m.(entries := m.entries[..i] + m.entries[i + 1..])
  }

  function InsertByTag(e: Entry, sorted: seq<Entry>): seq<Entry> {
    if sorted == [] || e.tag <= sorted[0].tag then [e] + sorted else [sorted[0]] + InsertByTag(e, sorted[1..])
  }

  function SortByTag(entries: seq<Entry>): seq<Entry> {
    if entries == [] then [] else InsertByTag(entries[0], SortByTag(entries[1..]))
  }

  // ----- the heap -----

  type Ptr = nat

  const NULL: Ptr := 0

  /**
   Live buffers by address, the next unused address, how often each address
   was freed, and whether a buffer that is not live was ever freed.
   */
  datatype Heap = Heap(bufs: map<Ptr, Metadata>, next: Ptr, freed: multiset<Ptr>, misused: bool)

  const EMPTY_HEAP := Heap(map[], 1, multiset{}, false)

  function Allocate(h: Heap, m: Metadata): Heap {
    h.(bufs := h.bufs[h.next := m], next := h.next + 1)
  }

  function Free(h: Heap, p: Ptr): Heap {
    h.(bufs := h.bufs - {p}, freed := h.freed + multiset{p}, misused := h.misused || p !in h.bufs)
  }

  /** Rewrite the contents of a live buffer. */
  function Store(h: Heap, p: Ptr, m: Metadata): Heap
    requires p in h.bufs
  {
    h.(bufs := h.bufs[p := m])
  }

  /** Live buffers have addresses that were handed out. */
  ghost predicate Sound(h: Heap) {
    h.next > NULL && forall p :: p in h.bufs ==> NULL < p < h.next
  }

  predicate NullOrLive(h: Heap, p: Ptr) {
    p == NULL || p in h.bufs
  }
}
