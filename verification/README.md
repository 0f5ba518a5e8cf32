# Device tree components, modelled and verified

Dafny models of the seven C and C++ files of the device tree that hold real
algorithms and state, and proofs of what those files are for:

| component | files here | in one sentence |
|---|---|---|
| colour conversion | `ColorConvert`, `ColorTheorems`, `ColorOddSizes`, `ColorRoundTrip` | crops of NV12 frames to I420 and back, on flat byte buffers |
| camera metadata | `MetadataLibrary`, `CameraMetadata`, `MetadataMap`, `MetadataGrowth`, `MetadataWorld`, `MetadataLaws`, `MetadataParcel` | a growable container that owns one heap buffer, can be locked, and travels in a parcel |
| graphic buffers | `GraphicBufferWire`, `GraphicBuffer`, `GraphicBufferTransfer`, `GraphicBufferWorld`, `AllocatorConcurrency` | a wire format, a three-way ownership machine and a list kept by many threads |
| power hints | `PowerHint` | the touch and vsync boost |
| pstore sweep | `PstoreNames`, `PstoreSweep`, `PstoreOutcome` | file names and where each crash file goes |
| lights | `LedScale`, `Lights` | which of three light states the LEDs show |

`CTypes` holds the integer conversions of C, `Division` facts of integer division
and `Wrappers` the option type. `dafny verify dfyconfig.toml` checks the whole
project.

The imperative code is modelled by methods with the source's loops, branches
and fields. Every such method is proved equal to a specification function, and
the theorems are about those functions: over single calls, over two calls that
undo each other, or over all runs of a state machine.

## How the models read

- **Colour conversion.** The specification is the exact sequence of byte writes
  for every parity of every dimension. `IsCrop` and `ShowsImage` say
  independently, sample by sample, what a decoded crop and an encoded frame
  should be, in the standard I420 layout with odd chroma sizes rounded up, which
  every crop can be put into (`EveryCropHasAnImage`). The decoder meets `IsCrop`
  for all frame contents if and only if left, top, width and height of the crop
  are even, and the encoder meets `ShowsImage` for all images if and only if
  width and height are. On odd sizes both leave the last V sample unwritten;
  `ColorOddSizes` says what every byte is then.
- **Camera metadata.** `Heap` has the live buffers, a count of frees for every
  address, and a flag that is raised by a second free or a free of something
  never allocated. Every operation that allocates takes a flag `granted`, so runs include
  refused allocations; a buffer that the caller brings (`CallerReads`) is one
  that was allocated. `MetadataWorld` runs the public operations on any number
  of objects together with a caller that holds raw buffers. What a refused
  allocation loses is stated exactly: `ConservationExactly` is an equivalence,
  and `AnyBufferCanLeak` shows that its failing side is always within reach.
- **Graphic buffers.** The device may refuse anything; `Lost` names for each
  step the handles that the source then drops without releasing them.
  `misused` is raised by a second free or close, and by freeing, closing or
  registering something that is not live. In the concurrent model the exact
  condition for a right list is one that `alloc` can check under its lock.
- **Power hints.** `Scrolling`, `Burst`, `BoostsLeft` and `Discarded` are defined
  on the list of past hints alone, with no reference to the state machine.
- **Pstore sweep.** All files, those of pstore included, are one map from paths
  to contents, so that a rule may send a file into pstore itself.

## Where code and documentation differ

- `acquire(camera_metadata_t*)` is documented to take ownership. On a locked
  object it does nothing, so the caller still owns the buffer; the model says so.
- `flatten` and `unflatten` advance an `int` cursor by a size in bytes. The model
  keeps that in the cursor they return; the wire theorems start from the incoming cursor.
- `unflatten` checks that 8 ints are there and reads 10. `Readable` asks the
  caller for the two missing ones.
- The decoder rounds plane sizes and strides down and loop bounds up, which is
  what makes odd sizes lose chroma (`OddSizeMissesLastSample`).

## Model

| member | source | states |
|---|---|---|
| ColorConvert.CopyPlane | libcolor/ColorConvert.cpp:45-49 | the luma loop leaves exactly the row copies of its specification, at both strides |
| ColorConvert.SplitPlane | libcolor/ColorConvert.cpp:51-60 | the decoder's nested chroma loops with three moving pointers make exactly the specified writes, even where the planes overlap |
| ColorConvert.MergePlane | libcolor/ColorConvert.cpp:90-98 | the same for the encoder's interleaving loops |
| ColorConvert.ConvertDecoderOutputToI420 | libcolor/ColorConvert.cpp:27-67 | for every crop of every parity in bounds, the whole destination array afterwards, untouched bytes included |
| ColorConvert.ConvertI420ToEncoderInput | libcolor/ColorConvert.cpp:73-104 | the whole frame buffer afterwards, for every size and every larger frame |
| ColorConvert.GetEncoderInputBufferInfo | libcolor/ColorConvert.cpp:106-120 | the reported size is 3wh/2, fits an int, and source and destination buffers of that size contain every byte the encoder reads and writes |
| ColorConvert.EncoderInside | libcolor/ColorConvert.cpp:81-98 | every byte the encoder reads lies in an image-sized buffer and every byte it writes in a frame-sized one, for all sizes, odd ones included |
| ColorTheorems.EvenCropDecodes | libcolor/ColorConvert.cpp:27-60 | an even crop is decoded pixel by pixel: luma from (top+y, left+x), chroma from (top/2+j, left/2+i); bytes after the image are untouched |
| ColorTheorems.OddCornerMissesChroma | libcolor/ColorConvert.cpp:30-33 | with an odd left or top there is a frame whose chroma is read from a wrong place |
| ColorTheorems.EveryCropHasAnImage | libcolor/ColorConvert.cpp:30-60 | the standard layout asks nothing impossible: for every crop of either parity some buffer is that crop as an I420 image |
| ColorTheorems.OddSizeMissesLastSample | libcolor/ColorConvert.cpp:39-52 | with an odd width or height the byte of the last V sample of the I420 image is never written, because strides and plane sizes round down |
| ColorTheorems.OddSizeLosesChroma | libcolor/ColorConvert.cpp:39-52 | so for an odd width or height there is a frame whose crop the decoder does not give |
| ColorTheorems.DecoderExactIffEven | libcolor/ColorConvert.cpp:27-67 | over all frame contents, the decoder gives its crop as an I420 image, in the standard layout, if and only if corner and size of the crop are even |
| ColorOddSizes.LumaIsAlwaysExact | libcolor/ColorConvert.cpp:30-49 | the luma of a crop of any size and corner is decoded exactly |
| ColorOddSizes.LastWriteStays | libcolor/ColorConvert.cpp:39-60 | at any size, where chroma samples may share a byte, each byte holds the last sample written to it, in the order of the loops |
| ColorOddSizes.UnwrittenStays | libcolor/ColorConvert.cpp:39-60 | at any size a byte that no sample is written to is untouched |
| ColorRoundTrip.EncodedLuma | libcolor/ColorConvert.cpp:81-85 | the luma of an image of either parity lands at its pixels of the frame |
| ColorRoundTrip.EncodedChroma | libcolor/ColorConvert.cpp:86-98 | each chroma sample the encoder takes, with odd sizes rounded down, lands at its two by two pixels |
| ColorRoundTrip.EncoderShowsImage | libcolor/ColorConvert.cpp:81-98 | the frame shows every sample of an even I420 image at its pixel |
| ColorRoundTrip.OddImageMissesLastSample | libcolor/ColorConvert.cpp:90-98 | for an odd width or height the frame's byte for the last V sample is never written |
| ColorRoundTrip.EncoderExactIffEven | libcolor/ColorConvert.cpp:73-104 | over all image contents, the frame shows the I420 image if and only if its width and height are even |
| ColorRoundTrip.EncoderKeepsPadding | libcolor/ColorConvert.cpp:81-98 | frame bytes outside the image are never written |
| ColorRoundTrip.DecodeUndoesEncode | libcolor/ColorConvert.cpp:27-104 | an even w x h image put into any frame that holds it and decoded with (0, 0, w-1, h-1) comes back byte for byte |
| ColorRoundTrip.EncodeUndoesDecode | libcolor/ColorConvert.cpp:27-104 | at equal even sizes the encoder also undoes the decoder, so both are bijections |
| ColorRoundTrip.CropsCompose | libcolor/ColorConvert.cpp:30-60 | decoding a crop, re-encoding it tightly and cropping again equals one decode with the shifted inner crop |
| ColorRoundTrip.DecodePermutesBytes | libcolor/ColorConvert.cpp:34-60 | at equal even sizes the decoder's output is a permutation of the frame's bytes |
| ColorRoundTrip.EncodePermutesBytes | libcolor/ColorConvert.cpp:81-98 | at equal even sizes the encoder's output is a permutation of the image's bytes |
| CameraMetadata.Wrapper.WithCapacity | shim/camera/CameraMetadata.cpp:38-42 | the new object owns the newly allocated buffer, or none if memory is refused |
| CameraMetadata.Wrapper.Copy | shim/camera/CameraMetadata.cpp:44-47 | the new object is unlocked and owns a clone; the original's buffer is as before |
| CameraMetadata.Wrapper.AssignFrom | shim/camera/CameraMetadata.cpp:54-70 | refused when locked, nothing on self-assignment; otherwise clone first, then free the former buffer |
| CameraMetadata.Wrapper.Finish | shim/camera/CameraMetadata.cpp:72-75 | the destructor unlocks and frees |
| CameraMetadata.Wrapper.UnlockBuffer | shim/camera/CameraMetadata.cpp:82-94 | unlocks for the object's own pointer on a locked object, and reports which check failed otherwise |
| CameraMetadata.Wrapper.ReleaseBuffer | shim/camera/CameraMetadata.cpp:96-104 | gives up the buffer unless locked |
| CameraMetadata.Wrapper.ClearBuffer | shim/camera/CameraMetadata.cpp:106-115 | frees the buffer unless locked |
| CameraMetadata.Wrapper.AcquireBuffer | shim/camera/CameraMetadata.cpp:117-128 | frees the own buffer and takes the given one, or does nothing when locked |
| CameraMetadata.Wrapper.AcquireFrom | shim/camera/CameraMetadata.cpp:130-136 | both objects afterwards, for a locked taker, a locked giver and for the object itself |
| CameraMetadata.Wrapper.AppendFrom | shim/camera/CameraMetadata.cpp:142-152 | resizes, ignores the result of resizing, and appends to whatever buffer is then there |
| CameraMetadata.Wrapper.SortEntries | shim/camera/CameraMetadata.cpp:163-169 | refused when locked, otherwise sorts the owned buffer |
| CameraMetadata.Wrapper.UpdateTyped | shim/camera/CameraMetadata.cpp:171-199 | refused when locked or of the wrong type, otherwise the untyped update |
| CameraMetadata.Wrapper.UpdateEntries | shim/camera/CameraMetadata.cpp:280-335 | resize, find, then add or overwrite, with every refusal in the source's order |
| CameraMetadata.Wrapper.FindEntry | shim/camera/CameraMetadata.cpp:342-356 | the first entry with the tag, or none, and none when locked |
| CameraMetadata.Wrapper.EraseEntry | shim/camera/CameraMetadata.cpp:369-394 | deletes the first entry with the tag; a missing tag is not an error |
| CameraMetadata.Wrapper.ResizeIfNeeded | shim/camera/CameraMetadata.cpp:400-436 | both capacities after growth, the appended contents, the freed old buffer, and the buffer dropped without a free when memory is refused |
| CameraMetadata.Wrapper.SwapWith | shim/camera/CameraMetadata.cpp:668-682 | exchanges two unlocked objects' buffers and nothing otherwise |
| MetadataLaws.AssignCopies | shim/camera/CameraMetadata.cpp:54-70 | after an assignment the object owns a new compact buffer with the entries of the original, in which every lookup finds the same; the former buffer is freed, all else is as before |
| MetadataLaws.AssignChangesNothing | shim/camera/CameraMetadata.cpp:58-63 | assignment to a locked object, or of its own buffer, changes nothing |
| MetadataLaws.AssignEmpties | shim/camera/CameraMetadata.cpp:58-70 | assignment of NULL, or one refused memory, frees the former buffer and leaves the object empty |
| MetadataLaws.CopyConstructorCopies | shim/camera/CameraMetadata.cpp:44-47 | the copy holds the same entries in a new compact buffer, even of a locked original, which is unchanged |
| MetadataLaws.NewHasCapacity | shim/camera/CameraMetadata.cpp:38-42 | a new object with capacities is empty and has exactly those |
| MetadataLaws.AdoptTakes | shim/camera/CameraMetadata.cpp:49-52 | the raw buffer passes from the caller to the new object, unchanged |
| MetadataLaws.SwapExchanges | shim/camera/CameraMetadata.cpp:668-682 | two unlocked objects exchange all that lookups find; if either is locked nothing changes |
| MetadataLaws.SwapUndoesSwap | shim/camera/CameraMetadata.cpp:668-682 | a swap done twice is undone |
| MetadataLaws.AcquireMoves | shim/camera/CameraMetadata.cpp:117-136 | the giver's buffer moves over whole and the taker's is freed; a locked giver keeps it and the taker ends empty |
| MetadataLaws.AcquireUndoesRelease | shim/camera/CameraMetadata.cpp:96-128 | a released buffer taken back restores the whole state |
| MetadataLaws.LockLocks | shim/camera/CameraMetadata.cpp:77-80 | getAndLock locks and changes nothing else |
| MetadataLaws.UnlockTells | shim/camera/CameraMetadata.cpp:82-94 | the three results of unlock, by lock and pointer; a failed unlock changes nothing |
| MetadataLaws.LockedRefuses | shim/camera/CameraMetadata.cpp:58-394 | on a locked object every change is refused with INVALID_OPERATION, nothing is released and nothing is found |
| MetadataLaws.SortOrdersObject | shim/camera/CameraMetadata.cpp:163-169 | the object keeps its buffer, with the same entries in ascending order of tags |
| MetadataLaws.GrowsToTwiceTheNeed | shim/camera/CameraMetadata.cpp:400-436 | a capacity that is too small becomes twice what is needed, one that suffices stays |
| MetadataLaws.RefusedUpdateEmpties | shim/camera/CameraMetadata.cpp:280-335 | an update that has to grow and gets no memory reports NO_MEMORY and leaves the object empty |
| MetadataLaws.RefusedAppendEmpties | shim/camera/CameraMetadata.cpp:142-152 | an append that has to grow and gets no memory fails and leaves the object empty |
| MetadataLaws.UpdateTells | shim/camera/CameraMetadata.cpp:171-300 | which refusal an update reports, and that it changes nothing then |
| MetadataLaws.EraseTells | shim/camera/CameraMetadata.cpp:369-394 | erasing a missing tag succeeds and changes nothing; without a buffer it is an error |
| MetadataLaws.InstallHoldsParsed | shim/camera/CameraMetadata.cpp:640-653 | after a successful read the object holds exactly what was parsed, in a new buffer, and the former one is freed |
| MetadataLaws.InstallOtherwise | shim/camera/CameraMetadata.cpp:640-653 | a failed read changes nothing, a null item empties the object |
| MetadataMap.ResizeMakesRoom | shim/camera/CameraMetadata.cpp:400-436 | growing changes no entry and leaves the room that was asked for, so the following add cannot fail for space |
| MetadataMap.UpdateIsMapUpdate | shim/camera/CameraMetadata.cpp:280-335 | an update of a known tag succeeds, keeps tags unique and overwrites exactly one key |
| MetadataMap.EraseIsMapErase | shim/camera/CameraMetadata.cpp:369-394 | an erase removes exactly one key |
| MetadataMap.SortKeepsMap | shim/camera/CameraMetadata.cpp:163-169 | sorting changes no value of the map and keeps tags unique |
| MetadataMap.OpRefinesMap | shim/camera/CameraMetadata.cpp:163-394 | each operation commutes with its map counterpart; an update succeeds exactly if its tag has the type and the data lies outside the buffer |
| MetadataMap.AppendConcatenates | shim/camera/CameraMetadata.cpp:142-152 | with memory granted an append succeeds and holds the object's entries followed by the other's |
| MetadataMap.AppendIsUnionIffDisjoint | shim/camera/CameraMetadata.cpp:142-152 | an append leaves the object a map if and only if the two share no tag, and then it is the union |
| MetadataMap.RunRefinesMap | shim/camera/CameraMetadata.cpp:163-394 | after any run of update, erase, sort and clear, find returns the last value written and not erased, and the next update succeeds exactly if accepted |
| MetadataGrowth.ResizeDoublesRoom | shim/camera/CameraMetadata.cpp:400-436 | every reallocation at least doubles (entryCap+1)(dataCap+1) |
| MetadataGrowth.AllocationsAreLogarithmic | shim/camera/CameraMetadata.cpp:280-436 | a run of any length on m tags with values of at most s bytes allocates k buffers with 2^k <= (2m+3)(2(m+1)s+1) |
| MetadataWorld.StepKeepsOwnership | shim/camera/CameraMetadata.cpp:34-152 | every public operation, memory granted or not, keeps ownership exclusive, frees nothing twice, and leaks exactly the buffer of a refused resize |
| MetadataWorld.LeaksOnlyGrow | shim/camera/CameraMetadata.cpp:400-436 | over all runs leaks never shrink, and none arise exactly if no resize of an existing buffer was refused |
| MetadataWorld.BuffersAccountedFor | shim/camera/CameraMetadata.cpp:34-136 | in every run each buffer ever allocated has one owner, is with the caller, was freed once, or is leaked |
| MetadataWorld.ConservationExactly | shim/camera/CameraMetadata.cpp:34-136 | nothing leaks if and only if no update or append was refused memory for growing a buffer |
| MetadataWorld.AnyBufferCanLeak | shim/camera/CameraMetadata.cpp:421-430 | from every state, some update that is refused memory leaks the buffer of any unlocked object that has one |
| MetadataWorld.RefusedUpdateLeaks | shim/camera/CameraMetadata.cpp:421-430 | a run of two operations from nothing that leaks a buffer |
| MetadataWorld.LockedBufferIsStable | shim/camera/CameraMetadata.cpp:77-136 | from getAndLock on, no run of operations on any objects, short of destruction and the right unlock, changes identity or contents of the buffer |
| MetadataWorld.LockEndsIff | shim/camera/CameraMetadata.cpp:77-136 | of all public operations on any objects, exactly unlock with the right pointer and destruction end a lock |
| MetadataParcel.AndNotMask | shim/camera/CameraMetadata.cpp:28-29 | masking with a power of two less one, defined bit by bit, rounds down to a multiple |
| MetadataParcel.AlignToIsLeast | shim/camera/CameraMetadata.cpp:28-29 | ALIGN_TO gives the least aligned address not below its argument |
| MetadataParcel.WrittenIsAligned | shim/camera/CameraMetadata.cpp:563-619 | the three items written: the metadata lies whole at the least aligned address of the blob, with padding around it, and the offset written leads there |
| MetadataParcel.ReadUndoesWrite | shim/camera/CameraMetadata.cpp:438-622 | reading at a written place gives the compact copy and consumes exactly what was written, wherever both blobs lie |
| MetadataParcel.WrongSizeIsNotRead | shim/camera/CameraMetadata.cpp:457-514 | read with any other size than its own, even a smaller one that the parcel grants, a blob gives no metadata |
| MetadataParcel.TooBigIsNotRead | shim/camera/CameraMetadata.cpp:451-485 | a blob whose size does not survive the int32 in front of it is never read back |
| MetadataParcel.SurvivesIffFits | shim/camera/CameraMetadata.cpp:438-622 | one buffer survives the parcel if and only if its blob is smaller than 2^31 bytes |
| MetadataParcel.ListSurvives | shim/camera/CameraMetadata.cpp:438-622 | any list of optional metadata, with any writer address for each, reads back as the same list, compacted, consuming exactly its items |
| MetadataParcel.WriteToParcel | shim/camera/CameraMetadata.cpp:529-622 | the items appended to the parcel for absent and present metadata |
| MetadataParcel.ReadFromParcel | shim/camera/CameraMetadata.cpp:438-527 | status, new buffer and consumed items for every malformed parcel and for a refused allocation, independently of the address of the reader's blob |
| MetadataParcel.ReadTells | shim/camera/CameraMetadata.cpp:451-514 | each status, the items consumed and the metadata by what the parcel holds; metadata only with OK |
| MetadataParcel.RecognisedIff | shim/camera/CameraMetadata.cpp:508 | bytes are taken for metadata exactly if they begin with the whole image of a compact one |
| MetadataParcel.FailedReadHandsOutNothing | shim/camera/CameraMetadata.cpp:508-526 | a failed read, or one whose copy is refused memory, hands out and allocates nothing |
| MetadataParcel.ParcelCopiesObject | shim/camera/CameraMetadata.cpp:438-654 | an object written and read into another one: the reader finds the same for every tag, in a new compact buffer |
| MetadataParcel.ParcelCopiesNothing | shim/camera/CameraMetadata.cpp:438-654 | a null object travels as one item and empties the reader |
| MetadataParcel.ReadIntoObject | shim/camera/CameraMetadata.cpp:624-654 | refused for a null parcel and when locked; the object is replaced only after a successful read and allocation |
| GraphicBufferWire.JoinUndoesSplit | shim/ui/GraphicBuffer.cpp:313-314 | the 64-bit id survives its two signed 32-bit halves |
| GraphicBufferWire.SplitUndoesJoin | shim/ui/GraphicBuffer.cpp:391-392 | any two ints read as an id are written back as the same two ints |
| GraphicBufferWire.ParseOfFlat | shim/ui/GraphicBuffer.cpp:299-413 | what unflatten makes of any flattened buffer with anything behind it: all fields, or BAD_VALUE for too many fds or ints |
| GraphicBufferWire.RoundTripExactly | shim/ui/GraphicBuffer.cpp:299-413 | geometry, id, fds and ints come back if and only if the handle is small enough and not empty, or absent from a buffer without geometry |
| GraphicBufferWire.FlattenUndoesParse | shim/ui/GraphicBuffer.cpp:299-413 | flattening an accepted message reproduces its ints and fds, if and only if it carries a handle or zero geometry |
| GraphicBufferTransfer.WireLayout | shim/ui/GraphicBuffer.cpp:291-324 | the position of every field in a flattened buffer, and its length in bytes |
| GraphicBufferTransfer.ReceiverEqualsSender | shim/ui/GraphicBuffer.cpp:336-413 | whatever the receiver was, it ends with the sender's geometry, id, fds and ints and owns a new native handle |
| GraphicBufferTransfer.EmptyHandleTravels | shim/ui/GraphicBuffer.cpp:386-394 | without fds and ints only the id travels |
| GraphicBufferTransfer.FailedReceiver | shim/ui/GraphicBuffer.cpp:376-404 | what the receiver keeps and takes when its handle cannot be created or registered |
| GraphicBufferTransfer.TooManyRefused | shim/ui/GraphicBuffer.cpp:350-357 | from 4096 fds or 4086 ints on a message is refused, and the receiver is left without handle and geometry |
| GraphicBufferTransfer.CutShortIsRefused | shim/ui/GraphicBuffer.cpp:338-363 | a flattened buffer cut short anywhere, or short of fds, is refused and the receiver unchanged |
| GraphicBufferTransfer.WrongMagicIsRefused | shim/ui/GraphicBuffer.cpp:340-341 | a message without the magic number is refused and the receiver unchanged |
| GraphicBuffer.NativeBuffer.Flatten | shim/ui/GraphicBuffer.cpp:299-334 | the arrays afterwards, nothing written on NO_MEMORY, and all four cursors, the int cursor moved by bytes as in the source |
| GraphicBuffer.NativeBuffer.Unflatten | shim/ui/GraphicBuffer.cpp:336-413 | every check in order, the fields taken over, the former handle given up, and the cursors |
| GraphicBuffer.NativeBuffer.DoReallocate | shim/ui/GraphicBuffer.cpp:150-165 | refused for buffers of others; nothing for an unchanged geometry; otherwise free, then allocate |
| GraphicBuffer.NativeBuffer.DoInitSize | shim/ui/GraphicBuffer.cpp:167-179 | handle and geometry from the device, unchanged on refusal |
| GraphicBufferTransfer.ReallocateGives | shim/ui/GraphicBuffer.cpp:150-179 | the buffer gets the width, height, format and usage asked for, the device's stride and a new listed handle; the old one is freed |
| GraphicBufferTransfer.ReallocateChangesNothing | shim/ui/GraphicBuffer.cpp:153-157 | nothing happens for an unchanged request, and INVALID_OPERATION for a buffer that does not own data |
| GraphicBufferTransfer.RefusedReallocate | shim/ui/GraphicBuffer.cpp:159-178 | a refused device leaves the buffer without a handle, with its old geometry but for the stride |
| GraphicBuffer.NativeBuffer.Finish | shim/ui/GraphicBuffer.cpp:114-132 | gives up a handle by the way its ownership asks for |
| GraphicBuffer.Gralloc.Alloc | shim/ui/GraphicBufferAllocator.cpp:93-134 | the device call and the listed record, nothing on refusal |
| GraphicBuffer.Gralloc.FreeBuffer | shim/ui/GraphicBufferAllocator.cpp:136-151 | unlisted only if the device freed it |
| GraphicBufferTransfer.ListedAsAllocated | shim/ui/GraphicBufferAllocator.cpp:99-131 | the listed width and height are those allocated, 1 x 1 if a side was zero, and no other entry changes |
| GraphicBufferTransfer.RecordSizeIsProduct | shim/ui/GraphicBufferAllocator.cpp:129 | the recorded size is height times stride times bytes per pixel modulo 2^32 |
| GraphicBufferWorld.ConstructorsGive | shim/ui/GraphicBuffer.cpp:44-112 | id, geometry, handle and ownership of a new buffer, by constructor |
| GraphicBufferWorld.StepKeepsOwnership | shim/ui/GraphicBuffer.cpp:44-179 | any step with any answers of the device keeps exclusive ownership, misuses nothing, and loses exactly the handles named |
| GraphicBufferWorld.RunKeepsOwnership | shim/ui/GraphicBuffer.cpp:44-179 | the same over runs; a run loses nothing exactly if none of its steps does |
| GraphicBufferWorld.HandlesAreSafe | shim/ui/GraphicBuffer.cpp:336-413 | from nothing, in every run: no double free, no use after free, every handle owned as data is live, listed and owned once |
| GraphicBufferWorld.BadMessageLosesHandle | shim/ui/GraphicBuffer.cpp:351-356 | from every state, a message with too many fds makes any buffer lose the handle it owns |
| GraphicBufferWorld.BadMessageRunLoses | shim/ui/GraphicBuffer.cpp:351-356 | a run of two operations from nothing that loses a handle |
| AllocatorConcurrency.RightIffNoRelist | shim/ui/GraphicBufferAllocator.cpp:111-148 | for every interleaving that completes its calls: the list is right after every step if and only if each alloc, adding under the lock, finds its handle not in the list; then it ends as the live handles with their records |
| AllocatorConcurrency.ListedMeansBeingRemoved | shim/ui/GraphicBufferAllocator.cpp:119-130 | while the list is right, a handle that alloc finds listed is one that some free has still to take off |
| AllocatorConcurrency.ListMatchesDevice | shim/ui/GraphicBufferAllocator.cpp:111-148 | if the device does not reissue early, sAllocList is live minus being added plus being removed after every step, and equals the live handles at quiescence |
| AllocatorConcurrency.EarlyReissueLosesEntry | shim/ui/GraphicBufferAllocator.cpp:141-148 | without that assumption, six steps after which a live handle is not listed |
| AllocatorConcurrency.AllocIsTwoSteps | shim/ui/GraphicBufferAllocator.cpp:93-134 | an uninterrupted alloc of the concurrent model is the sequential one |
| AllocatorConcurrency.FreeIsTwoSteps | shim/ui/GraphicBufferAllocator.cpp:136-151 | an uninterrupted free of the concurrent model is the sequential one |
| PowerHint.PowerModule.IntelPowerHint | libpower/power.c:120-183 | the hint handler on integer flags and static clocks makes exactly the abstract step |
| PowerHint.StateIsHistory | libpower/power.c:120-183 | after any run each counter, flag and number of pulses equals its definition on the history: fast touches since the last reset, scrolls since the last reset or late vsync, boosts left, touches outside scrolls, boosted vsyncs |
| PowerHint.FlagsAgree | libpower/power.c:143-177 | timer set implies boost disabled and count over 15; vsync boost holds exactly for 0 < vsync_count <= 4 |
| PowerHint.PulsesBalance | libpower/power.c:159-178 | vsync pulses + boosts left + boosts discarded = 4 x grants, in every run |
| PowerHint.SwitchesBalance | libpower/power.c:134-170 | every switch-off of the touch boost is ended by a grant, by a reset, or not yet; so grants never exceed switch-offs |
| PowerHint.BurstPulses | libpower/power.c:130-158 | after a long gap, n fast touches without a scroll end give 1 + min(n, 4) touch pulses and no vsync pulse |
| PstoreNames.GetBaseFilename | pstore/pstore-clean.c:130-157 | the output buffer holds the cut name, the returned length matches it, and it is terminated wherever there is room |
| PstoreNames.CutIsBaseName | pstore/pstore-clean.c:130-157 | for a terminated buffer that cut is the base name of the string in it |
| PstoreNames.BaseNameUndoesNumbering | pstore/pstore-clean.c:130-157 | appending a dash and a dash-free suffix that starts with a digit is undone, for every non-empty base |
| PstoreNames.ShortenedIffNumbered | pstore/pstore-clean.c:130-157 | a name is shortened to a base if and only if it is that base, a dash and such a suffix |
| PstoreSweep.PerformRuleCheck | pstore/pstore-clean.c:159-193 | together with the caller's fallback it gives every file of that base name its action |
| PstoreSweep.FileSystem.FileCopy | pstore/pstore-clean.c:61-91 | block-wise copying with short reads appends everything, or a prefix when it fails |
| PstoreSweep.FileSystem.Sweep | pstore/pstore-clean.c:239-302 | every file of the disk after the loop, with the old console file removed first and the new one opened at its first use |
| PstoreSweep.PathsDiffer | pstore/pstore-clean.c:259-262 | files with different names never share a path, whatever the directories |
| PstoreSweep.OthersUntouched | pstore/pstore-clean.c:249-302 | a path that is no listed file, no destination and not the console keeps its presence and contents |
| PstoreOutcome.OwnPathAfter | pstore/pstore-clean.c:249-302 | after the sweep a file is at its own path, unchanged, exactly if it is to be kept |
| PstoreOutcome.MovedFileEndsUp | pstore/pstore-clean.c:261-279 | a moved file is whole at its destination whatever is handled after it; moved into pstore it is lost from there, too; with a destination that cannot be opened nothing appears |
| PstoreOutcome.ConsoleCollects | pstore/pstore-clean.c:284-300 | the console file exists exactly if some file has the default action, and is the concatenation of headers and contents, last name first |
| PstoreOutcome.EveryFileAccountedFor | pstore/pstore-clean.c:239-302 | no file of pstore is lost but those a rule sends into pstore or to where no file can be opened: every other one is whole where its action puts it |
| PstoreOutcome.KeepMeansKept | pstore/pstore-clean.c:159-193 | if the first rule named like the file's base says "keep", the file is unchanged at its own path |
| PstoreOutcome.MoveMeansMoved | pstore/pstore-clean.c:159-193 | if it says "move", the file is whole in the rule's destination, or under /dev/null without one, and gone from its path |
| PstoreOutcome.OtherwiseAppended | pstore/pstore-clean.c:159-193 | without a rule, without an action or with another word, the file is in the console text whole under its header, and gone from its path |
| PstoreOutcome.DotsAreSkipped | pstore/pstore-clean.c:250-252 | the dot entries are passed over |
| PstoreOutcome.ListingDoesNotMatter | pstore/pstore-clean.c:244-302 | the disk after the sweep is a function of the disk before: sorted listings, with or without the dot entries, give the same result |
| Lights.BrightnessIsWeightedMean | liblight/lights.c:139-145 | brightness is a byte, monotone in each channel and exact for greys |
| Lights.BrightnessOfBytes | liblight/lights.c:139-145 | brightness is 77, 150 and 29 parts of the colour bytes in 256, rounded down, whatever the alpha |
| LedScale.ScaledIsFloor | liblight/lights.c:239-242 | the single-precision product, rounded twice and truncated, is floor(48c/255) for every channel |
| Lights.LightDevice.SetSpeakerLightLocked | liblight/lights.c:163-250 | which nodes are written with what, the float scaling included, and which keep their old values |
| Lights.LightDevice.HandleSpeakerBatteryLocked | liblight/lights.c:252-269 | the nodes show the most urgent stored state whatever they held before |
| Lights.LightDevice.SetLight | liblight/lights.c:271-302 | one stored state is replaced and the nodes show the new selection |
| Lights.AttentionWins | liblight/lights.c:257-260 | with a colour byte in the attention state, no change of notification and battery changes a node |
| Lights.NotificationIsNext | liblight/lights.c:261-264 | without one, with one in the notification, no change of the battery or of the attention's alpha and flashing changes a node |
| Lights.BatteryIsLast | liblight/lights.c:265-268 | without any in both, the battery state shows, lit or not |
| Lights.SteadyShowsBytes | liblight/lights.c:191-247 | a steady state gives each brightness node floor(48c/255) of its own colour byte and no blinking |
| Lights.FlashingBlinksBytes | liblight/lights.c:220-235 | a flashing state blinks exactly the channels above 127, or all three if there is none |
| Lights.NeverOnIsDark | liblight/lights.c:200-205 | a flashing state that is never on is dark |
| Lights.DarkStateStaysDarkIff | liblight/lights.c:188-247 | a dark state leaves the LEDs dark unless it flashes with alpha bits set, when it blinks white |
| Lights.NodesDependOnStoredStates | liblight/lights.c:252-302 | after any run the nodes are a function of the last state sent from each source |
| Lights.NodesStaySane | liblight/lights.c:163-302 | no LED blinks and glows at once, and brightness stays in 0..48, through every run |

## Left out

- GraphicBufferMapper, SensorManager, the fence and ICU shims, and `getI420ColorConverter`: forwarding.
- Branches under `VIDEOEDITOR_INTEL_NV12_VERSION`, `QCOM_BSP_LEGACY` and `EXYNOS4_ENHANCEMENTS`.
- The camera_metadata C library, Parcel, gralloc and native_handle are small contracts: find returns the first entry with the tag, the sort is stable by tag, values up to four bytes need no data space and longer ones a multiple of eight, a parcel is a list of items, and a blob may be read with any length up to its own.
- The bytes inside a metadata blob are symbolic: byte k of the compact image. The library recognises a whole image and nothing else.
- Addresses of metadata buffers and keys of handles are never reused, except in AllocatorConcurrency, where reuse is the point.
- Sums and doublings of metadata capacities do not overflow size_t.
- ColorConvert.ConvertDecoderOutputToI420: requires that the frame's area fits an int and that the crop lies in the frame, because the C expressions overflow and the pointers leave the buffers otherwise.
- ColorConvert.ConvertI420ToEncoderInput: requires the image to be no larger than the frame; dstRect is ignored, as in the source.
- MetadataMap.RunRefinesMap: append is not among the operations, because it may create duplicate tags (AppendIsUnionIffDisjoint says when); every allocation is granted, because a refused one drops the contents.
- MetadataGrowth.AllocationsAreLogarithmic: runs of update, erase and sort; with clear in the run the number of allocations is not bounded. It counts the first allocation as well.
- CameraMetadata.Wrapper.AppendFrom: an object's own buffer may be appended to itself only if it has room, because growing frees the buffer before it is read.
- CameraMetadata.Wrapper.UpdateEntries: whether the data lies inside the object's own buffer is a boolean, not pointer arithmetic.
- CameraMetadata.Wrapper.FindEntry: gives the value, not a pointer into the buffer, so writes through such a pointer are outside the lock theorem; the const overload and exists() are the same lookup without the lock check.
- MetadataParcel.ReadFromParcel: the heap it allocates from is sound, as the library keeps it; the variant without an out-pointer is left out.
- MetadataParcel.WriteToParcel: parcel writes succeed, because the source overwrites a failed writeBlob status.
- MetadataParcel.ListSurvives: each blob stays under 2^31 bytes and no blob lies at the very end of the address space; SurvivesIffFits shows the first is needed.
- GraphicBufferWorld.HandlesAreSafe: claims no double free and no use after free; handles lost on the refusal paths of unflatten and on refused frees are named by Lost, not excluded. Clients wrap only handles that they hold.
- GraphicBuffer.NativeBuffer.FromHandle: the constructor from an ANativeWindowBuffer is modelled as wrapping its handle; reference counts are not part of this model.
- GraphicBuffer.Gralloc.Alloc: the usage bits, which are masked with a constant of the gralloc header and passed on, are not part of the record; nor are the formatting and total of dump.
- GraphicBuffer.NativeBuffer.Unflatten: ten ints of memory are required once a header of eight is there, because the source reads ten; the size it is told may be smaller.
- The lock and unlock calls of a graphic buffer, which forward to the mapper.
- PowerHint: clock() ticks are exact integers, not floats, and the touch counter does not wrap.
- PstoreSweep.FileSystem.Sweep: paths are not truncated, equal files have equal path strings (no links, dots or double slashes), writes are complete, reads of pstore files and unlink succeed and the console file can be opened; mounting and unmounting are not part of this model.
- PstoreOutcome.EveryFileAccountedFor: no file is moved onto the console file.
- PstoreSweep.FileSystem.HandleFile: the rule tree is a list in which the first rule with a name counts.
- PstoreOutcome.OtherwiseAppended: no rule moves a listed file onto the console file.
- Lights: writes to the nodes succeed, floats are IEEE single precision with every operation rounded, and the sum of the two flash times does not overflow; backlight and button lights are single writes.
