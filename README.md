# copying_gc in Dafny

A model of the copying garbage collector in the Rust crate `copying_gc`.

- **Space.** A space is a bump allocator over a fixed number of double words. Each double word has a mark bit and a forward bit.
- **Allocation.** Values are allocated into the current space, and each allocation is registered as a `Rooted` record. The client holds a `Root` handle on the record. Dropping the handle clears the record's `rooted` flag.
- **Collection.** `gc` creates a fresh space and relocates every still-rooted record into it, in registry order. Each relocated record leaves a forwarding word in its old slot. `gc` then passes every reference field of every survivor through `forward` of the evacuated space. Finally it makes the survivors the registry and the fresh space the current one.
- **Tracing.** Managed values expose their references through one callback-based enumeration, `trace_with`. `mark`, `root`, `unroot` and `subfields` are all derived from it.

Modules, one per source file:

- `BitMaps` (`src/bitmap.rs`): the flag vector, and the source's packing of flags into 16-bit words.
- `SpacePtrs` (`src/space_ptr.rs`): a reference is an address plus a bit index.
- `Trace` (`src/trace.rs`, with the list node of `tests/test_runtime.rs`): managed values and their reference fields.
- `Spaces` (`src/space.rs`): the arena class, `allocate`, the mark and forward bits, and `forward`.
- `Ptrs` (`src/ptr.rs`): the `Rooted` record class, and the `Root` and `Heap` handles.
- `Runtimes` (`src/runtime.rs`): the runtime class with `cons` and `gc`.

How the model represents the source:

- **Addresses.** An address is `At(space, offset)`: the identity of a space and a double-word offset inside it. `Wild` is a word that names no slot the model can follow: either the first word of a slot that does not hold a forwarding address, or a word read outside the space being consulted. In the source the latter is a read of an earlier, freed space, whose contents are undefined.
- **Cells.** A space's contents are an array of cells. A cell is empty, holds a value, or holds a forwarding address (`Fwd`).
- **Registry.** The runtime's `allocated` vector is a sequence of `Rooted` objects. `gc` updates those objects in place, as the source does.

Each imperative operation is proved against a specification function:

- `Contents()`: the registered values, in registry order.
- `Kept()`: the values of the records still rooted.
- `Filter`: keeps the flagged elements of a sequence.
- `ResolvedAll`: every reference field passed through `forward`.

The main results:

- `cons` registers exactly the new value, after a collection when the value does not fit.
- `gc` keeps exactly the rooted records, in order, packed at the start of the fresh space.
- As written, `gc` sets its forward bits in the wrong space. In the first collection after the runtime is created, no reference is rewritten. That collection leaves the new space with forward bits set at the survivors' old bit indices. The next collection forwards through them. A reference whose bit index is one of those, but which still names the freed space, is rewritten with a word read from freed memory; the model calls that word `Wild` (`StaleLinksGoWild`). A reference into the current space names the right slot only by coincidence.
- With both corrections (`GcFixed`), every reference that named a survivor's old slot names its new slot.

## Model

| member | source | states |
|---|---|---|
| BitMaps.BitMap.constructor | src/bitmap.rs:14-24 | A bitmap of `size > 0` flags has size `size` and every flag clear. |
| BitMaps.BitMap.Set | src/bitmap.rs:48-64 | `set(idx)` makes flag `idx` true and leaves every other flag as it was. |
| BitMaps.BitMap.Unset | src/bitmap.rs:66-85 | `unset(idx)` makes flag `idx` false and leaves every other flag as it was. |
| BitMaps.BitMap.Size | src/bitmap.rs:26-28 | `size()` answers the number of flags, which is the length of their storage and is positive. |
| BitMaps.SetTwice | src/bitmap.rs:48-64 | Two `set(i)` calls leave the flags as one does: flag `i` raised, every other flag as it was. |
| BitMaps.UnsetTwice | src/bitmap.rs:66-85 | Two `unset(i)` calls leave the flags as one does: flag `i` cleared, every other flag as it was. |
| BitMaps.SetGetUnset | src/bitmap.rs:89-106 | `get` after `set(i)` on a clear bitmap answers true for `i` and false for every other flag, and `unset(i)` then restores the flags: one round of the bitmap test. This is the row for `get` (src/bitmap.rs:30-46). |
| BitMaps.PackedAddressInjective | src/bitmap.rs:30-85 | In the source's packing, two distinct flags never share both the u16 word and the mask, so `set`/`unset` of one flag cannot disturb another. |
| BitMaps.MaskInjective | src/bitmap.rs:40-43 | The single-bit u16 masks `1 << a` for `a < 16` are pairwise distinct. |
| BitMaps.PackedFitsIffSmall | src/bitmap.rs:14-46 | Every word the packing addresses lies inside the storage `new` allocates if and only if `size <= 8`. |
| BitMaps.PackedLastOverruns | src/bitmap.rs:17-18 | For `size > 8`, the word addressed for the last flag lies at or past the end of the allocated storage. |
| BitMaps.DenseFits | src/bitmap.rs:14-24 | With 16 flags per u16 word, every flag's word lies inside storage of `((size - 1) / 16) + 1` words. |
| BitMaps.DenseAddressInjective | src/bitmap.rs:30-85 | In the dense packing, distinct flags have distinct (word, mask) pairs. |
| SpacePtrs.New | src/space_ptr.rs:18-23 | `SpacePtr::new(ptr, idx)` answers `ptr` for `raw_inner` and `idx` for `bit_idx`. |
| SpacePtrs.SpacePtr.SetRawInner | src/space_ptr.rs:57-59 | `set_raw_inner(p)` changes the address to `p` and leaves the bit index as it was. |
| SpacePtrs.SpacePtr.Clone | src/space_ptr.rs:63-70 | A clone has the same address and the same bit index. |
| SpacePtrs.AccessorsDetermine | src/space_ptr.rs:12-15 | A reference is determined by its address and its bit index. |
| SpacePtrs.SetRawInnerLastWins | src/space_ptr.rs:57-59 | Of two `set_raw_inner` calls, the last one wins, and writing back the current address changes nothing. |
| Trace.SizeInBytes | src/space.rs:47 | `size_of` of every managed type is positive. |
| Trace.Subfields | src/trace.rs:43-51 | `subfields` collects, in order, exactly the references handed to the `trace_with` callback. |
| Trace.TraceWithFolds | src/trace.rs:25-27 | For any callback and starting state, `trace_with` calls the callback once per reference field, in field order. |
| Trace.Dispatch | src/trace.rs:29-41 | A derived traversal makes exactly one call per reference field, in field order. |
| Trace.Mark | src/trace.rs:31-33 | `mark` calls `mark` once on each reference field, in field order. |
| Trace.Root | src/trace.rs:35-37 | `root` calls `root` once on each reference field, in field order. |
| Trace.Unroot | src/trace.rs:39-41 | `unroot` calls `unroot` once on each reference field, in field order. |
| Trace.DerivedOperationsAgree | src/trace.rs:29-51 | `mark`, `root`, `unroot` and `subfields` visit the same fields in the same order. |
| Trace.I64HasNoFields | src/trace.rs:21-23 | An `i64` has no reference fields, so every derived traversal does nothing. |
| Trace.ListObjFields | tests/test_runtime.rs:11-20 | A list node's only reference field is its `next`, when there is one. |
| Trace.WithFields | src/trace.rs:43-51 | Writing references back through the `subfields` handles keeps the value's shape and size and installs exactly the given references. |
| Trace.ShapeAndFieldsDetermine | src/trace.rs:43-51 | Two values of the same shape with the same reference fields are equal. |
| Trace.WithOwnFields | src/trace.rs:43-51 | Writing a value's own references back leaves it unchanged. |
| Spaces.DwsOf | src/space.rs:47-49 | The double-word count is the least number of 8-byte words that covers the byte size, and is 0 for a zero-sized type. |
| Spaces.Dws | src/space.rs:45-49 | Every managed value takes at least one double word, and its double words cover its bytes. |
| Spaces.AllocateAsWrittenOverruns | src/space.rs:45-61 | With `free_ptr` a `*mut u64` stepped by a byte count, the end check still passes exactly when the value fits below `size`, but from `free_idx >= size / 8` on the value is written at or past the end of the region. |
| Spaces.AllocateBytesInRegion | src/space.rs:45-61 | With `free_ptr` stepped by bytes, the check passes exactly when the value fits, and the value's bytes then lie inside the region. |
| Spaces.Space.constructor | src/space.rs:30-43 | A new space has the requested size, an empty region, free index 0, and every mark and forward bit clear. |
| Spaces.Space.Borrow | src/space_ptr.rs:73-77 | Borrowing a reference answers the value stored at its address. |
| Spaces.Space.SubfieldsOf | src/space_ptr.rs:39-41 | The `subfields` of a reference are those of the value it refers to. |
| Spaces.Space.Allocate | src/space.rs:45-63 | Allocation succeeds exactly when the value fits before the end. On success the value is stored at the old free index, the returned reference carries that address and bit index, and the free index advances by the value's double words. On failure nothing changes. |
| Spaces.Space.SetMark | src/space.rs:69-71 | Sets exactly the mark bit at the reference's bit index. |
| Spaces.Space.UnsetMark | src/space.rs:73-75 | Clears exactly the mark bit at the reference's bit index. |
| Spaces.Space.Marked | src/space.rs:77-79 | Answers the mark bit at the reference's bit index. |
| Spaces.Space.SetForward | src/space.rs:81-83 | Sets exactly the forward bit at the reference's bit index. |
| Spaces.Space.ForwardingWord | src/space.rs:89 | Reading the first word of a slot of this space that holds a forwarding address answers that address. Any other answer than `Wild` is such a forwarding address. |
| Spaces.Space.Forwarded | src/space.rs:85-93 | With the forward bit at the reference's bit index clear, the reference is unchanged. With it set, the address becomes the word `ForwardingWord` reads at the old address: the forwarding address when the slot holds one, `Wild` otherwise. The bit index never changes. |
| Spaces.Space.Forward | src/space.rs:85-93 | `forward` leaves in the caller's reference what `Forwarded` describes. |
| Spaces.Space.ForwardAll | src/runtime.rs:55-57 | Forwards each reference of a sequence, position by position. |
| Spaces.Space.ForwardedFixed | src/space.rs:85-93 | The corrected `forward` also rewrites the bit index to the new offset; with the bit set the address is the word `ForwardingWord` reads. That index lies inside the space whenever every stored forwarding address does. |
| Spaces.Space.ForwardFixed | src/space.rs:85-93 | The corrected `forward` leaves in the caller's reference what `ForwardedFixed` describes. |
| Spaces.Space.ForwardAllFixed | src/runtime.rs:55-57 | Applies the corrected forwarding to each reference, position by position. |
| Spaces.Resolved | src/runtime.rs:54-58 | A value whose fields were all forwarded keeps its shape and size, and field `t` is the forwarded field `t`. |
| Spaces.ResolvedFixed | src/runtime.rs:54-58 | The same with the corrected forwarding. |
| Spaces.NoForwardBitsKeepValue | src/space.rs:85-93 | When no forward bit is set in the space, forwarding a value's fields leaves the value unchanged. |
| Ptrs.Rooted.constructor | src/ptr.rs:58-63 | A new record is rooted and holds the given reference. |
| Ptrs.Rooted.Borrow | src/ptr.rs:65-67 | A record borrows the value at its current slot. |
| Ptrs.Rooted.ReallocTo | src/ptr.rs:81-88 | The value is copied to the free index of the destination and the record is repointed there. The destination's forward bit at the OLD bit index is set. The old slot holds the new address. Nothing else in the evacuated space changes. |
| Ptrs.Rooted.ReallocToFixed | src/ptr.rs:81-88 | The same, except that the forward bit is set in the space the value leaves. |
| Ptrs.Root.Borrow | src/ptr.rs:36-38 | A handle borrows the value stored in its record's current slot. |
| Ptrs.Root.ToHeap | src/ptr.rs:40-42 | `to_heap` answers a reference with the record's current address and bit index. |
| Ptrs.Root.Drop | src/ptr.rs:45-50 | Dropping a handle unroots its record and changes nothing else. |
| Ptrs.Heap.Borrow | src/ptr.rs:105-107 | A heap reference borrows the value stored at its address. |
| Ptrs.Heap.SetRawInner | src/ptr.rs:114 | Only the wrapped reference's address changes. |
| Ptrs.HeapSetRawInner | src/ptr.rs:112-114 | Writing back a heap reference's own address changes nothing, and of two `set_raw_inner` calls the last one wins. |
| Runtimes.DistinctExactly | src/runtime.rs:9-12 | The registry's distinctness means exactly that no two positions hold the same record. |
| Runtimes.DistinctOthers | src/runtime.rs:45-52 | In a registry of distinct records, every record other than `i` is a different object from record `i`, so repointing record `i` disturbs no other. |
| Runtimes.FilterDistinct | src/runtime.rs:45-52 | Keeping some of distinct records keeps them distinct. |
| Runtimes.FilterSumDws | src/runtime.rs:45-52 | The kept values never need more room than all the values, so the survivors fit in the fresh space. |
| Runtimes.LayoutSnoc | src/space.rs:54-59 | Storing one value at the free index adds one record to the layout and appends the value to the contents. |
| Runtimes.LayoutRewrite | src/runtime.rs:55-57 | Rewriting one record's value with a value of the same size keeps the layout and replaces exactly that element of the contents. |
| Runtimes.KeptStep | src/runtime.rs:48-51 | The next record is kept exactly when it is rooted, and the kept values still fit. |
| Runtimes.PlacedStep | src/runtime.rs:48-51 | Placing a rooted record's value at the free index of the fresh space extends the packed placement by one. |
| Runtimes.BitsAtExactly | src/ptr.rs:84 | Flag `j` is raised exactly when some given reference has bit index `j`. |
| Runtimes.StaleLinksGoWild | src/space.rs:85-93 | In a space left by `gc` as written, a reference that shares its bit index with a survivor's old reference but does not address this space is forwarded to `Wild`, keeping its bit index. |
| Runtimes.EvacuatedStep | src/ptr.rs:84-85 | Evacuating a rooted record adds its old slot, which now holds the forwarding address, to the forwarding slots. |
| Runtimes.TrailRoom | src/ptr.rs:83 | The `unwrap` in `realloc_to` cannot fail: the next rooted value fits in the fresh space. |
| Runtimes.TrailStep | src/runtime.rs:48-51 | Relocating a rooted record extends the first loop's state by that record. |
| Runtimes.TrailSkip | src/runtime.rs:48 | Passing over an unrooted record leaves everything as it was. |
| Runtimes.MovedAll | src/runtime.rs:45-52 | After the first loop, the survivors are the rooted records in order. They are distinct, and their values are packed from offset 0 of the fresh space. Each old slot forwards to its survivor's new address. |
| Runtimes.ResolvedBy | src/runtime.rs:55-57 | Forwarding a value's fields keeps its shape, size and number of fields. With the corrected forwarding, references stay inside the space. |
| Runtimes.ResolvedAll | src/runtime.rs:54-58 | Forwards the fields of each value of a sequence, position by position. |
| Runtimes.LinksFollow | src/runtime.rs:54-58 | With the corrected forwarding, a field that named an evacuated record's old slot names its new slot. |
| Runtimes.AllLinksFollow | src/runtime.rs:54-58 | The same for every field of every survivor. |
| Runtimes.ResolvingStep | src/runtime.rs:55-57 | Storing survivor `k`'s forwarded value over its moved value resolves one more survivor and disturbs no other. |
| Runtimes.Runtime.Contents | src/runtime.rs:9-12 | There is one registered value per record, and every reference it holds has a bit index inside a default-sized space. |
| Runtimes.Runtime.Kept | src/runtime.rs:45-52 | The values that a collection keeps carry bit indices inside a default-sized space. |
| Runtimes.Runtime.PtrsInSpace | src/runtime.rs:9-12 | Every registered reference addresses the current space, at its bit index. |
| Runtimes.Runtime.KeptPtrsInSpace | src/runtime.rs:45-52 | The same for the references of the records still rooted. |
| Runtimes.Runtime.constructor | src/runtime.rs:16-21 | A new runtime is valid, with an empty registry and a fresh space (its cells and forward bits freshly allocated too) that has every bit clear. |
| Runtimes.Runtime.TryCons | src/runtime.rs:25-37 | One pass of `cons` succeeds exactly when the value fits. Then a fresh rooted record is appended, the registered references gain exactly its reference, the contents gain exactly the new value, and the only cell written is the one at the old free index. Otherwise the registry, contents, flags and cells are unchanged. |
| Runtimes.Runtime.Place | src/runtime.rs:25 | `allocate` seen from the runtime: it succeeds exactly when the value fits. On failure the runtime is as it was. |
| Runtimes.Runtime.Finish | src/runtime.rs:25-37 | After an allocation, exactly one fresh rooted record is registered for the new slot, and the registered references gain exactly its reference. After a failure, nothing changes. The space and its cells are not touched. |
| Runtimes.Runtime.Register | src/runtime.rs:27-34 | A fresh rooted record for the new slot goes last in the registry, the registered references gain exactly its reference, and the contents gain exactly the new value. |
| Runtimes.Runtime.Append | src/runtime.rs:32 | `push` puts the record last and leaves the rest of the registry as it was. |
| Runtimes.Runtime.ValidPushed | src/runtime.rs:27-32 | Registering the freshly allocated value keeps the runtime valid and appends the value to the contents. |
| Runtimes.Runtime.ValidAt | src/runtime.rs:25 | The runtime's validity and contents are a function of its references and cells. |
| Runtimes.Runtime.Cons | src/runtime.rs:23-39 | `cons` hands out a fresh rooted record that holds the value. When the value fitted, the registry and contents grow by exactly it, the other records keep their references, and the only cell written is the new one. Otherwise a collection ran first: the space, its cells and its forward bits are fresh, the registry is the rooted records plus the new one, and the contents are their forwarded values plus the new value. The evacuated space's forward bits are untouched, and the new space's forward bits are set exactly at the survivors' old bit indices, with every mark bit clear. |
| Runtimes.Runtime.Settle | src/runtime.rs:24-38 | After the first pass of `cons`: when it registered the record, nothing further changes (references and cells included); otherwise the outcome is `GcLoop`'s. |
| Runtimes.Runtime.GcLoop | src/runtime.rs:24-38 | The loop after a failed pass ends with a fresh space, its cells and forward bits fresh too, the registry being the rooted records plus the new one, the contents their forwarded values plus the new value, and the new space's forward bits set at the survivors' old bit indices with every mark bit clear. |
| Runtimes.Runtime.CollectAndRetry | src/runtime.rs:35-37 | After a failed pass, `gc` runs and the next pass succeeds. The space, its cells and its forward bits are fresh. The registry is the rooted records plus the new one, and the new space's forward bits are set exactly at the survivors' old bit indices, with every mark bit clear. |
| Runtimes.Runtime.Retry | src/runtime.rs:25-34 | The pass after a collection registers the value after the forwarded survivors. |
| Runtimes.Runtime.CollectFrom | src/runtime.rs:36 | `gc` as `cons` calls it keeps exactly the rooted records and their forwarded values. It leaves a fresh space, with fresh cells and forward bits, whose forward bits are set at the survivors' old bit indices and whose mark bits are clear. |
| Runtimes.Runtime.Relocate | src/runtime.rs:42-52 | The first loop of `gc`: survivors are exactly the rooted records, in order, and their values are packed into a fresh space. Each old slot forwards to its survivor's new address. As written, the evacuated space's forward bits are untouched and the fresh space's forward bits are set exactly at the survivors' old bit indices. With the correction, the fresh space's forward bits stay clear. Its mark bits are clear either way. |
| Runtimes.Runtime.ValidSnapshot | src/runtime.rs:45 | A valid registry can be walked in order, with strictly increasing bit indices. |
| Runtimes.Runtime.StartMoving | src/runtime.rs:42-45 | Before the first loop, nothing has moved and every record still holds its value. |
| Runtimes.Runtime.MoveRooted | src/runtime.rs:45-52 | The first loop leaves every record considered, and the survivors are the rooted ones in order. The destination's forward bits are set exactly at the moved records' old bit indices (clear with the correction), and its mark bits are untouched. |
| Runtimes.Runtime.MoveEach | src/runtime.rs:45-52 | The loop itself: afterwards every record has been considered, the survivors are the rooted records in order, and the destination's forward bits are those of the moved records' old bit indices. As written, the evacuated space's forward bits are untouched. |
| Runtimes.Runtime.MoveStep | src/runtime.rs:46-51 | One iteration moves the record exactly when it is rooted. |
| Runtimes.Runtime.MoveOne | src/runtime.rs:48-50 | A rooted record is relocated and appended to the survivors. |
| Runtimes.Runtime.Evacuate | src/space.rs:65-67 | `realloc` delegates to `realloc_to`: the value is copied to the destination's free index and record `i` is repointed there. No other record's reference changes. The old slot forwards to the new address. As written, the destination's forward bit at the old bit index is set and the evacuated space's bits are untouched. With the correction, the bit is set in the evacuated space instead. |
| Runtimes.Runtime.ResolveSubfields | src/runtime.rs:54-58 | The second loop replaces each survivor's value by its forwarded form and keeps the layout. |
| Runtimes.Runtime.ResolveOne | src/runtime.rs:55-57 | One survivor's value is replaced by its forwarded form. |
| Runtimes.Runtime.ForwardedValue | src/runtime.rs:55-57 | The value at a survivor's slot, with each field forwarded through the evacuated space. |
| Runtimes.Runtime.ForwardFields | src/runtime.rs:55-57 | The inner loop forwards each subfield, in order. |
| Runtimes.Runtime.Collect | src/runtime.rs:41-64 | After `gc`, the registry is exactly the rooted records, in order, and the current space is fresh, with fresh cells and forward bits. Its free index equals the room the rooted values take, and its contents are their forwarded values. Each old slot forwards to its survivor's new address. As written, the new space's forward bits are set exactly at the survivors' old bit indices. Its mark bits are clear. |
| Runtimes.Runtime.Copy | src/runtime.rs:42-58 | Both loops of `gc`: the survivors are the rooted records, and the fresh space, with fresh cells and forward bits, holds their forwarded values, packed. As written, the fresh space's forward bits are set exactly at the survivors' old bit indices. Its mark bits are clear. |
| Runtimes.Runtime.Install | src/runtime.rs:62-63 | The survivors become the registry and the fresh space the current one. This leaves the runtime valid, with the forwarded values as contents and the fresh space's forward and mark bits as they were. The evacuated space is not touched. |
| Runtimes.Runtime.Gc | src/runtime.rs:41-64 | `gc` as written keeps exactly the rooted records, and leaves a fresh space with fresh cells and forward bits. It never sets a forward bit in the evacuated space. So, when no such bit was set before (as in the first collection after the runtime is created), every surviving value is unchanged. The new space's forward bits are set exactly at the survivors' old bit indices, and its mark bits are clear. |
| Runtimes.Runtime.GcFixed | src/runtime.rs:41-64 | With both corrections, each survivor keeps its shape and its number of fields. Every field that named a survivor's old slot names that survivor's new slot. The new space, its cells and its forward bits are fresh, and its mark bits are clear. |

## Left out

- The thread-local `RUNTIME`, `gc_now` and `Root::new` (src/ptr.rs:10-34) are wrappers that reach the one runtime. The model calls `Runtime` methods directly.
- Raw allocation and deallocation of a space's memory (`Drop for Space`) are left out. A space is an array of double-word cells, and an address is a space identity plus an offset. This layout is the corrected one: the source's `free_ptr` arithmetic is modelled on its own, in bytes, by `AllocateBytesAsWritten` (see Findings).
- The `println!` calls in `gc` and `Drop for Root` are I/O and are left out.
- `Box` ownership and aliasing of records are left out. `into_root` is folded into `Finish`, which wraps the registered record in a `Root`.
- The recursive `mark`, `root` and `unroot` through a reference (src/space_ptr.rs:35-42, src/ptr.rs:91-98, src/ptr.rs:117-124) are not modelled. They dereference raw pointers into the referent, and nothing in the core calls them. The model captures the derived traversals only as the list of calls made on a value's fields (`Trace.Dispatch`).
- The generic managed type `T` is closed to the two instances the crate and its tests use: `i64` and the list node `ListObj`.
- `src/root.rs` and `src/lib.rs` are not part of this model. The list node, with `next: Option<SpacePtr>`, is the one declared in `tests/test_runtime.rs`. That file's test calls a `to_space_ptr` the crate does not define, so the test itself is not part of this model. `tests/test_list.rs` declares the same node with an `Option<Heap<ListObj>>`, which wraps the same reference.
- `BitMap` stores one flag per index. The source's packing into u16 words is described by functions (`PackedWord`, `PackedMask`, `PackedStorageWords`) and proved about, but memory is not modelled byte by byte.
- The source's `debug_assert!`s and bounds (`size > 0`, `idx < size`) are preconditions.
- References held inside values are assumed to carry bit indices inside a default-sized space (`RefsBelow`). Otherwise `forward` would read a forward bit out of range, which the source checks only in debug builds (the `debug_assert!` of src/bitmap.rs:31).
- `BitMap::new` takes raw storage from `heap::allocate` and never zeroes it (src/bitmap.rs:17-21). The model starts every bitmap with all flags clear, which is what the bitmap test and `gc` rely on.
- Runtimes.Runtime.Copy, Runtimes.Runtime.Collect and Runtimes.Runtime.GcFixed: do not state that with the correction the fresh space's forward bits stay clear; `Relocate` states it.
- Runtimes.Runtime.Cons: requires that the rooted values plus the new one fit in a default-sized space. When they do not, the source's loop calls `gc` forever; the model does not capture that non-termination.
- Runtimes.Runtime.Cons: follows the source as written (`Gc`'s forwarding). The corrected collection is available as `GcFixed`, but `cons` does not call it, so the two findings below about `gc` stay visible in what `cons` promises.

## Findings

| source | as written | input that shows it | evidently intended | confidence | as-written member | corrected member |
|---|---|---|---|---|---|---|
| src/bitmap.rs:14-85 | `new` allocates `((size - 1) >> 3) + 1` blocks of 16 bytes (8 u16 words each), but `get`/`set`/`unset` address u16 word `(idx >> 3) << 4`, which is 16 words per block | `BitMap::new(16)` allocates 16 u16 words; flag 15 is looked up at word 17 | every flag's word lies inside the storage, and distinct flags use distinct bits | not executed; high | BitMaps.PackedLastOverruns, BitMaps.PackedFitsIffSmall | BitMaps.DenseFits, BitMaps.DenseAddressInjective |
| src/ptr.rs:81-88, src/runtime.rs:54-58 | `realloc_to` sets the forward bit in the space being filled, while `gc` forwards through the space being evacuated, where `realloc_to` never sets one; the bits left in the new space are read by the next collection | two list nodes as in tests/test_list.rs, `p2.next` naming `p`, with both roots kept alive across `gc_now()` (in that test both are dropped before it): after the first collection `p2.next` still names the evacuated space; in a later one it is rewritten with a word read from the freed space's memory, which the model calls `Wild` (`StaleLinksGoWild`) | references to survivors are rewritten to their new slots | not executed; high | Runtimes.Runtime.Gc, Ptrs.Rooted.ReallocTo | Runtimes.Runtime.GcFixed, Ptrs.Rooted.ReallocToFixed |
| src/space.rs:85-93 | `forward` rewrites the address but leaves the bit index of the old slot | a field referring to a record at bit index 5 that moves to offset 0 keeps bit index 5, so later mark and forward bits are looked up at the wrong index | the bit index of a forwarded reference is its new offset | not executed; medium | Spaces.Space.Forwarded | Spaces.Space.ForwardedFixed |
| src/space.rs:36-58 | `end_ptr` and `free_ptr` are `*mut u64`, and `offset` is given byte counts, so `free_ptr` moves 64 bytes per double word while the region holds 8 bytes per double word | a space of 1024 double words (8192 bytes): at `free_idx` 128 the end check passes and the value is written at byte 8192, the end of the region | values are written at byte `8 * free_idx`, inside the region | not executed; high | Spaces.AllocateAsWrittenOverruns | Spaces.AllocateBytesInRegion |
