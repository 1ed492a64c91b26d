# Verification of lean_string

A Dafny model of the clone-on-write strings of the `lean_string` crate, and proofs about it.

A `LeanString` or `LeanStr` is two words.  They hold a short text inline, or point to a static text, or to
a reference-counted heap buffer; the last byte tells which.  The model is parametrised by the word size
(`Bits32`, `Bits64`).

- `Bytes`, `Bits`, `Utf8`: bytes, little-endian words, bitwise operations on words and their bytes; UTF-8
  after RFC 3629 with character boundaries.
- `Layout`: the layout arithmetic of heap buffers with its machine-word checks.
- `TwoWords`: inline buffers built in registers or by short copies, tagged lengths, and how two words are
  told apart.
- `HeapState`: live allocations as bytes, handles pointing into them, and the invariant: headers, lengths
  and layouts agree with what was allocated, sharers agree on where the length is, and each count is the
  number of handles.  `HeapMemory` and `Conversion` say what writes to headers, slots and data do, byte by
  byte, including the moves between growable and exact buffers and their undoing.
- `Store`: the class with the allocator, the heap and all handles of a program, and the operations of `Repr`
  as methods that update them.  Any allocation may fail; the store counts the requests refused and the bytes
  moved, with and without headers.  `Texts` holds the lemmas.
- `Case`, `Filtering`, `Repetition`, `Numbers`: the fast algorithms (chunked case scans, in-place `retain`,
  doubling `repeat`, integer printing by digit pairs) against their simple definitions.
- `Runs`: whole programs refine independent plain strings; nothing leaks.
- `Concurrency`: threads as interleaved atomic steps, with the faults that must not happen.
- `Growth`: amortised cost of growing.

The methods of `Store` state the whole effect of an operation: the new text and capacity of the handle
(`Updated`, `Added`), that every other handle reads what it did (`Frame`), when an operation panics, that it
fails exactly when the allocator refuses or a size is above its limit, and that an error leaves everything as it was.

## Model

| member | source | states |
|---|---|---|
| Runs.Run | src/repr.rs:592-1086 | Any sequence of operations on any number of handles, with any allocation failing: what the handles read is what independent plain strings would, every reply is one plain strings could give, a failure is replied only where the allocator refused or a size was above its limit, and every handle no operation is performed on keeps its words, text and capacity, however its buffer was cloned, counted or copied meanwhile |
| Runs.Perform | src/repr.rs:592-1086 | One operation refines one step on plain strings. It fails only with a refusal of the allocator or a size above the limit, overflows a count only with more handles than a count allows, and if it fails or panics before editing, every handle, text, capacity and allocation is as before |
| Runs.OthersNeverShow | src/repr.rs:321-390 | In the replayed plain strings of a run an untargeted handle keeps its type and text; `Runs.Run` says that the store then shows the same |
| Runs.Shutdown | src/repr.rs:382-390 | Dropping every handle leaves nothing allocated, and every allocation ever made was freed, once |
| Runs.ReplaySnoc | src/repr.rs:592-1086 | One more plausible step extends a believable log by exactly that step on the plain strings |
| Runs.EditsValid | src/repr.rs:276-279 | Every edit of a plain string keeps it valid UTF-8 |
| Runs.ApplyValid | src/repr.rs:276-279 | Every step on plain strings keeps all of them valid UTF-8 |
| Runs.Grow | src/repr.rs:630-941 | push, insert, extend and replace change exactly the one text as the plain edit does, or report a refused allocation or a size above the limit with nothing changed |
| Runs.Shrink | src/repr.rs:718-875 | pop, remove, truncate, clear and retain: the same |
| Runs.Adjust | src/repr.rs:592-875 | ASCII case in place, reserve and shrink: the same, with a full count told apart, and with the room asked for |
| Runs.PerformCloneFrom | src/lib.rs:1653-1656 | `clone_from` gives the target the text of the source and releases what it held |
| Runs.PerformFullCase | src/lib.rs:1215-1217 | `to_lowercase` and `to_uppercase` make a new string with the converted text, or a clone when nothing changes; refusals and count overflow are told apart |
| Runs.ConvertThereAndBack | src/lib.rs:1618-1628 | Converting to the other type and back keeps the text and leaves capacity equal to length; it fails exactly when the allocator refuses, so only for handles on the heap |
| Concurrency.ProgramsAreSafe | src/repr/heap_buffer.rs:205-253 | Every interleaving of atomic steps from the empty state: no fault, each count equals the references in existence, every allocation is live or freed exactly once, and none is left when nobody is |
| Concurrency.NeverFaults | src/repr/heap_buffer.rs:205-253 | In every reachable state no step touches freed memory, frees twice, counts below zero, or writes or resizes memory another thread can reach |
| Concurrency.StepKeeps | src/repr.rs:1094-1156 | Each atomic step (adding or subtracting a reference, loading the count, starting a copy, copying a byte, handing a copy over, resizing, writing, setting the length, freeing) keeps the invariant |
| Concurrency.RunsAreSafe | src/repr.rs:1094-1156 | The invariant and the absence of faults over whole interleavings |
| Concurrency.MadeAndCloned | src/repr/heap_buffer.rs:118-152 | A handle made from a text reads it as long as others act, and so does any clone made from it meanwhile, whatever the interleaving, unless the count was full |
| Concurrency.MadeText | src/repr/heap_buffer.rs:118-152 | A new buffer has the data area asked for and holds the text |
| Concurrency.ClonesRead | src/repr.rs:321-358 | From its first step to its last and afterwards a clone reads what its source read |
| Concurrency.OthersUnchanged | src/repr.rs:1040-1070 | A step of another actor leaves a handle and its text as they are, sharers of one allocation and its length slot included |
| Concurrency.OthersUnchangedInRuns | src/repr.rs:1040-1070 | The same over whole interleavings |
| Concurrency.EditsAreAtomic | src/repr.rs:1094-1156 | Whatever other threads do during an edit and whichever allocation fails, the handle holds the old text or the new one |
| Concurrency.OwnSteps | src/repr.rs:1136-1156 | Copying, resizing, moving and releasing keep the text of the handle they are for; committing gives the text wanted |
| Concurrency.CloneAddKeeps | src/repr.rs:321-350 | `fetch_add`: a reference taken past `isize::MAX` is only held to be given back, so at most `isize::MAX + 1` holders stay |
| Concurrency.SubKeeps | src/repr/heap_buffer.rs:227-241 | `fetch_sub`: the last reference goes to exactly one pending deallocation, by an actor nobody else shares the allocation with |
| Concurrency.OnlyRef | src/repr/heap_buffer.rs:205-207 | A count of 1 loaded by an exclusively borrowed handle means that no other actor can reach the allocation |
| Concurrency.CopyKeeps | src/repr.rs:1148-1154 | Starting a copy of a shared text: the new buffer has one holder, and the handle waits on the old one, still counted there |
| Concurrency.CopiedSoFar | src/repr.rs:1150-1154 | Until a copy is handed over, no interleaving of the other threads changes the text being copied or the bytes copied so far, which are the front of it |
| Concurrency.CopiesKept | src/repr.rs:1150-1154 | The same for every copy under way, as part of the invariant: any step keeps it |
| Concurrency.HandOverKeeps | src/repr.rs:361-370 | A finished copy replaces the old value, whose reference is only then about to be given back |
| Concurrency.GrowKeeps | src/repr/heap_buffer.rs:381-457 | `realloc` in place or by moving, on the one reference there is |
| Concurrency.CommitKeeps | src/repr/heap_buffer.rs:540-569 | The length word in the allocation is written only when nobody shares it |
| Concurrency.EditsCanFinish | src/repr.rs:1094-1156 | From every reachable state a thread left alone with an idle handle can finish any edit, whoever shares the buffer, and nobody else notices |
| Concurrency.LoadsAreExact | src/repr/heap_buffer.rs:205-207 | Both loads find a handle unique exactly when it holds the only reference |
| Concurrency.InFlightGoesOn | src/repr.rs:321-358 | Clones in flight and releases can always go on; a clone is given up exactly when more than `isize::MAX` references existed, and the last reference frees |
| Concurrency.LateDrop | src/repr.rs:1105-1156 | If the other handles go between `is_modifiable` and the second uniqueness check of `reallocate`, resizing the buffer is safe and keeps the text |
| Concurrency.SecondLoadAgrees | src/repr.rs:1105-1156 | A handle found unique is still unique at the second check |
| Store.Store.Alloc | src/repr/heap_buffer.rs:275-279 | The allocator may fail at any call; a new allocation is distinct from every live or freed one |
| Store.Store.Dealloc | src/repr/heap_buffer.rs:249-253 | Takes back only a live allocation, by its base and with the exact size it has |
| Store.Store.Realloc | src/repr/heap_buffer.rs:426-435 | Takes the base and exact size of a live allocation; may fail, stay or move; keeps the common front, and counts the bytes of data in it as moved |
| Store.Store.AllocatePtr | src/repr/heap_buffer.rs:271-297 | A new allocation has a header with count 1 and the capacity, or nothing has changed; fails exactly when the allocator refuses or a size is above the limit |
| Store.Store.NewUninit | src/repr/heap_buffer.rs:164-178 | A buffer with room for exactly the length given, which is recorded in handle or slot; fails exactly when the allocator refuses or a size is above the limit |
| Store.Store.CopyText | src/repr/heap_buffer.rs:139-152 | The one copy, or the two overlapping copies of one or two inline sizes, write the whole text and nothing else |
| Store.Store.FromStr | src/repr.rs:97-104 | A new handle holds the text, inline exactly if it fits, alone on its buffer; it fails exactly when the allocator refuses or a size is above the limit, and then changes nothing |
| Store.Store.FromChar | src/repr.rs:107-109 | The handle holds the encoding of the character, without allocating |
| Store.Store.FromInteger | src/repr/num_to_repr.rs:50-133 | The handle holds the decimal notation of the integer; fails exactly when the allocator refuses |
| Store.Store.NewWith | src/repr.rs:146-168 | A new handle holds what `init` writes, inline or on the heap; fails exactly when the allocator refuses or a size is above the limit |
| Store.Store.FromStaticStr | src/repr.rs:121-133 | No allocation, inline exactly if it fits; fails exactly for texts longer than the static length word can say |
| Store.Store.WithCapacity | src/repr.rs:498-504 | An empty handle with exactly the capacity asked for, at least the inline size; fails exactly when the allocator refuses or a size is above the limit |
| Store.Store.FromStrWithCapacity | src/repr/heap_buffer.rs:355-372 | A heap buffer of exactly the given capacity holding the text; fails exactly when the allocator refuses or a size is above the limit |
| Store.Store.Drop | src/repr.rs:382-390 | Gives up one handle; its allocation is freed exactly if it was the last, and nobody else notices |
| Store.Store.Release | src/repr/heap_buffer.rs:227-241 | Counts down, and frees base and layout recomputed from the header exactly with the last reference |
| Store.Store.ReplaceInner | src/repr.rs:361-370 | The old value is released and the new one moved in, text, capacity and sole ownership included |
| Store.Store.Clone | src/repr.rs:321-358 | The clone shares buffer, text and capacity without allocating; at `isize::MAX + 1` handles it panics with every byte as before |
| Store.Store.IsUnique | src/repr.rs:311-318 | True exactly if no other handle shares the allocation |
| Store.Store.IsModifiable | src/repr.rs:1105-1107 | True exactly for handles that are not static and not shared |
| Store.Store.HeapRealloc | src/repr/heap_buffer.rs:381-457 | The unique buffer gets the new capacity and keeps its text, also when the length slot comes or goes; it fails exactly when the allocator refuses or a size is above the limit, and then changes nothing |
| Store.Store.Reallocate | src/repr.rs:1136-1156 | The handle becomes modifiable with the capacity asked for and the same text; it fails exactly when the allocator refuses or a size is above the limit, and then changes nothing, on shared buffers too; what is moved is between the text and the old data area |
| Store.Store.GrowAmortized | src/repr.rs:1109-1122 | The capacity becomes the larger of what is required and 1.5 times the length; fails exactly when the allocator refuses or a size is above the limit |
| Store.Store.GrowExact | src/repr.rs:1124-1128 | The capacity becomes exactly what is required; fails exactly when the allocator refuses or a size is above the limit |
| Store.Store.Reserve | src/repr.rs:592-613 | Room for the bytes asked for, amortised or exact; nothing happens when there already is room in a modifiable buffer; fails exactly when the allocator refuses or a size is above the limit |
| Store.Store.ShrinkTo | src/repr.rs:616-627 | A heap capacity above both the length and the minimum shrinks to them, inline if that fits and in a buffer of its own; otherwise nothing happens; fails exactly when the allocator refuses |
| Store.Store.EnsureModifiable | src/repr.rs:1094-1101 | The handle becomes modifiable with the same text, in a buffer of just its length, and untouched if it already was; fails exactly when the allocator refuses |
| Store.Store.Write | src/repr.rs:1166-1181 | Writing data of a modifiable handle changes its data area and nobody else |
| Store.Store.SetLen | src/repr.rs:1184-1199 | Ends an edit: the front of the data area is the text, with the length moved between handle and slot as its size requires |
| Store.Store.PushStr | src/repr.rs:630-660 | Appends the text, which may be borrowed from any handle and is read when it is written, with the exact capacity afterwards; fails exactly when the allocator refuses or a size is above the limit, and then changes nothing |
| Store.Store.PushChar | src/repr.rs:697-715 | Appends the encoded character; fails exactly when the allocator refuses or a size is above the limit, and then changes nothing |
| Store.Store.ExtendFromWithin | src/repr.rs:663-694 | Appends a copy of a range of the text, with the exact capacity afterwards, panicking exactly for ranges not on character boundaries and failing exactly on a refusal or a size above the limit |
| Store.Store.InsertStr | src/repr.rs:878-913 | Splices the text in, read after the room was made, panicking exactly off a character boundary and failing exactly on a refusal or a size above the limit |
| Store.Store.InsertChar | src/repr.rs:916-941 | Splices the encoded character in, with the same panics and failures |
| Store.Store.Remove | src/repr.rs:736-774 | Splices one character out and returns it, keeping the capacity of a modifiable handle, panicking exactly where no character starts and failing exactly when the allocator refuses |
| Store.Store.Truncate | src/repr.rs:1025-1040 | Keeps the front of the text and, but for a shared 32-bit buffer with its length in the allocation, the buffer; only in that case it allocates, so can fail |
| Store.Store.TruncateUnchecked | src/repr.rs:1044-1086 | The same; a shared buffer is left in place exactly when the handle carries its length |
| Store.Store.Pop | src/repr.rs:718-733 | Removes and returns the last character, nothing from an empty text, with the capacity truncation leaves |
| Store.Store.Clear | src/repr.rs:1008-1022 | Empties the text without failing: a modifiable handle keeps its capacity, a static one stays static, and a shared one gives up its reference and becomes inline |
| Store.Store.ReplaceRange | src/repr.rs:944-1005 | Prefix, replacement and suffix, on the copying path and in place, also when the replacement is borrowed from another handle on the same buffer; exact capacity afterwards; panics exactly for bad ranges, fails exactly on a refusal or a size above the limit, and then changes nothing |
| Store.Store.WriteReplacement | src/repr.rs:989-1002 | Moving the suffix before reading and writing the replacement splices the text |
| Store.Store.Retain | src/repr.rs:777-852 | Keeps the encoded characters the predicate keeps, calling it once for each in order; a panic leaves the characters kept so far; nothing is touched when nothing is removed, and a modifiable handle keeps its capacity |
| Store.Store.CompactKept | src/repr.rs:793-851 | The in-place loop: what is kept moves down over what is not, and the front is a valid text at every step |
| Store.Store.Repeat | src/repr.rs:171-196 | `n` copies of the text; one copy is a clone, which panics exactly when the count is full; otherwise it fails exactly when the allocator refuses or a size is above the limit |
| Store.Store.ToAsciiCase | src/repr.rs:199-227 | A new handle with every ASCII letter mapped, or a clone if none changes, which panics exactly when the count is full |
| Store.Store.MakeAsciiCase | src/repr.rs:855-875 | The same in place where the handle is modifiable, which cannot fail; a full count and a refused allocation are told apart |
| Store.Store.ToCase | src/repr.rs:507-563 | "No change" exactly if no character changes; otherwise every character of the text, which may be borrowed from any handle, mapped on its own, or the whole-text conversion if a capital sigma is lowercased; it fails exactly on a refusal or when one of the capacities asked for on the way is above the limit, and then drops the partial result; the capacity is that of those pushes |
| Texts.CaseRoomStep | src/repr.rs:542-561 | One more character mapped: its pushes leave the capacity the recurrence gives, or the conversion is too long |
| Texts.CaseRoomEnds | src/repr.rs:542-561 | Where the character loop ends, sizes alone make the conversion fail exactly if the whole-text conversion is needed and above the limit |
| Store.Store.IntoExact | src/repr/heap_buffer.rs:466-534 | Success keeps the text with capacity equal to length; failure, exactly when the allocator refuses, restores every byte except a length slot nobody reads |
| Store.Store.RollBack | src/repr/heap_buffer.rs:499-516 | After a failed shrink text, header, count, capacity and length are as before, and all bytes exactly if there is no slot or it held the length already |
| Store.Store.IntoGrowable | src/repr/heap_buffer.rs:580-632 | Success keeps the text with capacity equal to length; it fails exactly when the allocator refuses or a size is above the limit, and then changes nothing |
| Store.Store.IntoImmutable | src/repr.rs:1202-1245 | The handle changes type and keeps its text; unique short texts go inline, shared ones are copied before releasing; fails exactly when the allocator refuses |
| Store.Store.IntoMutable | src/repr.rs:1248-1279 | The same in the other direction, heap buffers staying on the heap; fails exactly when the allocator refuses or the text is above the limit |
| Store.Store.TryConvert | src/lib.rs:1618-1628 | A failed conversion drops the original, freeing its allocation if it was the last handle |
| Store.Store.SplitOff | src/lib.rs:1488-1492 | Two handles with the two halves, the second in a buffer of its own; if either allocation is refused everything is as before and nothing leaks |
| HeapState.AddShared | src/repr.rs:328-340 | A clone counts up and keeps counts, layouts, agreement of sharers and all texts |
| HeapState.RemoveShared | src/repr/heap_buffer.rs:227-231 | Releasing one of several references counts down and keeps everything else |
| HeapState.RemoveLast | src/repr/heap_buffer.rs:249-253 | Freeing with the last handle keeps everything about all other allocations |
| HeapState.AddUnique | src/repr/heap_buffer.rs:271-297 | A consistent new buffer with count 1 keeps the invariant |
| HeapState.Retarget | src/repr.rs:1052-1056 | A shared handle may change the length it carries |
| HeapState.SharersReadPrefixes | src/repr/heap_buffer.rs:184-195 | Sharers all read their length from the slot and then the same text, or all carry it and then one reads a front of what the other reads; capacities agree |
| HeapState.NoHandlesNoBlocks | src/repr.rs:382-390 | Without handles no allocation is left |
| Texts.SameHandlesSameBlocks | src/repr.rs:556-560 | Valid states with the same handles have the same live allocations, so undoing a step leaks nothing |
| Texts.LiveIffOwned | src/repr/heap_buffer.rs:227-253 | An allocation is live exactly if a handle points to it |
| HeapMemory.AllocatorDiscipline | src/repr/heap_buffer.rs:256-326 | A restatement of the buffer invariant for the allocator: from header and length alone, `allocation()` finds the base and `alloc_layout()` the exact size. That every operation keeps the invariant is `Store.Store` throughout, whose `Dealloc` and `Realloc` demand base and exact size |
| HeapMemory.LengthRecorded | src/repr/heap_buffer.rs:164-178 | Recording the length in handle or slot completes a fresh buffer |
| HeapMemory.LengthChanged | src/repr/heap_buffer.rs:540-569 | A unique buffer may change its length within its capacity, in and out of the slot, without touching its data |
| HeapMemory.Resized | src/repr/heap_buffer.rs:432-453 | After resizing and rewriting the header the buffer is consistent, with the new capacity, the old text and count 1 |
| HeapMemory.BufferExtent | src/repr/heap_buffer.rs:299-315 | A consistent buffer ends where its allocation ends, its length is within its capacity, and its capacity is above the inline size |
| HeapMemory.CountRestored | src/repr.rs:340-351 | Counting up and back down restores every byte |
| HeapMemory.DataInvisible | src/repr/heap_buffer.rs:184-195 | Writing data changes neither count, capacity nor length |
| HeapMemory.RewriteUnique | src/repr.rs:1166-1181 | Rewriting the buffer of the only handle keeps the invariant and every other view |
| Conversion.ExactBuilt | src/repr/heap_buffer.rs:488-533 | Text moved down over the header, shrunk, with its new header and length: an exact buffer with the same text |
| Conversion.RollbackRestores | src/repr/heap_buffer.rs:499-516 | Moving the text back and rewriting header and slot restores every byte but a dead slot |
| Conversion.RollbackExact | src/repr/heap_buffer.rs:499-516 | All bytes are as before exactly if there is no length slot or it already held the length |
| Conversion.StaleSlotChanges | src/repr/heap_buffer.rs:499-516 | A 32-bit buffer of capacity 2^24 with its length in the handle and another number in the slot does not come back unchanged |
| Conversion.GrowableComplete | src/repr/heap_buffer.rs:603-631 | Grown, text moved up, with slot and header: a growable buffer with the same text and capacity equal to length |
| Conversion.ExactIsLower | src/repr/heap_buffer.rs:472-493 | The exact data offset is never above the growable one and its layout never larger, so the move down stays inside the allocation |
| Layout.LayoutAccepts | src/repr/heap_buffer.rs:299-315 | `layout_for` accepts exactly the capacities up to the limit (2^31-16 and 2^31-12 on 32-bit targets, 2^56-1 on 64-bit), without wrapping |
| Layout.StaticMaxIs | src/repr/static_buffer.rs:16-21 | A static length is accepted exactly if it leaves the byte of the marker free |
| Layout.MaxLenIs | src/repr/heap_buffer.rs:668-715 | So is a length in a heap handle, but for the one value that means "in the allocation" on 32-bit targets |
| Layout.NewTextLenIs | src/repr/heap_buffer.rs:668-715 | Every length has a representation, but for those from 2^56 on on 64-bit targets |
| Layout.SlotIffNeeded | src/repr/heap_buffer.rs:719-724 | A buffer has a length slot exactly if some length it can hold needs one |
| Layout.GrowCapIs | src/repr.rs:1109-1122 | The least capacity that is enough and at least half as much again as the length; what fits inline asks for no more |
| Layout.ReallocAgreesWithLayout | src/repr/heap_buffer.rs:404-424 | The hand-written limits and saturating sums of `realloc` accept the same capacities with the same sizes |
| Layout.ExactFitsWhereGrowableDoes | src/repr/heap_buffer.rs:580-600 | The few 32-bit lengths that have an exact but no growable layout |
| TwoWords.RegistersAreInline | src/repr/inline_buffer.rs:21-70 | The shifted and OR-ed overlapping loads build the text, zeros and the length tag, for every length |
| TwoWords.ByCopies | src/repr/inline_buffer.rs:75-118 | The ladder of constant-size copies builds the same bytes |
| TwoWords.OverlappingLoads | src/repr/inline_buffer.rs:49-60 | Two overlapping loads, one shifted into place and OR-ed in, give the text followed by zeros |
| TwoWords.UpperWord | src/repr/inline_buffer.rs:43-48 | The upper load shifted right past the first word, with the tag in the last byte |
| TwoWords.NewInline | src/repr/inline_buffer.rs:21-118 | Both versions of `InlineBuffer::new` give the same buffer |
| TwoWords.PackedIsEncoded | src/repr/inline_buffer.rs:121-152 | The bit manipulation of `from_char` packs the encoding of section 3 of RFC 3629, for every scalar value |
| TwoWords.FromCharIsInline | src/repr/inline_buffer.rs:121-163 | `from_char` makes the inline buffer of the encoded character, which decodes to the character |
| TwoWords.TextLenRoundTrip | src/repr/heap_buffer.rs:668-715 | Every length comes back from the tagged second word, and the value that means "in the allocation" is no length |
| TwoWords.StaticRoundTrip | src/repr/static_buffer.rs:16-47 | Every static length comes back from its tagged word |
| TwoWords.WordsRoundTrip | src/repr.rs:231-268 | The two words decode to the form, pointer and length they were made from, and both versions of `len` agree |
| TwoWords.HandleDecodes | src/repr.rs:231-298 | In every valid state the last byte of a handle tells its form and `len` its length: a full untagged inline text is never mistaken for a tag |
| TwoWords.TaggedLength | src/repr.rs:231-248 | A length and a marker in the last byte come apart again by XOR and by masking |
| Texts.InlineRoundTrip | src/repr/inline_buffer.rs:21-70 | The buffer made from a valid text decodes as inline and to that text |
| Texts.MarkerSafe | src/repr.rs:1184-1199 | In the middle of an edit the last byte is the old tag or ends a valid text, so `set_len` never dispatches on a heap or static marker |
| Texts.MaskIs | src/repr/last_byte.rs:211-230 | The bytes below the tags of inline buffers are exactly those a text can end in, and the tags stay below the markers |
| Texts.ShortenedHandle | src/repr.rs:1052-1056 | A shared handle that carries its length may shorten it: it reads the front of its text |
| Texts.SlotOwnerIsLong | src/repr/heap_buffer.rs:719-724 | A length in the allocation means a 32-bit target and a capacity above what a handle can carry |
| Texts.SliceRangeCuts | src/repr.rs:1289-1313 | What `slice_range` accepts cuts the text into three valid texts |
| Texts.SliceRangeIs | src/repr.rs:1289-1313 | `slice_range` finds the one range on character boundaries with just the indices both bounds admit, and panics if there is none |
| Texts.SplicedData | src/repr.rs:989-1002 | Moving the suffix and writing the replacement splices the data, and touches the last byte only when the text fills the buffer |
| Texts.FirstPartMapped | src/repr.rs:511-540 | The part written before any character is pushed is the mapping of that part of the text |
| Texts.MapTextStep | src/repr.rs:542-561 | Pushing the mapping of one more character extends the mapped prefix by it |
| Texts.DeadSlotOnly | src/repr/heap_buffer.rs:499-516 | What a failed `into_exact` leaves is the old buffer up to a slot nobody reads |
| Bytes.TwoCopies | src/repr/heap_buffer.rs:125-152 | Two copies of `n` bytes from both ends of `n` to `2n` bytes are one full copy |
| Bytes.IsizeMaxIs | src/repr.rs:334-340 | The limit of reference counts and layouts is half of the address space |
| Bits.TagBits | src/repr/static_buffer.rs:29-47 | OR-ing a tag above a value adds it, and XOR-ing it removes it |
| Bits.OrBytes | src/repr/inline_buffer.rs:28-70 | OR works byte by byte |
| Bits.ShlBytes | src/repr/inline_buffer.rs:49-60 | Shifting left by whole bytes moves the bytes up |
| Bits.ShrBytes | src/repr/inline_buffer.rs:43-48 | Shifting right by whole bytes drops the low bytes |
| Utf8.ValidIffEncoded | src/repr.rs:276-279 | A byte sequence is well formed by section 4 of RFC 3629 exactly if it is the encoding (section 3) of some characters |
| Utf8.DecodeEncode | src/repr.rs:1319-1341 | Encoded characters are valid and decode to themselves |
| Utf8.EncodeDecode | src/repr.rs:276-279 | A valid text is the encoding of what it decodes to |
| Utf8.EncodeOrder | src/repr.rs:1319-1341 | Encoded texts are ordered bytewise as their characters are |
| Utf8.BoundarySplits | src/repr.rs:1303-1310 | A valid text may be cut at an index exactly if `is_char_boundary` says so, and its characters are divided between the halves |
| Utf8.LastByteBelowC0 | src/repr/last_byte.rs:211-230 | No valid text ends in a byte of 0xC0 or above |
| Utf8.LastCharSplits | src/repr.rs:718-733 | Scanning back over continuation bytes finds exactly the last character |
| Case.PrefixLenWhile | src/case.rs:65-78 | The scan by chunks of 16 finds the longest prefix satisfying the predicate |
| Case.AllBytes | src/case.rs:84-86 | The sum of ones in a byte equals 16 exactly if all bytes satisfy the predicate |
| Case.SplitAtFirstAsciiChange | src/case.rs:23-30 | `None` exactly if no ASCII letter changes; otherwise the first byte that does, on a character boundary |
| Case.SplitAsciiPrefix | src/case.rs:33-37 | Cuts off the longest ASCII prefix, on a character boundary |
| Case.SplitAtFirstChange | src/case.rs:11-20 | `None` exactly if no character changes; otherwise where the first that does starts |
| Case.MapAscii | src/case.rs:40-45 | Mapping ASCII text byte by byte is mapping it character by character |
| Case.SigmaIs | src/repr.rs:542-552 | The capital sigma that needs the whole text is U+03A3, as encoded |
| Case.AsciiMapIs | src/case.rs:40-45 | The 26 letters of one case are mapped to those of the other, position by position, and every other byte is left alone |
| Case.AsciiMapTwice | src/case.rs:40-45 | Of two mappings only the last counts, and each undoes the other on letters |
| Case.LongestPrefixIs | src/case.rs:65-78 | The longest prefix is the one that ends where the predicate first fails |
| Filtering.FilterCounts | src/repr.rs:777-852 | Without a panic the predicate is called once for every character; with one, up to and including the character it panics on; without a discard everything asked about is kept |
| Filtering.FilterPure | src/repr.rs:777-779 | For a predicate without state or panics the result is the usual filter |
| Filtering.FindRemoved | src/repr.rs:783-787 | Finds the first character not kept, having asked about each before it once |
| Filtering.KeepMoves | src/repr.rs:822-832 | Moving a kept character down extends the encoded front and leaves the rest to be read |
| Filtering.StoppedAnywhere | src/repr.rs:837-848 | Wherever the loop is left, the front is the valid encoding of what is kept so far |
| Repetition.Fill | src/repr.rs:182-194 | Doubling writes exactly `n` copies, in ceil(log2 n) rounds for a non-empty text |
| Repetition.RepeatedAt | src/repr.rs:171-196 | Byte `i` of a repetition is byte `i mod len` of the text |
| Repetition.CeilLog2Is | src/repr.rs:187-193 | Doubling passes `n` after exactly the rounded-up logarithm |
| Repetition.CyclicExtends | src/repr.rs:187-193 | A whole number of copies may be continued with its own beginning |
| Numbers.WriteNumber | src/repr/num_to_repr.rs:51-130 | The backward writer fills every byte with the decimal notation and ends at index 0, for every value of every type, the most negative included |
| Numbers.WriteFours | src/repr/num_to_repr.rs:82-98 | The loop that takes four digits at a time leaves at most four and has written the others |
| Numbers.WriteRest | src/repr/num_to_repr.rs:100-121 | The last one to four digits, without a leading zero |
| Numbers.DigitCountIsLength | src/repr/num_to_repr.rs:181-391 | All digit-count tables equal the length of the decimal notation, sign included |
| Numbers.LutPairIs | src/repr/num_to_repr.rs:40-45 | The table holds at twice `d` the two digits of `d` |
| Numbers.Magnitude | src/repr/num_to_repr.rs:53-61 | Reducing to the work type and negating there by complement and carry gives the magnitude |
| Numbers.FitsIs | src/repr/num_to_repr.rs:137-153 | The values of each of the ten types |
| Numbers.WorkIs | src/repr/num_to_repr.rs:137-153 | Digits are taken from a 32-bit type on 32-bit targets for types of at most four bytes, otherwise from a 64-bit one |
| Numbers.DecimalRoundTrip | src/repr/num_to_repr.rs:50-133 | Parsing inverts printing, and there are no superfluous zeros |
| Numbers.DigitsAre | src/repr/num_to_repr.rs:40-45 | The digits are the characters 0 to 9, and the sign is a hyphen |
| Numbers.CanonicalIsDigits | src/repr/num_to_repr.rs:50-133 | The notation printed is the only one without superfluous zeros |
| Growth.PushRun | src/repr.rs:630-660 | Over any run of `push_str` and `push_char` onto an empty unshared string, until one is refused: capacity, bytes of data moved and bytes carried in all are what the recurrence gives, so at most 6 times the final length of data and 7 times of all |
| Growth.Push | src/repr.rs:630-715 | One push: capacity, bytes moved and bytes carried are exactly what one step of the recurrence says, and it fails exactly when the allocator refuses or a size is above the limit |
| Growth.CopiesAreLinear | src/repr.rs:1109-1122 | The same bounds for any sequence of sizes, from any starting capacity, headers and length slots included in the second |
| Growth.PushAmortised | src/repr.rs:1109-1122 | One push keeps the bounds, and a reallocation strictly raises the capacity |
| Growth.SixIsTooLittle | src/repr.rs:1109-1122 | With headers 6 times the length is not enough: six pushes into a 64-bit buffer for 17 bytes carry 271 bytes for a length of 44 |

Where code and documentation differ, the model follows the code.  `into_exact` is documented to return the
buffer unchanged on failure (`src/repr/heap_buffer.rs:459-465`).  It does so exactly if the buffer has no length
slot or the slot already holds the length (lines 505-507): `Conversion.RollbackExact` and `Store.Store.RollBack`
state this, and `Conversion.StaleSlotChanges` shows a buffer that comes back changed.  A shared buffer is
documented to be copied when one of its strings is mutated; `truncate` leaves it in place exactly when the string
carries its length (`src/repr.rs:1052-1056`), as `Store.Store.TruncateUnchecked` states.

## Left out

- Weak memory orderings and fences: the steps of `Concurrency` interleave sequentially consistently.
- `Concurrency` models heap handles only, since inline and static ones touch nothing shared; its counts are unbounded integers, while `Store` counts in words and models the overflow check.
- In `Concurrency` the release of an old reference may be delayed past the next steps of the same edit, and bytes are written in any order: this allows more interleavings than the code has. A copy of a shared text is written from front to back.
- Float and 128-bit integer formatting, which other libraries do.
- UTF-16 and lossy decoding and the Unicode case tables: a character mapping is any function with the right values on ASCII characters, and the conversion of a whole text with a capital sigma in it is given from outside.
- The traits and panicking wrappers of `src/lib.rs`: comparison, hashing, borrowing, formatting, collecting. Where a wrapper panics on an allocation failure, `Runs` records the failure.
- The 64-bit work type that wasm32 targets use when printing smaller integers.
- `from_bool` and the unused niches of the last byte.
- Optimiser hints, alignment and host byte order: memory is modelled as bytes in the order the code fixes.
- Allocations are numbered in the order they are made, so an address is never used again.
- Pointers are numbers of allocations with an offset; their machine addresses appear only in `TwoWords`.
- Store.Store.NewWith: takes what `init` writes as a value that is computed before the allocation, not after it.
- Store.Store.Repeat: fills a scratch array with the copies, which `NewWith` then writes; the code fills the new buffer itself.
- Store.Store.ToAsciiCase: maps the text to a value, which `NewWith` then writes, likewise.
- Store.Store.FromInteger: prints into a scratch array, which `NewWith` then writes, likewise.
- Store.Store.Retain: a panic of the predicate is an answer like the others; unwinding is modelled by the guard that sets the length.
- Store.Store.IntoExact: after a failure the length slot of a large 32-bit buffer whose length is in the handle may hold another value, as in the code; nobody reads it.
- Panics by `init` in `new_with` and the leak they are documented to allow.
