# virtual-memory in Dafny

A Dafny model of the segmented, paged virtual-memory simulator of the
eric-minassian/virtual-memory repository. The model is proved against its own
specification.

The simulated machine has two stores:
- a physical memory of 1024 frames of 512 signed 32-bit words;
- a disk of 1024 blocks of 512 words.

The segment table sits in the first two frames:
- word `2s` holds the size of segment `s`;
- word `2s + 1` holds the location of its page table.

A location word, in the segment table or in a page table, is a signed tag:
- negative: disk block `-v`;
- zero: uninitialised;
- positive: resident frame `v`.

`VirtualAddress::new` splits a virtual address into segment `s`, page `p`,
word `w` and in-segment offset `pw`. `translate` takes these fields, checks
`pw` against the segment size, then walks both levels. A location on disk is paged in: the lowest all-zero frame
at or above frame 2 is taken, the slot is set to it, and the disk block is
copied into it. The result is the physical address `frame * 512 + w`.

Files:
- `ints.dfy`: the fixed-width integer types.
- `constants.dfy`: the geometry and its derived bounds.
- `errors.dfy`: the error, result and option datatypes.
- `decimal.dfy`: decimal numerals, the abstraction of Rust's integer `parse`.
- `data.dfy`: the four bounded value types. Each field has a subset type, so
  a value outside its bound cannot be built.
- `virtual_address.dfy`: the address decoder.
- `frame.dfy` and `physical_memory.dfy`: the frame-based physical memory, with
  the map from it to flat words.
- `virtual_memory_spec.dfy` (module `VmSpec`): the engine's behaviour as
  functions of memory and disk.
- `virtual_memory.dfy` (module `Vm`): the engine as a class over an
  `array<i32>` and a disk field. Each method is proved against the `VmSpec`
  function of the same behaviour.
- `virtual_memory_properties.dfy`: what the engine promises, proved about
  `VmSpec`.
- `virtual_memory_examples.dfy`: the repository's unit-test scenarios, worked
  out on the model.

Where the code does something other than its names and comments suggest,
the model follows the code:
- `PageOffset` accepts up to 1023, not 511.
- `FrameOffset` rejects 0 and 1, has no lower bound, and accepts every
  negative `i16`.
- The decoder accepts every `u32`; bits above bit 26 are not rejected.
- A frame counts as free when all of its words are zero. The frames' `free`
  flags play no part.
- A page-in writes the slot before it copies the block.
- A frame paged in from an all-zero block stays free and can be handed out
  again.

## Model

| member | source | states |
|---|---|---|
| Constants.DerivedValues | src/constants.rs:1-16 | PAGE_SIZE is 2^9; MAX_SEGMENT_OFFSET is 511; MAX_SEGMENT_SIZE is 523264; MIN_POSITIVE_PAGE_OFFSET is 2; MAX_PAGE_OFFSET is 1023; memory has 524288 words |
| Constants.SegmentSlotsDisjoint | src/constants.rs:7-9 | the two slot offsets are distinct and below SEGMENT_WORD_COUNT, so slot `2s + a` of one segment never equals a slot of another segment |
| Constants.SegmentTableInReservedFrames | src/constants.rs:7-15 | the table for segments 0..511 fills exactly the first MIN_POSITIVE_PAGE_OFFSET frames, and that count equals SEGMENT_WORD_COUNT, the number of frames the free-frame scan skips |
| Decimal.ShowDenotes | src/io/data/segment_offset.rs:13 | the decimal rendering of any n is a numeral that parses back to n |
| Decimal.ShowSignedDenotes | src/io/data/frame_offset.rs:13 | the signed rendering of any integer is a signed numeral that parses back to it |
| Decimal.ParseUnsignedShow | src/io/data/segment_size.rs:13 | an unsigned parse of a rendering returns the number exactly when it fits the target |
| Decimal.ParseSignedShow | src/io/data/frame_offset.rs:13 | a signed parse of a rendering returns the number exactly when it lies in the target range |
| Decimal.UnsignedRejectsMinus | src/io/data/page_offset.rs:13 | an unsigned parse rejects any input that starts with '-' |
| Data.SegmentOffset.New | src/io/data/segment_offset.rs:12-20 | accepts exactly the numerals whose value is at most 511 and stores that value; all other input, including overflow of `u16`, gives InvalidSegment |
| Data.SegmentOffsetRoundTrip | src/io/data/segment_offset.rs:12-20 | the rendering of n is accepted with value n when n <= 511, and gives InvalidSegment otherwise |
| Data.SegmentOffsetExamples | src/io/data/segment_offset.rs:32-54 | "0" and "511" are accepted; "-1" and "512" give InvalidSegment |
| Data.PageOffset.New | src/io/data/page_offset.rs:12-20 | accepts exactly the numerals whose value is at most 1023 and stores that value; anything else gives InvalidPage |
| Data.PageOffsetRoundTrip | src/io/data/page_offset.rs:12-20 | the rendering of n is accepted with value n when n <= 1023, and gives InvalidPage otherwise |
| Data.PageOffsetExamples | src/io/data/page_offset.rs:32-54 | "0" and "1023" are accepted; "-1" and "1024" give InvalidPage |
| Data.FrameOffset.New | src/io/data/frame_offset.rs:12-20 | accepts exactly the signed numerals whose value is in `i16` and at most 1023, except 0 and 1; an accepted value is nonzero and, if positive, at least 2; anything else gives InvalidFrame |
| Data.FrameOffsetRoundTrip | src/io/data/frame_offset.rs:12-20 | the rendering of n is accepted with value n when n is a negative `i16` or in 2..1023, and gives InvalidFrame otherwise |
| Data.FrameOffsetExamples | src/io/data/frame_offset.rs:32-66 | "2", "-1" and "1023" are accepted; "0", "1" and "1024" give InvalidFrame |
| Data.SegmentSize.New | src/io/data/segment_size.rs:12-20 | accepts exactly the numerals whose value is at most 523264 and stores that value, which fits `i32`; anything else gives InvalidSegmentSize |
| Data.SegmentSizeRoundTrip | src/io/data/segment_size.rs:12-20 | the rendering of n is accepted with value n when n <= 523264, and gives InvalidSegmentSize otherwise |
| Data.SegmentSizeExamples | src/io/data/segment_size.rs:32-54 | "0" and "523264" are accepted; "-1" and "523265" give InvalidSegmentSize |
| VirtualAddresses.VirtualAddress.New | src/vm/virtual_address.rs:10-17 | decoding is total on `u32`; `w` and `p` are below 512; `s` fits `u16`; `pw = p * 512 + w`; `s * 2^18 + pw` is the address |
| VirtualAddresses.BitOperationsAreDivMod | src/vm/virtual_address.rs:12-15 | on a 32-bit value the shifts and masks of the decoder equal the divisions and remainders the model uses |
| VirtualAddresses.DecodeFields | src/vm/virtual_address.rs:12-15 | `w` is the address mod 512; `p` is (address / 512) mod 512; `pw` is the address mod 2^18; `s` is the address / 2^18 |
| VirtualAddresses.EncodeDecode | src/vm/virtual_address.rs:10-17 | reassembling the decoded fields gives the address back |
| VirtualAddresses.DecodeEncode | src/vm/virtual_address.rs:10-17 | encoding in-range fields gives a `u32` that decodes to exactly those fields |
| VirtualAddresses.SegmentFieldBound | src/vm/virtual_address.rs:12 | the segment field is at most 511 exactly when the address is below 2^27 |
| Frames.Frame.New | src/vm/frame.rs:10-15 | a new frame is free and holds 512 zero words |
| PhysicalMemories.FlattenAt | src/vm/physical_memory.rs:21-23 | word `a` of the flat view is word `a % 512` of frame `a / 512` |
| PhysicalMemories.FlattenUpdate | src/vm/physical_memory.rs:33-35 | writing word `o` of frame `f` is writing flat word `f * 512 + o` |
| PhysicalMemories.FlattenZero | src/vm/physical_memory.rs:17-19 | all-zero frames flatten to all-zero words |
| PhysicalMemories.PhysicalMemory.New | src/vm/physical_memory.rs:17-19 | PAGE_COUNT frames, each equal to `Frame::new`, free, and flattening to 524288 zero words |
| PhysicalMemories.PhysicalMemory.GetWordByOffset | src/vm/physical_memory.rs:25-27 | on memory of PAGE_COUNT frames, the word read is flat word `frame * 512 + offset` |
| PhysicalMemories.PhysicalMemory.GetWordByAddress | src/vm/physical_memory.rs:21-23 | the word read equals `get_word_by_offset(address / 512, address % 512)` and flat word `address` |
| PhysicalMemories.PhysicalMemory.SetWordByOffset | src/vm/physical_memory.rs:33-35 | memory keeps PAGE_COUNT frames; only word `offset` of frame `frame` changes; every other word and every `free` flag is unchanged; reading it back gives the value |
| PhysicalMemories.PhysicalMemory.SetWordByAddress | src/vm/physical_memory.rs:29-31 | memory keeps PAGE_COUNT frames; the same update as `set_word_by_offset(address / 512, address % 512)`; reading it back gives the value; the flat view changes at `address` only |
| PhysicalMemories.AddressSplitRoundTrip | src/vm/physical_memory.rs:21-27 | address `f * 512 + o` splits into frame `f` and offset `o`, and reading it equals reading (f, o) |
| VmSpec.FreeFrom | src/vm/virtual_memory.rs:70-83 | the scan from frame `i` returns an all-zero frame at or above `i`, or MemoryFull |
| Vm.VirtualMemory.constructor | src/vm/virtual_memory.rs:26-31 | memory and disk are all zero |
| Vm.VirtualMemory.Init | src/vm/virtual_memory.rs:38-68 | the new memory and disk equal `VmSpec.Init` of the old ones: `VmSpec.InitSegments` (each segment entry by `VmSpec.ApplySegment`, in order), then `VmSpec.InitPages` (each page entry by `VmSpec.ApplyPage`, in order) |
| Vm.VirtualMemory.FindFreePage | src/vm/virtual_memory.rs:70-83 | returns `VmSpec.FreePage` of the current memory: the lowest all-zero frame in 2..1023, or MemoryFull when there is none; changes nothing |
| Vm.VirtualMemory.ResolveSlot | src/vm/virtual_memory.rs:104-121 | result and new memory equal `VmSpec.Resolve` of the old memory: the three-way resolution of one location word (use a resident frame; report zero as MemoryNotInitialized; page in a disk block) |
| Vm.VirtualMemory.Translate | src/vm/virtual_memory.rs:92-155 | result and new memory equal `VmSpec.Translate` of the old memory, the two-level walk; the disk and the memory object are not replaced |
| VmProperties.FreeFromIsLowest | src/vm/virtual_memory.rs:70-83 | every frame the scan passes over holds a nonzero word; the scan fails exactly when no frame from `i` on is all zero |
| VmProperties.FreePageIsLowest | src/vm/virtual_memory.rs:70-83 | `find_free_page` returns `f` if and only if `f` is the lowest all-zero frame in 2..1023 |
| VmProperties.FreePageFull | src/vm/virtual_memory.rs:70-82 | `find_free_page` gives MemoryFull if and only if no frame in 2..1023 is all zero |
| VmProperties.AllocatedFrameAvoidsSlot | src/vm/virtual_memory.rs:105-115 | the frame allocated is never the frame holding the nonzero slot being updated, and is never a segment-table frame |
| VmProperties.PageIn | src/vm/virtual_memory.rs:105-118 | a page-in returns the first free frame F; the slot then holds F; frame F holds the disk block; no other word changes |
| VmProperties.PageInMemoryFull | src/vm/virtual_memory.rs:107 | a page-in with no free frame gives MemoryFull and changes nothing |
| VmProperties.ResolveEffect | src/vm/virtual_memory.rs:104-121 | an error changes nothing; a resident or zero slot changes nothing; success leaves the positive frame in the slot; no nonzero word other than the slot is overwritten |
| VmProperties.ResolvePoint | src/vm/virtual_memory.rs:104-121 | a resident slot is used as it is with nothing changed; on success the slot holds the positive frame returned |
| VmProperties.ResolveKeepsWord | src/vm/virtual_memory.rs:104-121 | a nonzero word other than the slot survives a resolution |
| VmProperties.ResolveKeepsTable | src/vm/virtual_memory.rs:104-121 | a resolution keeps the first two frames apart from the slot, leaves the slot as it was or a frame at or above 2, and returns frame 1 only when the slot held 1 |
| VmProperties.FreshMemoryRejectsEverything | src/vm/virtual_memory.rs:93-98 | on fresh memory every translation gives VirtualAddressOutOfBounds and changes nothing |
| VmProperties.BoundsCheckFirst | src/vm/virtual_memory.rs:93-98 | `pw` at or beyond a nonnegative size gives VirtualAddressOutOfBounds, before any location word is used |
| VmProperties.UninitialisedSegment | src/vm/virtual_memory.rs:119 | a zero page-table location gives MemoryNotInitialized and changes nothing |
| VmProperties.UninitialisedPage | src/vm/virtual_memory.rs:143-145 | a zero page location in a resident page table gives MemoryNotInitialized and changes nothing |
| VmProperties.PageTableFaultOnFullMemory | src/vm/virtual_memory.rs:105-107 | a page table on disk with no free frame gives MemoryFull and changes nothing |
| VmProperties.ResidentPathIsReadOnly | src/vm/virtual_memory.rs:120-154 | when both location words on the path are positive, translation changes nothing and returns `frame * 512 + w`, or GeneralError past `u32` |
| VmProperties.SuccessfulWalk | src/vm/virtual_memory.rs:100-154 | after a success the size word is unchanged, and both slots on the path are positive and lead to the returned address |
| VmProperties.WalkShape | src/vm/virtual_memory.rs:92-155 | a successful translation passes the bounds check and is two successful resolutions, the second on the memory the first left |
| VmProperties.WalkSteps | src/vm/virtual_memory.rs:104-147 | after two successful resolutions, a positive size word is unchanged and both slots hold the frames they resolved to |
| VmProperties.TranslateMemory | src/vm/virtual_memory.rs:92-155 | the memory a translation leaves: unchanged when the bounds check fails, the page-table step's memory when the walk stops there, otherwise the page step's memory |
| VmProperties.TranslateIdempotent | src/vm/virtual_memory.rs:104-147 | translating again right after a success returns the same address and changes nothing |
| VmProperties.TranslationOffset | src/vm/virtual_memory.rs:152-154 | a successful address is `w` mod 512 and lies at or above frame 1 |
| VmProperties.TranslateKeepsSize | src/vm/virtual_memory.rs:94-150 | translation never changes the size word of the segment it translates |
| VmProperties.TranslateKeepsSegmentTable | src/vm/virtual_memory.rs:104-147 | when the segment's page-table location is not 1: apart from that slot, the segment table is unchanged; that slot keeps its value or, when it was on disk, becomes a frame at or above 2; location 1 is excluded because the source then reads the page table from the segment table's own frame |
| VmProperties.FreshAvoidsReserved | src/vm/virtual_memory.rs:26-31 | fresh memory and disk hold no word 1, so they meet `AvoidsReserved`: no segment's location word, no word outside frames 0 and 1 and no disk word is 1 |
| VmProperties.AvoidsReservedAt | src/vm/virtual_memory.rs:104-119 | under `AvoidsReserved`, the page-table location of every decoded address, including segment numbers above 511, is not 1 |
| VmProperties.ResolveKeepsAvoidsReserved | src/vm/virtual_memory.rs:104-121 | a resolution keeps `AvoidsReserved`: a page-in writes a frame at or above 2 and copies disk words into it |
| VmProperties.TranslateKeepsAvoidsReserved | src/vm/virtual_memory.rs:92-155 | translation of any address keeps `AvoidsReserved` |
| VmProperties.InitSegmentsLastWins | src/vm/virtual_memory.rs:43-50 | the two words of a segment hold the size and location of the last entry for it |
| VmProperties.InitSegmentsKeeps | src/vm/virtual_memory.rs:43-50 | a word that is no entry's slot keeps its value |
| VmProperties.InitSegmentsStayInTable | src/vm/virtual_memory.rs:43-50 | segment entries never write outside the first two frames |
| VmProperties.ApplyPageEffect | src/vm/virtual_memory.rs:52-64 | a page entry writes `f` to word `p` of disk block `-loc` when the segment's location is negative, otherwise to word `loc * 512 + p` of memory; nothing else changes |
| VmProperties.ParsedSegmentEntryIsValid | src/vm/virtual_memory.rs:44-49 | segment entries built from parsed text have the shape `init` takes, and their size fits `i32`, so `i32::try_from` cannot fail |
| VmProperties.ParsedPageEntryIsValid | src/vm/virtual_memory.rs:52-63 | page entries built from parsed text have the shape `init` takes |
| VmProperties.InitSegmentsAvoidReserved | src/vm/virtual_memory.rs:43-50 | segment entries whose locations are not 1 keep `AvoidsReserved` |
| VmProperties.InitPagesAvoidReserved | src/vm/virtual_memory.rs:52-64 | page entries whose locations are not 1 keep `AvoidsReserved`, wherever they write |
| VmProperties.InitAvoidsReserved | src/vm/virtual_memory.rs:38-68 | `init` with entries whose locations are not 1 keeps `AvoidsReserved`; with FreshAvoidsReserved, TranslateKeepsAvoidsReserved and AvoidsReservedAt, every state reached from fresh memory through `init` and translations meets the condition of TranslateKeepsSegmentTable for every address |
| VmProperties.ParsedLocationIsNotReserved | src/io/data/frame_offset.rs:12-20 | a location parsed by `FrameOffset` is never 1 |
| VmProperties.FlattenedFrameIsZero | src/vm/virtual_memory.rs:77 | over frame-based memory, the all-zero test for frame `f` looks only at that frame's data |
| VmExamples.InitExample | src/vm/virtual_memory.rs:162-208 | the `before` entries give the segment words 4000, 3, 5000, -7; put 10 and -20 into frame 3; and put 13 and -25 into disk block 7 |
| VmExamples.SimpleTranslate | src/vm/virtual_memory.rs:210-220 | address 2097162 translates to 5130 and changes nothing |
| VmExamples.PageNotResident | src/vm/virtual_memory.rs:222-232 | address 2097674 translates to 1034; afterwards the page slot, word 1537, holds frame 2 |
| VmExamples.PageTableNotResident | src/vm/virtual_memory.rs:234-244 | address 2359306 translates to 6666; afterwards the segment's page-table slot, word 19, holds frame 2, and frame 2 holds block 7 (13 and -25 in its first two words) |
| VmExamples.BothNotResident | src/vm/virtual_memory.rs:246-256 | address 2359818 translates to 2058; afterwards word 19 holds frame 2 and the page slot, word 1025, holds frame 4 |
| VmExamples.ZeroPageInFrameIsReused | src/vm/virtual_memory.rs:70-82 | from `before`, translating 2097674 gives 1034 and fills frame 2 from the all-zero block 20; translating 2359306 next gives 6666 and puts frame 2 into word 19 as well, so word 1537 and word 19 both hold frame 2 |
| VmExamples.FirstFreeFrameIsTwo | src/vm/virtual_memory.rs:259-263 | frame 2 is the first free frame of fresh memory and of the `before` memory |
| VmExamples.FindFreePageExample | src/vm/virtual_memory.rs:258-269 | fresh memory gives frame 2; once word 1024 is set it gives frame 3 |
| VmExamples.FindFreePageFull | src/vm/virtual_memory.rs:271-281 | with the first word of every frame set, the scan gives MemoryFull |
| VmExamples.SimpleTranslateOnEngine | src/vm/virtual_memory.rs:210-220 | the `simple_translate` test, expressed with the engine's constructor, `init` and `translate`: the result is 5130 |

## Left out

- src/process.rs and src/main.rs are not part of this model. They do file reading, line splitting, `expect` and printing.
- Panics become preconditions. `Vm.VirtualMemory.Init` requires that no page entry indexes outside memory or disk. `Vm.VirtualMemory.Translate` requires that every disk block it pages in exists (`CanTranslate`). Values that lead there are reachable: `FrameOffset` has no lower bound, and `PageOffset` allows up to 1023 while a block has 512 words.
- The magnitude of a negative location (`abs`, lines 59, 106 and 131) is required not to overflow. It would overflow only for `i32::MIN`, which no valid entry writes. As in the source, a missing disk block matters only once a free frame has been found (`VmSpec.CanResolve`).
- The `None` branch of the segment-slot lookup (src/vm/virtual_memory.rs:122) is not modelled. A `u16` segment number gives a slot of at most 131071, which is always inside memory. The page-slot branch (line 149) is modelled as VirtualAddressOutOfBounds.
- The `i32::try_from` of a frame number below 1024 (lines 110 and 134) cannot fail, and is not modelled as an error.
- Vm.VirtualMemory.Init: returns nothing. With the entry shapes it takes (`VmSpec.STInput`, `VmSpec.PTInput`), its conversions cannot fail. `VmProperties.ParsedSegmentEntryIsValid` shows the parsed value types produce those shapes.
- src/io/st_input.rs and src/io/pt_input.rs declare `i32` fields, which the engine's `usize::from` cannot take. The entries are modelled with the shapes the engine implies: `u16` segment, `u32` size, `u16` page and nonzero `i16` location.
- src/error.rs declares only two variants. `Errors.VMError` is the union of every variant the core files use.
- The `Default` impl (src/vm/virtual_memory.rs:18-22) only calls `new`.
- Rust's `parse` also accepts a leading '+'. The model's numerals are digits only, with an optional '-' for signed targets.
- The `free` flag of `Frame` is modelled, but nothing in the engine reads or sets it.
- The engine runs on flat memory only. The frame-based `PhysicalMemory` is tied to it through `Flatten` and `VmProperties.FlattenedFrameIsZero`; there is no second engine over frames.
