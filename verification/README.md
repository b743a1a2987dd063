# Verified models of F-Detector's ELF writer, call-stack tracker and trace pipeline

F-Detector records the execution of a program, finds the code that belongs to one feature, and looks for
a call from which the program can be rescued after a fault. This project models its three stateful cores
in Dafny and proves what they promise.

* **The ELF writer** (`F-Detector/elfio`). `save` orders the segments, gives every section a file offset
  under alignment and address constraints, appends the section header table and writes everything.
  `Layout*.dfy` follow that computation on values: `Layout.dfy` step by step, `LayoutSafety.dfy` for what
  every step keeps, `LayoutSteps.dfy` and `LayoutExact.dfy` for each round in terms of what layout was given,
  and from these enclosure, alignment, memory sizes and addresses (`LayoutContainment.dfy`,
  `LayoutAlignment.dfy`, `LayoutMemory.dfy`, `LayoutAddresses.dfy`), down to conditions on the input
  (`LayoutTurns.dfy`, `LayoutRelative.dfy`), among them exactly when a layout is refused
  (`LayoutRefusal.dfy`). `LayoutRows.dfy`, `LayoutTables.dfy` and `LayoutLoose.dfy` say of the result, without
  the functions that compute it, where every section, segment and table goes;
  `SaveLoad.dfy` and `SegmentReload.dfy` prove that `load` reads back what `save` wrote, and
  `FileFormat.dfy`, `LoadFormat.dfy` and `EntryFormat.dfy` say which bytes stand where in the file, for
  written files and for any others that are read (`Records.dfy` for records in general); `ElfObject.dfy`,
  `ElfSegment.dfy` and `ElfSection.dfy` are the objects, updated in place, with each loop proved equal to
  the computation on values. Around them stand string, symbol, relocation and note tables and the lookup of
  symbols through a hash table (`HashLookup.dfy`, `NameHash.dfy`).
* **The shadow call stack** (`F-Detector/common`). Activations live in an append-only arena; the live
  stack, the saved stack and the callee lists hold indices into it. `CallStack.dfy` is the state machine and
  its invariant, `CallEffects.dfy` what each event changes, `CallQueries.dfy` the recursive queries and the
  choice of a rescue point, `CallCollect.dfy` what they collect, `CallTracker.dfy` the tracker object,
  `CallStackFormat.dfy`, `CallStackWords.dfy` and `CallStackDisk.dfy` its file format.
* **The pipeline from traces to feature edges** (`F-Detector/identification/tools`). Workers share the
  traces and an image registry (`Workers.dfy`, `ImageRegistry.dfy`); a trace becomes a map from edge to first
  position and count (`Profiler.dfy`); threads are merged (`Merge.dfy`), runs compared and edges sorted and
  filtered (`Differ.dfy`), and cut into runs of consecutive edges (`Scanner.dfy`). `Pipeline.dfy` states the
  result end to end, about the traces alone, and `EndToEnd.dfy` after any schedule of the workers, about
  addresses and files.

How things are represented:

* Words are natural numbers; where the source wraps (64-bit positions, addresses and sizes, 32-bit note
  sizes, fields of an ELF class) the wrap is written out. Bytes are numbers below 256, and the hosts are
  little-endian, as the tools assume.
* `Layout.dfy` counts file positions exactly. `ElfObject.dfy` computes them with 64-bit wrap-around and shows
  both agree while the section header table starts below the class's limit.
* A `std::map` is a Dafny map, walked in ascending key order (`OrderedKeys.dfy`).
* A file being read is its bytes and a position; an input stream fails for good once a read falls short or a
  seek is given an offset of 2^63 or more (`Streams.dfy`). A file being written takes positioned writes, and
  gaps read as zero.
* Section 0 is the null section, as in every object the library creates. In the worker model the tables of
  images are free of duplicates and nonempty, each image stands under its own number, and traces are told
  apart by their place in the trace list.
* The tracker's stack pointer and return values, the process's memory map, the profile directory's contents
  and the image numbers of libc, the vdso and the loader are parameters.

Where the code and its comments disagree the models follow the code: `identifier.hpp` calls MAX_EDG_PACK the
maximum number of consecutive edges, but the scanner uses it as the maximum number of packs of a thread.

## Model

| member | source | states |
|---|---|---|
| Endian.ConvertInvolution | F-Detector/elfio/elfio_utils.hpp:76-168 | Converting a 1-, 2-, 4- or 8-byte word twice gives it back, for either byte order |
| Endian.ConvertReverses | F-Detector/elfio/elfio_utils.hpp:83-91 | The mask-and-shift sums reverse the bytes of the word's memory image |
| Endian.FieldRoundTrip | F-Detector/elfio/elfio_utils.hpp:25-46 | A field stored through the convertor reads back through it |
| Endian.FieldOrder | F-Detector/elfio/elfio_utils.hpp:76-168 | With conversion on, the stored bytes are the reverse of the host image, so the file has the encoding asked for |
| ElfTypes.ShdrRoundTrip | F-Detector/elfio/elfio_section.hpp:100-108 | A section header record reads back field for field, both classes and byte orders |
| ElfTypes.PhdrRoundTrip | F-Detector/elfio/elfio_segment.hpp:86-93 | The same for program headers, whose flags word stands elsewhere in the 32-bit record |
| ElfTypes.EhdrRoundTrip | F-Detector/elfio/elfio_header.hpp:99-120 | The same for the file header |
| ElfSection.AppendsRefineConcatenation | F-Detector/elfio/elfio_section.hpp:186-210 | Any sequence of appends to an empty section is concatenation, a nonempty buffer is never full, its capacity is at most four times its size, and all bytes copied, reallocations included, are at most three per byte appended |
| ElfSection.CapacityFits | F-Detector/elfio/elfio_section.hpp:193 | The 32-bit doubling does not wrap while the total stays below 2^30 bytes |
| ElfSection.Section.AppendData | F-Detector/elfio/elfio_section.hpp:185-210 | In-place append or reallocation leaves exactly the buffer the specification computes; a NOBITS section keeps its data and size |
| ElfSection.Section.SetData | F-Detector/elfio/elfio_section.hpp:156-175 | The data becomes the given bytes, except that a NOBITS section only takes the size |
| ElfSection.Section.Load | F-Detector/elfio/elfio_section.hpp:231-261 | Header and data as read from the stream, the buffer ended with a NUL, no buffer for sections without file bytes or with a size not below the stream's |
| ElfSection.Section.Save | F-Detector/elfio/elfio_section.hpp:263-299 | The header record at its place, then the data at the section's offset, and no other byte of the file |
| StringTable.AddThenGet | F-Detector/elfio/elfio_strings.hpp:45-80 | The offset add_string returns reads back the string added, up to its first NUL; the table grows by that string and one NUL |
| StringTable.GetStable | F-Detector/elfio/elfio_strings.hpp:45-80 | Further additions never change a string already in the table |
| StringTable.Add | F-Detector/elfio/elfio_strings.hpp:61-80 | The accessor's additions to its section: an empty table first gets a NUL, and the offset returned is the old size |
| StringTable.Get | F-Detector/elfio/elfio_strings.hpp:45-58 | The C string at an offset inside the section, nothing for other offsets or without a section |
| SymbolTable.AddedSymbolReads | F-Detector/elfio/elfio_symbols.hpp:113-140 | An added symbol gets the next index, never 0, and reads back there with all its fields |
| SymbolTable.GetSymbolStable | F-Detector/elfio/elfio_symbols.hpp:204-240 | Growing the table changes no earlier symbol |
| SymbolTable.Add | F-Detector/elfio/elfio_symbols.hpp:113-140 | The accessor's additions, the null symbol first in an empty table, and the index returned |
| SymbolTable.InfoRoundTrip | F-Detector/elfio/elfio_symbols.hpp:142-149 | Binding in the upper and type in the lower four bits of the info byte, and they unpack again |
| NameHash.HashBound | F-Detector/elfio/elfio_utils.hpp:192-205 | elf_hash stays below 2^28 for every string |
| NameHash.ComputeHash | F-Detector/elfio/elfio_utils.hpp:194-205 | The loop computes the hash of the C string, below 2^28 |
| NameHash.HashFolds | F-Detector/elfio/elfio_utils.hpp:192-205 | From any prefix to the next character: the low 28 bits of 16 times the hash plus the character, in 32 bits, with the top four bits exclusive-or'ed into bits 4 to 7 |
| NameHash.ShortHash | F-Detector/elfio/elfio_utils.hpp:192-205 | The hash of a name of at most six ASCII characters is the number with these digits in base 16 |
| NameHash.LongHash | F-Detector/elfio/elfio_utils.hpp:192-205 | The hash of "strrchr", whose top bits are folded, is 0xab98982 |
| HashLookup.Lookup | F-Detector/elfio/elfio_symbols.hpp:79-111 | Lookup of a nonempty name through a well-formed hash section terminates, succeeds exactly when scanning the table finds the name, and returns the fields of a symbol of that name |
| HashLookup.GetByIndex | F-Detector/elfio/elfio_symbols.hpp:204-240 | Succeeds exactly for indices in the table; sets the name only when it resolves |
| HashLookup.ScanFinds | F-Detector/elfio/elfio_symbols.hpp:41-76 | The linear scan finds a name exactly when some symbol from the start index on has it |
| HashLookup.FindHashSection | F-Detector/elfio/elfio_symbols.hpp:174-188 | The first section other than section 0 that links to the symbol table, or 0 |
| HashLookup.SectionReads | F-Detector/elfio/elfio_symbols.hpp:92-104 | From a section drawn as nbucket, nchain, buckets and chains in 32-bit words, the bucket of a name is the one numbered by its hash modulo nbucket, and the chain word of a symbol is its own |
| EntryFormat.AddedSymbolStands | F-Detector/elfio/elf_types.hpp:774-790 | An added symbol stands behind the table, each field at its offset of the 32- or 64-bit record in the byte order of the file; an empty table starts with the null symbol |
| EntryFormat.SymbolRead | F-Detector/elfio/elfio_symbols.hpp:204-240 | Of any table and entry size, the symbol at an index is what stands at that entry field by field; there is one exactly for whole entries |
| Relocations.InfoUnpacks | F-Detector/elfio/elfio_relocation.hpp:216-228 | Symbol and type packed into the info word unpack again, for symbols in the class's range |
| Relocations.AddedEntryReads | F-Detector/elfio/elfio_relocation.hpp:100-134 | An added entry reads back its offset, symbol, type and addend at the next index |
| Relocations.GetEntryStable | F-Detector/elfio/elfio_relocation.hpp:100-134 | Growing the table changes no earlier entry |
| Relocations.TripleReadsBack | F-Detector/elfio/elfio_relocation.hpp:136-275 | After adding a (string, symbol, relocation) triple and any further additions to the three tables, the entry resolves to the offset, type, symbol value and symbol name it was added with |
| Relocations.Add | F-Detector/elfio/elfio_relocation.hpp:215-256 | The accessor appends exactly the record, without or with addend, to a section of any type but NOBITS |
| Relocations.Get | F-Detector/elfio/elfio_relocation.hpp:100-134 | Succeeds exactly below the entry count, with the entry of the section's bytes; for a section of another type the outputs stay as they were |
| Relocations.AddLinked | F-Detector/elfio/elfio_relocation.hpp:258-275 | The three accessors together leave the three tables as the specification of the triple says |
| EntryFormat.AddedEntryStands | F-Detector/elfio/elf_types.hpp:801-823 | An added entry stands behind the table: offset, the symbol above the type in the info word, the addend in two's complement, in the byte order of the file |
| EntryFormat.RelocationRead | F-Detector/elfio/elfio_relocation.hpp:100-134 | Of any table and entry size, the entry at an index is what stands there field by field |
| Notes.ReparseAgrees | F-Detector/elfio/elfio_note.hpp:95-156 | After any sequence of add_note on an empty section, process_section finds exactly the start positions recorded while adding |
| Notes.EveryNoteReads | F-Detector/elfio/elfio_note.hpp:60-93 | Every recorded start leads to the type, name and descriptor bytes added there |
| Notes.NoteAccessor.ProcessSection | F-Detector/elfio/elfio_note.hpp:129-156 | The parsing loop records the positions the specification walks through |
| Notes.NoteAccessor.Record | F-Detector/elfio/elfio_note.hpp:101-122 | The record built piece by piece: three converted words, name with NUL and padding, descriptor with padding |
| Notes.NoteAccessor.AddNote | F-Detector/elfio/elfio_note.hpp:95-126 | Accessor and section stand for one more note |
| Notes.NoteAccessor.GetNote | F-Detector/elfio/elfio_note.hpp:60-93 | The i-th note added comes back; other indices the code accepts are refused |
| EntryFormat.NoteStands | F-Detector/elfio/elfio_note.hpp:95-126 | A note is three words (name size with NUL, descriptor size, type), then name and descriptor at multiples of four, padded with zeros |
| Notes.PositionsExact | F-Detector/elfio/elfio_note.hpp:129-156 | In any bytes: the first position is the beginning, every further one follows the note before, and none is left out while three words fit |
| Notes.SizesOkIff | F-Detector/elfio/elfio_note.hpp:77-82 | A note passes the size test exactly when name and descriptor fit, or when their sum wraps around 2^32 and fits then |
| SegmentOrder.IncludesIsSubset | F-Detector/elfio/elfio.hpp:544-557 | On sorted lists the one-pass inclusion test decides set inclusion |
| SegmentOrder.SubsequenceIsProperSubset | F-Detector/elfio/elfio.hpp:544-557 | is_subsequence_of is proper inclusion of the section sets |
| SegmentOrder.ZeroPassSorts | F-Detector/elfio/elfio.hpp:569-580 | When all offsets are initialised the pre-pass puts all offset-0 segments first |
| SegmentOrder.ZeroPassExactly | F-Detector/elfio/elfio.hpp:569-580 | For every worklist, exactly when the pre-pass puts the segments at offset 0 in front of all others, new segments included: unless a segment at offset 0 meets a new one at the front of the queue of the others |
| SegmentOrder.NeverStalls | F-Detector/elfio/elfio.hpp:569-580 | It does when every new segment stands behind the last one at offset 0 |
| SegmentOrder.UnsetBlocksFront | F-Detector/elfio/elfio.hpp:569-580 | It does not for a new segment in front of one at offset 0, and does again when another one leads |
| SegmentOrder.RotationAdvances | F-Detector/elfio/elfio.hpp:582-597 | Putting a segment back brings the first longest one closer to the front: with the worklist's length the termination measure |
| SegmentOrder.OrderedIsSound | F-Detector/elfio/elfio.hpp:559-600 | Every segment is returned once, and none before one whose section list properly includes its own |
| SegmentOrder.OrderIsPermutation | F-Detector/elfio/elfio.hpp:559-600 | The same in terms of segment numbers |
| SegmentOrder.OrderedZerosFirst | F-Detector/elfio/elfio.hpp:559-600 | Of the order itself: the segments at offset 0 come first when the pre-pass does not stall and none of them is properly included in another segment |
| SegmentOrder.LoadedZerosFirst | F-Detector/elfio/elfio.hpp:559-600 | So they do when every segment has an offset, as after loading or a save |
| SegmentOrder.RotationExactly | F-Detector/elfio/elfio.hpp:582-597 | Unless all outermost segments are at offset 0, the rotation keeps those at offset 0 in front exactly when none stands before one that properly includes it |
| SegmentOrder.OrderedFlat | F-Detector/elfio/elfio.hpp:559-600 | When no segment properly includes another, the order is what the pre-pass leaves, and those at offset 0 come first exactly when it does not stall |
| SegmentOrder.OrderStays | F-Detector/elfio/elfio.hpp:559-600 | Segments in such an order already keep it |
| SegmentOrder.OrderZerosFirst | F-Detector/elfio/elfio.hpp:559-600 | The same of the order as segment numbers |
| SegmentOrder.GetOrderedSegments | F-Detector/elfio/elfio.hpp:559-600 | The two loops, swapping and rotating, compute the specified order, and terminate on every input |
| LayoutSafety.PlaceKeeps | F-Detector/elfio/elfio.hpp:693-763 | Placing one section keeps all placed sections one behind the other and below the cursor |
| LayoutSafety.SegmentsKeep | F-Detector/elfio/elfio.hpp:645-779 | The segment pass keeps that, and generates exactly the sections that lie in a segment |
| LayoutSafety.LooseAfterSegments | F-Detector/elfio/elfio.hpp:604-627 | The second pass takes exactly the sections the first did not |
| LayoutSafety.LayoutIsDisjoint | F-Detector/elfio/elfio.hpp:161-192 | After a successful layout the headers, the extents of all file-backed sections and the section header table are pairwise disjoint, and each non-null section was placed exactly once |
| LayoutSafety.TableBehind | F-Detector/elfio/elfio.hpp:781-789 | The section header table starts behind the headers |
| LayoutSteps.StepOfLayout | F-Detector/elfio/elfio.hpp:645-779 | What one round of the segment loop did, seen from the finished layout: it found exactly the sections of earlier segments placed, and later rounds leave its segment and sections alone |
| LayoutExact.FreshInLayout | F-Detector/elfio/elfio.hpp:676-776 | A segment whose sections no earlier one placed: positions, gaps, exact sizes, offset and section addresses in closed form |
| LayoutExact.SharedInLayout | F-Detector/elfio/elfio.hpp:732-776 | A segment whose sections are all placed already: its sizes from the final offsets, no section moved |
| LayoutTables.EmptySegment | F-Detector/elfio/elfio.hpp:657-690 | A PT_PHDR segment without sections starts at the program header table and has its size, in the file and at least in memory; any other segment without sections has no byte, at the position of its turn |
| LayoutTables.NullSegment | F-Detector/elfio/elfio.hpp:660-690 | A segment of the null section alone has no byte, where it is aligned or where that section stands |
| LayoutRows.FreshSegment | F-Detector/elfio/elfio.hpp:645-779 | A segment that places its sections, from input and result alone: each section without address at the first multiple of its alignment, with a preset one at its distance from the segment, others where the one before ends; addresses assigned; file size and memory size summed up row by row, TLS NOBITS sections outside a TLS segment left out |
| LayoutRows.SharedSegment | F-Detector/elfio/elfio.hpp:645-779 | The same of a segment whose sections others placed: nothing moves, the sizes run from its start to the ends of its sections |
| LayoutRefusal.RefusedExactly | F-Detector/elfio/elfio.hpp:693-713 | When save refuses a layout, decided from its input: exactly when a section with a preset address would have to go behind the position its segment has reached |
| LayoutLoose.LooseExactly | F-Detector/elfio/elfio.hpp:604-627 | Sections outside all segments follow behind the last segment in the order of their numbers, each at the first multiple of its alignment, and the section header table at the first multiple of four behind them; section 0 keeps its offset |
| LayoutLoose.SectionZeroStays | F-Detector/elfio/elfio.hpp:604-763 | Whatever section 0 is and whether or not layout is refused, it keeps its offset |
| LayoutContainment.FreshEncloses | F-Detector/elfio/elfio.hpp:721-762 | A segment laid out afresh encloses its file-backed sections if and only if no address-less NOBITS section in front of one of them gets a gap |
| LayoutContainment.FlushIff | F-Detector/elfio/elfio.hpp:721-731 | There is no such gap if and only if each such section is unaligned or meets a multiple of its alignment; alignment 0 or 1 suffices |
| LayoutContainment.LargerAlignmentBreaks | F-Detector/elfio/elfio.hpp:676-743 | For a larger alignment of a section that comes first, one of two neighbouring segment addresses breaks enclosure, at every position |
| LayoutContainment.AlignedNeighbour | F-Detector/elfio/elfio.hpp:721-731 | Behind a file-backed section of the same alignment and a multiple of it in size, a larger alignment never makes a gap |
| LayoutContainment.EnclosedExactly | F-Detector/elfio/elfio.hpp:645-779 | Over the whole layout of pairwise disjoint, equal or nested segments: a segment encloses its file-backed sections if and only if others placed them or it has no such gap, and ends before the table |
| LayoutTurns.TurnIs | F-Detector/elfio/elfio.hpp:645-763 | The position at which a segment gets its turn, computed from the segments, sections and first position as given |
| LayoutTurns.LastTurn | F-Detector/elfio/elfio.hpp:645-763 | The position behind the last segment, computed from the input |
| LayoutTurns.EnclosedByInput | F-Detector/elfio/elfio.hpp:645-779 | So whether a segment encloses its file-backed sections is decided before the layout is run |
| LayoutRelative.AlikeInside | F-Detector/elfio/elfio.hpp:676-756 | Two starts of an aligned segment that agree modulo its alignment give equal gaps and sizes and sections equally far from the start |
| LayoutRelative.RaisedDivides | F-Detector/elfio/elfio.hpp:631-642 | With power-of-two alignments the raised alignment of a segment is a multiple of every alignment in it |
| LayoutRelative.AlignedSegment | F-Detector/elfio/elfio.hpp:631-776 | For every segment that save aligns, distances, file size and enclosure do not depend on the position: they are those of a layout that starts at the virtual address, and it encloses if and only if no address-less NOBITS section in front of a file-backed one gets a gap there |
| LayoutContainment.SegmentsEncloseSections | F-Detector/elfio/elfio.hpp:645-779 | So with alignments of at most 1 for such NOBITS sections, every file-backed section of every segment, nested and shared ones included, lies inside its segment |
| LayoutSteps.SharedIsNested | F-Detector/elfio/elfio.hpp:745-748 | A segment with one section placed before is contained in a segment laid out before |
| LayoutSteps.FreshOrShared | F-Detector/elfio/elfio.hpp:745-748 | So a segment places all its sections or none |
| LayoutContainment.UnaddressedNobitsFirst | F-Detector/elfio/elfio.hpp:721-743 | A 64-bit object whose layout breaks enclosure: an address-less NOBITS section aligned to 16 in front of data, in a segment at address 8 |
| LayoutAlignment.FreshStartCongruent | F-Detector/elfio/elfio.hpp:676-687 | The 64-bit computation of a fresh segment's start makes it congruent to the virtual address modulo the alignment, moving less than one alignment |
| LayoutAlignment.StepStarts | F-Detector/elfio/elfio.hpp:676-687 | Every freshly aligned segment ends up congruent to its address |
| LayoutAlignment.StepDistance | F-Detector/elfio/elfio.hpp:700-720 | Every section with a preset address that it places keeps offset - start = address - virtual address |
| LayoutAlignment.AlignedAddressAlignedOffset | F-Detector/elfio/elfio.hpp:704-720 | With power-of-two alignments a section whose address is a multiple of its alignment gets such an offset |
| LayoutAlignment.LayoutAligns | F-Detector/elfio/elfio.hpp:631-763 | Alignment raising and layout together, from the segments and sections as given: with power-of-two alignments up to 2^63, an aligned segment ends congruent to its address modulo its raised alignment, its preset sections keep their distance, and those with aligned addresses get aligned offsets |
| LayoutAlignment.RaisedAlign | F-Detector/elfio/elfio.hpp:631-642 | The raised alignment is the least one not below the segment's and its sections' |
| LayoutMemory.FileSizeWithinMemory | F-Detector/elfio/elfio.hpp:736-773 | Over the whole layout: the memory size is the exact one or the larger one brought along, and with all file-backed sections in memory the file size is within it if and only if the segment does not fall short; only a segment that starts with the null section, over sections placed before, with counted NOBITS in front of the first file-backed one, can |
| LayoutMemory.FreshMemoryBound | F-Detector/elfio/elfio.hpp:736-743 | The exact memory size of a fresh segment is at most the end of its part of the file and its NOBITS sections |
| LayoutMemory.SharedMemory | F-Detector/elfio/elfio.hpp:732-743 | For sections placed before, the memory size falls below the file size exactly when the counted NOBITS sections have a negative balance |
| LayoutTurns.FallsShortIff | F-Detector/elfio/elfio.hpp:667-743 | A segment that starts with the null section over sections placed before falls short exactly when its counted NOBITS sections bring less than the bytes placed between them and what the segment has reached, computed from the input |
| LayoutRelative.AlignedMemory | F-Detector/elfio/elfio.hpp:736-773 | The memory size of a segment that save aligns, from its sections and alignment alone |
| LayoutMemory.SharedMemoryFallsShort | F-Detector/elfio/elfio.hpp:667-743 | A layout of two nested segments that gives the second 226 bytes in the file and 180 in memory |
| LayoutAddresses.FollowsAligned | F-Detector/elfio/elfio.hpp:704-756 | In a segment laid out afresh, a section whose address is left to layout, or is preset and file-backed, is as far from the segment in memory as in the file |
| LayoutAddresses.ConsistentInMemory | F-Detector/elfio/elfio.hpp:704-773 | A counted section no further from its segment in memory than in the file lies in the segment's memory |
| LayoutAddresses.NestedInMemory | F-Detector/elfio/elfio.hpp:732-773 | The same for a nested segment that has the address of its first section |
| LayoutAddresses.PresetOutside | F-Detector/elfio/elfio.hpp:700-743 | A layout in which a NOBITS section with a preset address, and the data of a nested segment with another address, lie outside their segments' memory |
| SaveLoad.LayoutPlaces | F-Detector/elfio/elfio.hpp:161-192 | A successful layout gives the writer the places it needs |
| SaveLoad.AllWritesApart | F-Detector/elfio/elfio.hpp:492-525 | No two writes of save touch the same byte |
| SaveLoad.ReservedZeros | F-Detector/elfio/elfio_section.hpp:274-278 | The room layout reserves for a section without a buffer reads as zeros |
| SaveLoad.HeaderReadsBack | F-Detector/elfio/elfio.hpp:112-141 | Reading the file header of a written file gives class, byte order and every field |
| SaveLoad.SectionReadsBack | F-Detector/elfio/elfio_section.hpp:231-261 | Loading a section of a written file gives its header and exact data bytes |
| SaveLoad.SaveLoadRoundTrip | F-Detector/elfio/elfio.hpp:399-428 | Loading what save wrote gives the file header, every section's header and exact data, and the names of sections whose names were recorded |
| SaveLoad.SegmentReadsBack | F-Detector/elfio/elfio_segment.hpp:188-221 | Loading a segment of a written file gives its program header and the bytes it covers |
| SaveLoad.SaveLoadSegments | F-Detector/elfio/elfio.hpp:443-490 | The whole of load also gives back every program header with its bytes |
| FileFormat.AllFieldsStand | F-Detector/elfio/elf_types.hpp:686-772 | Every field of file header, section headers and program headers stands in the written file at its offset of the record, least significant byte first exactly when the encoding byte of the identification is 1 |
| FileFormat.TableSegment | F-Detector/elfio/elfio.hpp:657-666 | The bytes that a PT_PHDR segment without sections covers are the program header table: all its entries, and nothing else |
| LoadFormat.HeaderLoads | F-Detector/elfio/elfio.hpp:112-141 | load refuses exactly the files that are too short for identification or header, lack the magic number or have an unknown class; otherwise class and every header field are what stands in the file |
| LoadFormat.SectionLoads | F-Detector/elfio/elfio_section.hpp:231-261 | A section record in any file is read field by field, with the bytes it points to, cut off at the end of the file; which sections get no data |
| LoadFormat.NothingLoads | F-Detector/elfio/elfio_section.hpp:231-261 | After a read that fell short every section is null and has no data |
| LoadFormat.SegmentLoads | F-Detector/elfio/elfio_segment.hpp:188-221 | The same of a program header |
| LoadFormat.NameLoads | F-Detector/elfio/elfio.hpp:416-427 | A section's name is the C string at its name offset in the bytes of the section e_shstrndx names; exactly when there is one |
| LoadFormat.FileLoads | F-Detector/elfio/elfio.hpp:112-146 | Any file, whoever wrote it: all headers are read from their places in the byte order the file names, and in a complete file every section and segment gets the bytes its header points to |
| SegmentReload.FoundExactly | F-Detector/elfio/elfio.hpp:434-483 | load finds in a segment exactly the SHF_ALLOC sections that lie in its memory and the others that lie in its part of the file |
| SegmentReload.PresetFoundIff | F-Detector/elfio/elfio.hpp:471-483 | An SHF_ALLOC section with a preset address is found again in a segment that has it if and only if the address lies between the segment's address and the end of its exact memory size |
| SegmentReload.AlignedPresetFoundIff | F-Detector/elfio/elfio.hpp:471-483 | For segments that save aligns the condition is read off the input |
| SegmentReload.SectionsFoundAgain | F-Detector/elfio/elfio.hpp:434-490 | Program headers read back with their bytes; sections without SHF_ALLOC are found again in every segment that encloses, and SHF_ALLOC sections whose address follows the file in fresh segments and in nested ones |
| SegmentReload.PresetLost | F-Detector/elfio/elfio.hpp:471-483 | The two sections of PresetOutside are not found again |
| ElfSegment.MembersExact | F-Detector/elfio/elfio.hpp:471-483 | The sections load adds to a segment are exactly those inside it, in ascending order |
| ElfSegment.Segment.AddSectionIndex | F-Detector/elfio/elfio_segment.hpp:124-134 | The list grows by the index; the alignment rises to the given one and never falls |
| ElfSegment.Segment.SetOffset | F-Detector/elfio/elfio_segment.hpp:158-165 | The offset is stored in the class's width and marked as set |
| ElfSegment.Segment.Load | F-Detector/elfio/elfio_segment.hpp:188-221 | Header and data as read from the stream; no data for empty or oversized segments |
| ElfSegment.Segment.Save | F-Detector/elfio/elfio_segment.hpp:223-232 | The program header, with its offset, at its place |
| ElfObject.Elf.PlaceSection | F-Detector/elfio/elfio.hpp:693-763 | One round of the inner loop, in 64-bit arithmetic, is the exact placement step |
| ElfObject.Elf.StartSegment | F-Detector/elfio/elfio.hpp:654-690 | The four cases of a segment's start and initial sizes |
| ElfObject.Elf.LayoutSegment | F-Detector/elfio/elfio.hpp:654-776 | One round of the outer loop: sections, cursor and segment header end as specified |
| ElfObject.Elf.OrderSegments | F-Detector/elfio/elfio.hpp:559-600 | The worklist of segment objects in the specified order |
| ElfObject.OrderedByOffset | F-Detector/elfio/elfio.hpp:559-600 | Of the object: when every segment has an offset and none at offset 0 is properly included in another, those at offset 0 are laid out before all others |
| ElfObject.Elf.CalcSegmentAlignment | F-Detector/elfio/elfio.hpp:631-642 | Every segment's alignment becomes the raised one, nothing else changes |
| ElfObject.Elf.LayoutSegmentsAndTheirSections | F-Detector/elfio/elfio.hpp:645-779 | The whole pass on the objects equals the pass on values, success or refusal |
| ElfObject.Elf.IsSectionWithoutSegment | F-Detector/elfio/elfio.hpp:527-541 | True exactly for sections in no segment's list |
| ElfObject.Elf.LayoutSectionsWithoutSegments | F-Detector/elfio/elfio.hpp:604-627 | The second pass on the objects equals the pass on values |
| ElfObject.Elf.LayoutSectionTable | F-Detector/elfio/elfio.hpp:781-789 | The table goes at the next multiple of four |
| ElfObject.Elf.LayOut | F-Detector/elfio/elfio.hpp:161-185 | save up to its writes: result, sections, segments and header as specified, everything layout does not own unchanged |
| ElfObject.Elf.SaveSections | F-Detector/elfio/elfio.hpp:498-511 | Headers and data of all sections, as positioned writes |
| ElfObject.Elf.SaveSegments | F-Detector/elfio/elfio.hpp:513-525 | All program headers, as positioned writes |
| ElfObject.Elf.Save | F-Detector/elfio/elfio.hpp:161-192 | Succeeds exactly when layout does, writes the object's image or nothing, every header field at its place in the byte order the file names, and keeps names readable |
| ElfObject.Elf.SavedFileLoads | F-Detector/elfio/elfio.hpp:112-146 | Loading a saved object's image gives every section's header, data and name |
| ElfObject.Elf.SavedSegments | F-Detector/elfio/elfio.hpp:434-490 | The program headers of a saved object can be read back with their bytes, and load finds the sections described by ByOffset and ByAddress in each segment |
| ElfObject.Elf.SavedTable | F-Detector/elfio/elfio.hpp:657-666 | Of the saved object: its PT_PHDR segment without sections covers exactly the program header table of the file |
| ElfObject.Elf.RefusedIff | F-Detector/elfio/elfio.hpp:161-192 | Whether save will be refused, before it is called |
| ElfObject.Elf.SavedThenLoaded | F-Detector/elfio/elfio.hpp:112-146 | Loading a saved object's file gives every section's header, data and name, every program header, and as each segment's section list what load finds in it |
| ElfObject.Elf.AddSection | F-Detector/elfio/elfio.hpp:840-852 | A new section, null but for its name offset, which leads to its name; all earlier names still readable, all other sections as they were |
| ElfObject.Elf.AddSegment | F-Detector/elfio/elfio.hpp:361-380 | A new segment without sections behind the others |
| ElfObject.Elf.AddToSegment | F-Detector/elfio/elfio_segment.hpp:124-134 | Adding one of the object's own sections to a segment keeps the object valid |
| ElfObject.Elf.Create | F-Detector/elfio/elfio.hpp:91-97 | A new object has the header of its class and encoding, a null section and a name table, and satisfies what saving needs |
| ElfObject.Elf.CreateMandatorySections | F-Detector/elfio/elfio.hpp:383-396 | The null section, and a string table of eleven bytes that holds its own name at offset 1 |
| ElfObject.Elf.ReadSections | F-Detector/elfio/elfio.hpp:399-414 | One new section per table record, each as its record says, addresses fixed |
| ElfObject.Elf.ReadNames | F-Detector/elfio/elfio.hpp:416-427 | Names looked up in the section name table |
| ElfObject.Elf.AddMembers | F-Detector/elfio/elfio.hpp:465-483 | The membership loop leaves the segment's list as specified and its header alone |
| ElfObject.Elf.ReadSegments | F-Detector/elfio/elfio.hpp:443-490 | One new segment per program header, each with the sections inside it |
| ElfObject.Elf.Load | F-Detector/elfio/elfio.hpp:112-146 | Succeeds exactly for a readable ELF header, and then sections, names and segments are those of the file, the object is valid, and read from the beginning it can be saved |
| ElfObject.Elf.LoadedFields | F-Detector/elfio/elfio.hpp:112-146 | Whatever file the object was loaded from: its headers are what stands in the file at their places |
| CallStack.AdjustExact | F-Detector/common/callstack.cpp:273-292 | AdjustStack leaves exactly the frames with a larger stack pointer |
| CallStack.CreateKeeps | F-Detector/common/callstack.cpp:249-271 | A new activation keeps the call forest: indices, one caller each, callees below callers |
| CallStack.StepKeeps | F-Detector/common/callstack.cpp:295-396 | Every call, return, longjmp, system-call event and snapshot keeps the invariant, and the arena only grows |
| CallStack.RunKeeps | F-Detector/common/callstack.cpp:295-396 | The same over every sequence of events |
| CallStack.Reachable | F-Detector/common/callstack.hpp:87-92 | Every reachable state satisfies the invariant |
| CallEffects.StepEffect | F-Detector/common/callstack.cpp:254-396 | What each event changes, said of the states before and after: a system call, its number and its result go to the live frame with the least stack pointer; a call adds one fresh frame below those above the stack pointer and one callee to the innermost of them; a return gives value and memory map to exactly the frame it removes; everything else stays |
| CallEffects.EffectDetermines | F-Detector/common/callstack.cpp:254-396 | Nothing else has this effect: it determines the state after the event |
| CallQueries.HasIffSubtreeCalls | F-Detector/common/callstack.cpp:735-750 | HasSyscall holds exactly when a walk down the call forest reaches an activation with a recorded system call |
| CallQueries.HasIffCollects | F-Detector/common/callstack.cpp:721-750 | HasSyscall holds exactly when GetSyscalls collects something |
| CallCollect.CollectsSubtree | F-Detector/common/callstack.cpp:721-733 | What is collected are the system calls of exactly the activations in the subtree, without that of the callee left out, each activation once |
| CallQueries.OwnPartPlusNext | F-Detector/common/callstack.cpp:958-976 | A frame's subtree is its own part plus the next frame's subtree |
| CallQueries.CandidateIdx | F-Detector/common/callstack.cpp:958-976 | GetRPCandidateIdx yields the deepest saved frame whose call subtree has a system call, -1 exactly when the root's has none, in any state reached after the snapshot |
| CallTracker.CS.constructor | F-Detector/common/callstack.hpp:87-92 | A new tracker is the initial state |
| CallTracker.CS.AdjustStack | F-Detector/common/callstack.cpp:275-292 | The popping loop leaves the specified stack and nothing else changed |
| CallTracker.CS.CreateActivation | F-Detector/common/callstack.cpp:254-271 | Arena, caller and stack as specified |
| CallTracker.CS.ProcessCall | F-Detector/common/callstack.cpp:296-324 | The call event is the machine's step and has the effect of a call |
| CallTracker.CS.ProcessMain | F-Detector/common/callstack.cpp:328-336 | The main event is the machine's step: the main depth is the number of frames above the stack pointer |
| CallTracker.CS.ProcessReturn | F-Detector/common/callstack.cpp:340-377 | The return event is the machine's step with the effect of a return, or the tool exits, exactly when no frame is above the stack pointer |
| CallTracker.CS.ProcessSyscallLocation | F-Detector/common/callstack.cpp:380-384 | A system call is recorded in the live frame with the least stack pointer, and nothing else changes |
| CallTracker.CS.ProcessSyscallEnter | F-Detector/common/callstack.cpp:386-390 | Its number is recorded in that frame's last system call |
| CallTracker.CS.ProcessSyscallExit | F-Detector/common/callstack.cpp:392-396 | Its result is recorded there |
| CallTracker.CS.SaveStack | F-Detector/common/callstack.hpp:99 | The saved stack becomes the live one |
| CallTracker.CS.IsInSavedStack | F-Detector/common/callstack.cpp:212-222 | Membership in the saved stack |
| CallTracker.CS.HasSyscall | F-Detector/common/callstack.cpp:735-750 | The recursive method with its loop terminates and computes the specified query |
| CallTracker.CS.GetSyscalls | F-Detector/common/callstack.cpp:721-733 | The recursive method appends exactly the system calls of the subtree, each activation once |
| CallTracker.CS.GetRPCandidateIdx | F-Detector/common/callstack.cpp:958-976 | The search loop returns the deepest saved frame whose subtree recorded a system call |
| CallStackFormat.ActivationInverse | F-Detector/common/callstack.cpp:131-211 | read_from_disk undoes write_to_disk and consumes exactly its bytes, whatever follows |
| CallStackFormat.StateRoundTrip | F-Detector/common/callstack.cpp:632-717 | Reading a written state into a tracker without records restores main depth, arena and saved stack, consumes exactly the bytes written, and succeeds exactly within the two limits |
| CallStackFormat.StateJoins | F-Detector/common/callstack.cpp:645-717 | Reading a dump into any tracker sets the main depth and puts every location's activations, and the saved stack, behind those already there; it succeeds exactly within the two limits |
| CallStackWords.StateWritten | F-Detector/common/callstack.cpp:581-642 | The dump as the 64-bit words it consists of: every field of every record in its place |
| CallStackWords.EntriesAscend | F-Detector/common/callstack.cpp:581-610 | The locations in the dump ascend by image number and then by address |
| CallStackFormat.RunRoundTrip | F-Detector/common/callstack.cpp:632-717 | The same for every state a run can reach |
| CallStackDisk.WriteToDisk | F-Detector/common/callstack.cpp:581-642 | The nested writing loops produce the specified bytes |
| CallStackDisk.ReadHistory | F-Detector/common/callstack.cpp:645-671 | The nested reading loops, pushing activations one by one, rebuild the arena; a count above the limit is refused |
| CallStackDisk.ReadStack | F-Detector/common/callstack.cpp:674-694 | The saved stack is extended by what was read; a count above the limit is refused |
| CallStackDisk.ReadFromDisk | F-Detector/common/callstack.cpp:704-717 | Depth, history and stack are read in turn, the stack also after a refused history |
| CallStackDisk.ReadActivation | F-Detector/common/callstack.cpp:172-211 | The three list loops of one activation |
| CallStackDisk.DumpAndRestore | F-Detector/common/callstack.cpp:632-717 | A new tracker that reads what another wrote records the same, and leaves the rest of the file |
| Profiler.CreatePlain | F-Detector/identification/tools/profiler.cpp:228-293 | The map holds exactly the edges taken, each with its first position and its number of occurrences; the file lists it by ascending edge; the result is its size, or -1 when a file cannot be opened, where nothing is written |
| Profiler.EdgeIs | F-Detector/identification/tools/profiler.cpp:258 | An edge leads from one block's address to the next one's, with the numbers of their images in the table; a missing image counts as number 0 |
| Profiler.CountsConserved | F-Detector/identification/tools/profiler.cpp:256-266 | The counts sum to the number of blocks minus one |
| Profiler.PositionsDistinct | F-Detector/identification/tools/profiler.cpp:260-261 | Edges of a thread have different first positions |
| Profiler.CountOneIsOnly | F-Detector/identification/tools/profiler.cpp:260-263 | An edge counted once is taken at its recorded position and nowhere else |
| ImageRegistry.NextId | F-Detector/identification/tools/profiler.cpp:320 | The next number is one above the largest in use |
| ImageRegistry.Registered | F-Detector/identification/tools/profiler.cpp:296-326 | The registry only grows, numbers stay, no file is registered twice, and every image gets the number of its file |
| ImageRegistry.NewNumbersAscend | F-Detector/identification/tools/profiler.cpp:304-326 | The new images of a table get the next free numbers one after the other, by ascending key |
| ImageRegistry.OneJournaled | F-Detector/identification/tools/profiler.cpp:319-324 | The update table stays exactly what the registry has beyond its start |
| ImageRegistry.Registrar.Lookup | F-Detector/identification/tools/profiler.cpp:307-318 | The inner loop finds the first registered image of the same name and hash |
| ImageRegistry.Registrar.UpdateImageRegistry | F-Detector/identification/tools/profiler.cpp:296-326 | The nested loops leave registry, updates and the caller's table as specified |
| Workers.NextKeeps | F-Detector/identification/tools/profiler.cpp:443-497 | Every step of every worker keeps the invariant, and the registry only grows |
| Workers.LeadsKeeps | F-Detector/identification/tools/profiler.cpp:443-497 | The same over every schedule of any number of workers |
| Workers.NextAdvances | F-Detector/identification/tools/profiler.cpp:445-455 | An unfinished worker can always step and comes closer to its end; no other worker moves |
| Workers.ScheduleBound | F-Detector/identification/tools/profiler.cpp:443-497 | No schedule is longer than four steps per worker and trace |
| Workers.ExactlyOnce | F-Detector/identification/tools/profiler.cpp:443-463 | Under every interleaving each trace is claimed by at most one worker and renumbered and profiled at most once, by that worker; all traces are claimed when any worker ends |
| Workers.AllProfiled | F-Detector/identification/tools/profiler.cpp:443-497 | When all workers have ended, every trace was profiled exactly once with its renumbered table, and the count is the number of traces that open and have an edge |
| Workers.SameNumberIffSameFile | F-Detector/identification/tools/profiler.cpp:296-326 | Two images of one program's traces have the same number exactly when name and hash agree, whatever the schedule |
| Workers.ScheduleIndependent | F-Detector/identification/tools/profiler.cpp:443-463 | Any two schedules agree on which images are the same |
| Workers.SameEdgeIffSameCode | F-Detector/identification/tools/profiler.cpp:256-263 | Edges of two traces compare equal exactly when they lead between the same addresses of the same files |
| Merge.MergeThreads | F-Detector/identification/tools/merge.cpp:93-137 | The map records, for exactly the edges some thread took, the first thread that did and its position and count; the file lists it by ascending edge |
| Merge.MergedMeans | F-Detector/identification/tools/merge.cpp:100-122 | What the merged map says about an edge, in terms of the threads' profiles |
| Merge.MergeUnique | F-Detector/identification/tools/merge.cpp:100-122 | Merging keeps (thread, position) unique |
| Differ.DiffEdges | F-Detector/identification/tools/identifier.cpp:429-524 | Exactly the intersection of the opened target runs minus the union of the non-target runs, with the records of the last opened target; refused without target names |
| Differ.DiffUnique | F-Detector/identification/tools/identifier.cpp:487-521 | The difference keeps (thread, position) unique |
| Differ.SortEdges | F-Detector/identification/tools/identifier.cpp:419-427 | The sorted map inverts the edge map; of edges with the same record the last one in the order of edges stays |
| Differ.SortLosesNothing | F-Detector/identification/tools/identifier.cpp:419-427 | Sorting loses no edge exactly when no two edges carry the same record |
| Differ.Filter | F-Detector/identification/tools/identifier.cpp:121-129 | Exactly the edges taken once and clear of libc, vdso and loader remain |
| Scanner.GetConsequentEdges | F-Detector/identification/tools/identifier.cpp:132-189 | The one-pass scanner equals its specification: per thread the first ten runs of two or more consecutive positions; a thread is a key exactly when it has one |
| Scanner.RunsSplit | F-Detector/identification/tools/identifier.cpp:150-179 | The specification's split is one into maximal runs of consecutive positions |
| Scanner.SplitUnique | F-Detector/identification/tools/identifier.cpp:150-179 | There is no other such split |
| Scanner.ClosesFree | F-Detector/identification/tools/identifier.cpp:158-173 | A list is only stored under a thread that has none: no result is overwritten |
| RunFacts.ReportedFacts | F-Detector/identification/tools/identifier.cpp:132-189 | Reported runs are whole runs in position order, at most ten, and any two consecutive positions are in one of them or behind all ten |
| Pipeline.Identify | F-Detector/identification/tools/identifier.cpp:561-593 | From all traces to packs, end to end: the packs of a thread are exactly the stretches of positions whose edge occurs once in that thread and no earlier one, in every target run, in no other run and outside the libraries |
| Pipeline.PacksAreWalks | F-Detector/identification/tools/identifier.cpp:132-189 | Every pack is a contiguous walk of one thread's trace in the last target run, each edge leading to the block the next one leaves, each occurring exactly once in the trace |
| Pipeline.MergedOnce | F-Detector/identification/tools/merge.cpp:110-115 | A merged count of one means the edge occurs once in the first thread that takes it |
| Pipeline.EntryTells | F-Detector/identification/tools/identifier.cpp:121-129 | Every edge that reaches the scanner stands at a position that tells the feature |
| Pipeline.TellsEntry | F-Detector/identification/tools/identifier.cpp:419-524 | Every position that tells the feature reaches the scanner |
| EndToEnd.TellsIsTellsCode | F-Detector/identification/tools/identifier.cpp:429-524 | After any schedule of the workers, a position tells the feature by the edges the tools compare exactly when it does by addresses and files, a property of the recorded traces alone |
| EndToEnd.IdentifyCode | F-Detector/identification/tools/identifier.cpp:561-593 | From recorded traces through any schedule to the packs: they are exactly the stretches of addresses that happen once in the thread and in no earlier one, in every target run, in no other run, and outside the library files |
| EndToEnd.FinishedRecorded | F-Detector/identification/tools/profiler.cpp:443-497 | When all workers have ended, all traces of a program are renumbered as the pipeline needs |

## Left out

- StringTable.Get: a string without a terminator ends with the table; in the source only a loaded section has a NUL behind its data.
- HashLookup.Lookup: the section found by its link is taken to be a System V hash table in host byte order; nothing in the source checks that.
- Relocations.AddLinked: the calculated value of `get_entry` is not modelled.
- Relocations.Get: the record of a section of type REL or RELA that has a size but no buffer is read through a null pointer in the source and excluded; an entry size below that of a record lets the source read past the entry and is excluded too.
- ElfSection.Section.Load: the capacity is the full size, where the source keeps the low 32 bits of it; they differ for sections of 2^32 bytes or more.
- ElfSection.Section.SetData: a null data pointer with a size, for which the source allocates without copying, is not modelled.
- ElfSection.Section.AppendData: a section that has a size but no buffer is excluded, as the source then copies from a null pointer.
- Notes.NoteAccessor.GetNote: an index between the number of notes and the section size reads outside the position list in the source and is excluded; so is a note with a size but no descriptor.
- SegmentOrder.RotationExactly: when every segment outside all others is at offset 0, only the condition that keeps those at offset 0 in front is proved, not that it is necessary.
- SegmentOrder.OrderedZerosFirst: segments at offset 0 that are included in others are left to RotationExactly.
- LayoutRefusal.RefusedExactly: section lists are taken to be pairwise disjoint, equal or nested, and positions not to reach 2^64.
- LayoutRows.FreshSegment: segments that share some but not all of their sections with earlier ones are left out, as nested lists have none.
- LoadFormat.FileLoads: files of 2^63 bytes or more are excluded; of an incomplete file SectionLoads and NothingLoads tell what each read yields.
- HashLookup.SectionReads: bucket and chain words are below 2^32, and nbucket is not 0.
- NameHash.ShortHash: the sum is stated in 32-bit arithmetic, in which it does not overflow.
- LayoutContainment.SegmentsEncloseSections: the condition on alignments is the simplest one; AlignedSegment has the exact one for the segments that save aligns, which does not depend on positions, and EnclosedByInput the exact one for all.
- LayoutContainment.EnclosedExactly: the condition uses the position of the segment's turn, which TurnIs computes from the input; a segment that starts with the null section is not aligned, so its gaps depend on that position.
- LayoutMemory.FileSizeWithinMemory: the exact memory size is taken to stay in the class's range.
- LayoutAddresses.ConsistentInMemory: the end of the segment in memory is taken to stay in the class's range.
- LayoutAlignment.FreshStartCongruent: alignments above 2^63 are excluded, as the 64-bit sum wraps.
- ElfObject.Elf.Save: assumes that the section header table starts below the class's limit, so that no position wraps, fewer than 65536 sections and segments, and an empty stream; the product of entry size and number of segments, an `int` in the source, is taken not to overflow.
- ElfObject.Elf.ReadNames: names are promised when the section name table could be read in full.
- SegmentReload.SectionsFoundAgain: empty sections, SHF_ALLOC sections that do not count in the segment's memory (TLS NOBITS outside a TLS segment) and preset NOBITS sections are not promised; FoundExactly and PresetFoundIff say when they are found.
- SegmentReload.PresetFoundIff: the end of the segment in memory is taken to stay in the class's range.
- SegmentReload.FoundExactly: ends of sections and segments that wrap around 2^64 are excluded.
- CallStackFormat.StateRoundTrip: reading a file that ends too early leaves variables unset in the source and is only marked as such.
- CallTracker.CS.ProcessReturn: the memory map is a parameter, read from the process in the source.
- Pipeline.Identify: every profile file can be opened; Differ.DiffEdges covers those that cannot.
- EndToEnd.IdentifyCode: the image of every block is in its trace's table; the source numbers a missing one 0.
- The count of opaque library entries in the tracker, queries that ask the disassembler, and the choice of a rescue point that depends on it.
- The search for the image numbers of libc, vdso and loader by name prefix: they are parameters of the filter.
- The extra iteration of record readers that test for the end of the file before a failing read.
- Two traces whose profiles would be written to the same file name.
- Allocation failure, struct padding, memory release, `validate()`, the dynamic section accessor and dumping.
- Pin callbacks, IDA, MySQL, directory walking, regular expressions, SHA-1 and the text image files.
