# Breakpad's symbol pipeline, modelled and proved in Dafny

Breakpad turns the debugging information of a program into symbol files, and crash dumps into stack traces with the help
of them. This project models the algorithms in that pipeline that carry state, arithmetic or recursion, and proves what
their comments promise.

- **Lines and functions** (`addresses`, `symbols`, `sorting`, `intervals`, `sweep_geometry`, `sweep_run`, `line_sweep`,
  `line_table`). `DwarfLineToModule::AddLine` collects line number data, and
  `DwarfCUToModule::AssignLinesToFunctions` cuts it up among the functions in one sweep in wrapping 64-bit arithmetic.
  `SweepRun` describes runs of the sweep as sequences of states; the methods of `LineSweep` go through such runs.
- **Range maps and their serializers** (`options`, `sequences`, `range_tree`, `contained_range_map`, `range_map`, `bytes`,
  `offset_table`, `map_serializer`, `range_map_serializer`, `static_map`). `ContainedRangeMap` is a tree of nested ranges
  changed in place; `RangeTree` is the same on values, with the laws. The serializers flatten maps into bytes, and the
  static maps look addresses up there.
- **linked_ptr** (`linked_ptr`, `linked_ptr_runs`). Pointers to one object form a circle on the heap. `LinkedPtrRuns`
  describes runs of a program that uses them, and its class `Program` carries such runs out on the heap.
- **MD5** (`md5`). The streaming part of RFC 1321 around the block transform.
- **UTF conversions** (`bits`, `unicode`, `convert_utf`, `transcoding`, `utf_buffers`, `utf_round_trips`). The six
  conversions between buffers, against RFC 3629 and RFC 2781. `Bits` has the bit operators of C.
- **STABS** (`byte_cursor`, `stabs_entries`, `stabs_trace`, `stabs_reader`, `stabs_nameless`, `stabs_heard`,
  `module_functions`, `stabs_to_module`, `stabs_pipeline`, `stabs_fallback`, `stabs_stops`). A reader
  with nested loops over one iterator drives a handler, which adds functions to a module. `StabsTrace` says, one entry at a
  time, what a section tells; `StabsHeard` says what a handler that keeps functions has noted down after some events;
  `StabsPipeline` goes from the bytes of a section to the functions of a module.
- **STACK CFI rules** (`c_text`, `cfi_rules`, `cfi_serialize`, `output_stream`, `cfi_lines`, `cfi_records`,
  `cfi_resolver`). Rule sets are parsed and written; the records of a module are written to a stream as lines of text,
  loaded line by line, and asked for the rules in force at an address.
- **Memory for crashed processes** (`page_allocator`, `wasteful_vector`). The allocator keeps its page headers in the memory
  that it hands out from; the vector lives in the allocator's blocks.

A source loop that is long is split: its pieces (`Iterate`, `Step`, `Absorb`, `TakeName`, ...) are methods, in the order
in which the source does the same. Vector iterators and pointers into vectors are positions in sequences. `std::sort` is
any sort that rearranges by address; the one chosen keeps equal elements in order, as `std::stable_sort` does. The order
of a `std::map` is the order of a sequence. Addresses are integers below 2^64, and every sum or difference that may wrap
says so (`Add`, `Sub`).

Where the code and what is said about it differ, the model follows the code:

- `isLegalUTF8` accepts more than section 4 of RFC 3629: after a lead byte ED or F4 it does not check that the second byte
  is 0x80 or more (`ConvertUtf.LegalExactly` says exactly what it accepts, `ConvertUtf.LowSecondByteExample` shows one).
- `convert_UTF.h` says that the source position of `sourceIllegal` is that of the illegal value, the first if there are
  several. Both conversions from UTF-32 go on behind a value above 0x10FFFF. From UTF-32 to UTF-16 the position is that of
  the first illegal value exactly if no such value comes before the first surrogate (`UtfRoundTrips.IllegalIsLocated16`;
  `UtfRoundTrips.TooLargeThenSurrogate` shows a source for which it is not). From UTF-32 to UTF-8 the same holds when
  strict, and when lenient the position is never right (`UtfRoundTrips.IllegalIsLocated8`, `UtfRoundTrips.TooLargeAlone`).
- `convert_UTF.h` also says that values above 0x10FFFF in UTF-32 cause an error return in either mode. To UTF-8 they do
  (`UtfRoundTrips.ErrorIsReturned8`). To UTF-16 they do exactly if the conversion is strict, or the target has no room for
  all with such values replaced (`UtfRoundTrips.ErrorIsReturned16`, `UtfRoundTrips.TooLargeIsConverted`).
- `stabs_to_module.cc` says that the fallback size is given at most once per module. That holds exactly if at most one
  function told starts at the greatest address the section gives (`StabsFallback.FallsBackOnceIff`);
  `StabsFallback.FallsBackTwice` reads the bytes of a section for which two functions get it.
- `Module::AddFunction` asserts that names are not empty. A section tells of a function without a name exactly if an `N_FUN`
  entry that starts one has a name that is empty or begins with a colon (`StabsNameless.NamelessIff`), and the assertion
  fails exactly if a function told has a name that is empty once demangled (`StabsPipeline.StopsIff`). When
  demangling makes just the empty symbol empty, it fails exactly if there is such an entry whose address is not below the
  start of its unit (`StabsStops.ReadingStopsIff`); `StabsStops.StopsTheProgram` reads the bytes of a section
  for which it fails.
- A module with an empty rule map is written as text that the resolver refuses (`CfiResolver.TextLoadsIfRules`,
  `CfiResolver.EmptyRulesAreRefused`).
- `Module::Write` is to return false if an error occurs. On a stream that is good when the STACK CFI records begin, it
  returns true although the stream has failed exactly if that fails at the very last line end
  (`CfiRecords.WriteStackRecords`, `CfiRecords.UnnoticedIff`); `CfiRecords.LastLineEndIsLost` writes to such a stream.
- `PageAllocator::Alloc` computes the number of bytes to map in 32 bits. If that overflows to 0, which is when the block and
  the header take more than 2^32 less a page and no more than 2^32 bytes, it returns null (`PageAllocators.AskedIs`,
  `PageAllocators.NoBlock`). Otherwise a block in new pages lies in them exactly if it does not overflow
  (`PageAllocators.InsideIffFit`, `PageAllocators.PageAllocator.Alloc`); `PageAllocators.BlockInOnePage` allocates one that
  does not.
- `wasteful_vector` goes on without a block where it cannot get one, or where doubling overflows. The members that allocate
  say exactly when that happens (`WastefulVectors.WastefulVector.PushBack`, `WastefulVectors.WastefulVector.Resize`), and
  where 32 doublings are not enough the loop in `resize` does not end (`WastefulVectors.NeverEnough`).
- A serialized map with an empty record before the last does not pass `ValidateInMemoryStructure`
  (`StaticMap.WrittenTableIsInOrder`). No serializer of the repository writes an empty record, and written trees and range
  maps always pass (`StaticMap.WrittenNodeIsInOrder`, `RangeMapSerializer.WrittenRangesAreInOrder`).

## Model

| member | source | states |
|---|---|---|
| `Intervals.PiecesAreIntersections` | trunk/src/common/dwarf_cu_to_module.cc:797-808 | Among the pieces for a function are exactly the intersections of its extent with the lines that meet it, each keeping its line's file and number. |
| `Intervals.PiecesAreSeparated` | trunk/src/common/dwarf_cu_to_module.cc:797-808 | Pieces of disjoint lines are non-empty, in address order, disjoint and inside the function, so there is one for each line that meets it. |
| `Intervals.PiecesCountCommonBytes` | trunk/src/common/dwarf_cu_to_module.cc:708-711 | The sizes of a function's pieces add up to the number of bytes the function shares with the lines, counted as a set. |
| `SweepGeometry.NextIsLater` | trunk/src/common/dwarf_cu_to_module.cc:883-885 | The next transition lies behind the current address and no further than 2^64: the progress assertion, overlaps or not. |
| `SweepGeometry.NextIsUniform` | trunk/src/common/dwarf_cu_to_module.cc:766-773 | All bytes up to the next transition are in the same of the four states (function or not, line or not). |
| `SweepGeometry.ExcuseTest` | trunk/src/common/dwarf_cu_to_module.cc:825-840 | The padding test of the sweep (line used before, next function starts where the line ends, in wrapping arithmetic) says exactly that the stretch is the excused tail. |
| `SweepRun.RunStaysOnTrack` | trunk/src/common/dwarf_cu_to_module.cc:760-790 | First loop invariant and its assertions: over any run, overlaps or not, each iterator is at an item that contains the current address or starts behind it. |
| `SweepRun.RunIncreases` | trunk/src/common/dwarf_cu_to_module.cc:883-885 | Over any run the current address strictly increases. |
| `SweepRun.RunVisitsEndpoints` | trunk/src/common/dwarf_cu_to_module.cc:775-786 | Over any run the current address is always where some function or line starts or ends. |
| `SweepRun.RunIsShort` | trunk/src/common/dwarf_cu_to_module.cc:868-871 | However items overlap, the loop is entered at most twice as often as there are functions and lines: it does not hang. |
| `SweepRun.RunCuts` | trunk/src/common/dwarf_cu_to_module.cc:868-871 | However items overlap, whatever a function is given is a non-empty part of it, covered by some line and attributed as that line is. |
| `SweepRun.RunIsGood` | trunk/src/common/dwarf_cu_to_module.cc:770-773 | Second loop invariant, for disjoint items: the current address is a transition; pieces, warnings and remembered pointers are exactly right for the bytes below it. |
| `SweepRun.FinishedRunIsComplete` | trunk/src/common/dwarf_cu_to_module.cc:759-887 | A finished run over disjoint items has given each function exactly its pieces and warned exactly once about each item that calls for it, also when items end at 2^64. |
| `LineSweep.WithinIsHas` | trunk/src/common/dwarf_cu_to_module.cc:687-696 | The wrapping subtraction in within answers whether a non-empty, non-wrapping item has the address. |
| `LineSweep.Step` | trunk/src/common/dwarf_cu_to_module.cc:797-859 | The four-way branch with wrapping arithmetic finds the transition of the specification, adds its piece to the one function it belongs to, and warns as specified; zero stands for 2^64. |
| `LineSweep.AdvanceFunctions` | trunk/src/common/dwarf_cu_to_module.cc:872-876 | The iterator passes only functions that have ended, and stops at one that contains the address or starts behind it. |
| `LineSweep.AdvanceLines` | trunk/src/common/dwarf_cu_to_module.cc:877-881 | The same for lines. |
| `LineSweep.Iterate` | trunk/src/common/dwarf_cu_to_module.cc:759-886 | One pass of the loop is one step of the run of the specification; it stops just when the transition is 2^64. |
| `LineSweep.FirstAddress` | trunk/src/common/dwarf_cu_to_module.cc:741-757 | The current address starts at the earlier of the first function and the first line. |
| `LineSweep.Sweep` | trunk/src/common/dwarf_cu_to_module.cc:759-887 | The loop goes through a run of the specification to its end, and each function's lines grow by the run's pieces. |
| `LineSweep.SortFunctions` | trunk/src/common/dwarf_cu_to_module.cc:713-716 | The functions are rearranged by address; disjoint functions come out separated. |
| `LineSweep.SortLines` | trunk/src/common/dwarf_cu_to_module.cc:713-716 | The lines are rearranged by address, each as often as it was there; disjoint lines come out separated. |
| `LineSweep.NoticesAreWarnings` | trunk/src/common/dwarf_cu_to_module.cc:808-840 | For disjoint items no warning is repeated; a function is warned about just if some byte of it has no line, a line just if some byte of it, other than an excused tail, has no function. |
| `LineSweep.DwarfCUToModule.AssignLinesToFunctions` | trunk/src/common/dwarf_cu_to_module.cc:698-887 | For non-empty non-wrapping items: a short run and only attributions some line supports; for disjoint items exactly the intersections, appended to what each function had, and exactly the right warnings. |
| `LineTable.DwarfLineToModule.AddLine` | trunk/src/common/dwarf_line_to_module.cc:97-132 | Whether the call is recorded, what line is appended (clipped), the next omitted end, and the one-time warning, for every call. |
| `LineTable.AddLines` | trunk/src/common/dwarf_line_to_module.cc:97-132 | A whole program of calls appends the recorded lines and leaves the omission state of the specification. |
| `LineTable.OmittedEndIsRunEnd` | trunk/src/common/dwarf_line_to_module.h:167-170 | The omission state is the end of the last non-empty call if that call is in a run from address zero, and zero if it is not. |
| `LineTable.OmittedIffInRun` | trunk/src/common/dwarf_line_to_module.h:104-110 | The omitted calls are exactly the non-empty ones at zero or in an unbroken run continuing from one; zero-length calls do not break a run. |
| `LineTable.RecordedLinesAreValid` | trunk/src/common/dwarf_line_to_module.h:113-119 | Every recorded line is non-empty, starts above zero and does not pass 2^64: what the sweep requires. |
| `LineTable.RecordedIsTheRest` | trunk/src/common/dwarf_line_to_module.cc:97-132 | A line is recorded just if it is the clipped form of a non-empty call outside such runs with a known file. |
| `RangeTree.StoreIsRight` | trunk/src/processor/contained_range_map-inl.h:57-147 | For a well-formed tree and a range: accepted exactly if nested in, containing or disjoint from every stored range and equal to none; then exactly that range is added and the nesting stays as it should be. |
| `RangeTree.RequestIsRight` | trunk/src/processor/contained_range_map-inl.h:57-147 | The same with the checks for empty and overflowing ranges in wrapping arithmetic; a refused request changes nothing. |
| `RangeTree.PartialOverlap` | trunk/src/processor/contained_range_map-inl.h:105-116 | Whenever the partial-containment test fires, some stored range really is incompatible with the new one. |
| `RangeTree.RetrieveIsSmallest` | trunk/src/processor/contained_range_map-inl.h:150-178 | Retrieval returns the smallest stored range that has the address, and nothing exactly if there is none. |
| `RangeTree.SameRangesSameAnswers` | trunk/src/processor/contained_range_map.h:39-48 | Two maps that store the same ranges answer every query alike. |
| `RangeTree.LaminarIsStored` | trunk/src/processor/contained_range_map.h:32-48 | A family of distinct ranges, any two disjoint or nested, is stored whole, and nothing else is, after any prefix. |
| `RangeTree.AcceptedIffLaminar` | trunk/src/processor/contained_range_map.h:39-48 | Every request of a sequence is accepted if and only if the family is laminar. |
| `RangeTree.OrderDoesNotMatter` | trunk/src/processor/contained_range_map.h:32-37 | Two orders of the same requests, of a laminar family, answer every query alike. |
| `RangeTree.StoreAllIsSound` | trunk/src/processor/contained_range_map.h:50-56 | After any sequence of requests siblings are disjoint and in order, children lie inside their parents, and only sound requested ranges are stored. |
| `ContainedRangeMaps.ContainedRangeMap.StoreRange` | trunk/src/processor/contained_range_map-inl.h:57-147 | The object tree, changed in place with its children moved to the new node, becomes the tree of the specification; ownership stays a tree; the result says whether the request was accepted. |
| `ContainedRangeMaps.ContainedRangeMap.Adopt` | trunk/src/processor/contained_range_map-inl.h:130-146 | The children from iterator to iterator become children of a new node that takes their place. |
| `ContainedRangeMaps.ContainedRangeMap.RetrieveRange` | trunk/src/processor/contained_range_map-inl.h:151-178 | Answers as the specification, whose answer is the smallest range. |
| `ContainedRangeMaps.ContainedRangeMap.Clear` | trunk/src/processor/contained_range_map-inl.h:182-191 | Deletes the nodes of all ranges below, each once and after those nested in it, and leaves the node a usable empty map. |
| `ContainedRangeMaps.PostOrderIsStored` | trunk/src/processor/contained_range_map-inl.h:182-191 | What is so deleted is every range stored, and nothing else. |
| `ContainedRangeMaps.StoreEach` | trunk/src/processor/contained_range_map-inl.h:57-147 | A map built by any sequence of requests is the tree that the laws above speak of. |
| `OffsetTable.OffsetPointsAtRecord` | trunk/src/processor/map_serializers-inl.h:77-95 | Offset k points at the start of record k, which is all there (below 2^32 bytes). |
| `OffsetTable.KeyIsAtItsPlace` | trunk/src/processor/map_serializers-inl.h:83-93 | Key k is at the place its position gives. |
| `OffsetTable.CountIsRead` | trunk/src/processor/map_serializers-inl.h:77-79 | The count a reader finds is the number of records. |
| `MapSerializer.SizeOfMap` | trunk/src/processor/map_serializers-inl.h:55-67 | The size computed for a map is that of the bytes written. |
| `MapSerializer.WriteMap` | trunk/src/processor/map_serializers-inl.h:69-97 | Writes count, offsets, keys and values, the bytes of the table and no others, and returns the end. |
| `MapSerializer.SizeOf` | trunk/src/processor/map_serializers-inl.h:189-209 | The recursive size is that of the bytes Write emits. |
| `MapSerializer.Write` | trunk/src/processor/map_serializers-inl.h:211-246 | Writes exactly the encoding of the tree at the place given, touches nothing else, and returns the end. |
| `MapSerializer.DecodeEncode` | trunk/src/processor/map_serializers_unittest.cc:344-363 | A reader that follows count, offsets and keys through what was written gets the same tree back (below 2^32 bytes). |
| `RangeMapSerializer.SizeOf` | trunk/src/processor/map_serializers-inl.h:118-135 | The size computed for a RangeMap is that of the bytes written. |
| `RangeMapSerializer.Write` | trunk/src/processor/map_serializers-inl.h:137-166 | Writes exactly the table whose records are base and entry and whose keys are the high addresses, and nothing else. |
| `RangeMapSerializer.RangeIsRead` | trunk/src/processor/map_serializers-inl.h:137-166 | Following offset and key k gives the base, the high address and the entry of range k. |
| `RangeMapSerializer.RetrieveFromBytes` | trunk/src/processor/static_range_map-inl.h:43-78 | Lookup in the bytes finds what lookup in the RangeMap finds: the same range, base and size, and the place of the entry's bytes. |
| `StaticMap.FindLowerBound` | trunk/src/processor/static_map-inl.h:81-100 | The binary search finds the first key that is not less. |
| `StaticMap.ValidateInMemoryStructure` | trunk/src/processor/static_map-inl.h:123-162 | Accepts just if the count is not negative, the first offset is right and fits, and offsets and keys strictly increase. |
| `StaticMap.WrittenTableIsInOrder` | trunk/src/processor/static_map-inl.h:123-162 | What a serializer writes passes that check if and only if the keys ascend and no record before the last is empty. |
| `StaticMap.WrittenNodeIsInOrder` | trunk/src/processor/static_map-inl.h:123-162 | The table of any node of a written tree passes that check. |
| `RangeMapSerializer.WrittenRangesAreInOrder` | trunk/src/processor/static_map-inl.h:123-162 | So does the table of any written range map. |
| `StaticMap.RetrieveRange` | trunk/src/processor/static_contained_range_map-inl.h:58-88 | Lookup in the bytes of a written tree gives the answer of the tree. |
| `StaticMap.StoreWriteRetrieve` | trunk/src/processor/static_contained_range_map-inl.h:58-88 | Storing any requests, writing the map and looking up in the bytes gives the entry of the smallest stored range that has the address, or nothing if there is none. |
| `RangeMaps.StoreRangeIsRight` | trunk/src/processor/range_map-inl.h:49-104 | A range is stored exactly if it is non-empty, does not overflow and overlaps no other; the map stays in order and gains that range only. |
| `RangeMaps.RetrieveRangeIsRight` | trunk/src/processor/range_map-inl.h:107-133 | Finds the one range that has the address, and nothing exactly if there is none. |
| `LinkedPtrs.LinkedPtr.Join` | trunk/src/processor/linked_ptr.h:72-78 | The walk around the circle ends, at the member before ptr, and only that member's link and the own one change. |
| `LinkedPtrs.LinkedPtr.Depart` | trunk/src/processor/linked_ptr.h:80-88 | The walk ends; the predecessor takes over the link; true exactly for the last member. |
| `LinkedPtrs.LeavingIsConsistent` | trunk/src/processor/linked_ptr.h:82-88 | Unlinking one member leaves disjoint circles, each holding exactly the live pointers to one object. |
| `LinkedPtrs.JoiningIsConsistent` | trunk/src/processor/linked_ptr.h:73-78 | So does linking one member into the circle of another. |
| `LinkedPtrs.StartingIsConsistent` | trunk/src/processor/linked_ptr.h:67-70 | So does starting a circle for an object no pointer has. |
| `LinkedPtrs.LinkedPtr.constructor` | trunk/src/processor/linked_ptr.h:99-101 | Taking over a raw pointer keeps the circles and adds just this pointer. |
| `LinkedPtrs.LinkedPtr.Copy` | trunk/src/processor/linked_ptr.h:104-106 | Copying adds one pointer to the same object and deletes nothing. |
| `LinkedPtrs.LinkedPtr.Leave` | trunk/src/processor/linked_ptr.h:155-157 | A departing pointer deletes its object exactly if it was the only one to it; the circles stay right. |
| `LinkedPtrs.LinkedPtr.Assign` | trunk/src/processor/linked_ptr.h:115-121 | Takes over the other's value; deletes the old object exactly if this was its only pointer; assigning to itself changes nothing. |
| `LinkedPtrs.LinkedPtr.Reset` | trunk/src/processor/linked_ptr.h:123-124 | Takes the new value, and deletes the old object exactly if this was its only pointer. |
| `LinkedPtrs.LinkedPtr.Release` | trunk/src/processor/linked_ptr.h:128-135 | A sole owner hands its object out undeleted and points to nothing. |
| `LinkedPtrRuns.NextConserves` | trunk/src/processor/linked_ptr.h:94-171 | Every step keeps: a captured object is held by live pointers, or has been released, or is deleted once, and just one of these. |
| `LinkedPtrRuns.RunConserves` | trunk/src/processor/linked_ptr.h:94-171 | The same over every run; once no pointer is left, the deleted objects are exactly those captured and never released. |
| `LinkedPtrRuns.DeletedWhenLastGoes` | trunk/src/processor/linked_ptr.h:155-157 | An object is deleted at exactly the step at which its last pointer goes, unless that step releases it. |
| `LinkedPtrRuns.Program.Add` | trunk/src/processor/linked_ptr.h:101 | On the heap, construction from a raw pointer is the Capture step of the run. |
| `LinkedPtrRuns.Program.AddCopy` | trunk/src/processor/linked_ptr.h:104-106 | On the heap, copying is the CopyOf step. |
| `LinkedPtrRuns.Program.Overwrite` | trunk/src/processor/linked_ptr.h:115-121 | On the heap, assignment is the Assign step. |
| `LinkedPtrRuns.Program.ResetTo` | trunk/src/processor/linked_ptr.h:124 | On the heap, reset is the Reset step. |
| `LinkedPtrRuns.Program.GiveUp` | trunk/src/processor/linked_ptr.h:130-135 | On the heap, release is the Release step and returns the object held. |
| `LinkedPtrRuns.Program.Remove` | trunk/src/processor/linked_ptr.h:102 | On the heap, destruction is the Destroy step. |
| `LinkedPtrRuns.Program.Do` | trunk/src/processor/linked_ptr.h:94-171 | On the heap, each operation is its step of the run. |
| `LinkedPtrRuns.Run` | trunk/src/processor/linked_ptr.h:94-171 | A whole run, carried out on the heap, ends in the state of the specification, so every object has the one fate proved above. |
| `Md5.PaddingIsLeast` | trunk/src/common/md5.c:115-142 | The padding is the shortest of nine or more bytes that fills the last block, as section 3.1 of RFC 1321 asks. |
| `Md5.PaddedIsInjective` | trunk/src/common/md5.c:103-106 | Two messages below 2^61 bytes that are padded alike are the same. |
| `Md5.BitCount` | trunk/src/common/md5.c:63-68 | The two count words, with the carry between them, count bits modulo 2^64. |
| `Md5.ChainOfPrefix` | trunk/src/common/md5.c:88-96 | The chain over the first blocks does not depend on what is fed in later. |
| `Md5.MD5Context.Init` | trunk/src/common/md5.c:44-53 | The context of the empty message. |
| `Md5.MD5Context.Update` | trunk/src/common/md5.c:59-101 | The context becomes that of the old message followed by the new data: every field is determined by the bytes fed in, not by how they were cut. |
| `Md5.MD5Context.Final` | trunk/src/common/md5.c:107-146 | The digest is that of the transform chained over exactly the padded message. |
| `Md5.MD5Context.Pad` | trunk/src/common/md5.c:115-142 | Filling up the block, or two of them, runs the transform over all that is left of the padded message. |
| `Md5.DigestOf` | trunk/src/common/md5.c:59-146 | Whatever the pieces a message is fed in as, the digest is that of the whole. |
| `ConvertUtf.Trailing` | trunk/src/common/convert_UTF.c:266-271 | A trailing byte, computed with bit operators, is 0x80 plus the low six bits. |
| `ConvertUtf.Leading` | trunk/src/common/convert_UTF.c:271-271 | Marking a leading byte with a bit operator adds the mark, as the bits below it are free. |
| `Bits.LowAndHigh` | trunk/src/common/convert_UTF.c:266-271 | A number is its low bits and, shifted back up, what shifting down leaves. |
| `Bits.TrailMark` | trunk/src/common/convert_UTF.c:266-271 | Or with 0x80 and then and with 0xBF: what these bit operators make of any number. |
| `ConvertUtf.HighHalf` | trunk/src/common/convert_UTF.c:97-98 | The high surrogate, computed with a shift, is 0xD800 plus the ten bits above the low ten. |
| `ConvertUtf.LowHalf` | trunk/src/common/convert_UTF.c:98-99 | The low surrogate, computed with a mask, is 0xDC00 plus the low ten bits. |
| `ConvertUtf.Paired` | trunk/src/common/convert_UTF.c:228-233 | A pair is put together with a shift: 0x10000 plus ten bits from each half. |
| `ConvertUtf.LegalExactly` | trunk/src/common/convert_UTF.c:292-315 | isLegalUTF8 accepts exactly the characters of section 4 of RFC 3629 and the sequences with lead ED or F4 and a second byte below 0x80. |
| `ConvertUtf.LowSecondByteExample` | trunk/src/common/convert_UTF.c:302-309 | One of those extra sequences, which decodes to a character with another encoding. |
| `ConvertUtf.LegalDecodesToScalar` | trunk/src/common/convert_UTF.c:352-384 | What is accepted decodes, without overflow in 32 bits and without underflow, to a scalar value: the surrogate and too-large branches are dead. |
| `ConvertUtf.ReencodesExactly` | trunk/src/common/convert_UTF.c:292-315 | Encoding what was decoded gives the same bytes exactly for the characters of RFC 3629. |
| `ConvertUtf.DecodesOctets` | trunk/src/common/convert_UTF.c:352-360 | The sum minus the offset of a scalar value's octets is that value, and the octets are accepted. |
| `ConvertUtf.OctetsFromTheEnd` | trunk/src/common/convert_UTF.c:442-447 | Taking six bits off at a time, last byte first, gives the octets of section 3 of RFC 3629. |
| `ConvertUtf.PairIsACharacter` | trunk/src/common/convert_UTF.c:228-233 | A surrogate pair stands for one character beyond the BMP whose code units (section 2.1 of RFC 2781) are that pair. |
| `ConvertUtf.UnitsArePaired` | trunk/src/common/convert_UTF.c:91-100 | The code units of a character beyond the BMP are a surrogate pair that stands for it. |
| `UtfBuffers.Sum` | trunk/src/common/convert_UTF.c:516-533 | The fall-through sum of the bytes minus the offset is the scalar value they stand for. |
| `UtfBuffers.Put8` | trunk/src/common/convert_UTF.c:437-448 | Writing backwards from the end puts exactly the octets, and nothing around them changes. |
| `UtfBuffers.ConvertUTF8toUTF32` | trunk/src/common/convert_UTF.c:457-514 | The characters read and written, up to the first position that cannot be read or does not fit; source and target positions and result say which, strict or lenient alike; nothing beyond is written. |
| `UtfBuffers.ConvertUTF8toUTF16` | trunk/src/common/convert_UTF.c:333-401 | The same into UTF-16, with the source backed up when a pair does not fit. |
| `UtfBuffers.ConvertUTF16toUTF8` | trunk/src/common/convert_UTF.c:212-277 | The same from UTF-16: pairs are joined, unpaired surrogates stop a strict conversion and are kept by a lenient one. |
| `UtfBuffers.ConvertUTF16toUTF32` | trunk/src/common/convert_UTF.c:109-161 | The same from UTF-16 to UTF-32. |
| `UtfBuffers.ConvertUTF32toUTF8` | trunk/src/common/convert_UTF.c:405-453 | The same from UTF-32; values above the range are replaced, and sourceIllegal is reported for them only when nothing else stopped the conversion. |
| `UtfBuffers.ConvertUTF32toUTF16` | trunk/src/common/convert_UTF.c:61-105 | The same into UTF-16; a strict conversion drops a value above the range, goes on, and still reports sourceIllegal. |
| `UtfRoundTrips.IllegalIsLocated16` | trunk/src/common/convert_UTF.h:37-72 | UTF-32 to UTF-16: when sourceIllegal is returned, the position is that of the first illegal value if and only if no value above 0x10FFFF comes before the first surrogate. |
| `UtfRoundTrips.IllegalIsLocated8` | trunk/src/common/convert_UTF.h:37-72 | UTF-32 to UTF-8: the same when strict; when lenient the position is never that of the first illegal value. |
| `UtfRoundTrips.OnlyTooLargeIsPassed` | trunk/src/common/convert_UTF.c:61-107 | Illegal values before the position reported are all above 0x10FFFF. |
| `UtfRoundTrips.TooLargeThenSurrogate` | trunk/src/common/convert_UTF.c:71-90 | A strict conversion to UTF-16 of a value above 0x10FFFF and a surrogate reports the position of the second. |
| `UtfRoundTrips.TooLargeAlone` | trunk/src/common/convert_UTF.c:412-436 | A conversion to UTF-8 of one value above 0x10FFFF reports the position behind it, strict or not. |
| `UtfRoundTrips.ErrorIsReturned16` | trunk/src/common/convert_UTF.h:60-67 | UTF-32 to UTF-16: a source with a value above 0x10FFFF gives an error if and only if the conversion is strict, or the target has no room for all with such values replaced. |
| `UtfRoundTrips.ErrorIsReturned8` | trunk/src/common/convert_UTF.h:60-67 | UTF-32 to UTF-8: it always gives an error. |
| `UtfRoundTrips.TooLargeIsConverted` | trunk/src/common/convert_UTF.c:85-90 | A lenient conversion to UTF-16 of one value above 0x10FFFF returns conversionOK. |
| `Transcoding.ConvertsAllThatFit` | trunk/src/common/convert_UTF.h:34-51 | Converting an encoding of some characters converts as many as there is room for, and all if there is room for all. |
| `Transcoding.OutcomeIsDetermined` | trunk/src/common/convert_UTF.h:39-45 | Source and room determine the result, both positions and what is written. |
| `UtfRoundTrips.IntoUtf16` | trunk/src/common/convert_UTF.c:61-105 | UTF-32 to UTF-16, given room, writes the code units of each character. |
| `UtfRoundTrips.FromUtf32` | trunk/src/common/convert_UTF.c:405-453 | For scalar values and a large enough target, the bytes written are the octets of section 3 of RFC 3629, with conversionOK and all of the source consumed. |
| `UtfRoundTrips.ThroughUtf8` | trunk/src/common/convert_UTF.c:405-514 | UTF-32 to UTF-8 to UTF-32 gives any scalar values back, with conversionOK, strict or lenient. |
| `UtfRoundTrips.ThroughUtf16AndUtf8` | trunk/src/common/convert_UTF.c:61-514 | UTF-32 to UTF-16 to UTF-8 gives the same bytes as UTF-32 to UTF-8, and going on to UTF-32 gives the text back, with conversionOK throughout. |
| `UtfRoundTrips.Utf16AndBack` | trunk/src/common/convert_UTF.c:61-401 | UTF-16 by way of UTF-8, or by way of UTF-32, gives the units back. |
| `ByteCursors.ByteCursor.CheckAvailable` | trunk/src/common/byte_cursor.h:233-245 | Whether so many bytes are left; if not, the cursor is at the end and incomplete. |
| `ByteCursors.ByteCursor.Read` | trunk/src/common/byte_cursor.h:111-139 | The number of the next bytes in either byte order, signed or not, as the result type holds it: cut off or extended by its sign; or, past the end, the dummy value and the end of the cursor. |
| `StabsEntries.EntriesCount` | trunk/src/common/stabs_reader.cc:44-62 | A section of n bytes has n divided by the entry size, rounded down, many entries. |
| `StabsEntries.EntriesOfSection` | trunk/src/common/stabs_reader_unittest.cc:149-158 | The entries read from a section put together of entries are those entries, in either byte order and for both sizes of values. |
| `StabsEntries.EntryIterator.Fetch` | trunk/src/common/stabs_reader.cc:54-62 | The next entry, field by field, if all its bytes are there, and the end if they are not. |
| `StabsEntries.EntryIterator.Next` | trunk/src/common/stabs_reader.h:154-156 | The iterator stands at the next entry of the section, or at its end. |
| `StabsTrace.TraceIsInOrder` | trunk/src/common/stabs_reader.cc:89-294 | For any section, what it says is compilation units holding functions holding lines, all started and ended in order. |
| `StabsTrace.UnitAtFunction` | trunk/src/common/stabs_reader.cc:217-239 | In a unit, a function entry starts a function, with the lines queued before it told first. |
| `StabsTrace.FunctionAtFunction` | trunk/src/common/stabs_reader.cc:265-280 | In a function, an unnamed function entry ends it by size, and a named one at its own address without being consumed. |
| `StabsNameless.NamelessIff` | trunk/src/common/stabs_reader.cc:217-239 | A section tells of a function without a name if and only if an entry that starts a function has a name that is empty or begins with a colon. |
| `StabsNameless.NamelessExample` | trunk/src/common/stabs_reader.cc:217-239 | A section that tells of one. |
| `StabsReaders.StabsReader.SymbolString` | trunk/src/common/stabs_reader.cc:77-87 | The name of the entry, or the null string with a warning when its offset is outside the string section. |
| `StabsReaders.StabsReader.ProcessFunction` | trunk/src/common/stabs_reader.cc:217-294 | Tells exactly what the section says of the function, or stops at the refused event; it always moves on. |
| `StabsReaders.StabsReader.ProcessCompilationUnit` | trunk/src/common/stabs_reader.cc:127-215 | The same for a compilation unit, with a directory before it and stray end markers. |
| `StabsReaders.StabsReader.Process` | trunk/src/common/stabs_reader.cc:89-125 | Returns true exactly if the handler accepts all that the section says, which it is then told, to the last entry; otherwise it is told everything up to and with the first event it refuses. |
| `StabsReaders.ToldInOrder` | trunk/src/common/stabs_reader.h:100-108 | Whatever a handler answers, what it is told is a beginning of such an ordered trace. |
| `StabsHeard.KeptIffTold` | trunk/src/common/stabs_to_module.cc:91-134 | After events in order, the functions kept are exactly those told from start to end that do not start below their unit, with exactly the lines told between. |
| `StabsHeard.EachIsKept` | trunk/src/common/stabs_to_module.cc:91-134 | Each of them is kept once, in the order in which they end. |
| `StabsHeard.BoundariesAreMarks` | trunk/src/common/stabs_to_module.cc:69-118 | The boundaries are exactly the starts of units and functions and the known ends. |
| `StabsToModules.StabsToModule.StartCompilationUnit` | trunk/src/common/stabs_to_module.cc:69-78 | Its assertion holds between units; notes the unit's base, file and boundary. |
| `StabsToModules.StabsToModule.EndCompilationUnit` | trunk/src/common/stabs_to_module.cc:80-89 | Its assertion holds in a unit; a zero address is no boundary. |
| `StabsToModules.StabsToModule.StartFunction` | trunk/src/common/stabs_to_module.cc:91-102 | Its assertion holds between functions; a new function without lines, and a boundary. |
| `StabsToModules.StabsToModule.EndFunction` | trunk/src/common/stabs_to_module.cc:104-118 | Its assertion holds in a function; keeps the function unless it starts below its unit. |
| `StabsToModules.StabsToModule.AddLine` | trunk/src/common/stabs_to_module.cc:120-134 | Both assertions hold in a function; the line is filed under its own name's file, cached or not. |
| `StabsToModules.StabsToModule.HearAll` | trunk/src/common/stabs_to_module.cc:69-134 | For events in order no assertion of the handler fails, and what it holds is what the specification notes. |
| `StabsToModules.SectionCanBeHeard` | trunk/src/common/stabs_to_module.cc:69-134 | What the reader tells of any section is in order, ends outside every unit, and has 64-bit addresses. |
| `StabsToModules.UpperBoundIsNext` | trunk/src/common/stabs_to_module.cc:171-173 | The upper bound in the sorted boundaries is the least boundary behind the function's start, if any. |
| `StabsToModules.FunctionsAreApart` | trunk/src/common/stabs_to_module.cc:170-181 | Functions at different addresses do not overlap. |
| `StabsToModules.OnlyTheHighestFallsBack` | trunk/src/common/stabs_to_module.cc:175-181 | Only functions at the one highest address have no boundary behind them and get the fallback size. |
| `StabsFallback.FallsBackOnceIff` | trunk/src/common/stabs_to_module.cc:175-181 | At most one function added has no boundary behind it if and only if at most one function told starts at the greatest address that any event gives. |
| `StabsFallback.FallsBackTwice` | trunk/src/common/stabs_to_module.cc:175-181 | The bytes of a section, read and finalized, leave two functions in the module, both with the fallback size. |
| `StabsToModules.LinesTelescope` | trunk/src/common/stabs_to_module.cc:183-193 | The line sizes that Finalize leaves in a function add up, modulo 2^64, to its end minus its first line's address. |
| `StabsToModules.SizedLineEnds` | trunk/src/common/stabs_to_module.cc:188-192 | A line that does not start behind the end reaches just to the next line, or to the end. |
| `StabsToModules.SizeInOrder` | trunk/src/common/stabs_to_module.cc:187-192 | The loop over the lines in order gives each the size up to the next, and the last up to the end. |
| `StabsToModules.FinalizeFunction` | trunk/src/common/stabs_to_module.cc:169-193 | The function gets its size, and its lines are stably sorted and sized. |
| `StabsToModules.StabsToModule.Finalize` | trunk/src/common/stabs_to_module.cc:159-199 | All functions heard, in address order, each with its size and its lines sorted and sized, go to the module, which keeps the first of each address and name; a name that is empty stops the program. |
| `StabsToModules.FinalFunctions` | trunk/src/common/stabs_to_module.cc:159-199 | Functions so finished have positive sizes, no boundary inside them, and lines that add up to what lies behind the first; those at different addresses are apart. |
| `StabsToModules.AddSection` | trunk/src/common/stabs_to_module.h:85-92 | Hearing all that a section tells and finalizing: all functions told are sized and sorted, and the module has the first of each address and name. |
| `StabsPipeline.ReadStabs` | trunk/src/common/stabs_reader.h:100-108 | From the bytes of any section to the module: the functions the section tells of, whole, apart when at different addresses, and the first of each address and name in the module. |
| `StabsPipeline.StopsIff` | trunk/src/common/module.cc:76-92 | The assertion on names stops the program if and only if a function is told of whose demangled name is empty. |
| `StabsStops.ReadingStopsIff` | trunk/src/common/module.cc:76-92 | When only the empty symbol is demangled to nothing, reading the bytes of any section stops the program if and only if an entry that starts a function, not below its unit, has a name that is empty or begins with a colon. |
| `StabsStops.StopsTheProgram` | trunk/src/common/module.cc:76-79 | The bytes of a section for which the assertion fails. |
| `ModuleFunctions.Module.AddFunction` | trunk/src/common/module.cc:76-86 | A function without a name stops the program; one whose address and name are there already is deleted; any other is added. |
| `ModuleFunctions.Module.AddFunctions` | trunk/src/common/module.cc:88-92 | The same for a sequence of functions, in their order. |
| `ModuleFunctions.FirstIsEntered` | trunk/src/common/module.cc:76-92 | For each address and name the module keeps what it had, or else what comes first, and nothing else. |
| `ModuleFunctions.NoneIsLost` | trunk/src/common/module.cc:76-92 | Each function is either added or deleted. |
| `CfiRules.WordsOfJoined` | trunk/src/processor/cfi_frame_info.cc:132-157 | Taking apart words joined by single spaces gives the words. |
| `CfiRules.NextToken` | trunk/src/processor/cfi_frame_info.cc:132-157 | strtok_r hands out the next word and keeps the rest. |
| `CfiRules.CFIRuleParser.Report` | trunk/src/processor/cfi_frame_info.cc:161-167 | Hands a rule on to the right place if it has a name and an expression, and fails if not. |
| `CfiRules.CFIRuleParser.Parse` | trunk/src/processor/cfi_frame_info.cc:122-159 | Accepts exactly the grammatical rule sets, those that are some rules written out; what was handed on is applied in order, and all of it if the set is accepted. |
| `CfiSerialize.WrittenIsInjective` | trunk/src/processor/cfi_frame_info.cc:122-159 | A list of words is that of at most one list of rules, so parsing is unambiguous. |
| `CfiSerialize.TextIsJoined` | trunk/src/processor/cfi_frame_info.cc:100-120 | The text written for rules is their words with single spaces between them. |
| `CfiSerialize.Serialize` | trunk/src/processor/cfi_frame_info.cc:100-120 | The text of the .cfa, .ra and register rules that are there, in that order. |
| `CfiSerialize.AppliedIsWellFormed` | trunk/src/processor/cfi_frame_info.cc:161-180 | Rules handed on leave a frame info that is not empty if there were any, with expressions of words and no .cfa or .ra among the registers. |
| `CfiSerialize.SerializedIsParsedBack` | trunk/src/processor/cfi_frame_info.cc:100-167 | What is written of a well-formed frame info is grammatical, and any rules it is the words of give that frame info. |
| `CfiSerialize.Reparse` | trunk/src/processor/cfi_frame_info.cc:100-167 | For any rule set accepted into a fresh frame info, parsing what Serialize writes succeeds and gives the same frame info again. |
| `CfiRules.WrittenIsHandedOn` | trunk/src/processor/cfi_frame_info.cc:122-159 | All rules of a rule set that is some rules written out are handed on, in order. |
| `CText.HexIsRead` | trunk/src/processor/basic_source_line_resolver.cc:431-433 | A number printed in base 16 is what strtoul reads. |
| `CfiLines.LineIsRead` | trunk/src/processor/basic_source_line_resolver.cc:416-449 | The text of a record is taken apart into the record again, unless it has no rules. |
| `CfiLines.LinesAreThere` | trunk/src/processor/basic_source_line_resolver.cc:76-92 | Splitting a text of lines at line ends gives the lines that were written. |
| `CfiRecords.WriteRuleMap` | trunk/src/common/module.cc:193-201 | The stream is given any rules, in the map's order, as far as it takes them; the result says whether it took all. |
| `CfiRecords.WriteStackRecords` | trunk/src/common/module.cc:258-283 | The stream is given the text of an INIT record for each entry and one record for each change, with hexadecimal addresses relative to the load address, as far as it takes it; the result is true if and only if there was nothing to write or the stream took all but, at most, the last line end. |
| `CfiRecords.UnnoticedIff` | trunk/src/common/module.h:258-266 | That result is true on a stream that has failed if and only if its room ends just before the last line end, or nothing was written and it had failed before. |
| `CfiRecords.LastLineEndIsLost` | trunk/src/common/module.cc:258-283 | One entry, written to a stream with room for 26 characters: the result is true and the stream has failed. |
| `CfiRecords.TextIsLines` | trunk/src/common/module.cc:258-283 | That text is one line for each record. |
| `CfiRecords.SetDeltaIsRight` | trunk/src/processor/basic_source_line_resolver.cc:446-448 | The delta map gains the rule at its address, in place of any that was there. |
| `CfiRecords.AllLoadIfRules` | trunk/src/common/module.cc:258-283 | The records of any entries are all accepted if and only if no rule map is empty. |
| `CfiResolver.TextLoadsIfRules` | trunk/src/common/module.cc:258-283 | The text written of any entries without line ends in their rules is accepted if and only if no rule map is empty. |
| `CfiResolver.EmptyRulesAreRefused` | trunk/src/processor/basic_source_line_resolver.cc:431-446 | One entry with an empty rule map is written whole and refused. |
| `CfiRecords.SoundEntriesLoad` | trunk/src/common/module.cc:258-283 | For disjoint entries whose changes lie in their ranges and that do not wrap, loading what is written loses nothing and adds nothing. |
| `CfiResolver.ResolverModule.ParseCFIFrameInfo` | trunk/src/processor/basic_source_line_resolver.cc:416-449 | Any line: refused if a field is missing, or else loaded into the range map, if its range can be stored, or into the delta map. |
| `CfiResolver.LoadText` | trunk/src/processor/basic_source_line_resolver.cc:80-140 | Any text is loaded line by line up to the first line that is refused: a record by its parser, a STACK line of an unknown kind always, and any other line as its own parser decides. |
| `CfiLines.KindOfRecord` | trunk/src/processor/basic_source_line_resolver.cc:360-407 | The line of a record is found to be one, and its arguments are handed on. |
| `CfiResolver.LinesLoad` | trunk/src/processor/basic_source_line_resolver.cc:80-97 | Loading the lines of records is loading the records. |
| `CfiResolver.ChangesAreTogether` | trunk/src/processor/basic_source_line_resolver.cc:257-265 | The changes of an entry stand together in the delta map, from the lower bound of its base on, in order. |
| `CfiResolver.ApplyDeltas` | trunk/src/processor/basic_source_line_resolver.cc:261-265 | The loop parses the delta rules one by one up to the frame's address, whether or not they are accepted. |
| `CfiResolver.ResolverModule.FindCFIFrameInfo` | trunk/src/processor/basic_source_line_resolver.cc:236-268 | For whatever has been loaded: the initial rules that cover the address, changed by the delta rules up to there; none exactly if there are no such initial rules or they do not parse. |
| `CfiResolver.RulesAreInForce` | trunk/src/common/module.h:136-153 | When sound entries have been loaded, that is the initial rules of the entry that covers the address, overridden by all its changes at addresses up to and including it; none exactly if no entry covers it. |
| `CfiResolver.WrittenIsInForce` | trunk/src/common/module.h:136-153 | The text written of sound entries is loaded whole, and the rules found at any address are then those in force. |
| `CfiResolver.WriteLoadFind` | trunk/src/common/module.h:136-153 | Writing any entries to a stream that does not fail, loading the text and asking at an address gives the rules that the text says, when it is accepted. |
| `CfiResolver.WriteLoadFindSound` | trunk/src/common/module.h:136-153 | For sound entries and a stream that does not fail these are the rules in force: the initial rules of the entry that covers the address, overridden by all its changes up to there, and none exactly if no entry covers it. |
| `PageAllocators.PagesFor` | trunk/src/common/memory.h:82-83 | The pages for some bytes: as many as are needed and no more. |
| `PageAllocators.AskedIs` | trunk/src/common/memory.h:82-98 | The 32-bit product of page size and pages overflows if and only if block and header take more than 2^32 less a page; it is then 0, or one page when they take more than 2^32. |
| `PageAllocators.InsideIffFit` | trunk/src/common/memory.h:82-91 | A block behind the header of new pages lies in them if and only if that product does not overflow. |
| `PageAllocators.ChainStays` | trunk/src/common/memory.h:106-121 | Where the headers are as they were, the chain through memory is. |
| `PageAllocators.NewIsApart` | trunk/src/common/memory.h:84-91 | A block in new pages is apart from every block before. |
| `PageAllocators.BytesAreClear` | trunk/src/common/memory.h:54-132 | A byte of a block is in mapped memory, in no page header and in no other block. |
| `PageAllocators.ClientWrites` | trunk/src/common/memory.h:54-132 | Whatever a client writes inside its block, every header, every other block and the chain stay as they were. |
| `PageAllocators.PageAllocator.GetNPages` | trunk/src/common/memory.h:95-112 | Writes a header in the new pages, which becomes the head of the chain, and writes nothing else; no pages and null when the product is 0 or the kernel gives none. |
| `PageAllocators.PageAllocator.AllocHere` | trunk/src/common/memory.h:71-80 | A block from the rest of the current page, and what is left of it; the page is given up when full. |
| `PageAllocators.PageAllocator.AllocPages` | trunk/src/common/memory.h:82-91 | A block behind the header of new pages; the rest of the last one becomes the current page, if there is any. The allocator stays valid if and only if the product does not overflow or null is returned. |
| `PageAllocators.PageAllocator.Alloc` | trunk/src/common/memory.h:67-92 | For any size: when null is returned, where the block is, what is mapped, that every byte of old blocks and headers stays, and that the block lies in its pages and the allocator stays valid (all blocks ever returned disjoint, in mapped pages, clear of headers) if and only if the product does not overflow. |
| `PageAllocators.BlockInOnePage` | trunk/src/common/memory.h:82-91 | For 0xFFFFFFFF bytes and pages of 4096 one page is mapped, the block does not lie in it, and the allocator is no longer valid. |
| `PageAllocators.NoBlock` | trunk/src/common/memory.h:82-86 | For 0xFFFFFF00 bytes null is returned, wherever the kernel has room. |
| `PageAllocators.PageAllocator.FreeAll` | trunk/src/common/memory.h:114-121 | Following the headers in memory unmaps each mapping once, the newest first, also after a size that overflowed. |
| `WastefulVectors.WastefulVector.constructor` | trunk/src/common/memory.h:141-146 | For any size hint: an empty vector, valid if and only if the hint is 0 or the allocator has a block of the whole size; all other blocks and the headers stay as they were. |
| `WastefulVectors.WastefulVector.PushBack` | trunk/src/common/memory.h:148-152 | Goes well if and only if there is room or the allocator has a block for twice as much; then there is one element more at the end, and every other block and every header stays as it was. |
| `WastefulVectors.WastefulVector.Resize` | trunk/src/common/memory.h:158-174 | Goes well if and only if there is room or 32-bit doubling comes to a size for which there is a block; then the elements that remain, and copies of the given one behind them, with every other block and every header as it was. |
| `WastefulVectors.NeverEnough` | trunk/src/common/memory.h:164-167 | What is not enough after 32 doublings in 32 bits never is, so the loop does not end. |
| `WastefulVectors.WastefulVector.Realloc` | trunk/src/common/memory.h:185-191 | Goes well if and only if the new size holds what is used and the allocator has a block for it: then the same contents there, and every old block, the vector's own among them, as it was. |
| `WastefulVectors.PushBackBeside` | trunk/src/common/memory.h:134-197 | Of two vectors on one allocator one gets an element more, unless that cannot go well, and the other keeps its contents. |

## Left out

- LineSweep.Step: the choice among functions or lines with equal addresses that the sort leaves open is fixed to their old order; with disjoint items there are none.
- LineSweep.DwarfCUToModule.AssignLinesToFunctions: which pieces and which warnings come out when items overlap is not stated, only that the assertions hold, the loop ends soon and every piece is a part of its function that some line covers.
- ContainedRangeMaps.ContainedRangeMap.StoreRange: a map not yet allocated and an empty one are the same.
- MapSerializer.Write: keys, values and entries come as the bytes their own serializers write; the host is little-endian; addresses have eight bytes.
- MapSerializer.DecodeEncode: for less than 2^32 bytes in all, which is what the 32-bit offsets can address.
- StaticMap.RetrieveRange: an entry of no bytes, which the source hands out as a null pointer, is no bytes here.
- LinkedPtrs.LinkedPtr.Release: for a sole owner, which its comment requires.
- LinkedPtrs.LinkedPtr.constructor: for an object that no live pointer has; LinkedPtrRuns demands that raw pointers be captured once and not again.
- LinkedPtrs.LinkedPtr.Assign: pointers of one type; the link, a field of its own in the source, is part of the pointer here.
- Md5.MD5Context.Update: for less than 2^32 bytes at a time, the range of its parameter; the host is little-endian.
- Md5.MD5Context.Final: the block transform's 64 rounds are a parameter, and clearing the context afterwards is left out.
- UtfBuffers.ConvertUTF32toUTF16: UTF-32 units have 32 bits.
- UtfBuffers.ConvertUTF8toUTF32: the cases for five and six bytes and the branches for surrogates and too large values, which ConvertUtf.LegalDecodesToScalar shows are never taken.
- ByteCursors.ByteCursor.Read: a result type that is signed and narrower than the number read, whose conversion C leaves to the compiler, is cut off to its low bits.
- StabsReaders.StabsReader.Process: the build without Mach-O, so no exported symbols; the string section is not empty and ends in a NUL, without which strlen would run past it.
- StabsReaders.StabsReader.SymbolString: a name is its position in the string section, as pointers there are in the source.
- StabsToModules.StabsToModule.StartFunction: demangling and Module::FindFile are parameters.
- ModuleFunctions.Module.AddFunctions: a map by address and name stands for the std::set, whose comparison looks at just these; its order is left out.
- CfiSerialize.Serialize: the order of the registers is a parameter that lists each once.
- CfiRecords.WriteStackRecords: the rest of the symbol file, before these records, is whatever the stream holds.
- CfiResolver.LoadText: whether the parsers for other lines accept one is a parameter, by its number; a line that ends right behind its platform, where ParseStackInfo reads on in what follows, counts as one of these; the text has no NUL in it; a long has 64 bits.
- PageAllocators.PageAllocator.Alloc: where the kernel maps pages, or that it does not, is a parameter; 64-bit headers; the page size is a power of two.
- PageAllocators.PageAllocator.FreeAll: the memory is not used afterwards.
- WastefulVectors.WastefulVector.PushBack: what the program does after it has gone on without a block.
- Module::AssignSourceIds, the FILE, FUNC and PUBLIC records, and Language names.
- DwarfLineToModule::DefineDir and DefineFile, and path joining: easy members.
- CFIFrameInfo::FindCallerRegs and postfix evaluation.
- StaticMap::find and upper_bound, which are the search of lower_bound again, and the rest of the fast resolver.
- StabsToModule::Extern and Demangle.
- Reading and printing minidumps, exception names, the disassembler and exploitability scoring.
- The wrappers in string_conversion.cc, the minidump file writer, binarystream, AddressMap and logging.
