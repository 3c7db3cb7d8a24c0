# Profiling, demand paging and register access, modelled and proved

This project models, in Dafny, the parts of a RISC-V core repository whose behaviour depends on
state that is updated step by step, and proves what that state means.

- **Call-graph profiler.** `ArcTable` describes calls and ticks as plain lists of arcs and proves what
  a whole run records. `LinkedArcs` and `Gprof` hold the same lists in the arrays `froms`, `tos` and
  `kcount`, with links, move-to-front and bump allocation, and prove that every operation on the
  arrays is the operation on the lists. `GmonFile` reads the collected image back. `GprofSession` puts
  these together: whole sessions of calls, ticks and collections from boot, ending in one theorem
  about what is collected, to memory, file or console.
- **Console dumps and the log parser.** `HexDump`, `LogParser`, `DumpRoundTrip` and `DumpNames` cover
  printing bytes, the line-by-line parser, and when exactly parsing undoes printing. `Gcda`, `GcovWriter` and
  `GcovDump` cover the coverage image, its two-pass writer and the dump of the object list, ending in
  one theorem from counters in memory to counters read out of the recreated file.
- **Demand pager.** `Lfsr`, `PageTables`, `PagedMemory`, `PagerState`, `Pager` and `PagerTest` cover the
  boot page tables and their Sv39 walk, the free list in shift-register order, the fault handler,
  user accesses, eviction, and whole tests from boot to the environment call.
- **Concurrency and hardware registers.** `CompareAndSwap` (LR/SC retry loops of any number of
  harts), `NestedInterrupts` (trap registers under any nesting), and `WideCounter` (64-bit registers
  reached by halves).
- **Encoders, decoders, loops.** `Pmp`, `Pma`, `BitLoops`, `CString`, `Loader`, on the bit-level
  definitions in `Bits` and the byte-level ones in `Bytes`.

Code that updates state is modelled as classes and methods with loops; each method is proved against
a function on plain values, and the properties of those functions are the lemmas. `dafny verify
dfyconfig.toml` checks everything.

Where the code does not keep what it promises, the model follows the code, and the exact condition is
proved:

- `_mcount` and a buffer kept from an early collection: `GprofSession.GoesWrongIff`, with
  `Gprof.RangeCheckAdmitsOneTooMany` and `GprofSession.EarlyCollectOverruns`.
- File names in dumps: `DumpNames.DumpParsesIff`, with `DumpNames.NamesAreLost`.
- Length words of the coverage file and fields of the profile: `Gcda.ReadFileBackIff`,
  `GmonFile.ReadImageBackIff`.
- Kernel data in home pages: `riscv-tests/env_origs/v/link.ld.S` links the kernel's tables and lists
  into the first sixteen or so home pages, so a test that only reads the page of the user table fails
  the assertion on the dirty bit. `PagerTest.RunTest` and `PagerTest.LoadFromTable` take the placement
  as a parameter.
- `evict` does not write a dirty page back: it copies the home page over the frame, and
  `Pager.Pager.UserEcall` states what that does to memory.
- PMP regions above 2^57 bytes on 64-bit machines, PMA sizes, torn counter reads:
  `Pmp.RegionBackIff`, `Pma.RegionBackIff`, `WideCounter.ReadingHeldIff`.
- Segments that overrun their window, and the order of loading: `Loader.FitsIffTranslated`,
  `Loader.OrderFreeIff`.

## Model

| member | source | states |
|---|---|---|
| `ArcTable.RunRecordsEverything` | nuclei-sdk/Components/profiling/gprof.c:270-376 | After any run of calls and ticks with fewer distinct arcs than the limit, every chain holds one entry per callee called from its four-byte group with the exact number of calls, pairs never called have none, every counter holds its ticks modulo 2^16, and the entries handed out are as many as there are arcs |
| `ArcTable.OverflowFreezes` | nuclei-sdk/Components/profiling/gprof.c:306-309 | With too many arcs there is one call, the first that would need entry number `tolimit`, after which nothing is recorded any more; everything up to it is recorded exactly |
| `ArcTable.OverflowIffTooManyArcs` | nuclei-sdk/Components/profiling/gprof.c:369-375 | The profiler ends in the error state exactly when the run has at least `tolimit` distinct arcs; the link field never exceeds `tolimit` |
| `ArcTable.RunRecordsKept` | nuclei-sdk/Components/profiling/gprof.c:270-376 | After any run at all the table is that of the longest beginning whose arcs fit, recorded exactly; the state word tells whether that is the whole run |
| `ArcTable.ChainsAreRecent` | nuclei-sdk/Components/profiling/gprof.c:355-367 | In every reachable table, after an overflow too, each chain lists its callees from the latest called to the earliest of the recorded part |
| `ArcTable.ArcCalledOften` | nuclei-sdk/Components/profiling/gprof.c:293-376 | An arc is in the set of arcs of a run exactly when it was called at least once, equivalently when it has a last call |
| `ArcTable.SplitIndexIsExact` | nuclei-sdk/Components/profiling/gprof.c:150-159 | The split product of the 64-bit index computation is the plain one, at every scale and every pc |
| `ArcTable.SampleIndexBracketsPc` | nuclei-sdk/Components/profiling/gprof.c:161-164 | With the scale of start-up every pc of the text has counter (pc - lowpc) / 4, in bounds, and the address of that counter is within four bytes below the pc |
| `ArcTable.SampleCountsSlot` | nuclei-sdk/Components/profiling/gprof.c:515-527 | A tick in the text raises the counter of its four bytes by one modulo 2^16, with either index form, and nothing else |
| `ArcTable.ExportIsExact` | nuclei-sdk/Components/profiling/gprof.c:473-501 | Without overflow the exported arcs are exactly the called (group, callee) pairs with their counts, call sites rounded down to four bytes, and the counts sum to the accepted calls |
| `ArcTable.SiteIsRoundedDown` | nuclei-sdk/Components/profiling/gprof.c:478-479 | The call site of an exported record is that of the call, rounded down to four bytes |
| `ArcTable.ExportedOnceCalled` | nuclei-sdk/Components/profiling/gprof.c:474-501 | A record of a call-site group and a callee is exported exactly when its count is the number of calls of that arc and is not zero |
| `LinkedArcs.InsertKeepsShape` | nuclei-sdk/Components/profiling/gprof.c:302-316 | Linking a new entry at the head of a chain keeps all chains acyclic, disjoint, with distinct callees and using exactly the entries handed out, and prepends one entry to that chain only |
| `LinkedArcs.MoveKeepsShape` | nuclei-sdk/Components/profiling/gprof.c:355-366 | Moving an entry to the front by three link assignments keeps the same shape; its chain becomes the touched chain and no other chain changes |
| `Gprof.StartupSizes` | nuclei-sdk/Components/profiling/gprof.c:207-268 | What profiling starts with: one counter and one chain head per four bytes of rounded text, an arc limit between 50 and 65534 (so links fit 16 bits), and half scale whenever there is text |
| `Gprof.StartupLimits` | nuclei-sdk/Components/profiling/gprof.c:217-226 | The range is that of the program rounded outwards to four bytes; the arc limit is two hundredths of its size rounded down, at least 50 and at most 65534, with the product taken modulo the word |
| `Gprof.CapacityHolds` | nuclei-sdk/Components/profiling/gprof.c:425 | The buffer size is that of one header, all counters and `tolimit` arc records |
| `Gprof.StartupIsFresh` | nuclei-sdk/Components/profiling/gprof.c:237-246 | The tables of start-up record nothing |
| `Gprof.RangeCheckAdmitsOneTooMany` | nuclei-sdk/Components/profiling/gprof.c:295-301 | An offset has a chain head exactly when it is less than the text size; the check made lets through exactly one offset without one, because it uses `>` where `>=` is needed |
| `Gprof.Gmon.Monstartup` | nuclei-sdk/Components/profiling/gprof.c:207-268 | Success leaves tables that hold the fresh profile, switched on; failed allocation leaves none and the error state |
| `Gprof.Gmon.AddArc` | nuclei-sdk/Components/profiling/gprof.c:302-316 | The arrays after the new entry hold the profile of the plain-map call; when the entry number reaches the limit nothing but the count of entries changes |
| `Gprof.Gmon.CountAndMove` | nuclei-sdk/Components/profiling/gprof.c:353-367 | Counting and moving an entry in the arrays is the plain-map call of its callee |
| `Gprof.Gmon.Traverse` | nuclei-sdk/Components/profiling/gprof.c:302-368 | The walk along the links ends, and whatever way it ends the arrays hold the profile of one plain-map call |
| `Gprof.Gmon.Mcount` | nuclei-sdk/Components/profiling/gprof.c:270-376 | One `_mcount` is one call on the plain map, ignored when not switched on or outside the text; the very first creates the tables or fails for good; it reaches outside the chain heads exactly when recording from the first address past the text |
| `Gprof.Gmon.GprofSample` | nuclei-sdk/Components/profiling/gprof.c:515-527 | One `gprof_sample` is one tick of the plain profile; outside the text or switched off it changes nothing |
| `Gprof.Gmon.GprofCollect` | nuclei-sdk/Components/profiling/gprof.c:397-513 | Buffer, file and console receive the same image of header, counters and arcs; exact failure cases; a new buffer has the capacity of the tables and holds the image, a kept one is overrun exactly when the image is larger; profiling is stopped and nothing recorded is lost |
| `GprofSession.SessionIsRun` | nuclei-sdk/Components/profiling/gprof.c:270-527 | Any session of calls, ticks and collections from boot leaves the table of the plain run over the events from the first call to the first collection after it; a kept buffer has the size of the tables, or of the header alone if it was allocated before the first call |
| `GprofSession.RunTableRecords` | nuclei-sdk/Components/profiling/gprof.c:270-376 | The table of any such session records exactly the observed events that fit, tells by its state whether all did, and has its chains in order of recency |
| `GprofSession.GoesWrongIff` | nuclei-sdk/Components/profiling/gprof.c:295-431 | A session reaches outside its memory in exactly two ways: a call from the first address past the text while recording, and a collection into a buffer kept from before the first call when there is any text |
| `GprofSession.RunSession` | nuclei-sdk/Components/profiling/gprof.c:207-527 | Every session from boot, run through the arrays, is the session on plain values, up to the first act that reaches outside; once there was a call the arrays record exactly the observed events that fit, tell by the state whether all did, and keep their chains in order of recency |
| `GprofSession.ProfileProgram` | nuclei-sdk/Components/profiling/gprof.c:207-527 | A program profiled from boot and collected at the end: collecting fails exactly with too many arcs; otherwise buffer, file or console receive the exact record of the calls since the first, and a reader of the image gets it back when the numbers fit their fields |
| `GprofSession.EarlyCollectOverruns` | nuclei-sdk/Components/profiling/gprof.c:422-431 | Collect, call, collect: the second image is larger than the buffer kept from the first, for every program with text |
| `GmonFile.ReadImageBackIff` | nuclei-sdk/Components/profiling/gprof.c:449-501 | From the collected bytes a reader recovers the text range, every counter and every arc exactly when each number fits its field: a word for addresses and call counts, 32 bits for the length |
| `GmonFile.AHeader` | nuclei-sdk/Components/profiling/gprof.c:449-454 | The header of a concrete text, byte for byte |
| `Gprof.ImageFits` | nuclei-sdk/Components/profiling/gprof.c:422-431 | The collected image never exceeds the buffer of header, counters and `tolimit` arcs |
| `Gprof.EarlyBufferFitsIffNoText` | nuclei-sdk/Components/profiling/gprof.c:422-431 | A buffer of the size of the header holds an image exactly when there is no text |
| `Gprof.ConsoleDumpIsFile` | nuclei-sdk/Components/profiling/gprof.c:439-512 | The console dump, whatever log precedes it, is parsed back to `gmon.out` with the bytes the file interface writes |
| `HexDump.HexDumpBuf` | nuclei-sdk/Components/profiling/gcov.c:393-408 | The loops print the buffer as lines of at most twenty bytes, two hex digits each |
| `HexDump.HexLinesLayout` | nuclei-sdk/Components/profiling/gcov.c:399-407 | Byte i is printed after two digits for each byte before it and one line break for every twenty; a break follows every twentieth byte and the last, and no other |
| `HexDump.HexByteIs` | nuclei-sdk/Components/profiling/gcov.c:402 | A byte is two lower-case digits, the high half first |
| `LogParser.GenerateBinaryFromLog` | nuclei-sdk/Components/profiling/parse.py:36-84 | The loop over lines with its three variables is the fold of the line transitions over the log |
| `DumpRoundTrip.FromHexRoundTrip` | nuclei-sdk/Components/profiling/parse.py:71-73 | Reading back printed hex digits gives the bytes |
| `DumpRoundTrip.PiecesParse` | nuclei-sdk/Components/profiling/parse.py:65-67 | The hex collected from printed buffers is that of their concatenation, however the bytes were split over calls |
| `DumpRoundTrip.NameSurvivesIff` | nuclei-sdk/Components/profiling/parse.py:60-63 | The two strips give a name back exactly when it is not empty, has no outer white space and does not end in a character of `CREATE:` |
| `DumpRoundTrip.DumpParses` | nuclei-sdk/Components/profiling/parse.py:36-84 | After any log, parsing any dump of files with good names yields exactly those files, each with the concatenation of its buffers, and an idle parser |
| `DumpRoundTrip.BrokenSectionIsSkipped` | nuclei-sdk/Components/profiling/parse.py:70-84 | A section with a stray line, whose hex therefore does not parse, leaves the files as they were, and what follows is read as if it had not been there |
| `DumpRoundTrip.NothingOutsideDumps` | nuclei-sdk/Components/profiling/parse.py:41-67 | Outside a dump lines without marker and file name change nothing |
| `DumpRoundTrip.PrintedTexts` | nuclei-sdk/Components/profiling/gcov.c:433-449 | The texts around and between the files of both dumps, literally |
| `DumpRoundTrip.MarkerExamples` | nuclei-sdk/Components/profiling/parse.py:25-26 | Lines that match the start and end patterns and lines that nearly do |
| `DumpRoundTrip.FromHexExamples` | nuclei-sdk/Components/profiling/parse.py:73 | White space is accepted between pairs of digits only, and digits must pair up |
| `DumpNames.DumpParsesIff` | nuclei-sdk/Components/profiling/parse.py:36-84 | A dump leaves exactly the files it names, with their contents, if and only if every name is on one line, contains neither marker, has no outer white space, is not empty and does not end in a character of `CREATE:` |
| `DumpNames.FileSurvivesIff` | nuclei-sdk/Components/profiling/parse.py:36-84 | The same for a dump of one file |
| `DumpNames.NamesAreLost` | nuclei-sdk/Components/profiling/parse.py:46-63 | One name for each way to fail, lost in every dump between every pair of markers |
| `DumpRoundTrip.MarkersRecognised` | nuclei-sdk/Components/profiling/parse.py:25-26 | The start and end lines both profilers print are recognised as what they are and not as the other |
| `DumpRoundTrip.RecreatedExactly` | nuclei-sdk/Components/profiling/parse.py:76-77 | With distinct names every file has its own bytes and no other file is touched |
| `GcovWriter.StoreU32` | nuclei-sdk/Components/profiling/gcov.c:237-247 | Stores the number at the offset and nothing else, or nothing without a buffer; always reports four bytes |
| `GcovWriter.StoreU64` | nuclei-sdk/Components/profiling/gcov.c:261-273 | Stores the low half, then the high half; always reports eight bytes |
| `GcovWriter.PutCounters` | nuclei-sdk/Components/profiling/gcov.c:312-330 | The records of one function follow each other without gaps, the k-th active type taking the k-th array of values |
| `GcovWriter.ConvertToGcda` | nuclei-sdk/Components/profiling/gcov.c:282-334 | The sizing pass and the writing pass return the same size; the writing pass fills exactly that much with the image and leaves the rest of the buffer alone |
| `Gcda.CounterLengthExactIff` | nuclei-sdk/Components/profiling/gcov.c:321-322 | The 32-bit length word is right exactly for fewer than 2^29 values (GCC 12 and later) or 2^31 values |
| `Gcda.FunctionLength` | nuclei-sdk/Components/profiling/gcov.c:305-310 | The length word of a function record is the number of words to the next tag, in units |
| `Gcda.ImageStarts` | nuclei-sdk/Components/profiling/gcov.c:291-299 | Every image starts with the bytes of the magic number, version and stamp, and from GCC 12 on a zero checksum |
| `Gcda.RecordHeads` | nuclei-sdk/Components/profiling/gcov.c:304-322 | The words of record heads for both GCC formats: tag, length and, for functions, identity and checksums |
| `Gcda.ValueBytes` | nuclei-sdk/Components/profiling/gcov.c:261-273 | A counter value is laid out as its eight bytes, lowest first |
| `Gcda.LongCounterAnnouncedEmpty` | nuclei-sdk/Components/profiling/gcov.c:321-322 | 2^29 values are announced as none |
| `Gcda.ReadFunctionsBack` | nuclei-sdk/Components/profiling/gcov.c:301-331 | A reader that steps over records by their length words recovers all function and counter records exactly when all length words hold their lengths |
| `Gcda.ReadFileBackIff` | nuclei-sdk/Components/profiling/gcov.c:282-334 | From the bytes of the image a reader of tags and lengths recovers version, stamp, identities, checksums and every 64-bit counter exactly when all length words hold their lengths |
| `GcovDump.DumpInfo` | nuclei-sdk/Components/profiling/gcov.c:411-431 | Sizing, writing and printing one object file prints its image and its name |
| `GcovDump.Registry.Link` | nuclei-sdk/Components/profiling/gcov.c:189-193 | The list gets the object at its front and keeps the others in order |
| `GcovDump.Registry.Dump` | nuclei-sdk/Components/profiling/gcov.c:433-449 | Prints nothing for an empty list, otherwise one section per object in list order between the markers |
| `GcovDump.CoverageSurvives` | nuclei-sdk/Components/profiling/gcov.c:393-449 | From counters in memory through console, log parser and file reader every counter of an object is back, whatever else was dumped or logged |
| `Lfsr.NextIsLfsrNext` | riscv-tests/env_origs/v/riscv_test64.h:47-48 | The six-bit shift with feedback is `LFSR_NEXT` on numbers |
| `Lfsr.NextValueIsMacro` | riscv-tests/env_origs/v/riscv_test64.h:48 | `LFSR_NEXT` with its own xor, mask, shifts and or is the number form |
| `Lfsr.PeriodIs63` | riscv-tests/env_origs/v/riscv_test64.h:47-48 | From every start but zero the register returns to it after 63 steps and not before |
| `Lfsr.OrbitDistinct` | riscv-tests/env_origs/v/riscv_test64.h:47-48 | The 63 values from any non-zero start are pairwise different |
| `PageTables.BootTranslation` | riscv-tests/env_origs/v/vm.c:253-270 | The Sv39 walk of the boot tables maps the uppermost megapage to the start of memory, a page of the lowermost megapage by its own entry, and every other address to a fault |
| `PageTables.KernelAddressesTranslate` | riscv-tests/env_origs/v/vm.c:29-31 | `pa2kva` of every physical address of the kernel megapage translates back to it, and `uva2kva` of a user address to the memory that page is loaded from; the entry grants the supervisor, not the user, every access |
| `PagedMemory.LeafWords` | riscv-tests/env_origs/v/vm.c:173-174 | The entry words: page number above ten flag bits, for user pages, the kernel megapage and the branches between tables |
| `PagerState.FramesDistinct` | riscv-tests/env_origs/v/vm.c:306-314 | The frames of two list nodes differ; all lie above the home pages |
| `PagerState.RoomForPage` | riscv-tests/env_origs/v/vm.c:166-170 | While some page is unmapped the free list is not empty |
| `PagerState.MapKeepsInv` | riscv-tests/env_origs/v/vm.c:166-187 | Handing the next frame with a copy of its home to a page keeps the free list a suffix of the nodes, frames disjoint, clean frames equal to homes the kernel leaves alone, and what the user sees |
| `PagerState.KernelKeepsInv` | riscv-tests/env_origs/v/vm.c:104-106 | Whatever the kernel writes into its own home pages keeps the same, and what the user sees elsewhere |
| `PagerState.EvictedPage` | riscv-tests/env_origs/v/vm.c:126-133 | At eviction a clean frame equals its home if the kernel leaves that alone; the frame of the page that holds the user table never does |
| `PagerState.FlagKeepsInv` | riscv-tests/env_origs/v/vm.c:155-164 | Setting an accessed or dirty bit keeps the same and what the user sees |
| `PagerState.StoreKeepsInv` | riscv-tests/env_origs/v/vm.c:150-190 | A store through a dirty entry changes the page it is meant for and no other |
| `PagerState.AccessGoesThroughIff` | riscv-tests/env_origs/v/vm.c:253-270 | The page walk lets a user access through exactly when the entry of a test page permits it, to the frame of that entry |
| `Pager.Pager.constructor` | riscv-tests/env_origs/v/vm.c:242-321 | Boot establishes the pager invariant with all pages unmapped, and the user sees the home pages, for every placement of the kernel data in them |
| `Pager.Pager.BuildFreeList` | riscv-tests/env_origs/v/vm.c:306-315 | The list chains all nodes in order, their frames in the order of the shift register |
| `Pager.Pager.CopyPage` | riscv-tests/env_origs/v/vm.c:180-183 | The `memcpy` loop over the kernel and user addresses of a page changes the frame of the user page to the contents of its home and no other page |
| `Pager.Pager.HandleFault` | riscv-tests/env_origs/v/vm.c:150-190 | Ends the test exactly for an address outside the test pages or a fault without a reason; otherwise the entry becomes mapped, accessed or dirty, and the user sees the same memory on pages the kernel leaves alone |
| `Pager.Pager.Do` | riscv-tests/env_origs/v/vm.c:150-223 | Every user access of one to eight bytes, straddling two pages or not, succeeds after exactly the faults its entries lack, at most three a page and six in all, and acts as on flat memory on pages the kernel leaves alone |
| `Pager.Pager.RunUser` | riscv-tests/env_origs/v/vm.c:150-223 | In every run of user loads, stores and fetches each byte read on a page the kernel leaves alone is that of flat memory, so is the memory at the end, and the entries tell which pages were touched and stored to |
| `Pager.Pager.Evict` | riscv-tests/env_origs/v/vm.c:121-148 | Ends the test when the page was mapped but not accessed, or is the clean page of the user table; does not for any other settled page that is dirty or left alone by the kernel; the frame then holds its home again and the node of the page is the last of the free list |
| `Pager.Pager.Queue` | riscv-tests/env_origs/v/vm.c:138-146 | The node is cleared and linked behind the last one, or is the whole list if there was none; no other node changes |
| `Pager.Pager.UserEcall` | riscv-tests/env_origs/v/vm.c:194-204 | No assertion fails in the eviction loop when every page was accessed and every touched page the kernel writes is dirty; one does when the page of the user table is mapped and clean; at the exit code every page left alone by the kernel reads as its home, so what the program stored is gone |
| `Pager.Pager.HandleTrap` | riscv-tests/env_origs/v/vm.c:192-224 | Cause 8 evicts and reports the exit code if every page was accessed and every touched kernel page is dirty, and fails an assertion if a page was not accessed or the user table page is clean; cause 2 ends the test with code 1 exactly for an aligned floating-point probe; causes 12, 13 and 15 resume exactly for an explained fault between 0x1000 and 0x3f000; every other cause fails an assertion |
| `Pager.ExplainedIffNotPermitted` | riscv-tests/env_origs/v/vm.c:155-161 | The handler accepts exactly the page faults the hardware raises: for every entry, those of accesses it does not permit |
| `PagerTest.RunTest` | riscv-tests/env_origs/v/vm.c:121-321 | From boot to environment call, for every program and placement of the kernel data: reads are those of flat memory on pages the kernel leaves alone; the exit code is reported if every touched kernel page is stored to; an assertion fails if the page of the user table is touched without, and only then if no other home page holds kernel data |
| `PagerTest.LoadFromTable` | riscv-tests/env_origs/v/vm.c:132-133 | The failing input: one load from the page of the user table, then the environment call, ends at the assertion on the dirty bit |
| `CompareAndSwap.RunKeepsInv` | nuclei-sdk/NMSIS/Core/Include/core_feature_base.h:2188-2196 | In every interleaving a live reservation vouches for the value read |
| `CompareAndSwap.InstantsExplainMemory` | nuclei-sdk/NMSIS/Core/Include/core_feature_base.h:2183-2198 | The instants of any run, executed one after the other as atomic operations, return what the calls return and leave the same memory |
| `CompareAndSwap.OneInstantPerCall` | nuclei-sdk/NMSIS/Core/Include/core_feature_base.h:2356-2371 | Every completed call has exactly one instant with its own arguments and result, in order, and a call in flight at most one |
| `CompareAndSwap.InstantsOfIsProjection` | nuclei-sdk/NMSIS/Core/Include/core_feature_base.h:2356-2371 | The instants of one hart are what the common log says about it |
| `CompareAndSwap.CallTakesEffectOnce` | nuclei-sdk/NMSIS/Core/Include/core_feature_base.h:2183-2198 | Between invocation and return there is one step at which the call acts: it returns what the word held then and replaces it exactly when that is the old value; all other steps of its hart leave the word alone |
| `CompareAndSwap.AloneCallCompletes` | nuclei-sdk/NMSIS/Core/Include/core_feature_base.h:2188-2196 | A call that nobody disturbs completes with one attempt: it swaps exactly when the word holds the old value, and returns what it held |
| `CompareAndSwap.FailedStoreRetries` | nuclei-sdk/NMSIS/Core/Include/core_feature_base.h:2190-2193 | A store-conditional that fails leaves the word alone and leads back to the load |
| `NestedInterrupts.RunKeepsInv` | nuclei-sdk/NMSIS/Core/Include/core_feature_eclic.h:1344-1370 | In every run, handlers that were interrupted wait in their bodies with everything saved, and the running one is as far as its macro step says |
| `NestedInterrupts.InterruptIsTransparent` | nuclei-sdk/NMSIS/Core/Include/core_feature_eclic.h:1344-1370 | From arrival to return of a handler, with any nesting and any toggling of the interrupt enable in handler bodies, `mcause`, `mepc` and `msubm` at the return are those of the arrival and the interrupted code goes on unchanged |
| `NestedInterrupts.BodyAcceptsInterrupts` | nuclei-sdk/NMSIS/Core/Include/core_feature_eclic.h:1344-1348 | After any interrupt, four steps of its handler alone reach its body, where every further interrupt is accepted |
| `NestedInterrupts.HandlerAloneReturns` | nuclei-sdk/NMSIS/Core/Include/core_feature_eclic.h:1344-1370 | Every interrupt can be handled by handler steps alone, up to the return |
| `NestedInterrupts.AnyDepthIsReached` | nuclei-sdk/NMSIS/Core/Include/core_feature_eclic.h:1344-1348 | Interrupts nest to every depth without any handler setting the enable by hand |
| `NestedInterrupts.EnableFirstReturnsElsewhere` | nuclei-sdk/NMSIS/Core/Include/core_feature_eclic.h:1344-1348 | With the enable before the saves, every interrupt has a run after which its handler returns into itself |
| `NestedInterrupts.NestedHandlerLeavesItsOwn` | nuclei-sdk/NMSIS/Core/Include/core_feature_eclic.h:1344-1348 | After a nested handler the registers describe the interrupted body, which is why the save must precede the enable |
| `WideCounter.ReadingHeldIff` | nuclei-sdk/NMSIS/Core/Include/core_feature_base.h:1058-1071 | The value put together is one the register had during the call unless the low halves went down twice around an unchanged high half within one round |
| `WideCounter.TornTakesARound` | nuclei-sdk/NMSIS/Core/Include/core_feature_base.h:1058-1071 | That cannot happen within 2^64 - 2^32 ticks between first and third read |
| `WideCounter.ATornReading` | nuclei-sdk/NMSIS/Core/Include/core_feature_base.h:1064-1070 | A reading beyond that bound which the counter never had |
| `WideCounter.CountingRegister.Get` | nuclei-sdk/NMSIS/Core/Include/core_feature_timer.h:171-191 | The three or four reads return a value the register had during the call exactly unless the read is torn, so always within 2^64 - 2^32 ticks |
| `WideCounter.CountingRegister.Set` | nuclei-sdk/NMSIS/Core/Include/core_feature_timer.h:149-160 | The register ends as written exactly when no carry reaches the high half between the last two writes, hence always within 2^32 ticks |
| `WideCounter.CompareRegister.SetHartCompareValue` | nuclei-sdk/NMSIS/Core/Include/core_feature_timer.h:206-217 | The register takes the three listed values, none below both old and new, and ends at the new |
| `WideCounter.NoUnjustifiedInterrupt` | nuclei-sdk/NMSIS/Core/Include/core_feature_timer.h:210-214 | At no moment of the update is the interrupt pending unless the old or the new value makes it pending |
| `Pmp.RegionBackIff` | nuclei-sdk/NMSIS/Core/Include/core_feature_pmp.h:269-376 | A region set in any entry is read back, with its mode, exactly when the permissions are one byte, a four-byte region does not ask for NAPOT, the base is aligned and in range, and the order is at most that of the largest region |
| `Pmp.OrderBackIff` | nuclei-sdk/NMSIS/Core/Include/core_feature_pmp.h:303-310 | The order that is read back, for every order and base: the requested one, capped at the largest the address register can describe |
| `Pmp.TooLargeComesBackSmaller` | nuclei-sdk/NMSIS/Core/Include/core_feature_pmp.h:276-310 | On 64-bit machines orders 58 to 64 are accepted and come back as 57 |
| `Pmp.RegionMatches` | nuclei-sdk/NMSIS/Core/Include/core_feature_pmp.h:293-316 | After an entry is set, the hardware, which takes the mode from the byte of that entry, protects exactly the bytes from base to base + 2^order with it |
| `Pmp.OneByteWritten` | nuclei-sdk/NMSIS/Core/Include/core_feature_pmp.h:279-301 | Laid end to end, the configuration registers are a byte string of which setting an entry changes exactly the byte of that number |
| `Pmp.EntryIsByte` | nuclei-sdk/NMSIS/Core/Include/core_feature_pmp.h:339-357 | What is read back for an entry is the byte of that number |
| `Pmp.GoodBaseIff` | nuclei-sdk/NMSIS/Core/Include/core_feature_pmp.h:303-310 | A base round-trips exactly when it is a multiple of the size and below four times the range of the address register |
| `Pmp.OtherRegionsKept` | nuclei-sdk/NMSIS/Core/Include/core_feature_pmp.h:293-316 | Setting an entry leaves what every other entry reads back unchanged, also in a shared configuration register |
| `Pmp.PmpUnit.SetEntry` | nuclei-sdk/NMSIS/Core/Include/core_feature_pmp.h:269-317 | Refused requests change nothing; accepted ones change one address register and one configuration byte to the encoded region |
| `Pmp.PmpUnit.GetEntry` | nuclei-sdk/NMSIS/Core/Include/core_feature_pmp.h:330-376 | Reports -1 for an entry that does not exist, otherwise the decoded region; hangs exactly on an address register of all ones in NAPOT mode |
| `Pma.SizeBackIff` | nuclei-sdk/NMSIS/Core/Include/core_feature_pma.h:102-109 | The size read back for every requested size: the lowest bit of its pages, or the whole address space for none; the requested one exactly for powers of two from a page to the address space |
| `Pma.FieldsBack` | nuclei-sdk/NMSIS/Core/Include/core_feature_pma.h:103-110 | Type and enable flag come back, the base rounded down to a page |
| `Pma.RegionBackIff` | nuclei-sdk/NMSIS/Core/Include/core_feature_pma.h:99-166 | The whole region comes back exactly when its size is such a power of two and its base is page-aligned |
| `Pma.PageMultipleIff` | nuclei-sdk/NMSIS/Core/Include/core_feature_pma.h:101-103 | The bases and sizes that survive are the multiples of 4096 |
| `Pma.RegionMatches` | nuclei-sdk/NMSIS/Core/Include/core_feature_pma.h:92-95 | Under the stored mask an address agrees with the base exactly when it lies in the region |
| `Pma.BaseWordIs` | nuclei-sdk/NMSIS/Core/Include/core_feature_pma.h:103-110 | The base register is the base plus the type plus the enable flag |
| `Pma.PmaUnit.SetRegion` | nuclei-sdk/NMSIS/Core/Include/core_feature_pma.h:99-126 | Refused requests change nothing; accepted ones change one mask and one base register |
| `Pma.PmaUnit.GetRegion` | nuclei-sdk/NMSIS/Core/Include/core_feature_pma.h:139-166 | Reports -1 for an entry that does not exist, otherwise the decoded region |
| `BitLoops.Rbit` | nuclei-sdk/NMSIS/Core/Include/core_compatiable.h:212-225 | The loop puts bit i at bit 31 - i although it ends when the remaining bits are zero |
| `BitLoops.ReversalInvolutive` | nuclei-sdk/NMSIS/Core/Include/core_compatiable.h:212-225 | Reversing twice gives the word back |
| `BitLoops.Clz` | nuclei-sdk/NMSIS/Core/Include/core_compatiable.h:237-246 | The loop counts the zeros above the highest set bit, 32 for zero |
| `BitLoops.Ctz` | nuclei-sdk/NMSIS/Core/Include/core_compatiable.h:257-267 | The loop counts the zeros below the lowest set bit of any non-zero word |
| `BitLoops.LeadingIsTrailingOfReversed` | nuclei-sdk/NMSIS/Core/Include/core_compatiable.h:204-267 | Leading zeros of a word are trailing zeros of its reversal |
| `CString.Memcpy` | riscv-tests/env_origs/v/string.c:5-19 | Word loop and byte loop leave the source bytes at the destination and change nothing else |
| `CString.AllAligned` | riscv-tests/env_origs/v/string.c:7 | The mask test on the or of destination, source and length picks the word loop exactly when all three are multiples of the word size |
| `CString.SpreadBytes` | riscv-tests/env_origs/v/string.c:24-27 | The word made by shifting and or-ing holds the byte in every position, for both word sizes |
| `CString.Memset` | riscv-tests/env_origs/v/string.c:21-38 | Word loop and byte loop fill the range with the low byte of the argument and change nothing else |
| `CString.PatchedElsewhere` | riscv-tests/env_origs/v/string.c:5-38 | Bytes outside a written range are as before |
| `CString.CompareZeroIffEqual` | riscv-tests/env_origs/v/string.c:60-85 | The comparison is zero exactly for equal ranges |
| `CString.FirstDifferenceDecides` | riscv-tests/env_origs/v/string.c:77-82 | Otherwise it is the difference of the first bytes that differ |
| `CString.Memcmp` | riscv-tests/env_origs/v/string.c:60-85 | Skipping equal words before comparing bytes does not change the result, for every alignment and length |
| `Loader.WindowsOccupy` | tb/elf_ini_mem.c:86-105 | The physical range of each of the four windows and the simulated range it is moved to |
| `Loader.TranslateInjective` | tb/elf_ini_mem.c:86-105 | No two physical addresses of the four windows share a simulated address |
| `Loader.FitsIffTranslated` | tb/elf_ini_mem.c:86-105 | Every byte of a segment goes where its own address translates to exactly when the segment ends inside the window it starts in |
| `Loader.LastWriterDecides` | tb/elf_ini_mem.c:172-178 | Simulated memory keeps its contents where no segment writes and otherwise holds the byte of the last segment that does |
| `Loader.EveryByteArrives` | tb/elf_ini_mem.c:172-178 | For disjoint segments inside their windows every byte is at the translated address and all other memory is as before |
| `Loader.OrderFreeIff` | tb/elf_ini_mem.c:172-178 | For any headers at all, every reordering gives the same memory if and only if headers that write a common place bring the same byte there |
| `Loader.OrderDoesNotMatter` | tb/elf_ini_mem.c:172-178 | For disjoint segments inside their windows any order, and any repetition, gives the same memory |
| `Loader.OverrunOverwrites` | tb/elf_ini_mem.c:96-105 | Two disjoint segments, one overrunning its window, for which the order matters |
| `Loader.TestBench.LoadSegment` | tb/elf_ini_mem.c:83-106 | The four branches write the bytes of one segment at its translated place, and nothing for other addresses or sizes of zero and below |
| `Loader.TestBench.LoadAll` | tb/elf_ini_mem.c:172-178 | The loop over program headers leaves the memory of loading them in order |

## Left out

- Gprof.Gmon.Mcount: ends where the code would use a chain head that does not exist, and reports it; what the access does to other memory is not modelled.
- Gprof.Gmon.Monstartup: takes the float scale as 32768 when there is text, because the counter array is exactly half the text; rounding is not modelled. Allocation success is a parameter.
- Gprof.Gmon.GprofCollect: ends where the code would write past a kept buffer, and reports it. Opening the file and allocating are parameters; the notices printed for the buffer and file interfaces, the debug prints and the unwritten spare words of the header (a parameter) carry no model.
- GprofSession.RunSession: allocation and opening files succeed. Call counts are unbounded; the wrap-around of the `long` count is not modelled. Interrupts inside `_mcount` are covered only by the busy state, at the granularity of whole operations.
- LogParser.GenerateBinaryFromLog: file system errors, text decoding and messages are not modelled; a carriage return and line feed pair counts as a blank line more, which the parser skips.
- DumpRoundTrip.DumpParses: bytes are printed as unsigned `char`, as on RISC-V; a signed `char` would print more digits.
- GcovDump.DumpInfo: allocation always succeeds. `gcov_collect`, `gcov_free` and unlinking are heap bookkeeping around the same writer and are not modelled.
- Gcda.ReadFileBackIff: the reader is a definition of this project from the record layout; the compiler's own reader is not part of this model.
- Pager.Pager.constructor: Sv39 only; the kernel writes no frame, which the link script provides for. PMP setup, status registers, the `coherence_torture` loop of other harts and TLB flushes are hardware effects without a counterpart.
- Pager.Pager.UserEcall: for a touched, clean home page with other kernel data than the user table it promises nothing, because what the kernel writes there is left open; the free list built from evicted nodes, whose addresses are zero, is never used again. A failed assertion ends the test, as `terminate` never returns.
- Pager.Pager.HandleTrap: whether the faulting instruction is the floating-point probe is a parameter, and so is the trap frame.
- Pager.Pager.Do: an access is at most eight bytes; alignment exceptions are not modelled.
- CompareAndSwap.InstantsExplainMemory: one word; stores by a hart's own trap handler between LR and SC are not modelled, nor are the other atomic instructions. Progress is not claimed, since a store-conditional may fail for any reason.
- NestedInterrupts.InterruptIsTransparent: machine-mode macros; the supervisor variants are analogous. The previous level is saved and restored, but levels do not restrict which interrupts arrive: every interrupt may nest.
- WideCounter.CountingRegister.Get: counts one at a time; the cycle, instret, time and timer registers share this one model. The paths of 64-bit machines are single accesses.
- Pmp.PmpUnit.SetEntry: locked entries and a granularity above four bytes are not modelled.
- Pma.PmaUnit.GetRegion: the number of implemented address bits is taken below the word size. The secure and supervisor variants repeat the same code.
- BitLoops.Ctz: requires a non-zero word, as its documentation demands; the loop does not end on zero.
- CString.Memcpy: source and destination do not overlap, as the C standard demands. `strlen`, `strcmp`, `strcpy` and `atol` are simple loops and are not modelled.
- Loader.TestBench.LoadAll: program headers come as values and segments lie inside the file; opening, mapping and checking the file is I/O.
- Cache maintenance, semaphores, the supervisor copy of the PMP code, interrupt controller level packing, plain register accessors and the trap assembly hold no property that spans operations.
