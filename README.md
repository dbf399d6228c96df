# Virtual memory manager: verified model of the translation core

This project models the address-translation loop of the virtual memory manager in
`lru.c` and `fifo.c`, and the address decoder in `mmu.c`. For each 32-bit value of the
address trace, the translator does the following:

- keeps the low 16 bits and splits them into a page number and an offset;
- looks the page up in a 16-slot translation cache (TLB);
- on a miss, consults the 256-entry page table;
- when the page is not valid, loads it from the backing store into a physical frame;
- then prints the physical address and the byte stored there.

There are two translators.

- **LRU translator** (`lru.c`): it has `NUMFRAMES` frames (128 in the source; a parameter
  from 1 to 256 here). Once every frame has been handed out, a fault evicts the valid page
  with the smallest `last_used` time. It invalidates that page, clears it from the cache,
  and reuses its frame. Every translation stamps its page with a logical clock.
- **No-replacement translator** (`fifo.c`): it has as many frames as pages (256). A fault
  always takes the next free frame, and a valid page is never evicted.

The helper functions that `fifo.c` shares with `lru.c` have identical text:
`get_logical_addr`, `create_log_addr`, `mask_addr_rep`, `init_tlb`, `new_tlb_entry` and
`query_tlb`. Each is modelled once, in modules `Decoder` and `Tlb`, and both translators use
that model.

Layout:

- `decoder.dfy` (`Decoder`): the C integer widths as subset types, plus the decoding
  functions and their round trips.
- `tlb.dfy` (`Tlb`): the cache and its sentinel and sign quirks, the first-match lookup,
  the clearing scan and the initialisation.
- `memory.dfy` (`Memory`): frames, the backing store and the printed `Translation`.
- `lru_page_table.dfy` (`LruPageTable`): the page table and the `find_first_valid`,
  `find_lru` and `should_replace` policy.
- `fifo_page_table.dfy` (`FifoPageTable`): page-table entries without `last_used`.
- `lru_spec.dfy` / `fifo_spec.dfy` (`LruSpec` / `FifoSpec`): one loop iteration as a
  function `Step` on the whole state. They also hold the invariant the loop keeps, the
  lemmas about what an iteration and a whole trace promise, and concrete scenarios.
- `lru_mmu.dfy` / `fifo_mmu.dfy` (`LruMmu` / `FifoMmu`): each translator as a class,
  described below.

Each translator class keeps the page table, the cache and the frames as arrays updated in
place. Its methods follow the blocks of the C loop, and each method is proved to produce
exactly the state and output that the spec function gives.

The C integer quirks are modelled explicitly:

- **Empty cache slot.** An empty slot stores `-1` in two `uint8_t` fields, i.e. 255 (`EMPTY`).
- **Frame read-back.** `query_tlb` returns the stored frame through an `int8_t`, so frame
  255 reads back as -1, which also means "miss" (`AsInt8`).
- **Shifts and masks.** On unsigned operands these are quotients and remainders.

Where the intended design and the code disagree, the model follows the code:

- **No FIFO eviction.** A first-in-first-out policy with a victim queue would evict the
  oldest resident page once memory is full. `fifo.c` has none: it has
  `NUMFRAMES == NUMPAGES == 256` and never evicts, so no victim queue is modelled. The model
  proves that at most 256 faults occur and that no fault happens with `framePtr` out of
  range, so memory is never full when a page faults.
- **Re-probing is not always a hit.** One would expect a second translation of the same
  address to be a cache hit. In the code this fails in two cases:
  - When the page's frame is 255. The frame reads back through an `int8_t` as -1, which
    means "miss". This can happen in `fifo.c`, and in `lru.c` only with 256 frames.
  - In `lru.c`, when the page is 255. `clear_tlb_entry` can leave an empty slot, which
    carries page number 255, below the page's own slot, and the first-match scan stops
    there. In `fifo.c` this cannot happen: `tlbPtr` starts at 0 and no slot is ever
    cleared, so the written slots form a prefix of the cache and every empty slot comes
    after them (`CacheOrder`).

  `LruSpec.Reprobe` and `FifoSpec.Reprobe` state the exact conditions.
- **No assertion when no page is valid.** A careful victim selection would stop with an
  assertion when no page is resident. `find_lru` instead reads `pageTable[-1]`. The model
  makes "some page is valid" a precondition of `FindLru` and proves that the loop always
  meets it (`FullMemoryHasValid`).
- **Coherence in terms of lookups.** The cache invariant is stated as "empty, or agrees with
  a valid page-table entry". Because an empty slot looks like page 255 in frame 255, the
  coherence property is stated about lookups: an invalid page is never found
  (`InvalidPageMisses`).

## Model

| member | source | states |
|---|---|---|
| Decoder.MaskAddrRep | mmu.c:70-72 | the result differs from the trace value by a multiple of 2^16, is no larger, and equals it when it is below 2^16 |
| Decoder.GetLogicalAddr | mmu.c:57-59 | the upper half times 2^16 plus the lower half gives back the 32-bit value |
| Decoder.CreateLogAddr | mmu.c:61-68 | page number times 256 plus offset is the 16-bit input |
| Decoder.EncodeCreateLogAddr | mmu.c:61-68 | decoding a 16-bit value and re-encoding it gives the value back |
| Decoder.CreateLogAddrEncode | mmu.c:61-68 | every page/offset pair decodes from its own encoding (the split is a bijection) |
| Decoder.Decode | lru.c:72-74 | no ensures of its own: mask, then split; `DecodeDependsOnLow16` states that the page and offset are in range and depend only on the value modulo 2^16, and `SplitWord` that they rebuild it |
| Decoder.DecodeDependsOnLow16 | lru.c:72-74 | a trace value decodes to a page and offset in range; two trace values decode alike if and only if they agree modulo 2^16 |
| Decoder.SplitWord | mmu.c:57-72 | the high half and the decoded low half together rebuild the 32-bit value |
| Tlb.AsU8 | lru.c:199 | reduction to `uint8_t` agrees with the input modulo 256 |
| Tlb.AsInt8 | lru.c:217 | a `uint8_t` read through an `int8_t` is two's complement: in -128..127, reads -1 exactly for 255, and casts back to the same byte |
| Tlb.FirstMatch | lru.c:214-219 | the lowest slot holding the page, with no earlier slot holding it; -1 exactly when no slot holds it |
| Tlb.TlbLookup | lru.c:212-222 | the result is -1 exactly when no slot holds the page or the first one stores frame 255; otherwise the first matching slot is (page, result cast to `uint8_t`) |
| Tlb.QueryTlb | lru.c:212-222 | the scan returns `TlbLookup` of the cache and changes nothing |
| Tlb.ClearedTlb | lru.c:252-260 | same length; every slot holding the page becomes empty and every other slot is unchanged |
| Tlb.ClearTlbEntry | lru.c:252-260 | the cache after the in-place scan is `ClearedTlb` of the old cache, slot by slot |
| Tlb.ClearedTlbMisses | lru.c:252-260 | after clearing a page, looking it up misses |
| Tlb.InitTlb | lru.c:195-210 | a fresh cache of 16 slots, each holding (255, 255) |
| Tlb.EmptyTlbMisses | lru.c:195-222 | in a cache of empty slots every lookup misses, page 255 included |
| Memory.PhysAddrSplit | lru.c:114 | a physical address splits back into its frame and its offset |
| LruPageTable.InitPageTable | lru.c:164-179 | a fresh table of 256 entries, each frame 0, invalid, never used |
| LruPageTable.CreatePageEntry | lru.c:164-170 | no ensures of its own: frame `fr`, invalid, `last_used` 0; `InitPageTable` states the table it builds from it |
| LruPageTable.FirstValid | lru.c:242-250 | the lowest valid index with no valid entry before it, or -1 exactly when no entry is valid |
| LruPageTable.FindFirstValid | lru.c:242-250 | the scan returns `FirstValid` of the table |
| LruPageTable.LruScan | lru.c:232-238 | continuing the scan from an index keeps a minimal valid entry that is strictly below every earlier valid entry |
| LruPageTable.LruVictim | lru.c:228-240 | the victim is valid, has the smallest `last_used` among valid entries, and ties go to the lowest index |
| LruPageTable.LruVictimUnique | lru.c:228-240 | any index with the victim property is the one `find_lru` returns |
| LruPageTable.FindLru | lru.c:228-240 | when some entry is valid, the loop returns the victim defined by `IsLruVictim` |
| LruPageTable.ShouldReplace | lru.c:224-226 | true exactly when `framePtr` is not a frame index 0 .. NUMFRAMES-1 |
| LruSpec.Fault | lru.c:83-107 | the faulting page becomes valid, in a frame below `numFrames`, holding its bytes from the backing store; the cache cursor and clock are unchanged |
| LruSpec.FullMemoryHasValid | lru.c:87-90 | once every frame is handed out, some page is valid, so `find_lru` always has a candidate |
| LruSpec.Init | lru.c:56-65 | no ensures of its own: the three tables as set up and every counter 0; `InitInv` proves it satisfies the invariant |
| LruSpec.Hit | lru.c:77-80 | no ensures of its own; with lines 114-118, the hit branch; `StepIsHit`, `HitInv` and `StepOutcome` state its meaning |
| LruSpec.Refill | lru.c:108-118 | no ensures of its own: the end of the miss branch; `StepIsRefill`, `TableHitInv`, `StepTlb` and `StepOutcome` state its meaning |
| LruSpec.Step | lru.c:71-119 | no ensures of its own: the loop body; `StepInv`, `StepOutcome`, `StepTlb`, `StepFrames` and `StepPrints` state what it does |
| LruSpec.HitIsCoherent | lru.c:76-80 | a cache hit names a valid page, the frame the page table gives it, a frame in range, and that frame holds the page |
| LruSpec.StepIsHit | lru.c:76-80 | on a hit, the iteration is the hit branch with the frame the cache returned |
| LruSpec.StepIsRefill | lru.c:81-112 | on a miss, the iteration is the refill after the fault branch when the page was invalid |
| LruSpec.InitInv | lru.c:56-65 | the initial state satisfies the invariant (sizes, frames, loaded pages, coherence, recency) |
| LruSpec.HitInv | lru.c:76-80 | a cache hit keeps the invariant |
| LruSpec.TableHitInv | lru.c:108-112 | a miss on a valid page keeps the invariant |
| LruSpec.FreeFrameFaultInv | lru.c:97-106 | a fault into the next free frame keeps the invariant |
| LruSpec.EvictingFaultInv | lru.c:88-106 | a fault that evicts the least recently used page keeps the invariant |
| LruSpec.StepInv | lru.c:71-119 | every iteration keeps the invariant |
| LruSpec.InvalidPageMisses | lru.c:92-96 | coherence: an invalid page is never found in the cache |
| LruSpec.StepOutcome | lru.c:72-118 | the counts of translations, hits and faults go up as the branch taken says, a hit only happens for a valid page, and the page ends valid and stamped with the clock; the printed address is frame times 256 plus offset, and the byte is the backing-store byte |
| LruSpec.StepTlb | lru.c:108-112 | a hit leaves the cache and cursor alone; a miss writes (page, frame) at `tlbPtr` and advances it modulo 16; other slots stay as they were, except that an eviction also clears the victim |
| LruSpec.StepFrames | lru.c:83-106 | while frames are free, the k-th fault takes frame k and invalidates nothing; afterwards, a fault evicts the least recently used page, reuses its frame and leaves it uncached; no other entry changes |
| LruSpec.Reprobe | lru.c:71-119 | translating an address twice in a row prints the same line, the second time is not a fault, and it is a hit unless the page is 255 or there are 256 frames |
| LruSpec.RunTrace | lru.c:71-119 | the loop over a trace keeps the invariant and prints one line per value |
| LruSpec.StepPrints | lru.c:113-115 | the printed byte is the backing-store byte at the decoded page and offset; the physical address has that offset and a frame below `numFrames` |
| LruSpec.RunTraceCorrect | lru.c:71-119 | over a whole trace, line k is the right line for trace value k, and `numTranslated` grows by the trace length |
| LruSpec.FirstTranslation | lru.c:71-119 | the first translation of page 5, offset 10, faults into frame 0, prints address 10 and the page's byte, and is not a hit |
| LruSpec.EvictsLeastRecentlyUsed | lru.c:83-107 | with 2 frames, pages 1, 2, 1, 3: page 2 is evicted, page 1 stays in frame 0, page 3 gets frame 1, and there are 3 faults |
| LruMmu.Mmu.constructor | lru.c:56-65 | the arrays are fresh, the state is the initial state, and the invariant holds |
| LruMmu.Mmu.EvictLru | lru.c:88-96 | invalidates the victim, clears it from the cache, returns its frame, and changes nothing else |
| LruMmu.Mmu.FaultIn | lru.c:83-107 | the new state is `Fault` of the old one |
| LruMmu.Mmu.CountHit | lru.c:77-80 | with lines 113-117: the new state and printed line are the hit branch of the old state |
| LruMmu.Mmu.RefillTlb | lru.c:108-117 | the new state and printed line are the refill of the old state |
| LruMmu.Mmu.Translate | lru.c:72-118 | one iteration in place: the invariant is kept, and the new state and printed line are `Step` of the old state |
| LruMmu.Mmu.Run | lru.c:71-119 | the loop in place: the invariant is kept, and the final state and printed lines are `RunTrace` of the initial state |
| FifoPageTable.InitPageTable | fifo.c:142-156 | a fresh table of 256 entries, each frame 0 and invalid |
| FifoPageTable.CreatePageEntry | fifo.c:142-147 | no ensures of its own: frame `fr`, invalid; `InitPageTable` states the table it builds from it |
| FifoSpec.FaultFrameInBounds | fifo.c:80-81 | when a page faults, `framePtr` is below 256, so the frame exists and fits the `uint8_t` field |
| FifoSpec.FaultsBounded | fifo.c:85 | there are never more than 256 page faults |
| FifoSpec.HitIsCoherent | fifo.c:72-73 | a cache hit names a valid page and the frame the page table gives it, and that frame holds the page |
| FifoSpec.Fault | fifo.c:77-86 | the faulting page becomes valid in frame `framePtr`, holding its bytes from the backing store; the cache is untouched |
| FifoSpec.Init | fifo.c:52-60 | no ensures of its own: the three tables as set up and every counter 0; `InitInv` proves it satisfies the invariant |
| FifoSpec.Hit | fifo.c:72-74 | no ensures of its own; with lines 93-96, the hit branch; `StepIsHit` and `StepOutcome` state its meaning |
| FifoSpec.Refill | fifo.c:88-96 | no ensures of its own: the end of the miss branch; `StepIsRefill`, `TableHitInv`, `StepTlb` and `StepOutcome` state its meaning |
| FifoSpec.Step | fifo.c:66-97 | no ensures of its own: the loop body; `StepInv`, `StepOutcome`, `StepTlb`, `StepFrames` and `StepPrints` state what it does |
| FifoSpec.MissCacheOrder | fifo.c:88-91 | a miss writes slot `tlbPtr`, which is the first empty slot until the cache is full, so the written slots stay a prefix that agrees with the page table |
| FifoSpec.WrittenPageHits | fifo.c:189-199 | a page held in a written slot, in a frame other than 255, is a cache hit, because no empty slot comes before a written one |
| FifoSpec.StepIsHit | fifo.c:72-74 | on a hit, the iteration is the hit branch with the frame the cache returned |
| FifoSpec.StepIsRefill | fifo.c:75-92 | on a miss, the iteration is the refill after the fault branch when the page was invalid |
| FifoSpec.InitInv | fifo.c:52-60 | the initial state satisfies the invariant |
| FifoSpec.TableHitInv | fifo.c:88-91 | a miss on a valid page keeps the invariant |
| FifoSpec.FaultInv | fifo.c:77-91 | a page fault keeps the invariant |
| FifoSpec.StepInv | fifo.c:66-97 | every iteration keeps the invariant |
| FifoSpec.InvalidPageMisses | fifo.c:189-199 | coherence: an invalid page is never found in the cache |
| FifoSpec.LastFrameMisses | fifo.c:194 | a page held in frame 255 is never a cache hit, because its frame reads back as -1 |
| FifoSpec.StepOutcome | fifo.c:66-97 | the counts of translations, hits and faults go up as the branch taken says, and `framePtr == numPageFaults <= 256`; the page ends valid; the printed address is frame times 256 plus offset, and the byte is the backing-store byte |
| FifoSpec.StepFrames | fifo.c:76-86 | the k-th fault gets frame k and loads only that frame; every other entry, and every valid entry, is unchanged |
| FifoSpec.StepTlb | fifo.c:88-91 | a hit leaves the cache alone; a miss writes (page, frame) at `tlbPtr`, advances it modulo 16, and changes no other slot |
| FifoSpec.Reprobe | fifo.c:66-97 | translating an address twice in a row prints the same line; the second time is not a fault; it is a hit exactly when the frame is not 255, for every page including 255 |
| FifoSpec.RunTrace | fifo.c:66-97 | the loop over a trace keeps the invariant and prints one line per value |
| FifoSpec.StepPrints | fifo.c:93-95 | the printed byte is the backing-store byte at the decoded page and offset, at an address with that offset inside one of the 256 frames |
| FifoSpec.RunTraceCorrect | fifo.c:66-97 | over a whole trace, line k is the right line for trace value k, and `numTranslated` grows by the trace length |
| FifoSpec.RunTraceKeepsFrames | fifo.c:66-97 | over a whole trace, no valid page loses its validity or its frame |
| FifoSpec.FirstTranslation | fifo.c:66-97 | the first translation of page 5, offset 10, faults into frame 0, prints address 10 and the page's byte |
| FifoMmu.Mmu.constructor | fifo.c:52-60 | the arrays are fresh, the state is the initial state, and the invariant holds |
| FifoMmu.Mmu.FaultIn | fifo.c:77-86 | the new state is `Fault` of the old one |
| FifoMmu.Mmu.CountHit | fifo.c:72-74 | with lines 93-96: the new state and printed line are the hit branch of the old state |
| FifoMmu.Mmu.RefillTlb | fifo.c:88-96 | the new state and printed line are the refill of the old state |
| FifoMmu.Mmu.Translate | fifo.c:67-96 | one iteration in place: the invariant is kept, and the new state and printed line are `Step` of the old state |
| FifoMmu.Mmu.Run | fifo.c:66-97 | the loop in place: the invariant is kept, and the final state and printed lines are `RunTrace` of the initial state |

## Left out

- Reading the trace file (`getline`, `atoi`) is left out: it is I/O. `Run` takes the trace as the sequence of `uint32_t` values that `atoi` and the conversion produce; a negative result converts modulo 2^32, which the sequence covers. Only `atoi`'s behaviour on malformed lines and on values out of `int` range is not modelled.
- Opening and reading the backing store (`fopen`, `fseek`, `fread`) is left out: it is I/O. Its contents are the function `backing` from page number to 256 bytes. A short read is not modelled.
- `printf` is left out. Each printed line is modelled as a `Translation` value (physical address and byte), and `Run` returns them in order. The statistics printed at the end, and their floating-point hit and fault rates, are left out.
- `malloc`, `free` and the leaked `LogAddr` objects are left out: they are memory management with no effect on the results. A frame that was never loaded is the empty sequence. The invariant proves such a frame is never read.
- `mmu.c`'s `main` is left out: it only decodes each line and discards the result. `cda.c` is not part of this model.
- `open_addr_file`, `open_backing_store` and `init_phys_mem` are left out: they are file handling and allocation. The empty-frame array made by the constructors stands in for `init_phys_mem`.
- Sign extension of the printed byte is not modelled. The frame contents are `char`, and on platforms where `char` is signed, `int value` sign-extends bytes above 127. The model prints the byte as 0..255 in both translators.
- Wrap-around of `last_used` and `counter` is not modelled. They are `unsigned long long` and would wrap only after 2^64 translations; the model uses unbounded integers.
- Overflow of the `int` counters `framePtr`, `numTranslated`, `numPageFaults` and `tlbHits` is not modelled. It needs 2^31 translations; the model uses unbounded integers.
- An endless input stream is not modelled: the trace is a finite sequence.
