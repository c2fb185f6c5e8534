# Hive arena allocator — a Dafny model

Hive hands out memory from **cells**. A cell is one region the OS maps for it,
and its capacity is the requested size rounded up to a power of two and then
aligned to the page size (or to 2 MiB for large cells). Inside a cell, blocks
are carved front to back by a bump pointer (`used`), each aligned to at least
16 bytes. A cell can be emptied in two ways. A soft reset only rewinds the
bump pointer. A hard reset also gives the used pages back to the OS.

A global **cursor** gives each new cell its mapping hint. It starts at
`0x7000_0000_0000` and every creation advances it by the capacity
(fetch-and-add). A **registry** lists the live cells. Registering appends to
an array that starts at 256 slots and doubles. Unregistering swaps the last
entry into the freed slot. A lifecycle state (`Off`, `Running`,
`ShuttingDown`) guards `hive_init` and `hive_shutdown`.

The model has five modules:

- `Words`: `size_t` as `nat < 2^64`. Addition and subtraction wrap. The bit
  operations `|`, `&`, `~` and `>>` are defined over the 64-bit little-endian
  bit string, with lemmas giving their arithmetic meaning.
- `HiveMath`: `hive_nxtpow2` and `hive_align_up`, written as the C writes
  them: the six shift-or smears, then the mask.
- `Cells`:
  - the bump step, as a function;
  - the cell, as a class whose fields the allocation, reset and getter
    operations read and update (DEBUG build, with its counters).
- `Registries`: the registry, as a class over an array of cell references.
- `Hives`: the global context (state, page size, cursor and registry) as a
  class, with cell creation and destruction, init and shutdown.

Blocks are offsets into their cell, not pointers. The OS calls are kept in
ghost logs: decommit advice in the cell's `decommits`, and map, unmap and
huge-page advice in the hive's `osLog`. Their outcomes,
and those of the internal heap calls, are method parameters:

- `mapped`: what `mmap` returned;
- `callocOk`: whether the cell record could be allocated;
- `reallocOk`: whether the registry array could grow.

## Model

| member | source | states |
|---|---|---|
| HiveMath.NextPow2Smeared | src/hive.h:41-49 | for v ≥ 1, decrement, smear and increment give 2^bitlen(v-1) reduced mod 2^64, with bitlen(v-1) ≤ 64 |
| HiveMath.NextPow2Spec | src/hive.h:36-51 | all three cases: 0 ↦ 1; for 1 ≤ v ≤ 2^63 a power of two with v ≤ r < 2v; above 2^63 the increment wraps and the result is 0 |
| HiveMath.NextPow2Least | src/hive.h:36-51 | no power of two ≥ v is smaller than the result |
| HiveMath.NextPow2OfPow2 | src/hive.h:36-51 | a power of two is its own next power of two |
| HiveMath.NextPow2Idempotent | src/hive.h:36-51 | applying it twice equals applying it once in range; past 2^63 it gives 1 (0 ↦ 1) |
| HiveMath.OrShr | src/hive.h:43-48 | one `v \|= v >> s` step: bit i is set iff bit i or bit i + s (when inside the word) of v is set |
| HiveMath.Smear | src/hive.h:43-48 | after the shifts by 1, 2, …, 32, bit i is set iff some bit at or above i is set in v |
| HiveMath.SmearValue | src/hive.h:42-48 | the six shift-or steps set exactly the bits below the highest set bit: the result is 2^bitlen(x) - 1 |
| HiveMath.AlignUp | src/hive.h:53-56 | for a power-of-two alignment, and no wrap, the result is a multiple of it in [v, v + align) |
| HiveMath.AlignUpLeast | src/hive.h:53-56 | the result is the least multiple of the alignment that is ≥ v |
| HiveMath.AlignUpAligned | src/hive.h:53-56 | an aligned value is unchanged (and cannot wrap) |
| HiveMath.AlignUpIdempotent | src/hive.h:53-56 | aligning twice equals aligning once |
| HiveMath.AlignUpPow2 | src/hive.h:53-56 | a power of two aligned to a power of two is the larger of the two, again a power of two |
| HiveMath.AlignUpZeroAlign | src/hive.h:53-56 | with alignment 0 the mask is 0, so the result is 0 |
| Hives.CellName | src/hive.c:231-234 | a missing or empty name becomes "hive_cell"; any other name is kept; the result is never empty |
| Hives.Alignment | src/hive.c:243 | the alignment is 0 exactly when the rounded size is below 2 MiB and no page size is known |
| Hives.AlignmentPow2 | src/hive.c:243 | with a power-of-two page size (or none) the alignment is 0 or a power of two |
| Hives.CellCapacitySpec | src/hive.c:241-245 | the capacity is 0 exactly when the request is past 2^63 or no page size is known and the rounded size is below 2 MiB; otherwise it is a power of two, ≥ the request, a multiple of the alignment, and the larger of the rounded size and the alignment |
| Hives.CellCapacityPow2 | src/hive.c:241-245 | a nonzero capacity is a power of two |
| Hives.Hive.constructor | src/hive.c:36-57 | the zero-initialised globals: Off, cursor 0, page size 0, an empty registry with no slots; the registry and its array are freshly allocated |
| Hives.Hive.Init | src/hive.c:306-322 | succeeds exactly from Off; then Running, page size taken, cursor seeded to 0x7000_0000_0000 only if still 0; otherwise nothing changes |
| Hives.Hive.Shutdown | src/hive.c:324-334 | Running becomes ShuttingDown; any other state is kept |
| Hives.Hive.CreateCell | src/hive.c:229-282 | a zero request returns null and leaves the hive, the registry and its array unchanged; otherwise the state after is `Mapped` for the computed capacity and alignment, a cell is fresh, the registry array is the old one or fresh, and the new reservation is disjoint from all earlier ones while the cursor has not wrapped |
| Hives.Hive.MapCell | src/hive.c:247-281 | after sizing: cursor += capacity, and the wrap flag is set iff it was set or this addition wraps; mmap logged at the old cursor; a cell exists iff calloc succeeded, capacity ≠ 0 and the mapping succeeded; it is empty (nothing used, no blocks, zero counters, no decommits) and live, has the name/base/capacity/alignment, is registered when the registry can store it (the slot count then grows exactly when the registry was full, and is kept otherwise), and gets huge-page advice iff 2 MiB aligned |
| Hives.Hive.Reserve | src/hive.c:247 | the hint is the old cursor; the cursor advances by the capacity mod 2^64; without wrap the reserved range is disjoint from every earlier one |
| Hives.Hive.Attach | src/hive.c:266-280 | fills the record with calloc-zeroed counters and no decommits, logs huge-page advice iff the alignment is 2 MiB, registers the cell; the slot count grows to the grown capacity exactly when the registry was full and could store it; the registry stays duplicate-free and holds only live cells |
| Hives.Hive.DestroyCell | src/hive.c:284-304 | the registry keeps its array and slot count; a null cell changes nothing; otherwise the cell leaves the registry (swap-removed) and the live set, its region is unmapped iff its base is set, and its base becomes 0 |
| Registries.IndexOf | src/hive.c:122-124 | the first index holding the entry |
| Registries.SwapRemove | src/hive.c:126-127 | one entry shorter; the removed slot holds the last entry; every other slot is kept |
| Registries.SwapRemoveMultiset | src/hive.c:126-127 | exactly one occurrence of the removed entry goes; all other entries stay |
| Registries.SwapRemoveDistinct | src/hive.c:126-127 | a duplicate-free registry stays duplicate-free, no longer holds the removed cell, and holds nothing that was not in it |
| Registries.SwapRemoveUndoesAppend | src/hive.c:109-127 | unregistering the cell registered last removes what registering added |
| Registries.GrownCapacity | src/hive.c:87-89 | the grown capacity fails to exceed the old one exactly from 2^63 upward (doubling wraps); below that it at least doubles |
| Registries.RegisterStores | src/hive.c:85-108 | registering stores the cell exactly when there is a free slot, or the capacity is below 2^63 and realloc succeeds |
| Registries.Registry.constructor | src/hive.c:57 | the zeroed registry: no cells, no slots, a fresh (empty) array |
| Registries.Registry.Register | src/hive.c:76-111 | appends the cell when there is room, or when growth neither overflows nor fails to reallocate; otherwise nothing changes; the slot count becomes the grown capacity exactly when the registry was full and stores the cell, in a fresh array, and the array is kept otherwise |
| Registries.Registry.Unregister | src/hive.c:113-133 | removes the first occurrence of the cell by swapping in the last entry; an absent or null cell changes nothing |
| Cells.Carve | src/hive.c:345-357 | a block that fits is placed at an offset that is aligned, ≥ used, within the capacity and less than one alignment past used |
| Cells.CarveLeast | src/hive.c:350 | no admissible offset is below the one chosen |
| Cells.CarveFails | src/hive.c:353-357 | the allocation fails exactly when no offset admits the block |
| Cells.CarveAsWritten | src/hive.c:350-357 | the C as written: the end offset is a wrapping size_t sum |
| Cells.CarveAsWrittenAgrees | src/hive.c:350-357 | when the sum does not wrap, the C and the bump step agree |
| Cells.CarveAsWrittenWraps | src/hive.c:351-353 | a concrete request the C accepts with a wrapped end offset, and the bump step refuses |
| Cells.EffectiveAlign | src/hive.c:345-348 | the clamped alignment is the larger of the requested one and 16 |
| Cells.EffectiveAlignPow2 | src/hive.c:345-348 | the clamped alignment is a power of two, at least 16 |
| Cells.Cell.constructor | src/hive.c:266-277 | a mapped, empty cell with calloc-zeroed counters |
| Cells.Cell.Commit | src/hive.c:359-372 | used becomes the end offset; the allocation count grows by one; the largest block and the peak are maxima; nothing else changes |
| Cells.AlignAlloc | src/hive.c:338-375 | null cell or zero size gives None; otherwise the result and the new state follow `Carve`, and the new block is disjoint from every earlier block since the last reset |
| Cells.Alloc | src/hive.c:377-380 | the same as `AlignAlloc` with alignment 16: result and new state (used, counters, block list, kept fields) follow `Carve`; the offset is a multiple of 16, the block fits and is disjoint from every earlier block |
| Cells.SoftReset | src/hive.c:382-389 | used is 0 and the block list is empty; everything else is kept |
| Cells.Reset | src/hive.c:391-404 | a cell with nothing used is unchanged; otherwise [base, base + used) is decommitted, used and the allocation count are 0, the rest is kept |
| Cells.GetBase | src/hive.c:138-141 | 0 for a null cell |
| Cells.GetName | src/hive.c:143-150 | None exactly for a null cell; a name is never empty |
| Cells.GetCapacity | src/hive.c:157-160 | 0 exactly for a null cell; otherwise a power of two |
| Cells.GetUsed | src/hive.c:152-155 | used ≤ peak ≤ capacity and every block ends at or before used |
| Cells.GetPeak | src/hive.c:164-167 | the peak never exceeds the capacity |
| Cells.GetAllocCount | src/hive.c:169-172 | 0 for a null cell |
| Words.Add | src/hive.h:55 | size_t addition: the sum, less 2^64 when it overflows |
| Words.Sub | src/hive.h:42 | size_t subtraction: the difference, plus 2^64 when it underflows |
| Words.OrBits | src/hive.h:43-48 | bit i of x \| y is the or of the operands' bits i |
| Words.AndBits | src/hive.h:55 | bit i of x & y is the and of the operands' bits i |
| Words.NotBits | src/hive.h:55 | ~x flips every bit |
| Words.ShrBits | src/hive.h:43-48 | bit i of x >> s is bit i + s of x, or clear past the top |
| Words.ClearLowBits | src/hive.h:55 | masking off the low k bits gives a multiple of 2^k, ≤ x and less than 2^k below it |

## Left out

- The spin lock, the atomics and concurrency. Each critical section and each atomic update (compare-and-set, fetch-and-add) is one sequential method step. Interleavings are not modelled.
- Statistics output (`hive_log_all_stats`, `hive_cell_log_stats`): it only prints, and uses floating point.
- The contents of memory, and the pointers themselves. Blocks are offsets into their cell; the OS calls are ghost log entries.
- The page size: `Init` takes it as a parameter and requires a power of two. `sysconf` is outside the model, and on the systems this targets the page size is a power of two.
- The internal heap (`reaper_calloc`, `reaper_realloc`, `reaper_free`, `reaper_init`, `reaper_shutdown`): the first two are boolean outcome parameters; freeing the record and the heap's own lifecycle are not modelled.
- Registries.Registry.Register: does not model the byte-size product `new_cap * sizeof(pointer)` passed to realloc, which can wrap for capacities above 2^61. Only realloc success or failure is a parameter.
- Cells.AlignAlloc: requires an alignment below 16 or a power of two. The C accepts any value, but the mask at src/hive.c:350 rounds to a multiple of `align` only when `align` is a power of two.
- Hives.Hive.DestroyCell: requires a null cell or a live one. Destroying anything else is undefined behaviour in the C.
- Diagnostics on stderr (OOM, registry overflow, mmap and munmap failures) are not modelled. Besides the message, a failed munmap behaves like a successful one.

## Findings

| source | as written | input that shows it | evidently intended | confidence | as-written member | corrected member |
|---|---|---|---|---|---|---|
| src/hive.c:351-353 | `end_offset = start_offset + size` is a size_t sum, so for a size near SIZE_MAX it wraps below the capacity and passes the check | 16 bytes used in a 4096-byte cell, `size = SIZE_MAX - 15`, align 16: start 16, end wraps to 0; the block is granted and `used` drops to 0 | refuse any block whose true end exceeds the capacity | not executed | Cells.CarveAsWrittenWraps | Cells.CarveFails |
