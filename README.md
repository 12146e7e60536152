# Memory management simulator: physical allocator and two-level cache

This project models the two simulation engines of a small memory-management
simulator in Dafny and proves properties of them.

- **Physical-memory allocator** (`PhysicalMemory`). It manages a region of
  `total_size` bytes as an ordered list of blocks. Each block has a start,
  a size, a padding, a free flag and an id. `malloc` rounds the request up
  to the word alignment and picks a free block by first, best or worst fit.
  It splits off any remainder as a new free block right after the chosen
  one. `free` releases the used block with a given id, merges it with a
  free successor, then with a free predecessor. `stats` computes used, free
  and padding bytes, the largest free block and external fragmentation,
  and prints all of them except the largest free block.
- **Two-level cache** (`CacheLevel`, `Cache`). A level derives its set
  count and its offset, index and tag widths from capacity, block size and
  associativity. It splits a 32-bit address into set index and tag. A probe
  counts a hit or a miss. An install writes the way under the set's FIFO
  cursor and advances the cursor. `Cache` chains an L1 (1 cycle) and an
  L2 (10 cycles) in front of RAM (100 cycles). It counts requests and
  cycles, and can rebuild either level with a new configuration.

Files and modules:

- `bits.dfy` (`Bits`): powers of two and the floor logarithm that
  `log2_int` computes, plus the division lemmas used for shifts and masks.
- `memory_blocks.dfy` (`MemoryBlocks`): the block list as a value. It holds
  the partition invariant `WellFormed`, the list surgery of allocation
  (`Allocate`) and of release (`Release`, `Freed`), and the statistics
  totals.
- `alignment.dfy` (`Alignment`): padding and the rounded size, plus the
  64-bit wrap-around of that sum (see Findings).
- `placement.dfy` (`Placement`): the three placement scans as loops over
  the block list, proved against declarative definitions of each strategy.
- `physical_memory.dfy` (`Allocator`): the class `PhysicalMemory`. Its
  `memoryMap` field is a sequence of blocks that `Malloc` and `Free`
  update. Both are proved against the `MemoryBlocks` functions.
- `cache_spec.dfy` (`CacheSpec`): geometry, address decomposition, a level
  as a value (`LevelAccess`, `LevelInstall`) and the hierarchy as a value
  (`HierarchyAccess`, `HierarchyReconfigure`).
- `cache.dfy`:
  - module `CacheLevels` holds the class `CacheLevel`, whose lines live in
    an `array2` and whose FIFO cursors live in an `array`;
  - module `CacheSim` holds the class `Cache`.

  Each class carries a ghost value of the `CacheSpec` type, and every
  method is proved to move it as the `CacheSpec` function does.

Sizes (`size_t`) are unbounded naturals. Addresses are naturals below
2^32. Shifts and masks are division and remainder by powers of two.

Where the code and its documentation disagree, the model follows the code.
The documented behaviour says a level rejects a configuration whose sizes
are not powers of two or that yields no set. The constructor checks
nothing. So the configurations on which the code is well defined are
preconditions here (`ValidConfig`): non-zero block size and associativity,
at least one set, and field widths that fit a 32-bit address. Power-of-two
sizes appear only as hypotheses of the lemmas that need them.

## Model

| member | source | states |
|---|---|---|
| Bits.Log2 | src/cache/Cache.cpp:9-13 | the count of halvings before n reaches 1 is 0 for n <= 1 and lies in [1, n) for n >= 2; the bracket 2^r <= n < 2^(r+1) is stated by `Bits.Log2Bounds` |
| Bits.Log2Bounds | src/cache/Cache.cpp:9-13 | the floor logarithm k of n >= 1 satisfies 2^k <= n < 2^(k+1) |
| Bits.Log2OfPow2 | src/cache/Cache.cpp:9-13 | for a power of two n, 2^log2(n) == n |
| Alignment.Padding | src/allocator/PhysicalMemory.cpp:29-35 | the padding is below the alignment, brings the request to a multiple of it, and is 0 for an aligned request |
| Alignment.ActualSize | src/allocator/PhysicalMemory.cpp:29-35 | the reserved size is a multiple of the alignment, at least the request and less than one alignment above it |
| Alignment.ActualSizeIsLeastMultiple | src/allocator/PhysicalMemory.cpp:29-35 | the reserved size is a multiple of the alignment, at least the request and below request + alignment; it is the least such multiple; padding is below the alignment and zero for an aligned request |
| Alignment.PaddingExample | src/allocator/PhysicalMemory.cpp:32-35 | 10 bytes at alignment 4 get 2 bytes of padding (12 reserved); 12 bytes get none |
| Alignment.WrappedActualSize | src/allocator/PhysicalMemory.cpp:32-35 | the size_t sum request + padding, reduced modulo 2^64, stays within size_t |
| Alignment.WrappedAgreesWhenNoOverflow | src/allocator/PhysicalMemory.cpp:32-35 | when request + alignment fits in size_t, the wrapped size equals the unbounded one |
| Alignment.WrappedSizeLosesRequest | src/allocator/PhysicalMemory.cpp:32-35 | a request of SIZE_MAX at alignment 4 wraps to 0, fits any free block and yields a used block of size 0 with padding 1; the unbounded size is 2^64 |
| Placement.PlacedFits | src/allocator/PhysicalMemory.cpp:39-67 | whatever the strategy, the block it selects is free and large enough |
| Placement.ScanFirstFit | src/allocator/PhysicalMemory.cpp:39-45 | returns the lowest-index free block that fits, or none exactly when no block fits |
| Placement.ScanBestFit | src/allocator/PhysicalMemory.cpp:46-56 | returns a fitting block of least size (earliest among equals, leftover below SIZE_MAX), or none exactly when no such block exists |
| Placement.ScanWorstFit | src/allocator/PhysicalMemory.cpp:57-66 | returns a fitting block of greatest size (earliest among equals, size above 0), or none exactly when no such block exists |
| Placement.Choose | src/allocator/PhysicalMemory.cpp:39-67 | the current strategy's choice satisfies that strategy's definition; no choice exactly when the strategy has no candidate |
| Placement.PlacementIsUnique | src/allocator/PhysicalMemory.cpp:39-67 | each strategy determines at most one block |
| Placement.StrategiesFailAlike | src/allocator/PhysicalMemory.cpp:39-67 | for a request of at least one byte, first, best and worst fit fail on exactly the same lists |
| Placement.StrategyExample | src/allocator/PhysicalMemory.cpp:39-67 | free blocks of 100, 50 and 200 bytes with a 60-byte request: first fit and best fit take the 100-byte block, worst fit the 200-byte one |
| MemoryBlocks.WellFormedTotal | src/allocator/PhysicalMemory.cpp:14-16 | the block sizes of a well-formed list add up to the region size |
| MemoryBlocks.Allocate | src/allocator/PhysicalMemory.cpp:69-88 | blocks before and after the chosen one are kept; the chosen one becomes a used block of the rounded size with the padding and id; when it was larger, a free block of the remainder, starting right after the used part, is inserted behind it, and otherwise the list length is unchanged |
| MemoryBlocks.WellFormedNextId | src/allocator/PhysicalMemory.cpp:28 | consuming an id without using it (a failed malloc) keeps the invariant |
| MemoryBlocks.AllocatePreserves | src/allocator/PhysicalMemory.cpp:69-88 | allocating a fitting block with the next id keeps the partition invariant (tiling, no adjacent free blocks, clean free blocks, distinct ids below the counter) |
| MemoryBlocks.FindUsed | src/allocator/PhysicalMemory.cpp:101-102 | finds the first used block carrying the id, or reports that none does |
| MemoryBlocks.FindUsedIsFirst | src/allocator/PhysicalMemory.cpp:101-102 | a used block with the id and no earlier one is the block found |
| MemoryBlocks.MarkFree | src/allocator/PhysicalMemory.cpp:103-105 | the released block keeps its place and size, becomes free, and loses its padding and id |
| MemoryBlocks.MergeNext | src/allocator/PhysicalMemory.cpp:109-114 | a free successor is absorbed: the block's size grows by the successor's, the successor is erased and every other block is kept; without a free successor nothing changes |
| MemoryBlocks.MergePrev | src/allocator/PhysicalMemory.cpp:115-122 | with a free predecessor, the predecessor's size grows by the block's, the block is erased and every other block is kept; otherwise nothing changes |
| MemoryBlocks.Release | src/allocator/PhysicalMemory.cpp:103-122 | releasing block i removes at most two blocks and keeps every block before its predecessor |
| MemoryBlocks.Freed | src/allocator/PhysicalMemory.cpp:99-128 | an id that no used block carries leaves the list unchanged; otherwise at most two blocks disappear |
| MemoryBlocks.MergeNextShape | src/allocator/PhysicalMemory.cpp:109-114 | after marking a block free, the forward merge leaves one free block covering it and a free successor |
| MemoryBlocks.MergePrevShape | src/allocator/PhysicalMemory.cpp:115-122 | the backward merge folds the freed block into a free predecessor |
| MemoryBlocks.ReleaseShape | src/allocator/PhysicalMemory.cpp:103-122 | releasing a used block replaces it and its free neighbours by one free block spanning them |
| MemoryBlocks.MergedRunWellFormed | src/allocator/PhysicalMemory.cpp:109-122 | merging a run between used neighbours into one free block keeps the invariant |
| MemoryBlocks.ReleasePreserves | src/allocator/PhysicalMemory.cpp:103-122 | releasing a used block keeps the partition invariant |
| MemoryBlocks.FreedPreserves | src/allocator/PhysicalMemory.cpp:99-128 | free(id) keeps the invariant for every id |
| MemoryBlocks.FreedUnknownId | src/allocator/PhysicalMemory.cpp:99-127 | free of an id never handed out leaves the list unchanged |
| MemoryBlocks.AllocatedIsFound | src/allocator/PhysicalMemory.cpp:101-102 | the id just handed out is found at the block that received it |
| MemoryBlocks.ReleaseAllocated | src/allocator/PhysicalMemory.cpp:103-122 | releasing the block just allocated restores exactly the list from before the allocation |
| MemoryBlocks.AllocateThenFree | src/allocator/PhysicalMemory.cpp:69-122 | round trip: allocate with the next id, then free that id, gives back the original list |
| MemoryBlocks.UsedBytes | src/allocator/PhysicalMemory.cpp:148-156 | the used total is at least each used block's size, and 0 when every block is free |
| MemoryBlocks.FreeBytes | src/allocator/PhysicalMemory.cpp:148-156 | the free total is at least each free block's size, and 0 when no block is free |
| MemoryBlocks.InternalFragmentation | src/allocator/PhysicalMemory.cpp:148-156 | the padding total is at least each used block's padding, and 0 when every block is free |
| MemoryBlocks.LargestFree | src/allocator/PhysicalMemory.cpp:146-151 | is at least the size of every free block and is the size of one, or 0 when none is free |
| MemoryBlocks.UsedPlusFree | src/allocator/PhysicalMemory.cpp:148-156 | used bytes plus free bytes is the sum of all block sizes |
| MemoryBlocks.LargestFreeBelowFreeBytes | src/allocator/PhysicalMemory.cpp:148-156 | the largest free block is at most the free bytes |
| MemoryBlocks.InternalFragmentationBelowUsed | src/allocator/PhysicalMemory.cpp:148-156 | total padding is at most the used bytes |
| MemoryBlocks.ExternalFragmentation | src/allocator/PhysicalMemory.cpp:157 | the percentage as an exact fraction: with free bytes, its value is 100 * (1 - largest / free); 0 with nothing free; between 0 and 100; 0 exactly when all free bytes are in one block |
| Allocator.PhysicalMemory.constructor | src/allocator/PhysicalMemory.cpp:9-18 | one free block spans the region; no requests; first fit; next id 1; invariant holds |
| Allocator.PhysicalMemory.SetStrategy | src/allocator/PhysicalMemory.cpp:20-24 | sets the strategy and nothing else |
| Allocator.PhysicalMemory.Malloc | src/allocator/PhysicalMemory.cpp:26-97 | counts the request and consumes an id; returns -1 exactly when the strategy finds no block, leaving the list unchanged; otherwise returns the chosen block's start and the list becomes Allocate of it; keeps the invariant |
| Allocator.PhysicalMemory.Free | src/allocator/PhysicalMemory.cpp:99-128 | reports whether a used block with the id existed; the list becomes Freed(list, id); keeps the invariant |
| Allocator.PhysicalMemory.Stats | src/allocator/PhysicalMemory.cpp:142-163 | the loop's totals equal the total functions; used + free == region size; largest free <= free; padding <= used |
| Allocator.SplitBlock | src/allocator/PhysicalMemory.cpp:69-88 | the field update and insertion on the block sequence yield exactly Allocate |
| Allocator.Coalesce | src/allocator/PhysicalMemory.cpp:103-122 | the field updates and erasures on the block sequence (mark free, absorb a free successor, fold into a free predecessor) yield exactly Release |
| Allocator.MallocThenFree | src/allocator/PhysicalMemory.cpp:26-128 | malloc followed by free of the id it consumed restores the block list, whether the allocation succeeded or not |
| Allocator.MallocFreeRestores | src/allocator/PhysicalMemory.cpp:26-128 | the block-list half of that round trip, for any strategy's choice |
| Allocator.FragmentationExample | src/allocator/PhysicalMemory.cpp:29-35 | 10 bytes on a fresh 4096-byte region land at address 0 with 12 bytes used, 2 of them padding, and 4084 free |
| CacheSpec.MakeGeometry | src/cache/Cache.cpp:15-24 | the set count is capacity / (block * associativity); offset and index widths are the floor logarithms of block size and set count; the three widths sum to 32 |
| CacheSpec.PowerOfTwoGeometry | src/cache/Cache.cpp:22-23 | with power-of-two block size and set count, 2^offset is the block size and 2^index the set count |
| CacheSpec.SetIndex | src/cache/Cache.cpp:33 | the set index is below the set count |
| CacheSpec.Tag | src/cache/Cache.cpp:34 | the tag fits in the tag field |
| CacheSpec.TagOfBlockNumber | src/cache/Cache.cpp:33-34 | the tag is the block number divided by the index range |
| CacheSpec.AddressDecomposition | src/cache/Cache.cpp:33-34 | tag, set index and offset recombine to the address |
| CacheSpec.SameLineIffSameBlock | src/cache/Cache.cpp:33-34 | two addresses share set index and tag if and only if they lie in the same block |
| CacheSpec.SetIndexOfPowerOfTwo | src/cache/Cache.cpp:33-34 | with power-of-two sizes, the index is the block number modulo the set count and the tag its quotient |
| CacheSpec.NewLevel | src/cache/Cache.cpp:16-20 | a new level has the shape its geometry gives, every line invalid, every FIFO cursor at way 0, the given geometry and latency, and zero hits and misses |
| CacheSpec.NewLevelEmpty | src/cache/Cache.cpp:16-20 | a new level holds no address and has zero hits and misses |
| CacheSpec.Present | src/cache/Cache.cpp:36-41 | an address is present exactly when some way of its set holds its tag and is valid |
| CacheSpec.LevelAccess | src/cache/Cache.cpp:32-44 | a probe moves exactly one counter, the hit counter exactly when the address is present, and leaves lines and cursors unchanged |
| CacheSpec.Victim | src/cache/Cache.cpp:50 | the FIFO victim is a way of the set |
| CacheSpec.LevelInstall | src/cache/Cache.cpp:46-54 | an install keeps the level's shape and cursor range |
| CacheSpec.InstallThenPresent | src/cache/Cache.cpp:46-54 | after an install the address is present |
| CacheSpec.InstallTouchesOneLine | src/cache/Cache.cpp:46-54 | an install writes the victim way with the tag, valid, and advances that set's cursor modulo the associativity; every other line, cursor and counter is unchanged |
| CacheSpec.InstallKeepsOtherSets | src/cache/Cache.cpp:46-54 | an address of another set is present after an install if and only if it was before |
| CacheSpec.InstallAbsentKeepsNoDuplicates | src/cache/Cache.cpp:46-54 | installing an absent address never puts the same tag in two valid ways of a set |
| CacheSpec.CursorStep | src/cache/Cache.cpp:53 | each install into a set brings its cursor one step closer to any other way |
| CacheSpec.CursorAfterWrite | src/cache/Cache.cpp:53 | right after writing a way, the cursor is associativity - 1 installs away from it |
| CacheSpec.LineSurvives | src/cache/Cache.cpp:50-53 | a way is not overwritten while fewer installs hit its set than the cursor's distance to it |
| CacheSpec.InstalledSurvives | src/cache/Cache.cpp:50-53 | FIFO replacement: a block just installed stays present through fewer than associativity further installs into its set |
| CacheSpec.TwoWayGeometryIsMade | src/cache/Cache.cpp:15-24 | 64 bytes, 32-byte blocks and 2 ways give one set with a 5-bit offset |
| CacheSpec.TwoWayAddresses | src/cache/Cache.cpp:33-34 | in that geometry 0x00, 0x20 and 0x40 all map to set 0 with tags 0, 1 and 2 |
| CacheSpec.InstallSingleSet | src/cache/Cache.cpp:46-54 | in a one-set, two-way level, an install writes the cursor's way and flips the cursor |
| CacheSpec.ThreeInstalls | src/cache/Cache.cpp:46-54 | three installs into an empty two-way set leave the third tag in way 0 and the second in way 1 |
| CacheSpec.EmptyTwoWayLevel | src/cache/Cache.cpp:18-20 | the new two-way level has two invalid lines and its cursor at way 0 |
| CacheSpec.TagsZeroOneTwo | src/cache/Cache.cpp:36-41 | with those lines, the first address misses and the other two hit |
| CacheSpec.FifoEvictionExample | src/cache/Cache.cpp:46-54 | installing 0x00, 0x20 and 0x40 in the two-way level evicts 0x00 and keeps 0x20 and 0x40 |
| CacheSpec.DefaultHierarchy | src/cache/Cache.cpp:64-68 | the default cache is a well-formed hierarchy |
| CacheSpec.DefaultGeometriesMade | src/cache/Cache.cpp:64-67 | the default configurations are valid and produce 32 direct-mapped sets (L1) and 64 two-way sets (L2) of 32-byte lines |
| CacheSpec.HierarchyAccess | src/cache/Cache.cpp:82-104 | a request keeps both levels well formed |
| CacheSpec.AccessOnL1Hit | src/cache/Cache.cpp:87-91 | an L1 hit counts the probe, leaves L2 alone and costs the L1 latency |
| CacheSpec.AccessOnL1Miss | src/cache/Cache.cpp:93-103 | an L1 miss installs in L1, probes L2, installs in L2 too on a miss there, and costs L1 + L2 (+ RAM on an L2 miss) |
| CacheSpec.AccessCost | src/cache/Cache.cpp:82-104 | one more request; cost 1, 1 + 10 or 1 + 10 + 100 cycles by where the line is; an L1 hit adds one to L1's hits and a miss one to its misses; L2 is untouched on an L1 hit, and otherwise its hits or its misses grow by one as the line is or is not there |
| CacheSpec.AccessThenInL1 | src/cache/Cache.cpp:82-104 | after any request the address is in L1 |
| CacheSpec.RepeatIsL1Hit | src/cache/Cache.cpp:82-104 | repeating a request costs only the L1 latency |
| CacheSpec.AccessKeepsNoDuplicates | src/cache/Cache.cpp:82-104 | requests never put the same tag in two valid ways of a set in either level |
| CacheSpec.DefaultRepeatedAccess | src/cache/Cache.cpp:82-104 | on the default cache, the same address twice costs 112 cycles over 2 requests, an average of 56 |
| CacheSpec.HierarchyReconfigure | src/cache/Cache.cpp:72-80 | reconfiguring keeps the hierarchy well formed |
| CacheSpec.ReconfigureIsCold | src/cache/Cache.cpp:72-80 | level 1 or 2 is rebuilt with geometry MakeGeometry(size, block, assoc), empty, with zero counters and its fixed latency, keeping the other level and the totals; any other level number changes nothing |
| CacheLevels.CacheLevel.Log2Int | src/cache/Cache.cpp:9-13 | the halving loop returns the floor logarithm, bracketing n between consecutive powers of two |
| CacheLevels.CacheLevel.constructor | src/cache/Cache.cpp:15-28 | fresh arrays of numSets x associativity invalid lines and zero cursors; the level's value is NewLevel of the computed geometry |
| CacheLevels.CacheLevel.Access | src/cache/Cache.cpp:32-44 | the way scan reports a hit exactly when the address is present, and the counters move as LevelAccess says |
| CacheLevels.CacheLevel.Install | src/cache/Cache.cpp:46-54 | the array writes move the level as LevelInstall says |
| CacheLevels.FifoEviction | src/cache/Cache.cpp:46-54 | on the 64-byte two-way level, after installing 0x00, 0x20 and 0x40, probing 0x00 misses and 0x20 hits |
| CacheSim.Cache.constructor | src/cache/Cache.cpp:64-68 | fresh, distinct levels; the cache's value is the default hierarchy |
| CacheSim.Cache.Reconfigure | src/cache/Cache.cpp:72-80 | the cache's value becomes HierarchyReconfigure of the old one |
| CacheSim.Cache.Access | src/cache/Cache.cpp:82-104 | the cache's value becomes HierarchyAccess of the old one |
| CacheSim.AfterL1Miss | src/cache/Cache.cpp:93-103 | returns L2 latency (+ RAM latency on an L2 miss); L1 gets the install, L2 the probe and, on a miss, the install |
| CacheSim.DefaultRepeated | src/cache/Cache.cpp:82-104 | the default cache asked twice for one address reports 112 cycles and 2 requests |

## Left out

- Console output (`dump`, the messages of every operation, `printStats`, `stats` of `Cache`) is not modelled. The figures `stats` prints are modelled as values.
- The floating-point results are not modelled: hit rate, AMAT and the external-fragmentation percentage. The percentage is kept as an exact numerator and denominator (`ExternalFragmentation`).
- The byte vector `ram` is only resized and never read by the core, so it is not modelled. Neither are the level names nor `successful_allocations`, which is only incremented.
- The `int` and `long long` counters (`total_requests`, `next_id`, `hits`, `misses`, `total_access_cycles`) are unbounded naturals or integers. Signed overflow after about 2^31 requests is not modelled.
- `size_t` values are unbounded naturals. The source's 64-bit wrap-around is not modelled in the operations. The sum request + padding can wrap for any request near SIZE_MAX; that wrap is modelled on its own (`Alignment.WrappedActualSize`, see Findings), and no method uses it. The product `block_size * associativity` in the level constructor (src/cache/Cache.cpp:18) can wrap too, for example with block size 2 and associativity 2^63; the model computes that product unbounded, and for such a configuration with a capacity that fits in `size_t` the unbounded product exceeds the capacity, so `ValidConfig` (at least one set) excludes it; the wrapped set count the source would use is not modelled.
- Heap management (`new`, `delete`, the destructor) is not modelled. `Reconfigure` allocates a fresh level and drops the old one.
- The `is_write` flag of `Cache::access` is not modelled, because the code ignores it.
- Configurations on which the level code is undefined, such as a zero block size or zero sets, are excluded by preconditions and not modelled as errors. The code does not reject them.
- The command loop in src/main.cpp is not part of this model.
- Allocator.PhysicalMemory.Malloc: rounds the request with the corrected, unbounded `ActualSize` of the Finding, not the 64-bit wrapped sum. For a request near SIZE_MAX it therefore finds no block and returns -1, where the source wraps the size to 0 and hands out a size-0 block.
- CacheSpec.LevelInstall: its own contract states only that the level stays well formed. Its effect is stated by InstallTouchesOneLine and InstallThenPresent.
- CacheSpec.HierarchyAccess: its own contract states only that the hierarchy stays well formed. Its effect is stated by AccessOnL1Hit, AccessOnL1Miss and AccessCost.

## Findings

| source | as written | input that shows it | evidently intended | confidence | as-written member | corrected member |
|---|---|---|---|---|---|---|
| src/allocator/PhysicalMemory.cpp:32-35 | `actual_size = request_size + padding` is computed in `size_t` and wraps modulo 2^64 | `malloc` of SIZE_MAX bytes (the command `malloc -1`) with alignment 4: padding 1, actual size 0; the first free block fits and receives a used block of size 0 with padding 1 | the rounded size is the least multiple of the alignment at or above the request (here 2^64), so the request fails | not executed | Alignment.WrappedSizeLosesRequest | Alignment.ActualSizeIsLeastMultiple |
