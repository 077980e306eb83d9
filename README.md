# myalloc: a best-fit pool allocator, modelled in Dafny

`myalloc.c` manages one pool of `MEMORY_SIZE` bytes as an implicit chain of
blocks. Each block starts with an in-band `struct header { int free; int size; }`
(8 bytes), followed by `size` payload bytes. The next block's header is found
by arithmetic (`offset + headersize + size`), never stored. A header's `free`
field is `1` for a free block and `-1` for an occupied one.

- `init_myalloc` lays down a single free header covering the pool.
- `myalloc(size)` scans the whole chain for the free block with the least
  slack (`size_b - size`) among those with `size_b > size + headersize`. It
  starts from a `MEMORY_SIZE` sentinel, keeps the first block on ties, and
  splits the winner into an occupied block of `size` bytes and a new free
  header for the rest. It returns the payload, or 0 when nothing fits.
- `myfree(ptr)` marks the block free, then sweeps the chain from offset 0.
  A free block followed by a free block absorbs it (`size += headersize +
  next.size`) and is examined again; the sweep stops at the last block.

The model has two modules.

- `HeaderChain` (`header_chain.dfy`) is the chain as a value: a
  `seq<Header>` in address order, with a block's offset derived as the span
  of the blocks before it. It defines the scan's choice (`BestFit`), the
  header rewrites (`Split`, `Merge`, `MarkFree`), the sweep (`Sweep`) and
  all of `myfree` (`Release`), and proves what the allocator promises about
  them: tiling, best fit, strictly positive remainders, no neighbouring free
  blocks after a free, and the occupied blocks each operation adds or removes.
  `Stored` relates a chain to the header store, that is, the `free` and
  `size` fields found at each byte offset of the pool.
- `MyAlloc` (`myalloc.dfy`) is the allocator itself: class `Allocator`
  holds `memorySize` (`MEMORY_SIZE`) and two arrays indexed by byte offset
  (`freeAt`, `sizeAt`) standing for the header fields in the pool. A ghost
  `chain` is tied to them by `Valid()`. `Init`, `Alloc`, `Free` and
  `Coalesce` overwrite the arrays exactly where the C code writes headers,
  with the same `while` loops over a cursor offset. Each is proved to
  produce the chain that the `HeaderChain` functions describe. Pointers are
  byte offsets from the pool start, and `myalloc`'s 0 result is `None`.

Best fit here means best among the blocks that pass the code's strict test
`size_b > size + headersize`. Take free blocks of 100, 10 and 50 bytes and a
request of 8. The 10-byte block has the least slack, but it fails that test,
so the code takes the 50-byte block. The model follows the code, and
`BestFitExample` records this case next to a request of 1, which does take
the 10-byte block.

## Model

| member | source | states |
|---|---|---|
| `HeaderChain.Span` | myalloc.c:114-115 | definition: the bytes a run of blocks covers, `headersize + size` per block, which is how far the walk advances over them |
| `HeaderChain.Offset` | myalloc.c:114-115 | definition: the header of block `i` sits where the walk from offset 0 arrives after `i` steps of `headersize + size` |
| `HeaderChain.Candidate` | myalloc.c:103 | definition: the scan's test, a block marked free (`free == 1`) with `size > request + headersize` |
| `HeaderChain.Slack` | myalloc.c:106 | definition: the scan's `diff`, the block's size minus the request |
| `HeaderChain.BestFit` | myalloc.c:103-111 | the block the scan settles on is a free block with `size > request + headersize` |
| `HeaderChain.BestFitChoosesBest` | myalloc.c:103-121 | the scan finds nothing exactly when no block is free with `size > request + headersize`; otherwise its block has the least slack of all candidates and strictly less than every earlier candidate (ties go to the first), so an exact fit is never chosen |
| `HeaderChain.BestFitStep` | myalloc.c:103-115 | proof step used by `ScanStep`: `BestFit` unfolded once on the first `k + 1` blocks, so that one more block changes the choice only when it is a candidate whose slack is strictly below the best so far |
| `HeaderChain.ScanStep` | myalloc.c:103-115 | one loop iteration keeps the scan state (`best`, `size_difference`) equal to the best fit over the blocks visited so far |
| `HeaderChain.ScanDone` | myalloc.c:95-121 | after the last block, `size_difference == MEMORY_SIZE` holds exactly when there is no candidate; otherwise `best` is the best fit's header offset and `size_difference` its slack |
| `HeaderChain.SlackBelowSentinel` | myalloc.c:93-121 | every candidate's slack is at most `MEMORY_SIZE - headersize - size`, so the `MEMORY_SIZE` sentinel never stands for a real block |
| `HeaderChain.Split` | myalloc.c:125-129 | the split chain has one more block and covers the same bytes |
| `HeaderChain.SplitPreservesTiling` | myalloc.c:125-132 | after a split the chain still tiles the pool; the chosen header is occupied with exactly the requested size at its old offset; a free header with `old - headersize - size > 0` bytes follows at `best + headersize + size` |
| `HeaderChain.SplitOffsets` | myalloc.c:126 | a split moves no header: blocks before keep their offsets, the new header sits `headersize + size` past the chosen one, and blocks after keep theirs |
| `HeaderChain.SplitAllocates` | myalloc.c:125-129 | a split adds exactly the new allocation (header offset, requested size) to the occupied blocks and leaves every other occupied block as it was |
| `HeaderChain.SplitKeepsNoAdjacentFree` | myalloc.c:125-129 | a split of a candidate never creates two neighbouring free blocks: the chosen block becomes occupied and its free remainder is followed by the candidate's old neighbour, which was not free |
| `HeaderChain.StoredSplit` | myalloc.c:125-129 | the four header writes of the split, at `best` and `best + headersize + size` (strictly inside the chosen block), leave the header store holding the split chain |
| `HeaderChain.Merge` | myalloc.c:171 | absorbing the next block leaves one block fewer covering the same bytes |
| `HeaderChain.MergeOffsets` | myalloc.c:171 | a merge moves no surviving header |
| `HeaderChain.MergePreservesTiling` | myalloc.c:171 | a merge keeps the chain tiling the pool |
| `HeaderChain.MergeKeepsOccupied` | myalloc.c:167-173 | merging two free blocks leaves the occupied blocks, offsets and sizes, unchanged |
| `HeaderChain.StoredMerge` | myalloc.c:171 | the one size write of a merge leaves the header store holding the merged chain |
| `HeaderChain.MarkFree` | myalloc.c:153-154 | marking a block free keeps the block count and the bytes covered |
| `HeaderChain.MarkFreeOffsets` | myalloc.c:153-154 | marking a block free moves no header |
| `HeaderChain.MarkFreePreservesTiling` | myalloc.c:154 | marking a block free keeps the chain tiling the pool |
| `HeaderChain.MarkFreeDeallocates` | myalloc.c:153-154 | the block freed was occupied, and marking it free removes exactly it from the occupied blocks |
| `HeaderChain.StoredMarkFree` | myalloc.c:153-154 | writing `free = 1` at `oldptr - headersize` leaves the header store holding the marked chain |
| `HeaderChain.Sweep` | myalloc.c:156-181 | the sweep terminates, never grows the chain and covers the same bytes |
| `HeaderChain.SweepPreservesTiling` | myalloc.c:156-181 | the sweep keeps the chain tiling the pool |
| `HeaderChain.SweepNoAdjacentFree` | myalloc.c:163-177 | after the sweep no two neighbouring blocks are both free |
| `HeaderChain.SweepKeepsOccupied` | myalloc.c:156-181 | the sweep leaves every occupied block at its offset with its size |
| `HeaderChain.Release` | myalloc.c:145-183 | `myfree` as a whole covers the same bytes with no more blocks |
| `HeaderChain.ReleaseFrees` | myalloc.c:145-183 | `myfree` keeps the tiling and leaves no two neighbouring free blocks; the occupied blocks afterwards are exactly those before, minus the one freed |
| `HeaderChain.SoleFreeBlock` | myalloc.c:72-74 | a tiling chain with no occupied block and no neighbouring free blocks is the single free block of `MEMORY_SIZE - headersize` bytes laid down at initialisation |
| `HeaderChain.LastReleaseRestoresInit` | myalloc.c:142-183 | freeing the last outstanding allocation, whatever the order of earlier frees, leaves one free block of `MEMORY_SIZE - headersize` bytes, as after init |
| `HeaderChain.InitTiles` | myalloc.c:72-74 | the initial single free block tiles the pool, nothing is allocated and there are no neighbouring free blocks |
| `HeaderChain.OffsetStep` | myalloc.c:114-115 | the next header is at `offset + headersize + size` |
| `HeaderChain.OffsetOrder` | myalloc.c:114-115 | headers lie in increasing order, each block ending at or before the next header |
| `HeaderChain.OffsetInjective` | myalloc.c:153 | a header offset names one block, so `oldptr - headersize` identifies the block to free |
| `HeaderChain.BlockInPool` | myalloc.c:158-165 | every block of a tiling chain, header and payload, lies inside `[0, MEMORY_SIZE)`, so no header at or past the pool end is read |
| `HeaderChain.BestFitExample` | myalloc.c:103-111 | with free blocks of 100, 10 and 50 bytes, a request of 8 takes the 50-byte block and a request of 1 the 10-byte block |
| `MyAlloc.Allocator.Valid` | myalloc.c:23-53 | definition: the pool of `MEMORY_SIZE` bytes starting at `head` holds a chain of `struct header`s (`free`, `size`) that walks from offset 0 exactly to the pool end, every header with a non-negative size and `free` either 1 or -1; the arrays hold each chain header's fields at its offset |
| `MyAlloc.Allocator.Init` | myalloc.c:61-77 | after init the chain is exactly one free block at offset 0 of size `MEMORY_SIZE - headersize`, it tiles the pool and has no neighbouring free blocks |
| `MyAlloc.Allocator.FindBestFit` | myalloc.c:92-121 | the scan loop leaves `size_difference == MEMORY_SIZE` (and `best` at offset 0) exactly when the chain has no candidate; otherwise `best` is the best fit's header offset and `size_difference` its slack |
| `MyAlloc.Allocator.Alloc` | myalloc.c:91-133 | on failure nothing is written; on success the chain becomes the best-fit split, the result is the chosen header's offset plus `headersize`, and only the two headers of the split change; an allocation never creates neighbouring free blocks |
| `MyAlloc.Allocator.Free` | myalloc.c:145-183 | the chain becomes `Release` of the block whose payload starts at `oldptr`; no two neighbouring blocks are free afterwards; only that block's `free` field is written |
| `MyAlloc.Allocator.Coalesce` | myalloc.c:155-181 | the sweep loop turns the chain into `Sweep` of it from block 0, leaving no two neighbouring free blocks |

## Left out

- Obtaining the pool with `malloc`, with the `fprintf`/`abort` path when it fails (myalloc.c:63-69), and `close_myalloc`'s `free(mem)` (myalloc.c:295-297): host memory calls. The pool is the two freshly allocated arrays of `Init`.
- The commented-out first-fit `myalloc` and `myfree` (myalloc.c:200-282): dead code.
- Payload bytes: the allocator never reads or writes them. The arrays keep stale header values at offsets off the chain, as the pool does. Writes by users over those bytes are not represented, and the allocator never reads them.
- The byte encoding of the two `int` fields of a header: the header is the constant 8 bytes of two 4-byte `int`s.
- `MyAlloc.Allocator.Alloc`: requires `size >= 0` and uses unbounded integers, so C `int` overflow in `size + headersize` and the behaviour for negative requests are not modelled.
- `MyAlloc.Allocator.Init`: requires `MEMORY_SIZE > headersize`, which the C code assumes without checking.
- `MyAlloc.Allocator.Free`: requires `oldptr` to be the payload start of an occupied block on the chain. The C code detects neither double frees nor foreign pointers, and the model leaves what happens then unmodelled.
- Concurrency: the allocator is single-threaded global state, here one object.
