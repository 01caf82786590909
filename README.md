# A fixed-capacity heap allocator, modelled in Dafny

The allocator manages one contiguous region of memory. It keeps its free regions in a
*book* of 32 slots. Each slot is either absent or holds a `Block` (a start address and a
size).

- `init` puts the whole region into slot 0.
- `alloc` takes the first present slot whose block is strictly larger than the request. It
  returns that block's start, rounded up to the requested alignment, and writes the rest of
  the block back into the same slot.
- `dealloc` records the freed block in the first absent slot. It then sorts the book with
  the quicksort of the current placement strategy:
  - First: ascending start address;
  - Best: ascending size;
  - Worst: descending size.

The model follows the code as written, including three behaviours a reader may not expect:

1. **The sort after `dealloc` only does something when all 32 slots are present.** The
   partition loop runs only while the slots at both ends of the range are present. With
   slot 31 absent, the top-level call swaps slot 0 with itself and returns. So the promise
   that the book is ordered after every deallocation holds only for a full book:
   - `Dealloc` states exactly that.
   - `RecordFull` says when the book ends up full.
   - `FirstPresentFitWins` and `BestFitScenario` show a Best heap serving a request from the
     first large-enough block rather than the closest fit.
2. **`alloc` tests eligibility with the unaligned size but subtracts the aligned one.** The
   subtraction `book_size - align_size` underflows when the aligned size exceeds the chosen
   block. The model makes that case (and the null-address unwrap) a precondition,
   `CarveDefined`.
3. **The remainder overruns the old block.** It starts after the aligned allocation, so it
   ends at the old end plus the alignment padding. `RemainderOverrun` states this.
   `OverrunScenario` shows a later 1-byte allocation handed an address past the end of
   the region. A zero-byte request is not bounded by the chosen block at all:
   `align_up(0, align)` is 0, so any non-empty block fits it, and the address returned is
   the block's aligned start. `EmptyRequestOutsideBlock` shows a 1-byte block at address 1
   handing out address 8.

Files:

- `wrappers.dfy`: `Option` and `Result`.
- `block.dfy`: `Block`.
- `alignment.dfy`: `align_down` and `align_up`. The bit mask `addr & !(align-1)` is modelled
  bit by bit and proved equal to `addr - addr % align`.
- `free_list.dfy`: the book as a value.
  - `Carve` is what `alloc` does to it.
  - `Record` is the first half of `dealloc`.
  - `Key` and `Ordered` give the order each strategy's sort aims for.
  - `FreeBytes` counts the bytes the book records as free.
- `quick_sorts.dfy`: the three in-place quicksorts on an array. They are one algorithm
  parameterised by the strategy's key: `size` is negated for Worst so that every sort is
  ascending.
- `heap.dfy`: the `Heap` class.
  - `Empty` and `Init` state the fields they set directly.
  - `Alloc` is proved against `Carve`, `Dealloc` against `Record`, and `SortByStrategy`
    against `Ordered`, all from `free_list.dfy`.
- `scenarios.dfy`: sequences of calls on a fresh heap, with the results the code produces.

## Model

| member | source | states |
|---|---|---|
| Blocks.Empty | src/block.rs:8-13 | `Block::empty()` has start 0 and size 0, and `is_empty` holds for it |
| Blocks.New | src/block.rs:15-20 | `Block::new(s, z)` has start `s` and size `z` |
| Blocks.IsEmpty | src/block.rs:22-27 | `is_empty`: the block covers no bytes; `IsEmptyIffNoBytes` states it |
| Blocks.IsEmptyIffNoBytes | src/block.rs:22-27 | `is_empty` is true exactly when size is 0, whatever the start |
| Blocks.Renew | src/block.rs:29-32 | after `renew(s, z)` the block equals `Block::new(s, z)`, whatever it held before |
| Alignment.IsPowerOfTwo | src/lib.rs:232 | `usize::is_power_of_two`: 1, 2, 4, 8, ...; 0 is not one |
| Alignment.ClearLowBits | src/lib.rs:233 | the mask `addr & !(align - 1)`, taken bit by bit: a value at most `addr` and less than one `align` below it |
| Alignment.ClearLowBitsRoundsDown | src/lib.rs:233 | clearing the bits below a power-of-two `align` yields `addr - addr % align` |
| Alignment.AlignDown | src/lib.rs:231-239 | for a power of two: a multiple of `align` that is ≤ `addr` and > `addr - align`; for 0: `addr`; any other alignment is the error `InvalidAlignment` |
| Alignment.AlignUp | src/lib.rs:241-243 | for a power of two: a multiple of `align` in `[addr, addr + align)`; for 0: `addr - 1`; otherwise the error |
| Alignment.AlignUpIsLeast | src/lib.rs:241-243 | `align_up` is the least multiple of `align` that is ≥ `addr` |
| Alignment.AlignUpIdempotent | src/lib.rs:241-243 | `align_up(align_up(a, k), k) == align_up(a, k)` |
| Alignment.AlignUpOfPositive | src/lib.rs:241-243 | a positive size rounds up to at least `align` |
| FreeList.Key | src/lib.rs:121-126 | the key each strategy's comparisons use: `start` for First (121-126), `size` for Best (145-150), and `size` reversed for Worst (168-173) |
| FreeList.OrderedMeans | src/lib.rs:113-182 | ascending key means ascending start (First), ascending size (Best), descending size (Worst) |
| FreeList.Fits | src/lib.rs:77 | the eligibility test: the slot is present and its block is strictly larger than the unaligned request |
| FreeList.SelectSlot | src/lib.rs:76-77 | the lowest slot at or after `from` whose block is strictly larger than the request; none exactly when no such slot exists |
| FreeList.Remainder | src/lib.rs:79-84 | the block written back: it starts at the aligned start plus the aligned size and has the old size minus the aligned size; `RemainderOverrun` states where it ends |
| FreeList.Carve | src/lib.rs:69-91 | same length; fails exactly when no present slot is strictly larger than the request, leaving the book unchanged; success is a positive multiple of `align`; absent slots stay a tail |
| FreeList.CarveTakesLowestFit | src/lib.rs:76-86 | on success: the lowest fitting slot is used, the aligned start is returned, and only that slot is rewritten, with the remainder |
| FreeList.ExactFitNeverChosen | src/lib.rs:77 | a slot whose size equals the request is never changed |
| FreeList.CarveAddress | src/lib.rs:79-86 | the returned address is aligned, in `[chosen.start, chosen.start + align)`, and inside the chosen block for a non-empty request; a zero-byte request gets no such bound |
| FreeList.EmptyRequestOutsideBlock | src/lib.rs:74-86 | block (1, 1) with a zero-byte request aligned to 8: returns 8 and leaves (8, 1), both outside the chosen block |
| FreeList.RemainderOverrun | src/lib.rs:79-84 | the remainder starts right after the aligned allocation and ends at the old end plus the alignment padding |
| FreeList.RemainderOverrunExample | src/lib.rs:79-86 | block (1, 100), 1 byte aligned to 8: returns 8 and leaves (16, 92), ending at 108 rather than 101 |
| FreeList.FirstAbsent | src/lib.rs:97-98 | the lowest absent slot at or after `from`; none exactly when every such slot is present |
| FreeList.Record | src/lib.rs:97-103 | the freed block goes into the lowest absent slot and nothing else changes; a full book is returned unchanged; absent slots stay a tail |
| FreeList.RecordFillsTail | src/lib.rs:97-103 | when absent slots form a tail, the freed block lands right after the present ones |
| FreeList.RecordFull | src/lib.rs:97-109 | after recording, all 32 slots are present exactly when slot 30 was present, the only case where the sort can move anything |
| FreeList.FirstPresentFitWins | src/lib.rs:76-86 | with 64 bytes in slot 0 and 16 in slot 1, a 9-byte request is served from slot 0 |
| FreeList.FreeBytesPermutation | src/lib.rs:113-182 | reordering the slots keeps the free-byte total |
| FreeList.CarveFreeBytes | src/lib.rs:79-84 | a successful `alloc` removes exactly the aligned request size from the free bytes |
| FreeList.RecordFreeBytes | src/lib.rs:97-103 | recording adds the block's size when a slot is absent; with a full book the bytes are lost |
| QuickSorts.Swap | src/lib.rs:127 | `nums.swap(l, r)` exchanges two slots and keeps the multiset |
| QuickSorts.ScanDown | src/lib.rs:121-123 | `r` stops at `l` or at the first key below the pivot's; every slot it passed has a key at least the pivot's |
| QuickSorts.ScanUp | src/lib.rs:124-126 | `l` stops at `r` or at the first key above the pivot's; every slot it passed has a key at most the pivot's |
| QuickSorts.StepKept | src/lib.rs:120-128 | one round of the partition loop keeps the partition invariant and the permutation, and brings `l` and `r` closer |
| QuickSorts.Partition | src/lib.rs:118-129 | only `left..right` is rearranged; with an absent end nothing moves; otherwise the pivot lands at `l == r` with smaller-or-equal keys before it and greater-or-equal after |
| QuickSorts.PivotPlaced | src/lib.rs:129 | swapping the pivot into the meeting slot finishes the partition |
| QuickSorts.JoinOrdered | src/lib.rs:130-134 | two ordered halves around the pivot make one ordered range |
| QuickSorts.Combine | src/lib.rs:129-134 | partition and both recursive sorts together sort the range, or leave it untouched when an end is absent |
| QuickSorts.QuickSort | src/lib.rs:113-135 | a permutation of `left..right` only; ordered by the strategy's key when the range is all present, unchanged otherwise |
| QuickSorts.QuickSortForFirst | src/lib.rs:113-135 | same multiset, ascending start when the range is all present, unchanged otherwise |
| QuickSorts.QuickSortForBest | src/lib.rs:137-158 | same multiset, ascending size when the range is all present, unchanged otherwise |
| QuickSorts.QuickSortForWorst | src/lib.rs:160-181 | same multiset, descending size when the range is all present, unchanged otherwise |
| Allocator.Heap.Valid | src/lib.rs:38-42 | the book has its 32 slots (`[Option<Block>; 32]`) and its absent slots form a tail, which `init`, `alloc` and `dealloc` keep |
| Allocator.Heap.Empty | src/lib.rs:45-51 | start 0, size 0, every slot absent, strategy at its initial `First` |
| Allocator.Heap.Init | src/lib.rs:53-58 | records strategy, start and size; slot 0 holds the whole region; other slots untouched |
| Allocator.Heap.Alloc | src/lib.rs:69-91 | result and new book are `Carve`'s; on success the free bytes drop by the aligned size; `start`/`size` untouched; absent slots stay a tail |
| Allocator.Heap.Dealloc | src/lib.rs:93-111 | same multiset as `Record`'s book; ordered by the strategy only when that book is full, and exactly `Record`'s book otherwise; free bytes grow by the size only when slot 31 was absent |
| Allocator.Heap.SortByStrategy | src/lib.rs:104-110 | the strategy's quicksort over slots 0..31 |
| Scenarios.FirstFitScenario | src/lib.rs:53-91 | heap (0x1000, 256), request 32 aligned to 8: returns 0x1000 and leaves (0x1020, 224) |
| Scenarios.ExactSizeScenario | src/lib.rs:77 | requesting exactly the only block's size fails |
| Scenarios.BestFitScenario | src/lib.rs:69-111 | Best heap (0x2000, 300) carved into 50, 10 and 100 and freed again: a 9-byte request gets 0x20A0 from the untouched tail, not the freed 10-byte block |
| Scenarios.OverrunScenario | src/lib.rs:79-86 | heap (1, 100): after requests of 1 (aligned to 8), 80 and 8, a 1-byte request is handed 104, past the region's end at 101 |

## Left out

- `LockedHeap`, its mutex, `Deref` and the `GlobalAlloc` impl (src/lib.rs:194-229): locking
  and the mapping of errors to a null pointer are not modelled.
- `Heap::allocate`/`deallocate` and the `Alloc` impl (src/lib.rs:60-66, 184-192) only
  forward to `alloc`/`dealloc`. `Heap.Alloc` and `Heap.Dealloc` stand for all three layers.
- `ALLOC_TYPE` is a global shared by every heap (src/lib.rs:35, 54, 105). Here it is the
  `strategy` field of the heap that `Init` sets.
- Addresses and sizes are unbounded naturals, so `usize` wrap-around is not modelled.
- Alignment.AlignUp: its requires excludes `align_up(0, 0)`, the one input whose result
  would be negative.
- Allocator.Heap.Alloc: its requires `CarveDefined` excludes the runs where
  `book_size - align_size` underflows or `NonNull::new(..).unwrap()` panics on address 0.
  What those runs would do is not modelled.
- Pointers and `Layout` are reduced to naturals. `Heap.Alloc` requires the alignment to be
  a power of two, which `Layout` guarantees.
- Blocks.Renew: the in-place `renew` is modelled as a function returning the updated
  value. The source never calls it.
- Alignment.AlignDown: the panic for an alignment that is neither 0 nor a power of two
  is modelled as the error `InvalidAlignment`.
- QuickSorts.QuickSort: its requires excludes ranges whose two ends are present but
  which have an absent slot between them. On such a range the source unwraps `None` and
  panics. The scans stop only on present slots, so one of `l` and `r` must step onto the
  absent slot before they meet, and the next scan test unwraps it. `dealloc`, the only
  caller, never produces such a range, because its absent slots always form a tail.
- The partition part of each quicksort is modelled as `Partition`, with its two inner
  loops as `ScanDown` and `ScanUp`. The rest of the quicksort body is `QuickSort`, which
  calls it.
