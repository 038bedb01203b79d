# A verified model of a segregated-fit malloc (mm.c)

This project models the core of `mm.c`, a boundary-tag heap allocator with
fourteen segregated explicit free lists. The model covers four layers:

- **Codec** (`codec.dfy`, module `Codec`): the 64-bit boundary-tag word
  (`PACK`, `GET_SIZE`, `GET_ALLOC`), header/footer addressing (`HDRP`,
  `FTRP`), physical navigation (`NEXT_BLKP`, `PREV_BLKP`) and `align`.
- **Size classes** (`sizeclass.dfy`, module `SizeClass`): the table of
  fourteen thresholds and `find_free_list`, the map from a block size to its bucket.
- **Free lists** (`freelist.dfy`, module `FreeList`): `place_freeblk` and
  `remove_freeblk`. A bucket is the sequence of its members in list order, so
  a member's `next` and `prev` links are its neighbours in that sequence. An
  empty bucket's head holds the prologue pointer (`heap_listp`).
- **Heap** (`heap.dfy`, `coalesce.dfy`, `alloc.dfy`; modules `HeapModel`,
  `Coalescing`, `Allocator`):
  - The heap is the start address returned at initialisation, the sequence of
    blocks between prologue and epilogue, and the fourteen buckets.
  - The block pointer of block `i` is `lo + 32` plus the sizes of the blocks
    before it. The view `Layout` maps each block pointer to its block.
  - On top of this sit `find_fit_given_free_list`, `place`, `coalesce` (all
    four neighbour cases), `extend_heap`, `mm_init`, `malloc`, `free`,
    `realloc` and `calloc`.

The heap invariant `HeapModel.Inv` is what the code maintains across public
operations: place's split rule (mm.c:398-411) keeps every block at least 32
bytes, and coalesce (mm.c:621-742) leaves no two free blocks adjacent. The
source's heap checker, whose calls are all commented out, asserts only the
alignment of every block pointer (mm.c:1051) and the bucket cross-check
(mm.c:1185-1236). The invariant has four parts:

- the start address is 16-byte aligned;
- every block size is a multiple of 16 and at least 32;
- no two free blocks are adjacent;
- every bucket is duplicate-free and holds exactly the free blocks whose sizes
  fall in its range.

A block's header and footer carry the same tag by construction, because a
block is stored once in the model.

The model proves the following:

- every public operation preserves the invariant; for free and realloc, this
  holds with the corrected test of coalesce's both-neighbours-free case (see
  Findings), while malloc never reaches that case;
- each operation changes the set of client-owned blocks (`Live`) only as its
  contract says;
- the codec round-trips;
- size classes are exact and monotone;
- the first-fit search is exact for the request's bucket;
- the free-list operations insert at the head and unlink by splicing;
- placing conserves the heap's byte total;
- the both-neighbours-free case of coalesce as written can misfile a block
  (see Findings).

The source's header comment describes the free lists as sorted by increasing
size. The code inserts at the head instead: the sorted-insert path at
mm.c:469-518 sits after an unconditional `return` and never runs. The model
follows the code.

## Model

| member | source | states |
|---|---|---|
| Codec.Pack | mm.c:115-118 | for an aligned size and a 0/1 bit, GET_SIZE and GET_ALLOC recover exactly the packed size and bit (the codec round trip) |
| Codec.GetSize | mm.c:170-173 | the size read from a tag is a multiple of 16 and differs from the tag only in its four low bits |
| Codec.GetAlloc | mm.c:174-177 | the allocated bit is 0 or 1 and is the tag's parity |
| Codec.Hdrp | mm.c:180-183 | the header word lies before the block pointer, and an aligned block pointer has its header at 8 modulo 16, so header and payload never share an alignment unit |
| Codec.BlockSpan | mm.c:180-197 | NEXT_BLKP reads the block size from the word HDRP names; header and footer are the first and last words of the block's size bytes; the next block's header directly follows the footer; once the footer carries the header's tag, PREV_BLKP of NEXT_BLKP leads back to the block |
| Codec.Ftrp | mm.c:184-187 | the footer of a block whose header packs size s lies s - 16 bytes past the block pointer |
| Codec.NextBlkp | mm.c:190-193 | the next block pointer lies one block size (read from the header) beyond the block pointer |
| Codec.PrevBlkp | mm.c:194-197 | the previous block pointer lies the previous block's size (read from its footer) before the block pointer |
| Codec.Align | mm.c:200-203 | the result is a multiple of 16, at least the input and less than 16 above it |
| Codec.AlignFixesMultiples | mm.c:200-203 | rounding up leaves a value unchanged exactly when it is already a multiple of 16, so rounding is idempotent |
| SizeClass.ClassFromInClass | mm.c:206-320 | the chain of range tests, started above the ruled-out buckets, lands in the bucket whose range holds the size |
| SizeClass.FindFreeList | mm.c:206-320 | no bucket exactly for size 0; otherwise a bucket whose range holds the size |
| SizeClass.FindFreeListExact | mm.c:206-320 | find_free_list returns bucket k if and only if the size is non-zero and lies in k's range |
| SizeClass.ClassOfIff | mm.c:206-320 | a size is filed under bucket k if and only if k's range holds it |
| SizeClass.InClassUnique | mm.c:206-320 | the fourteen ranges do not overlap |
| SizeClass.ClassMonotone | mm.c:206-320 | a larger size never maps to a lower bucket |
| FreeList.PlaceFreeBlk | mm.c:415-467 | a block whose tag says allocated is refused and the lists are unchanged; a free block is accepted |
| FreeList.PlaceFreeBlkSpec | mm.c:424-467 | a free block becomes the head of its size's bucket, with a NULL prev link and the old head as its next link; the old members follow in order; no other bucket changes; the bucket gains exactly that pointer and stays duplicate-free |
| FreeList.RemoveFreeBlk | mm.c:539-618 | the unlink succeeds exactly when the block's bit is set and the block is in its size's bucket; on failure the lists are unchanged |
| FreeList.RemoveFreeBlkSpec | mm.c:539-618 | the unlink touches only the block's own bucket and splices out its first occurrence, keeping the others in order; a one-member bucket reverts to the sentinel head; a duplicate-free bucket loses exactly that pointer |
| FreeList.PlaceThenRemove | mm.c:539-571 | unlinking a block that was just filed, with its bit set as callers do, succeeds and returns the buckets to exactly their earlier state (insertion and removal are inverse) |
| FreeList.RemoveFirstSplice | mm.c:560-616 | unlinking removes exactly the first occurrence: the members before it and after it, in order |
| FreeList.RemoveFirstElems | mm.c:560-616 | unlinking from a duplicate-free bucket leaves it duplicate-free with exactly that pointer gone |
| HeapModel.InvBucketMembership | mm.c:1175-1235 | under the invariant, a pointer is in bucket k if and only if it points to a free block whose size lies in k's range |
| HeapModel.LayoutAligned | mm.c:1051 | with an aligned start and sizes that are multiples of 16, every block pointer is 16-byte aligned, which is what the heap checker asserts of each block |
| Allocator.AdjustedSize | mm.c:819-830 | the adjusted size is the least multiple of 16 that is at least 32 and at least the request plus header and footer |
| Allocator.FirstFitIndex | mm.c:369-382 | the position found holds a block large enough and every earlier member's block is too small; no position means no member fits |
| Allocator.FindFit | mm.c:356-383 | the result is a member of the request's bucket that is large enough, and every member before it in list order is too small (first fit); no result exactly when no member of that bucket is large enough |
| Allocator.FindFitExact | mm.c:356-383 | under the invariant, the search fails exactly when no free block of the request's size range is large enough, and a hit is such a free block |
| Allocator.Place | mm.c:386-412 | block i becomes allocated; it is cut to exactly the request when the remainder would be at least 32 bytes and kept whole otherwise; earlier blocks and the byte total are unchanged |
| Allocator.PlaceRestoresInv | mm.c:386-412 | placing keeps the invariant and the block pointer; the clients now own block i with its new size, and nothing else changes for them |
| Allocator.PlaceSplitInv | mm.c:394-404 | in the splitting branch the clients own exactly the request's bytes at block i, and the coalesced remainder keeps the invariant |
| Coalescing.MergedRun | mm.c:621-742 | coalescing collapses the freed block and its free neighbours into one free block at the run's start whose size is the freed block's plus those of its free neighbours; all blocks outside the run keep their order |
| Coalescing.CoalesceVariant | mm.c:621-742 | the result is the previous block when it was free and the freed block otherwise; it is free and its size is the freed block's plus those of its free neighbours; the blocks before it are unchanged and those after it move down by the number of neighbours absorbed |
| Coalescing.CoalesceFiles | mm.c:621-742 | after coalescing, the merged block is filed under the bucket of its size and under no other; the absorbed neighbours are in no bucket; every other pointer is in exactly the buckets it was in before |
| Coalescing.CoalesceLayout | mm.c:621-742 | in the address view the run's pointers disappear, the merged block appears at the run's first pointer, and every other block pointer keeps its block |
| Coalescing.CoalesceVariantRestoresInv | mm.c:621-742 | outside the misfiling case, coalescing a just-freed block restores sizes, no-adjacent-free and exact bucket filing, and leaves every allocated block untouched |
| Coalescing.CoalesceRestoresInv | mm.c:621-742 | with the intended case-4 test, coalescing always restores the invariant and leaves the allocated blocks untouched |
| Coalescing.AsWrittenMisfiles | mm.c:699-735 | a heap satisfying the invariant where freeing a 128-byte block between two free 32-byte blocks makes the as-written coalesce leave the 192-byte result in the 32-byte bucket, breaking exact filing |
| Allocator.SplitCoalesceAsWritten | mm.c:394-404 | the remainder place coalesces follows an allocated block, so the as-written case-4 test gives the same heap as the corrected one |
| Allocator.ExtendCoalesceAsWritten | mm.c:745-766 | the block extend_heap coalesces is the last one, so the as-written case-4 test gives the same heap as the corrected one |
| Allocator.ExtendHeap | mm.c:745-766 | NULL exactly when the break cannot move; otherwise the heap grows by the aligned byte count, and the result is the last block, free, of exactly the aligned byte count plus the size of the old last block when that one was free, with the blocks before it unchanged |
| Allocator.ExtendRestoresInv | mm.c:745-766 | growing the heap keeps the invariant and leaves the allocated blocks unchanged |
| Allocator.Init | mm.c:771-801 | fails (false in the source) exactly when the four initial words cannot be obtained; otherwise an empty heap with every bucket head at the prologue pointer, start + 16 |
| Allocator.InitInv | mm.c:771-801 | a freshly initialised heap satisfies the invariant and owns no blocks |
| Allocator.Malloc | mm.c:806-875 | a zero-byte request returns NULL; a NULL result leaves the heap unchanged; with a growable heap a non-zero request always succeeds |
| Allocator.MallocSpec | mm.c:806-875 | malloc keeps the invariant; a returned pointer is 16-byte aligned, was not owned, and now names a block whose payload holds the request; every other owned block is unchanged |
| Allocator.MallocReuse | mm.c:838-864 | when the request's bucket holds a fitting block, malloc returns the first fit in list order and the heap keeps its byte total, whether or not the break could move; on a miss it succeeds exactly when the break can move and then grows the heap by exactly the adjusted size |
| Allocator.Free | mm.c:880-903 | free keeps the heap start and the byte total |
| Allocator.FreeSpec | mm.c:880-903 | free keeps the invariant and releases exactly the freed block |
| Allocator.Realloc | mm.c:908-964 | a NULL pointer makes it malloc; a zero size returns NULL; a failed resize returns NULL and leaves the heap unchanged |
| Allocator.ReallocSpec | mm.c:908-964 | realloc keeps the invariant; a zero size releases exactly the old block; on success the clients lose the old block and gain one whose payload holds the new size; the old pointer comes back when its block was large enough, cut to align(size+16) when at least 32 bytes are spare and kept whole otherwise; a growable heap never fails |
| Allocator.ReallocInPlace | mm.c:925-933 | when the old block is large enough, the old pointer is returned; its block is cut to align(size+16) when at least 32 bytes are spare and kept whole otherwise, and nothing else changes |
| Allocator.ReallocMoved | mm.c:935-963 | when the old block is too small, a new aligned block holding the new size replaces the old one among the owned blocks |
| Allocator.Calloc | mm.c:970-979 | a zero element count or size returns NULL; a NULL result leaves the heap unchanged |
| Allocator.CallocSpec | mm.c:970-979 | calloc keeps the invariant, and a returned block holds the element count times the size, with nothing else changed for the clients |

## Left out

- Moving the break (`mem_sbrk`) is the boolean parameter `grow`, which says whether the break could move. The memory system is not part of this model.
- Payload bytes are not modelled. So realloc's copy of the old payload and calloc's zeroing have no counterpart. The model tracks only which blocks the clients own and their sizes.
- The links stored inside free payloads (GET/SET_NEXT_FREEBLK and GET/SET_PREV_FREEBLK) are abstracted into list order. Header and footer words are abstracted into one `Block` record per block. The `Codec` module models the word-level codec separately; it is not connected to the heap model.
- `find_fit` (mm.c:324-344) and `in_same_freelist` (mm.c:347-352) are never called. The sorted insert (mm.c:469-518) cannot be reached. All three are left out.
- The heap checker `mm_checkheap` and its helpers `in_heap`, `aligned` and `blk_in_freelist` print and assert under DEBUG. They are left out. Of `HeapModel.Inv`, they assert only the alignment of every block pointer (mm.c:1051) and the bucket part (mm.c:1185-1236); the size and adjacency parts are maintained by place and coalesce but never checked.
- `size_t` wrap-around is not modelled; sizes are unbounded naturals. In particular, `Allocator.Calloc` does not model the overflow of `size *= nmemb`, and `Codec.Align` does not model the wrap for sizes near 2^64.
- free and realloc require a pointer to an allocated block. The source has no defined behaviour for NULL, foreign or double-freed pointers passed to free.
- Allocator.Realloc, Allocator.ReallocSpec: when the new malloc fails, the source copies into NULL before freeing. The model stops at the failed malloc: it returns NULL and leaves the heap unchanged.
- The global `curr_freelist` cursor, which is written as a side effect of lookups, is not modelled.
- Single-threaded, as the source is.
- Allocator.Free, Allocator.FreeSpec, Allocator.ReallocSpec, Allocator.ReallocMoved: free coalesces with the corrected both-neighbours-free test (mm.c:706, see Findings), so the invariant they promise is that of the corrected program. With the test as written, free can leave a block filed under the wrong bucket (Coalescing.AsWrittenMisfiles). The coalescing that malloc triggers never reaches that case (Allocator.SplitCoalesceAsWritten, Allocator.ExtendCoalesceAsWritten).
- HeapModel.Inv, Allocator.InitInv: assume that the start address the memory system returns at initialisation is 16-byte aligned. The memory system is not part of this model.
- FreeList.PlaceFreeBlk, FreeList.RemoveFreeBlk: for a zero size, find_free_list returns NULL and the source then dereferences it (mm.c:434, mm.c:551); the model instead files such a block under bucket 0. No caller passes a zero size while the invariant holds, since every block is at least 32 bytes.
- Allocator.ExtendHeap: for a zero byte count the source writes the new block's footer over the last block's footer and its epilogue over the new block's header, so coalesce sees an allocated block with allocated neighbours and place_freeblk refuses it (mm.c:427): nothing is filed and the last footer is lost. The model instead appends and files an empty free block. malloc always asks for at least 32 bytes.

## Findings

| source | as written | input that shows it | evidently intended | confidence | as-written member | corrected member |
|---|---|---|---|---|---|---|
| mm.c:706 | case 4 of coalesce (both neighbours free) tests `find_free_list(GET_SIZE(HDRP(bp))) == find_free_list(size)`, the freed block's bucket, to decide whether the previous block may grow in place without being relisted | blocks 32 free, 128 allocated, 32 free; free the 128-byte block: the merged 192-byte block maps to the 128-byte block's bucket, so the previous block grows in place and stays filed under the 32-byte bucket | compare the previous block's bucket (`GET_SIZE(HDRP(PREV_BLKP(bp)))`), as case 3 does (mm.c:676), so the merged block is relisted whenever its bucket changes | not executed | Coalescing.AsWrittenMisfiles | Coalescing.CoalesceRestoresInv |
