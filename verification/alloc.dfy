/**
 The allocator's public interface and its helpers: size adjustment, the
 first-fit search of one bucket, placing a request in a free block (splitting
 off the remainder), growing the heap, and malloc, free, realloc and calloc.

 The growth primitive is a parameter: `grow` says whether the break could be
 moved. Payload bytes are not modelled, so realloc's copy and calloc's zeroing
 have no counterpart; what the model tracks is which blocks the clients own.
 */
module Allocator {
  import opened Wrappers
  import opened Codec
  import opened SizeClass
  import opened FreeList
  import opened HeapModel
  import opened Coalescing

  /** The heap after a call, and the pointer handed back (None for NULL). */
  datatype Allocation = Allocation(heap: Heap, ptr: Option<nat>)

  /**
   The adjusted block size malloc asks for: room for the request and the
   header and footer, rounded up to the alignment, and never below the minimum
   block of 32 bytes.
   */
  function AdjustedSize(size: nat): (asize: nat)
    ensures asize % 16 == 0 && asize >= 2 * DSIZE && asize >= size + DSIZE
    ensures forall a: nat :: a % 16 == 0 && a >= 2 * DSIZE && a >= size + DSIZE ==> asize <= a
    ensures size >= 1 ==> asize == Align(size + DSIZE)
  {
    if size <= DSIZE then 2 * DSIZE else Align(size + DSIZE)
  }

  /** The position of the first member of s whose block holds asize bytes. */
  function FirstFitIndex(m: map<nat, Block>, s: Bucket, asize: nat): (r: Option<nat>)
    requires forall x :: x in s ==> x in m
    ensures r.Some? ==> r.value < |s| && asize <= m[s[r.value]].size
    ensures r.Some? ==> forall j :: 0 <= j < r.value ==> m[s[j]].size < asize
    ensures r.None? ==> forall j :: 0 <= j < |s| ==> m[s[j]].size < asize
  {
    if |s| == 0 then None
    else if asize <= m[s[0]].size then Some(0)
    else match FirstFitIndex(m, s[1..], asize)
      case None => None
      case Some(n) => Some(n + 1)
  }

  /**
   find_fit_given_free_list: the first member, in list order, of the bucket the
   request maps to whose block is large enough; NULL when the bucket is empty
   or holds no such block. Other buckets are not searched.
   */
  function FindFit(h: Heap, asize: nat): (r: Option<nat>)
    requires asize > 0 && |h.buckets| == NumBuckets
    requires forall x :: x in h.buckets[ClassOf(asize)] ==> x in Layout(h)
    ensures r.Some? ==> r.value in h.buckets[ClassOf(asize)] && asize <= Layout(h)[r.value].size
    ensures r.None? <==> forall x :: x in h.buckets[ClassOf(asize)] ==> Layout(h)[x].size < asize
    ensures r.Some? ==> var s := h.buckets[ClassOf(asize)];
              exists n :: 0 <= n < |s| && s[n] == r.value && forall j :: 0 <= j < n ==> Layout(h)[s[j]].size < asize
  {
    var s := h.buckets[ClassOf(asize)];
    match FirstFitIndex(Layout(h), s, asize)
      case None => None
      case Some(n) =>
        assert s[n] == s[n] && forall j :: 0 <= j < n ==> Layout(h)[s[j]].size < asize;
        Some(s[n])
  }

  /** Under the invariant, every bucket member is a block pointer. */
  lemma InvMembersInLayout(h: Heap, k: nat)
    requires Inv(h) && k < NumBuckets
    ensures forall x :: x in h.buckets[k] ==> x in Layout(h) && !Layout(h)[x].alloc && ClassOf(Layout(h)[x].size) == k
  {
    forall x | x in h.buckets[k]
      ensures x in Layout(h) && !Layout(h)[x].alloc && ClassOf(Layout(h)[x].size) == k
    {
      assert x in Elems(h.buckets[k]);
    }
  }

  /**
   Under the invariant, the search fails exactly when no free block of the
   request's bucket is large enough.
   */
  lemma FindFitExact(h: Heap, asize: nat)
    requires Inv(h) && asize > 0
    ensures forall x :: x in h.buckets[ClassOf(asize)] ==> x in Layout(h)
    ensures FindFit(h, asize).Some? ==> FindFit(h, asize).value in FreeAddrs(Layout(h), ClassOf(asize))
    ensures FindFit(h, asize).None? <==>
              forall x :: x in FreeAddrs(Layout(h), ClassOf(asize)) ==> Layout(h)[x].size < asize
  {
    var k := ClassOf(asize);
    InvMembersInLayout(h, k);
    assert forall x :: x in FreeAddrs(Layout(h), k) <==> x in Elems(h.buckets[k]);
  }

  /**
   place: mark block i allocated and unlink it from its bucket; if at least a
   minimum block is left over, cut the request off the front and coalesce the
   remainder as a new free block.
   */
  function Place(h: Heap, i: nat, asize: nat): (r: Heap)
    requires i < |h.blocks| && |h.buckets| == NumBuckets && asize <= h.blocks[i].size
    ensures r.lo == h.lo && |r.buckets| == NumBuckets
    ensures i < |r.blocks| && r.blocks[..i] == h.blocks[..i]
    ensures r.blocks[i].alloc && asize <= r.blocks[i].size
    ensures r.blocks[i].size == if h.blocks[i].size - asize >= 2 * DSIZE then asize else h.blocks[i].size
    ensures Sum(r.blocks) == Sum(h.blocks)
  {
    var b := h.blocks;
    var c := b[i].size;
    var unlinked := RemoveFreeBlk(h.buckets, Addr(h, i), c, true).buckets;
    assert b == b[..i] + [b[i]] + b[i + 1..];
    if c - asize >= 2 * DSIZE then
      SplitCoalesce(h, i, asize);
      Coalesce(Split(h, i, asize), i + 1).heap
    else
      SumReplace(b[..i], [b[i]], [Block(c, true)], b[i + 1..]);
      assert b[i := Block(c, true)] == b[..i] + [Block(c, true)] + b[i + 1..];
      SumSmall1(b[i]);
      SumSmall1(Block(c, true));
      Heap(h.lo, b[i := Block(c, true)], unlinked)
  }

  /** Coalescing the remainder of a split keeps the blocks before it and the allocated part. */
  lemma SplitCoalesce(h: Heap, i: nat, asize: nat)
    requires i < |h.blocks| && |h.buckets| == NumBuckets && asize + 2 * DSIZE <= h.blocks[i].size
    ensures var r := Coalesce(Split(h, i, asize), i + 1).heap;
            && r.lo == h.lo && |r.buckets| == NumBuckets
            && i < |r.blocks| && r.blocks[..i] == h.blocks[..i] && r.blocks[i] == Block(asize, true)
            && Sum(r.blocks) == Sum(h.blocks)
  {
    var h1 := Split(h, i, asize);
    var r := Coalesce(h1, i + 1);
    MergedRun(h1.blocks, i + 1);
    MergedSum(h1.blocks, i + 1, RunEnd(h1.blocks, i + 1));
    assert r.heap.blocks[..i] == h.blocks[..i] by {
      assert forall j :: 0 <= j < i ==> r.heap.blocks[j] == h1.blocks[j];
    }
  }

  /**
   The splitting step of place: block i becomes an allocated block of asize
   bytes followed by a free remainder, which is not yet filed.
   */
  function Split(h: Heap, i: nat, asize: nat): (r: Heap)
    requires i < |h.blocks| && |h.buckets| == NumBuckets && asize + 2 * DSIZE <= h.blocks[i].size
    ensures r.lo == h.lo && |r.buckets| == NumBuckets && |r.blocks| == |h.blocks| + 1
    ensures r.blocks[..i] == h.blocks[..i] && r.blocks[i] == Block(asize, true)
    ensures r.blocks[i + 1] == Block(h.blocks[i].size - asize, false)
    ensures Sum(r.blocks) == Sum(h.blocks)
  {
    var b := h.blocks;
    var c := b[i].size;
    var unlinked := RemoveFreeBlk(h.buckets, Addr(h, i), c, true).buckets;
    var parts := [Block(asize, true), Block(c - asize, false)];
    assert b == b[..i] + [b[i]] + b[i + 1..];
    assert Sum([b[i]]) == Sum(parts) by {
      SumSmall1(b[i]);
      SumSmall1(Block(c - asize, false));
      assert parts[1..] == [Block(c - asize, false)];
    }
    SumReplace(b[..i], [b[i]], parts, b[i + 1..]);
    Heap(h.lo, b[..i] + parts + b[i + 1..], unlinked)
  }

  /**
   extend_heap: move the break by the aligned byte count; the new space becomes
   a free block where the epilogue was (a new epilogue follows it) and is
   coalesced with a free last block. NULL when the break cannot move.
   */
  function ExtendHeap(h: Heap, bytes: nat, grow: bool): (r: Option<Coalesced>)
    requires |h.buckets| == NumBuckets
    ensures r.None? <==> !grow
    ensures r.Some? ==> var c := r.value;
              && c.heap.lo == h.lo && c.index <= |h.blocks| && c.index < |c.heap.blocks|
              && !c.heap.blocks[c.index].alloc && Align(bytes) <= c.heap.blocks[c.index].size
              && c.heap.blocks[..c.index] == h.blocks[..c.index]
              && Sum(c.heap.blocks) == Sum(h.blocks) + Align(bytes)
    ensures r.Some? ==> var c, n := r.value, |h.blocks|;
              && c.index == |c.heap.blocks| - 1
              && c.heap.blocks[c.index].size
                 == Align(bytes) + (if n > 0 && !h.blocks[n - 1].alloc then h.blocks[n - 1].size else 0)
  {
    if !grow then None
    else
      var grown := h.blocks + [Block(Align(bytes), false)];
      SumConcat(h.blocks, [Block(Align(bytes), false)]);
      SumSmall1(Block(Align(bytes), false));
      var c := Coalesce(h.(blocks := grown), |h.blocks|);
      MergedRun(grown, |h.blocks|);
      MergedSum(grown, RunStart(grown, |h.blocks|), |h.blocks| + 1);
      assert c.heap.blocks[..c.index] == h.blocks[..c.index] by {
        assert forall j :: 0 <= j < c.index ==> c.heap.blocks[j] == grown[j];
      }
      Some(c)
  }

  /**
   The remainder that place coalesces follows the allocated block it was cut
   from, so the both-neighbours-free case never arises and the as-written
   same-bucket test gives the same result as the intended one.
   */
  lemma SplitCoalesceAsWritten(h: Heap, i: nat, asize: nat)
    requires i < |h.blocks| && |h.buckets| == NumBuckets && asize + 2 * DSIZE <= h.blocks[i].size
    ensures CoalesceVariant(Split(h, i, asize), i + 1, AsWritten) == Coalesce(Split(h, i, asize), i + 1)
  {
    assert Split(h, i, asize).blocks[i].alloc;
  }

  /**
   The block extend_heap coalesces is the last one, so the both-neighbours-free
   case never arises and the as-written same-bucket test gives the same result
   as the intended one.
   */
  lemma ExtendCoalesceAsWritten(h: Heap, bytes: nat)
    requires |h.buckets| == NumBuckets
    ensures var grown := h.(blocks := h.blocks + [Block(Align(bytes), false)]);
            CoalesceVariant(grown, |h.blocks|, AsWritten) == Coalesce(grown, |h.blocks|)
  {
  }

  /**
   mm_init: obtain the four initial words from the growth primitive at `lo`
   (padding, prologue header and footer, epilogue header) and point every
   bucket head at the prologue. No free block exists yet.
   */
  function Init(lo: nat, grow: bool): (r: Option<Heap>)
    ensures r.None? <==> !grow
    ensures r.Some? ==> && r.value.lo == lo && HeapListp(r.value) == lo + 2 * WSIZE
                        && |r.value.blocks| == 0 && |r.value.buckets| == NumBuckets
                        && forall k :: 0 <= k < NumBuckets ==>
                             Head(r.value.buckets[k], HeapListp(r.value)) == HeapListp(r.value)
  {
    if !grow then None
    else Some(Heap(lo, [], seq(NumBuckets, _ => [])))
  }

  /** A freshly initialised heap satisfies the invariant and has no allocated blocks. */
  lemma InitInv(lo: nat)
    requires lo % 16 == 0
    ensures Inv(Init(lo, true).value) && Live(Layout(Init(lo, true).value)) == map[]
  {
    var h := Init(lo, true).value;
    forall k | 0 <= k < NumBuckets
      ensures NoDup(h.buckets[k]) && Elems(h.buckets[k]) == FreeAddrs(Layout(h), k)
    {
      assert h.buckets[k] == [];
    }
  }

  /**
   malloc: NULL for a zero-byte request; otherwise adjust the size, take the
   first fit from the request's bucket, or else grow the heap by the adjusted
   size, and place the request there.
   */
  function Malloc(h: Heap, size: nat, grow: bool): (r: Allocation)
    requires Inv(h)
    ensures size == 0 ==> r == Allocation(h, None)
    ensures r.ptr.None? ==> r.heap == h
    ensures size > 0 && grow ==> r.ptr.Some?
  {
    if size == 0 then Allocation(h, None)
    else
      var asize := AdjustedSize(size);
      FindFitExact(h, asize);
      match FindFit(h, asize)
        case Some(bp) =>
          var i := IndexOf(h, bp).value;
          Allocation(Place(h, i, asize), Some(bp))
        case None =>
          match ExtendHeap(h, asize, grow)
            case None => Allocation(h, None)
            case Some(c) => Allocation(Place(c.heap, c.index, asize), Some(Addr(c.heap, c.index)))
  }

  /**
   malloc reuses before it grows: when the request's bucket holds a fitting
   block, malloc hands out the first such block and the heap keeps its size,
   whether or not the break could move; only on a miss does it grow the heap,
   by exactly the adjusted size, and then it fails exactly when the break
   cannot move.
   */
  lemma MallocReuse(h: Heap, size: nat, grow: bool)
    requires Inv(h) && size > 0
    ensures forall x :: x in h.buckets[ClassOf(AdjustedSize(size))] ==> x in Layout(h)
    ensures var asize, r := AdjustedSize(size), Malloc(h, size, grow);
            FindFit(h, asize).Some? ==> r.ptr == FindFit(h, asize) && Sum(r.heap.blocks) == Sum(h.blocks)
    ensures var asize, r := AdjustedSize(size), Malloc(h, size, grow);
            FindFit(h, asize).None? ==> (r.ptr.Some? <==> grow)
    ensures var asize, r := AdjustedSize(size), Malloc(h, size, grow);
            FindFit(h, asize).None? && r.ptr.Some? ==> Sum(r.heap.blocks) == Sum(h.blocks) + asize
  {
    var asize := AdjustedSize(size);
    FindFitExact(h, asize);
    if FindFit(h, asize).Some? {
      var bp := FindFit(h, asize).value;
      var i := IndexOf(h, bp).value;
      assert Malloc(h, size, grow) == Allocation(Place(h, i, asize), Some(bp));
    } else if grow {
      AlignFixesMultiples(asize);
      var c := ExtendHeap(h, asize, grow).value;
      assert Malloc(h, size, grow) == Allocation(Place(c.heap, c.index, asize), Some(Addr(c.heap, c.index)));
    }
  }

  /** free: clear the block's allocated bit in header and footer, then coalesce it. */
  function Free(h: Heap, ptr: nat): (r: Heap)
    requires Inv(h) && ptr in Live(Layout(h))
    ensures r.lo == h.lo && Sum(r.blocks) == Sum(h.blocks)
  {
    var i := IndexOf(h, ptr).value;
    var b := h.blocks;
    var freed := Block(b[i].size, false);
    assert b == b[..i] + [b[i]] + b[i + 1..];
    assert b[i := freed] == b[..i] + [freed] + b[i + 1..];
    SumSmall1(b[i]);
    SumSmall1(freed);
    SumReplace(b[..i], [b[i]], [freed], b[i + 1..]);
    MergedSum(b[i := freed], RunStart(b[i := freed], i), RunEnd(b[i := freed], i));
    Coalesce(h.(blocks := b[i := freed]), i).heap
  }

  /** Setting block i's allocated bit and unlinking it leaves buckets exact for the allocated block. */
  lemma AllocTracks(h: Heap, i: nat, blk: Block)
    requires Inv(h) && i < |h.blocks| && blk.alloc
    ensures Tracks(RemoveFreeBlk(h.buckets, Addr(h, i), h.blocks[i].size, true).buckets,
                   Layout(h)[Addr(h, i) := blk], {})
  {
    var bp, L := Addr(h, i), Layout(h);
    SizesOkPositive(h.blocks);
    LayoutAt(h, i);
    var u := RemoveFreeBlk(h.buckets, bp, h.blocks[i].size, true).buckets;
    RemoveFreeBlkSpec(h.buckets, bp, h.blocks[i].size);
    if !h.blocks[i].alloc {
      UnlinkTracks(h.buckets, L, {}, bp);
      assert {} + {bp} == {bp};
    } else {
      var c := ClassOf(h.blocks[i].size);
      assert bp !in Elems(h.buckets[c]);
      assert u == h.buckets;
      forall k | 0 <= k < NumBuckets ensures Elems(u[k]) == FreeAddrs(L, k) - {bp} {
        assert bp !in FreeAddrs(L, k);
      }
    }
    AllocatedTracks(u, L, bp, blk);
  }

  /** The split leaves no two free blocks adjacent except around the remainder. */
  lemma SplitAdjacency(b: seq<Block>, i: nat, x: Block, y: Block)
    requires i < |b| && NoAdjacentFree(b) && x.alloc
    ensures NoAdjacentFreeExcept(b[..i] + [x, y] + b[i + 1..], i + 1)
  {
    var b2 := b[..i] + [x, y] + b[i + 1..];
    forall j | 0 < j < |b2| && j != i + 1 && j != i + 2 ensures b2[j - 1].alloc || b2[j].alloc {
      if j < i {
        assert b2[j - 1] == b[j - 1] && b2[j] == b[j];
      } else if j == i {
        assert b2[j] == x;
      } else {
        assert b2[j - 1] == b[j - 2] && b2[j] == b[j - 1];
      }
    }
  }

  /**
   Placing a request of asize bytes (a multiple of 16, at least 32) in block i,
   free or already allocated, keeps the invariant; the clients now own block i
   with its new size, and nothing else changes for them.
   */
  lemma PlaceRestoresInv(h: Heap, i: nat, asize: nat)
    requires Inv(h) && i < |h.blocks| && asize % 16 == 0 && asize >= 2 * DSIZE && asize <= h.blocks[i].size
    ensures Inv(Place(h, i, asize))
    ensures Addr(Place(h, i, asize), i) == Addr(h, i)
    ensures Live(Layout(Place(h, i, asize))) == Live(Layout(h))[Addr(h, i) := Place(h, i, asize).blocks[i].size]
  {
    var r := Place(h, i, asize);
    assert r.blocks[..i] == h.blocks[..i];
    if h.blocks[i].size - asize >= 2 * DSIZE {
      PlaceSplitInv(h, i, asize);
    } else {
      var x := Block(h.blocks[i].size, true);
      SizesOkPositive(h.blocks);
      LayoutSet(h, i, x);
      AllocTracks(h, i, x);
      LiveSet(Layout(h), Addr(h, i), x);
    }
  }

  /** The splitting branch of place: the remainder becomes a pending free block and is coalesced. */
  lemma PlaceSplitInv(h: Heap, i: nat, asize: nat)
    requires Inv(h) && i < |h.blocks| && asize % 16 == 0 && asize >= 2 * DSIZE
    requires h.blocks[i].size - asize >= 2 * DSIZE
    ensures Inv(Place(h, i, asize))
    ensures Live(Layout(Place(h, i, asize))) == Live(Layout(h))[Addr(h, i) := asize]
  {
    var h1 := Split(h, i, asize);
    SplitPending(h, i, asize);
    CoalesceRestoresInv(h1, i + 1);
    assert Place(h, i, asize) == Coalesce(h1, i + 1).heap;
  }

  /** After the split the remainder is a pending free block, and the clients own block i. */
  lemma SplitPending(h: Heap, i: nat, asize: nat)
    requires Inv(h) && i < |h.blocks| && asize % 16 == 0 && asize >= 2 * DSIZE
    requires h.blocks[i].size - asize >= 2 * DSIZE
    ensures Pending(Split(h, i, asize), i + 1) && Split(h, i, asize).lo % 16 == 0
    ensures Live(Layout(Split(h, i, asize))) == Live(Layout(h))[Addr(h, i) := asize]
  {
    SplitBuckets(h, i, asize);
    SplitShape(h, i, asize);
    SplitLive(h, i, asize);
  }

  /** After the split the buckets file every free block except the unfiled remainder. */
  lemma SplitBuckets(h: Heap, i: nat, asize: nat)
    requires Inv(h) && i < |h.blocks| && asize >= 2 * DSIZE
    requires h.blocks[i].size - asize >= 2 * DSIZE
    ensures BucketsHold(Split(h, i, asize), {Addr(Split(h, i, asize), i + 1)})
  {
    var c := h.blocks[i].size;
    var bp: nat, L: map<nat, Block> := Addr(h, i), Layout(h);
    var x, y := Block(asize, true), Block(c - asize, false);
    var u := RemoveFreeBlk(h.buckets, bp, c, true).buckets;
    SplitLayout(h, i, asize);
    assert Split(h, i, asize).buckets == u;
    AllocTracks(h, i, x);
    FreshTracks(u, L[bp := x], bp + asize, y);
  }

  /** The split hands the client exactly the allocated part. */
  lemma SplitLive(h: Heap, i: nat, asize: nat)
    requires Inv(h) && i < |h.blocks| && asize >= 2 * DSIZE
    requires h.blocks[i].size - asize >= 2 * DSIZE
    ensures Live(Layout(Split(h, i, asize))) == Live(Layout(h))[Addr(h, i) := asize]
  {
    var bp: nat, L: map<nat, Block> := Addr(h, i), Layout(h);
    var x, y := Block(asize, true), Block(h.blocks[i].size - asize, false);
    SplitLayout(h, i, asize);
    LiveSet(L[bp := x], bp + asize, y);
    LiveSet(L, bp, x);
  }

  /** Where the split puts the two blocks in the address view. */
  lemma SplitLayout(h: Heap, i: nat, asize: nat)
    requires Inv(h) && i < |h.blocks| && asize >= 2 * DSIZE
    requires h.blocks[i].size - asize >= 2 * DSIZE
    ensures Addr(Split(h, i, asize), i + 1) == Addr(h, i) + asize
    ensures Addr(h, i) + asize !in Layout(h)
    ensures Layout(Split(h, i, asize))
         == Layout(h)[Addr(h, i) := Block(asize, true)][Addr(h, i) + asize := Block(h.blocks[i].size - asize, false)]
  {
    var b := h.blocks;
    var x, y := Block(asize, true), Block(b[i].size - asize, false);
    assert Split(h, i, asize).blocks == b[..i] + [x, y] + b[i + 1..];
    SizesOkPositive(b);
    LayoutSplit(h, i, x, y);
  }

  /** The split keeps the size discipline and leaves only the remainder's neighbours to check. */
  lemma SplitShape(h: Heap, i: nat, asize: nat)
    requires Inv(h) && i < |h.blocks| && asize % 16 == 0 && asize >= 2 * DSIZE
    requires h.blocks[i].size - asize >= 2 * DSIZE
    ensures SizesOk(Split(h, i, asize).blocks)
    ensures NoAdjacentFreeExcept(Split(h, i, asize).blocks, i + 1)
  {
    var b := h.blocks;
    var x, y := Block(asize, true), Block(b[i].size - asize, false);
    assert Split(h, i, asize).blocks == b[..i] + [x, y] + b[i + 1..];
    SplitAdjacency(b, i, x, y);
    assert y.size % 16 == 0 && y.size >= 32;
    SplitSizes(b, i, x, y);
  }

  /** Replacing a block by two blocks that keep the size discipline keeps it for the whole heap. */
  lemma SplitSizes(b: seq<Block>, i: nat, x: Block, y: Block)
    requires i < |b| && SizesOk(b)
    requires x.size % 16 == 0 && x.size >= 32 && y.size % 16 == 0 && y.size >= 32
    ensures SizesOk(b[..i] + [x, y] + b[i + 1..])
  {
    var b1 := b[..i] + [x, y] + b[i + 1..];
    forall j | 0 <= j < |b1| ensures b1[j].size % 16 == 0 && b1[j].size >= 32 {
      if j > i + 1 { assert b1[j] == b[j - 1]; }
    }
  }

  /**
   Growing the heap by at least a minimum block keeps the invariant, leaves the
   allocated blocks alone, and returns a free block of at least the aligned size.
   */
  lemma ExtendRestoresInv(h: Heap, bytes: nat)
    requires Inv(h) && bytes > DSIZE
    ensures Inv(ExtendHeap(h, bytes, true).value.heap)
    ensures Live(Layout(ExtendHeap(h, bytes, true).value.heap)) == Live(Layout(h))
  {
    var blk := Block(Align(bytes), false);
    var h1 := h.(blocks := h.blocks + [blk]);
    SizesOkPositive(h.blocks);
    LayoutAppend(h, blk);
    FreshTracks(h.buckets, Layout(h), Addr(h, |h.blocks|), blk);
    assert Align(bytes) >= 32 by {
      assert Align(bytes) == 16 * (Align(bytes) / 16);
    }
    assert Pending(h1, |h.blocks|);
    CoalesceRestoresInv(h1, |h.blocks|);
    LiveSet(Layout(h), Addr(h, |h.blocks|), blk);
    assert Live(Layout(h)) - {Addr(h, |h.blocks|)} == Live(Layout(h));
  }

  /**
   malloc keeps the invariant. A returned pointer is 16-byte aligned, was not
   owned before, and now names an allocated block whose payload (its size less
   the header and footer) holds the request; every other owned block is as it was.
   */
  lemma MallocSpec(h: Heap, size: nat, grow: bool)
    requires Inv(h)
    ensures Inv(Malloc(h, size, grow).heap)
    ensures Malloc(h, size, grow).ptr.Some? ==>
              var p, live := Malloc(h, size, grow).ptr.value, Live(Layout(Malloc(h, size, grow).heap));
              && p % 16 == 0 && p !in Live(Layout(h))
              && p in live && live[p] >= size + DSIZE && live[p] >= AdjustedSize(size)
              && live - {p} == Live(Layout(h))
  {
    if size > 0 {
      var asize := AdjustedSize(size);
      FindFitExact(h, asize);
      if FindFit(h, asize).Some? {
        var bp := FindFit(h, asize).value;
        var i := IndexOf(h, bp).value;
        InvMembersInLayout(h, ClassOf(asize));
        assert Malloc(h, size, grow) == Allocation(Place(h, i, asize), Some(bp));
        PlaceAt(h, i, asize);
      } else if grow {
        ExtendRestoresInv(h, asize);
        var c := ExtendHeap(h, asize, grow).value;
        assert Malloc(h, size, grow) == Allocation(Place(c.heap, c.index, asize), Some(Addr(c.heap, c.index)));
        PlaceAt(c.heap, c.index, asize);
      }
    }
  }

  /** Placing a request in free block i hands out block i's pointer, as malloc promises. */
  lemma PlaceAt(h: Heap, i: nat, asize: nat)
    requires Inv(h) && i < |h.blocks| && !h.blocks[i].alloc
    requires asize % 16 == 0 && asize >= 2 * DSIZE && asize <= h.blocks[i].size
    ensures Inv(Place(h, i, asize))
    ensures var p, live := Addr(h, i), Live(Layout(Place(h, i, asize)));
            && p % 16 == 0 && p !in Live(Layout(h))
            && p in live && live[p] >= asize
            && live - {p} == Live(Layout(h))
  {
    var r := Place(h, i, asize);
    var p := Addr(h, i);
    SizesOkPositive(h.blocks);
    LayoutAt(h, i);
    InvAligned(h, p);
    PlaceRestoresInv(h, i, asize);
    assert p !in Live(Layout(h));
    PutRemove(Live(Layout(h)), p, r.blocks[i].size);
  }

  /** Adding a fresh key and removing it again gives back the map. */
  lemma PutRemove<V>(m: map<nat, V>, p: nat, v: V)
    requires p !in m
    ensures m[p := v] - {p} == m
  {
  }

  /**
   free keeps the invariant and releases exactly the freed block: the clients
   own every other block as before.
   */
  lemma FreeSpec(h: Heap, ptr: nat)
    requires Inv(h) && ptr in Live(Layout(h))
    ensures Inv(Free(h, ptr))
    ensures Live(Layout(Free(h, ptr))) == Live(Layout(h)) - {ptr}
  {
    var i := IndexOf(h, ptr).value;
    var b := h.blocks;
    var freed := Block(b[i].size, false);
    var h1 := h.(blocks := b[i := freed]);
    SizesOkPositive(b);
    LayoutSet(h, i, freed);
    FreedTracks(h.buckets, Layout(h), ptr, freed);
    assert Pending(h1, i);
    CoalesceRestoresInv(h1, i);
    LiveSet(Layout(h), ptr, freed);
  }

  /**
   realloc: malloc for NULL; free and NULL for a zero size; otherwise place the
   request in the old block when it is large enough (splitting off any
   remainder), else malloc a new block and free the old one. If that malloc
   fails, the old block stays allocated and NULL is returned.
   */
  function Realloc(h: Heap, oldptr: Option<nat>, size: nat, grow: bool): (r: Allocation)
    requires Inv(h) && (oldptr.Some? ==> oldptr.value in Live(Layout(h)))
    ensures oldptr.None? ==> r == Malloc(h, size, grow)
    ensures oldptr.Some? && size == 0 ==> r.ptr.None?
    ensures oldptr.Some? && size > 0 && r.ptr.None? ==> r.heap == h
  {
    match oldptr
    case None => Malloc(h, size, grow)
    case Some(p) =>
      if size == 0 then Allocation(Free(h, p), None)
      else
        var asize := Align(size + DSIZE);
        var i := IndexOf(h, p).value;
        if h.blocks[i].size >= asize then Allocation(Place(h, i, asize), Some(p))
        else
          var m := Malloc(h, size, grow);
          if m.ptr.None? then m
          else
            MallocSpec(h, size, grow);
            assert p in Live(Layout(m.heap)) - {m.ptr.value};
            Allocation(Free(m.heap, p), m.ptr)
  }

  /**
   realloc keeps the invariant. Releasing (a zero size) gives up exactly the oldptr
   block. A successful resize hands back a block whose payload holds the new
   size, the oldptr pointer itself when the oldptr block was large enough, and the
   clients lose the oldptr block and gain the returned one, nothing else. A failed
   resize changes nothing.
   */
  lemma ReallocSpec(h: Heap, oldptr: Option<nat>, size: nat, grow: bool)
    requires Inv(h) && (oldptr.Some? ==> oldptr.value in Live(Layout(h)))
    ensures Inv(Realloc(h, oldptr, size, grow).heap)
    ensures oldptr.Some? && size == 0 ==>
              Live(Layout(Realloc(h, oldptr, size, grow).heap)) == Live(Layout(h)) - {oldptr.value}
    ensures oldptr.Some? && Realloc(h, oldptr, size, grow).ptr.Some? ==>
              var q, live := Realloc(h, oldptr, size, grow).ptr.value, Live(Layout(Realloc(h, oldptr, size, grow).heap));
              && q % 16 == 0 && q in live && live[q] >= size + DSIZE
              && live - {q} == Live(Layout(h)) - {oldptr.value}
    ensures oldptr.Some? && size > 0 && Live(Layout(h))[oldptr.value] >= Align(size + DSIZE) ==>
              var p, asize, live := oldptr.value, Align(size + DSIZE), Live(Layout(Realloc(h, oldptr, size, grow).heap));
              && Realloc(h, oldptr, size, grow).ptr == oldptr && p in live
              && live[p] == if Live(Layout(h))[p] - asize >= 2 * DSIZE then asize else Live(Layout(h))[p]
    ensures oldptr.Some? && size > 0 && grow ==> Realloc(h, oldptr, size, grow).ptr.Some?
  {
    match oldptr
    case None =>
      MallocSpec(h, size, grow);
    case Some(p) =>
      if size == 0 {
        FreeSpec(h, p);
      } else {
        var asize := Align(size + DSIZE);
        var i := IndexOf(h, p).value;
        if h.blocks[i].size >= asize {
          ReallocInPlace(h, p, size, grow);
        } else {
          ReallocMoved(h, p, size, grow);
        }
      }
  }

  /** The moving branch of realloc: a new block is malloc'ed and the old one freed. */
  lemma ReallocMoved(h: Heap, p: nat, size: nat, grow: bool)
    requires Inv(h) && p in Live(Layout(h)) && size > 0
    requires Layout(h)[p].size < Align(size + DSIZE)
    ensures var r := Realloc(h, Some(p), size, grow);
            && Inv(r.heap)
            && (grow ==> r.ptr.Some?)
            && (r.ptr.Some? ==>
                  var q, live := r.ptr.value, Live(Layout(r.heap));
                  q % 16 == 0 && q in live && live[q] >= size + DSIZE && live - {q} == Live(Layout(h)) - {p})
  {
    MallocSpec(h, size, grow);
    var m := Malloc(h, size, grow);
    var i := IndexOf(h, p).value;
    assert !(h.blocks[i].size >= Align(size + DSIZE));
    if m.ptr.Some? {
      var q := m.ptr.value;
      assert p in Live(Layout(m.heap)) - {q};
      assert Realloc(h, Some(p), size, grow) == Allocation(Free(m.heap, p), m.ptr);
      FreeSpec(m.heap, p);
      SwapRemovals(Live(Layout(m.heap)), p, q);
    } else {
      assert Realloc(h, Some(p), size, grow) == m;
    }
  }

  lemma SwapRemovals<V>(m: map<nat, V>, p: nat, q: nat)
    ensures (m - {p}) - {q} == (m - {q}) - {p}
  {
  }

  /** The in-place branch of realloc: the oldptr block is re-placed with the new size. */
  lemma ReallocInPlace(h: Heap, p: nat, size: nat, grow: bool)
    requires Inv(h) && p in Live(Layout(h)) && size > 0
    requires Layout(h)[p].size >= Align(size + DSIZE)
    ensures var r := Realloc(h, Some(p), size, grow);
            && r.ptr == Some(p) && Inv(r.heap)
            && var live := Live(Layout(r.heap));
               p % 16 == 0 && p in live && live[p] >= size + DSIZE && live - {p} == Live(Layout(h)) - {p}
    ensures var asize, live := Align(size + DSIZE), Live(Layout(Realloc(h, Some(p), size, grow).heap));
            live[p] == if Layout(h)[p].size - asize >= 2 * DSIZE then asize else Layout(h)[p].size
  {
    var asize := Align(size + DSIZE);
    var i := IndexOf(h, p).value;
    assert asize >= 32 && asize % 16 == 0 by {
      assert asize == 16 * (asize / 16);
    }
    PlaceRestoresInv(h, i, asize);
    InvAligned(h, p);
    SizesOkPositive(h.blocks);
    var r := Place(h, i, asize);
    LayoutAt(r, i);
    assert Realloc(h, Some(p), size, grow) == Allocation(r, Some(p));
    PutThenRemove(Live(Layout(h)), p, r.blocks[i].size);
  }

  /** Overwriting a key and then removing it is removing it. */
  lemma PutThenRemove<V>(m: map<nat, V>, p: nat, v: V)
    ensures m[p := v] - {p} == m - {p}
  {
  }

  /** calloc: malloc of the product of the element count and size (zeroing is not modelled). */
  function Calloc(h: Heap, nmemb: nat, size: nat, grow: bool): (r: Allocation)
    requires Inv(h)
    ensures nmemb == 0 || size == 0 ==> r == Allocation(h, None)
    ensures r.ptr.None? ==> r.heap == h
  {
    assert nmemb == 0 || size == 0 ==> nmemb * size == 0;
    Malloc(h, nmemb * size, grow)
  }

  /** calloc keeps the invariant, and a returned block holds nmemb elements of the given size. */
  lemma CallocSpec(h: Heap, nmemb: nat, size: nat, grow: bool)
    requires Inv(h)
    ensures Inv(Calloc(h, nmemb, size, grow).heap)
    ensures Calloc(h, nmemb, size, grow).ptr.Some? ==>
              var p, live := Calloc(h, nmemb, size, grow).ptr.value, Live(Layout(Calloc(h, nmemb, size, grow).heap));
              && p in live && live[p] >= nmemb * size + DSIZE && live - {p} == Live(Layout(h))
  {
    MallocSpec(h, nmemb * size, grow);
  }
}
