/**
 The coalescing engine: a block that has just become free is merged with
 whichever physical neighbours are free, and the merged block is filed in the
 bucket its size maps to.

 The four neighbour cases follow the source. When the previous block is free
 and the merged block stays in that block's bucket, the previous block is
 extended in place without being relisted. The source applies that shortcut in
 the both-neighbours-free case by testing the bucket of the freed block rather
 than the previous block's; `Variant` selects that test as written or as
 intended, and the rest of the model uses the intended one.
 */
module Coalescing {
  import opened SizeClass
  import opened FreeList
  import opened HeapModel

  /** Which same-bucket test the both-neighbours-free case uses. */
  datatype Variant = AsWritten | Intended

  /** The heap after coalescing, and the index of the resulting free block. */
  datatype Coalesced = Coalesced(heap: Heap, index: nat)

  /** The first block of the run that coalescing block i merges. */
  function RunStart(b: seq<Block>, i: nat): nat
    requires i < |b|
  {
    if i > 0 && !b[i - 1].alloc then i - 1 else i
  }

  /** One past the last block of the run that coalescing block i merges. */
  function RunEnd(b: seq<Block>, i: nat): nat
    requires i < |b|
  {
    if i + 1 < |b| && !b[i + 1].alloc then i + 2 else i + 1
  }

  /** The block pointers of the run that coalescing block i merges. */
  function RunKeys(h: Heap, i: nat): set<nat>
    requires i < |h.blocks|
  {
    var b := h.blocks;
    (if i > 0 && !b[i - 1].alloc then {Addr(h, i - 1)} else {})
    + {Addr(h, i)}
    + (if i + 1 < |b| && !b[i + 1].alloc then {Addr(h, i + 1)} else {})
  }

  /** The free block that coalescing block i produces. */
  function MergedBlock(h: Heap, i: nat): Block
    requires i < |h.blocks|
  {
    Block(Sum(h.blocks[RunStart(h.blocks, i)..RunEnd(h.blocks, i)]), false)
  }

  /** The address view after coalescing block i: the run's pointers give way to the merged block. */
  function Absorbed(h: Heap, i: nat): map<nat, Block>
    requires i < |h.blocks|
  {
    (Layout(h) - RunKeys(h, i))[Addr(h, RunStart(h.blocks, i)) := MergedBlock(h, i)]
  }

  /** The blocks after merging the run b[st..en] into one free block. */
  function Merged(b: seq<Block>, st: nat, en: nat): seq<Block>
    requires st < en <= |b|
  {
    b[..st] + [Block(Sum(b[st..en]), false)] + b[en..]
  }

  /** Block j of the merged blocks. */
  lemma MergedAt(b: seq<Block>, st: nat, en: nat, j: nat)
    requires st < en <= |b| && j < |b| - (en - st) + 1
    ensures |Merged(b, st, en)| == |b| - (en - st) + 1
    ensures Merged(b, st, en)[j]
         == if j < st then b[j] else if j == st then Block(Sum(b[st..en]), false) else b[j + (en - st) - 1]
  {
  }

  /** Merging keeps the blocks before the run and shifts the blocks after it. */
  lemma MergedKeeps(b: seq<Block>, st: nat, en: nat)
    requires st < en <= |b|
    ensures |Merged(b, st, en)| == |b| - (en - st) + 1
    ensures forall j :: 0 <= j < st ==> Merged(b, st, en)[j] == b[j]
    ensures forall j :: st < j < |Merged(b, st, en)| ==> Merged(b, st, en)[j] == b[j + (en - st) - 1]
    ensures Merged(b, st, en)[st] == Block(Sum(b[st..en]), false)
  {
    MergedAt(b, st, en, st);
    forall j | 0 <= j < st ensures Merged(b, st, en)[j] == b[j] {
      MergedAt(b, st, en, j);
    }
    forall j | st < j < |b| - (en - st) + 1 ensures Merged(b, st, en)[j] == b[j + (en - st) - 1] {
      MergedAt(b, st, en, j);
    }
  }

  lemma MergedPrefix(b: seq<Block>, st: nat, en: nat)
    requires st < en <= |b|
    ensures Merged(b, st, en)[..st] == b[..st]
    ensures Merged(b, st, en)[st] == Block(Sum(b[st..en]), false)
  {
  }

  lemma SumSmall(x: Block, y: Block, z: Block)
    ensures Sum([x]) == x.size
    ensures Sum([x, y]) == x.size + y.size
    ensures Sum([x, y, z]) == x.size + y.size + z.size
  {
    assert [x][1..] == [] && [y][1..] == [] && [z][1..] == [];
    assert Sum([x]) == x.size && Sum([y]) == y.size && Sum([z]) == z.size;
    assert [x, y][1..] == [y] && [y, z][1..] == [z];
    assert Sum([y, z]) == y.size + z.size;
    assert [x, y, z][1..] == [y, z];
  }

  /** Merging a run keeps the heap's total bytes. */
  lemma MergedSum(b: seq<Block>, st: nat, en: nat)
    requires st < en <= |b|
    ensures Sum(Merged(b, st, en)) == Sum(b)
  {
    var P, R, S := b[..st], b[st..en], b[en..];
    var m := Block(Sum(R), false);
    SliceThree(b, st, en);
    SumSmall1(m);
    SumReplace(P, R, [m], S);
  }

  /** A sequence is the concatenation of its three slices. */
  lemma SliceThree<T>(b: seq<T>, st: nat, en: nat)
    requires st <= en <= |b|
    ensures b[..st] + b[st..en] + b[en..] == b
  {
  }

  /** The run's total is the sum of the sizes coalesce adds up. */
  lemma RunSum(b: seq<Block>, i: nat)
    requires i < |b|
    ensures Sum(b[RunStart(b, i)..RunEnd(b, i)])
         == (if i > 0 && !b[i - 1].alloc then b[i - 1].size else 0)
          + b[i].size
          + (if i + 1 < |b| && !b[i + 1].alloc then b[i + 1].size else 0)
  {
    var st, en := RunStart(b, i), RunEnd(b, i);
    if st < i && en > i + 1 {
      assert b[st..en] == [b[i - 1], b[i], b[i + 1]];
    } else if st < i {
      assert b[st..en] == [b[i - 1], b[i]];
    } else if en > i + 1 {
      assert b[st..en] == [b[i], b[i + 1]];
    } else {
      assert b[st..en] == [b[i]];
    }
    if en - st == 3 {
      SumSmall(b[st], b[st + 1], b[st + 2]);
    } else if en - st == 2 {
      SumSmall(b[st], b[st + 1], b[st + 1]);
    } else {
      SumSmall(b[st], b[st], b[st]);
    }
  }

  /**
   The blocks after coalescing block i: the run keeps its place, collapsed to
   one free block whose size is block i's plus those of its free neighbours;
   the blocks on either side are unchanged (MergedSum: so are the total bytes).
   */
  lemma MergedRun(b: seq<Block>, i: nat)
    requires i < |b|
    ensures var st, en := RunStart(b, i), RunEnd(b, i); var m := Merged(b, st, en);
            && st <= i < en && |m| == |b| - (en - st) + 1
            && st < |m| && !m[st].alloc
            && m[st].size == (if i > 0 && !b[i - 1].alloc then b[i - 1].size else 0)
                           + b[i].size
                           + (if i + 1 < |b| && !b[i + 1].alloc then b[i + 1].size else 0)
            && m[st].size >= b[i].size
            && (forall j :: 0 <= j < st ==> m[j] == b[j])
            && (forall j :: st < j < |m| ==> m[j] == b[j + (en - st) - 1])
  {
    var st, en := RunStart(b, i), RunEnd(b, i);
    assert st <= i < en;
    MergedKeeps(b, st, en);
    RunSum(b, i);
  }

  /** MergedRun, with the run's bounds spelled out through block i's neighbours. */
  lemma MergedExact(b: seq<Block>, i: nat)
    requires i < |b|
    ensures var prevFree, nextFree := i > 0 && !b[i - 1].alloc, i + 1 < |b| && !b[i + 1].alloc;
            var gone := (if prevFree then 1 else 0) + (if nextFree then 1 else 0);
            var st, m := RunStart(b, i), Merged(b, RunStart(b, i), RunEnd(b, i));
            && st == (if prevFree then i - 1 else i)
            && |m| == |b| - gone && st < |m|
            && m[..st] == b[..st]
            && m[st] == Block((if prevFree then b[i - 1].size else 0) + b[i].size + (if nextFree then b[i + 1].size else 0), false)
            && forall j :: st < j < |m| ==> m[j] == b[j + gone]
  {
    var st, en := RunStart(b, i), RunEnd(b, i);
    MergedRun(b, i);
    MergedPrefix(b, st, en);
  }

  /**
   coalesce: merges free block i with its free neighbours into one free block
   that starts where the previous block did when that one was free, and refiles
   the free lists (CoalesceFiles). The blocks before the merged one are
   untouched and those after it move down by the number of neighbours absorbed.
   */
  function CoalesceVariant(h: Heap, i: nat, v: Variant): (r: Coalesced)
    requires i < |h.blocks| && !h.blocks[i].alloc && |h.buckets| == NumBuckets
    ensures r.heap.lo == h.lo && |r.heap.buckets| == NumBuckets
    ensures var b := h.blocks;
            var prevFree, nextFree := i > 0 && !b[i - 1].alloc, i + 1 < |b| && !b[i + 1].alloc;
            var gone := (if prevFree then 1 else 0) + (if nextFree then 1 else 0);
            && r.index == (if prevFree then i - 1 else i)
            && |r.heap.blocks| == |b| - gone && r.index < |r.heap.blocks|
            && r.heap.blocks[..r.index] == b[..r.index]
            && r.heap.blocks[r.index]
               == Block((if prevFree then b[i - 1].size else 0) + b[i].size + (if nextFree then b[i + 1].size else 0), false)
            && forall j :: r.index < j < |r.heap.blocks| ==> r.heap.blocks[j] == b[j + gone]
  {
    var st, en := RunStart(h.blocks, i), RunEnd(h.blocks, i);
    var bs := CoalesceLists(h, i, v);
    MergedExact(h.blocks, i);
    Coalesced(Heap(h.lo, Merged(h.blocks, st, en), bs), st)
  }

  /**
   The free-list side of coalesce, by the source's four cases. The merged
   block's header and footer are written as `Merged` describes.
   */
  function CoalesceLists(h: Heap, i: nat, v: Variant): (bs: seq<Bucket>)
    requires i < |h.blocks| && !h.blocks[i].alloc && |h.buckets| == NumBuckets
    ensures |bs| == NumBuckets
  {
    var b := h.blocks;
    var prevAlloc := i == 0 || b[i - 1].alloc;
    var nextAlloc := i + 1 == |b| || b[i + 1].alloc;
    if prevAlloc && nextAlloc then ListsAlone(h, i)
    else if prevAlloc then ListsNext(h, i)
    else if nextAlloc then ListsPrev(h, i)
    else ListsBoth(h, i, v)
  }

  /** Case 1: neither neighbour is free; file the block as it is. */
  function ListsAlone(h: Heap, i: nat): (bs: seq<Bucket>)
    requires i < |h.blocks| && |h.buckets| == NumBuckets
    requires (i == 0 || h.blocks[i - 1].alloc) && (i + 1 == |h.blocks| || h.blocks[i + 1].alloc)
    ensures |bs| == NumBuckets
  {
    PlaceFreeBlk(h.buckets, Addr(h, i), h.blocks[i].size, h.blocks[i].alloc).buckets
  }

  /** Case 2: only the next block is free; unlink it, absorb it, file the result. */
  function ListsNext(h: Heap, i: nat): (bs: seq<Bucket>)
    requires i + 1 < |h.blocks| && |h.buckets| == NumBuckets
    requires (i == 0 || h.blocks[i - 1].alloc) && !h.blocks[i + 1].alloc
    ensures |bs| == NumBuckets
  {
    var next := h.blocks[i + 1];
    var unlinked := RemoveFreeBlk(h.buckets, Addr(h, i + 1), next.size, true);
    PlaceFreeBlk(unlinked.buckets, Addr(h, i), h.blocks[i].size + next.size, false).buckets
  }

  /** Case 3: only the previous block is free; extend it, relisting it if its bucket changes. */
  function ListsPrev(h: Heap, i: nat): (bs: seq<Bucket>)
    requires 0 < i < |h.blocks| && |h.buckets| == NumBuckets
    requires !h.blocks[i - 1].alloc && (i + 1 == |h.blocks| || h.blocks[i + 1].alloc)
    ensures |bs| == NumBuckets
  {
    var prev := h.blocks[i - 1];
    var pp := Addr(h, i - 1);
    var merged := prev.size + h.blocks[i].size;
    if SameClass(prev.size, merged) then h.buckets
    else
      var unlinked := RemoveFreeBlk(h.buckets, pp, prev.size, true);
      PlaceFreeBlk(unlinked.buckets, pp, merged, false).buckets
  }

  /** Case 4: both neighbours are free; unlink the next block and extend the previous one. */
  function ListsBoth(h: Heap, i: nat, v: Variant): (bs: seq<Bucket>)
    requires 0 < i && i + 1 < |h.blocks| && |h.buckets| == NumBuckets
    requires !h.blocks[i - 1].alloc && !h.blocks[i + 1].alloc
    ensures |bs| == NumBuckets
  {
    var prev, next := h.blocks[i - 1], h.blocks[i + 1];
    var pp := Addr(h, i - 1);
    var unlinkedNext := RemoveFreeBlk(h.buckets, Addr(h, i + 1), next.size, true);
    var merged := prev.size + h.blocks[i].size + next.size;
    if Shortcut(v, prev.size, h.blocks[i].size, merged) then unlinkedNext.buckets
    else
      var unlinked := RemoveFreeBlk(unlinkedNext.buckets, pp, prev.size, true);
      PlaceFreeBlk(unlinked.buckets, pp, merged, false).buckets
  }

  /**
   The test of case 4 that lets the previous block grow in place without being
   relisted: as written it compares the freed block's bucket with the merged
   block's, as intended the previous block's.
   */
  predicate Shortcut(v: Variant, prevSize: nat, size: nat, merged: nat)
  {
    match v
    case AsWritten => SameClass(size, merged)
    case Intended => SameClass(prevSize, merged)
  }

  /** Two sizes are filed under the same bucket. */
  predicate SameClass(s: nat, t: nat)
  {
    ClassOf(s) == ClassOf(t)
  }

  /** coalesce as the rest of the model uses it. */
  function Coalesce(h: Heap, i: nat): (r: Coalesced)
    requires i < |h.blocks| && !h.blocks[i].alloc && |h.buckets| == NumBuckets
  {
    CoalesceVariant(h, i, Intended)
  }

  /** The blocks of the run sit at the run's pointers, and they are all free. */
  lemma RunKeysFree(h: Heap, i: nat)
    requires i < |h.blocks| && !h.blocks[i].alloc && SizesOk(h.blocks)
    ensures Addr(h, RunStart(h.blocks, i)) in RunKeys(h, i)
    ensures forall x :: x in RunKeys(h, i) ==> x in Layout(h) && !Layout(h)[x].alloc
    ensures Layout(h)[Addr(h, i)] == h.blocks[i]
    ensures i > 0 ==>
              Addr(h, i - 1) in Layout(h) && Layout(h)[Addr(h, i - 1)] == h.blocks[i - 1] && Addr(h, i - 1) < Addr(h, i)
    ensures i + 1 < |h.blocks| ==>
              Addr(h, i + 1) in Layout(h) && Layout(h)[Addr(h, i + 1)] == h.blocks[i + 1] && Addr(h, i) < Addr(h, i + 1)
  {
    SizesOkPositive(h.blocks);
    LayoutAt(h, i);
    if i > 0 {
      LayoutAt(h, i - 1);
      AddrNext(h, i - 1);
    }
    if i + 1 < |h.blocks| {
      LayoutAt(h, i + 1);
      AddrNext(h, i);
    }
  }

  /** The pointers a run of blocks occupies, from its first block pointer onwards. */
  lemma RunLayoutKeys(h: Heap, i: nat)
    requires i < |h.blocks|
    ensures LayoutFrom(h.blocks[RunStart(h.blocks, i)..RunEnd(h.blocks, i)], Addr(h, RunStart(h.blocks, i))).Keys
         == RunKeys(h, i)
  {
    var b := h.blocks;
    var prevFree, nextFree := i > 0 && !b[i - 1].alloc, i + 1 < |b| && !b[i + 1].alloc;
    if prevFree {
      RunLayoutKeysPrev(h, i, nextFree);
    } else {
      RunLayoutKeysFrom(h, i, nextFree);
    }
  }

  /** RunLayoutKeys when the run starts at the previous block. */
  lemma RunLayoutKeysPrev(h: Heap, i: nat, nextFree: bool)
    requires 0 < i < |h.blocks| && !h.blocks[i - 1].alloc
    requires nextFree == (i + 1 < |h.blocks| && !h.blocks[i + 1].alloc)
    ensures LayoutFrom(h.blocks[i - 1..RunEnd(h.blocks, i)], Addr(h, i - 1)).Keys
         == {Addr(h, i - 1)} + {Addr(h, i)} + (if nextFree then {Addr(h, i + 1)} else {})
  {
    var b := h.blocks;
    var run := b[i - 1..RunEnd(b, i)];
    LayoutKeysRun(run, Addr(h, i - 1));
    AddrNext(h, i - 1);
    if nextFree {
      AddrNext(h, i);
      assert |run| == 3 && run[0] == b[i - 1] && run[1] == b[i];
    } else {
      assert |run| == 2 && run[0] == b[i - 1];
      assert {Addr(h, i - 1)} + {Addr(h, i)} + {} == {Addr(h, i - 1)} + {Addr(h, i)};
    }
  }

  /** RunLayoutKeys when the run starts at block i itself. */
  lemma RunLayoutKeysFrom(h: Heap, i: nat, nextFree: bool)
    requires i < |h.blocks|
    requires nextFree == (i + 1 < |h.blocks| && !h.blocks[i + 1].alloc)
    ensures LayoutFrom(h.blocks[i..RunEnd(h.blocks, i)], Addr(h, i)).Keys
         == {Addr(h, i)} + (if nextFree then {Addr(h, i + 1)} else {})
  {
    var b := h.blocks;
    var run := b[i..RunEnd(b, i)];
    LayoutKeysRun(run, Addr(h, i));
    if nextFree {
      AddrNext(h, i);
      assert |run| == 2 && run[0] == b[i];
    } else {
      assert |run| == 1;
      assert {Addr(h, i)} + {} == {Addr(h, i)};
    }
  }

  /**
   What coalescing does to the address view: the run's pointers disappear and
   the merged block appears at the run's first pointer; every other block pointer
   keeps its block.
   */
  lemma CoalesceLayout(h: Heap, i: nat, v: Variant)
    requires i < |h.blocks| && !h.blocks[i].alloc && |h.buckets| == NumBuckets && SizesOk(h.blocks)
    ensures var r := CoalesceVariant(h, i, v);
            && Addr(r.heap, r.index) == Addr(h, RunStart(h.blocks, i))
            && Layout(r.heap) == (Layout(h) - RunKeys(h, i))[Addr(h, RunStart(h.blocks, i)) := r.heap.blocks[r.index]]
  {
    var r := CoalesceVariant(h, i, v);
    MergedLayout(h, i, r.heap);
  }

  /** The address view of any heap whose blocks are those of h with block i's run merged. */
  lemma MergedLayout(h: Heap, i: nat, h2: Heap)
    requires i < |h.blocks| && !h.blocks[i].alloc && SizesOk(h.blocks)
    requires h2.lo == h.lo && h2.blocks == Merged(h.blocks, RunStart(h.blocks, i), RunEnd(h.blocks, i))
    ensures Addr(h2, RunStart(h.blocks, i)) == Addr(h, RunStart(h.blocks, i))
    ensures Layout(h2) == (Layout(h) - RunKeys(h, i))[Addr(h, RunStart(h.blocks, i)) := h2.blocks[RunStart(h.blocks, i)]]
  {
    var b := h.blocks;
    var st, en := RunStart(b, i), RunEnd(b, i);
    var P, R, S := b[..st], b[st..en], b[en..];
    var m := Block(Sum(R), false);
    var A: nat := Addr(h, st);
    var K := RunKeys(h, i);
    MergedPrefix(b, st, en);
    assert h2.blocks[st] == m;
    assert Addr(h2, st) == A by {
      assert h2.blocks[..st] == P;
    }
    assert Layout(h2) == (Layout(h) - LayoutFrom(R, A).Keys) + LayoutFrom([m], A) by {
      SizesOkPositive(b);
      MergedLayoutFrom(b, st, en, Base(h));
    }
    assert LayoutFrom(R, A).Keys == K by {
      RunLayoutKeys(h, i);
    }
    assert LayoutFrom([m], A) == map[A := m] by {
      LayoutFromSmall(m, m, m, A);
    }
    MapPlusOne(Layout(h) - K, A, m);
  }

  /** Merging a run of positive blocks, in the address view of blocks laid out from a. */
  lemma MergedLayoutFrom(b: seq<Block>, st: nat, en: nat, a: nat)
    requires st < en <= |b| && Positive(b)
    ensures var m := Block(Sum(b[st..en]), false); var aR := a + Sum(b[..st]);
            LayoutFrom(Merged(b, st, en), a) == (LayoutFrom(b, a) - LayoutFrom(b[st..en], aR).Keys) + LayoutFrom([m], aR)
  {
    var P, R, S := b[..st], b[st..en], b[en..];
    var m := Block(Sum(R), false);
    assert b == P + R + S;
    forall j | 0 <= j < |P| ensures P[j].size > 0 { assert P[j] == b[j]; }
    forall j | 0 <= j < |R| ensures R[j].size > 0 { assert R[j] == b[st + j]; }
    forall j | 0 <= j < |S| ensures S[j].size > 0 { assert S[j] == b[en + j]; }
    assert Positive([m]) by {
      SumPositive(R);
    }
    SumSmall(m, m, m);
    LayoutReplace(P, R, [m], S, a);
  }

  /** A non-empty run of positive blocks has a positive total. */
  lemma SumPositive(r: seq<Block>)
    requires |r| > 0 && Positive(r)
    ensures Sum(r) > 0
  {
  }

  /**
   The merged block's size is a sum of block sizes, so it keeps the size
   discipline, and the block after the run is allocated.
   */
  lemma MergedShape(h: Heap, i: nat)
    requires Pending(h, i)
    ensures SizesOk(Merged(h.blocks, RunStart(h.blocks, i), RunEnd(h.blocks, i)))
    ensures NoAdjacentFree(Merged(h.blocks, RunStart(h.blocks, i), RunEnd(h.blocks, i)))
  {
    var b := h.blocks;
    var st, en := RunStart(b, i), RunEnd(b, i);
    RunSumOk(b, i);
    MergedSizes(b, st, en);
    assert st > 0 ==> b[st - 1].alloc;
    assert en < |b| ==> b[en].alloc;
    MergedAdjacency(b, st, en);
  }

  /** The run that coalescing merges keeps the size discipline in total. */
  lemma RunSumOk(b: seq<Block>, i: nat)
    requires i < |b| && SizesOk(b)
    ensures Sum(b[RunStart(b, i)..RunEnd(b, i)]) % 16 == 0 && Sum(b[RunStart(b, i)..RunEnd(b, i)]) >= 32
  {
    RunSum(b, i);
    var p := if i > 0 && !b[i - 1].alloc then b[i - 1].size else 0;
    var n := if i + 1 < |b| && !b[i + 1].alloc then b[i + 1].size else 0;
    assert p % 16 == 0 && n % 16 == 0 && b[i].size % 16 == 0 && b[i].size >= 32;
    MultiplesAdd(p, b[i].size, n);
  }

  lemma MultiplesAdd(x: nat, y: nat, z: nat)
    requires x % 16 == 0 && y % 16 == 0 && z % 16 == 0
    ensures (x + y + z) % 16 == 0
  {
  }

  /** Merging a run whose total keeps the size discipline keeps it for all blocks. */
  lemma MergedSizes(b: seq<Block>, st: nat, en: nat)
    requires st < en <= |b| && SizesOk(b)
    requires Sum(b[st..en]) % 16 == 0 && Sum(b[st..en]) >= 32
    ensures SizesOk(Merged(b, st, en))
  {
    var b2 := Merged(b, st, en);
    forall j | 0 <= j < |b2| ensures b2[j].size % 16 == 0 && b2[j].size >= 32 {
      MergedAt(b, st, en, j);
    }
  }

  /** Merging a run bounded by allocated blocks leaves no two free blocks adjacent. */
  lemma MergedAdjacency(b: seq<Block>, st: nat, en: nat)
    requires st < en <= |b|
    requires forall j :: 0 < j < |b| && (j < st || en < j) ==> b[j - 1].alloc || b[j].alloc
    requires st > 0 ==> b[st - 1].alloc
    requires en < |b| ==> b[en].alloc
    ensures NoAdjacentFree(Merged(b, st, en))
  {
    var b2 := Merged(b, st, en);
    forall j | 0 < j < |b2| ensures b2[j - 1].alloc || b2[j].alloc {
      MergedAt(b, st, en, j - 1);
      MergedAt(b, st, en, j);
      if j > st + 1 {
        assert en < j + (en - st) - 1;
      }
    }
  }

  /**
   The as-written test takes the in-place shortcut for a block whose bucket
   changes: both neighbours are free, and the merged size stays in the freed
   block's bucket but leaves the previous block's.
   */
  predicate Misfiles(h: Heap, i: nat, v: Variant)
    requires i < |h.blocks|
  {
    var b := h.blocks;
    && v == AsWritten
    && 0 < i && i + 1 < |b| && !b[i - 1].alloc && !b[i + 1].alloc
    && var merged := b[i - 1].size + b[i].size + b[i + 1].size;
       ClassOf(b[i].size) == ClassOf(merged) && ClassOf(b[i - 1].size) != ClassOf(merged)
  }

  /**
   Coalescing a pending free block restores the heap invariant: sizes stay
   multiples of 16 and at least 32, no two free blocks are adjacent, every free
   block is filed in exactly the bucket of its size, and the allocated blocks
   are untouched. For the as-written test this holds except in the misfiling case.
   */
  lemma CoalesceVariantRestoresInv(h: Heap, i: nat, v: Variant)
    requires Pending(h, i) && !Misfiles(h, i, v)
    ensures var r := CoalesceVariant(h, i, v);
            && SizesOk(r.heap.blocks) && NoAdjacentFree(r.heap.blocks) && BucketsHold(r.heap, {})
            && Live(Layout(r.heap)) == Live(Layout(h))
  {
    var r := CoalesceVariant(h, i, v);
    var L := Layout(h);
    var K := RunKeys(h, i);
    var A := Addr(h, RunStart(h.blocks, i));
    var m := r.heap.blocks[r.index];
    MergedShape(h, i);
    CoalesceLayout(h, i, v);
    RunKeysFree(h, i);
    LiveUpdateFree(L, K, A, m);
    CoalesceBuckets(h, i, v);
  }

  /**
   The free lists after coalescing: the merged block is filed under the bucket
   of its size and no other; the absorbed neighbours are in no bucket; every
   other pointer is in the same buckets as before.
   */
  lemma CoalesceFiles(h: Heap, i: nat, v: Variant)
    requires Pending(h, i) && !Misfiles(h, i, v)
    ensures var r := CoalesceVariant(h, i, v);
            var bp := Addr(h, RunStart(h.blocks, i));
            && Addr(r.heap, r.index) == bp
            && (forall j :: 0 <= j < NumBuckets ==>
                  (bp in r.heap.buckets[j] <==> j == ClassOf(r.heap.blocks[r.index].size)))
            && (forall j, x :: 0 <= j < NumBuckets && x in RunKeys(h, i) && x != bp ==> x !in r.heap.buckets[j])
            && (forall j, x :: 0 <= j < NumBuckets && x !in RunKeys(h, i) ==>
                  (x in r.heap.buckets[j] <==> x in h.buckets[j]))
  {
    var r := CoalesceVariant(h, i, v);
    var bs, L, A, K := r.heap.buckets, Layout(h), Absorbed(h, i), RunKeys(h, i);
    var bp := Addr(h, RunStart(h.blocks, i));
    CoalesceBuckets(h, i, v);
    CoalesceLayout(h, i, v);
    RunKeysFree(h, i);
    RunSum(h.blocks, i);
    assert bs == CoalesceLists(h, i, v);
    assert r.heap.blocks[r.index] == MergedBlock(h, i);
    assert Addr(h, i) in K;
    forall j | 0 <= j < NumBuckets
      ensures bp in bs[j] <==> j == ClassOf(r.heap.blocks[r.index].size)
    {
      TracksIff(bs, A, {}, bp, j);
    }
    forall j, x | 0 <= j < NumBuckets && x in K && x != bp
      ensures x !in bs[j]
    {
      TracksIff(bs, A, {}, x, j);
    }
    forall j, x | 0 <= j < NumBuckets && x !in K
      ensures x in bs[j] <==> x in h.buckets[j]
    {
      TracksIff(bs, A, {}, x, j);
      TracksIff(h.buckets, L, {Addr(h, i)}, x, j);
    }
  }

  /** The buckets coalesce leaves file exactly the free blocks of the merged layout. */
  lemma CoalesceBuckets(h: Heap, i: nat, v: Variant)
    requires Pending(h, i) && !Misfiles(h, i, v)
    ensures Tracks(CoalesceLists(h, i, v), Absorbed(h, i), {})
  {
    var b := h.blocks;
    RunKeysFree(h, i);
    RunSum(b, i);
    if 0 < i && i + 1 < |b| && !b[i - 1].alloc && !b[i + 1].alloc {
      CoalesceBucketsBoth(h, i, v);
    } else {
      CoalesceBucketsOne(h, i, v);
    }
  }

  /** Coalesce's buckets when at most one neighbour is free. */
  lemma CoalesceBucketsOne(h: Heap, i: nat, v: Variant)
    requires Pending(h, i) && !(0 < i && i + 1 < |h.blocks| && !h.blocks[i - 1].alloc && !h.blocks[i + 1].alloc)
    ensures Tracks(CoalesceLists(h, i, v), Absorbed(h, i), {})
  {
    var b := h.blocks;
    if (i == 0 || b[i - 1].alloc) && (i + 1 == |b| || b[i + 1].alloc) {
      CoalesceBucketsAlone(h, i, v);
    } else if i == 0 || b[i - 1].alloc {
      assert CoalesceLists(h, i, v) == ListsNext(h, i);
      CoalesceBucketsNext(h, i);
    } else {
      assert CoalesceLists(h, i, v) == ListsPrev(h, i);
      CoalesceBucketsPrev(h, i);
    }
  }

  /** Case 1: neither neighbour is free. */
  lemma CoalesceBucketsAlone(h: Heap, i: nat, v: Variant)
    requires i < |h.blocks| && !h.blocks[i].alloc && SizesOk(h.blocks) && BucketsHold(h, {Addr(h, i)})
    requires (i == 0 || h.blocks[i - 1].alloc) && (i + 1 == |h.blocks| || h.blocks[i + 1].alloc)
    ensures Tracks(CoalesceLists(h, i, v), Absorbed(h, i), {})
  {
    assert Absorbed(h, i) == (Layout(h) - {Addr(h, i)})[Addr(h, i) := MergedBlock(h, i)] by {
      assert RunKeys(h, i) == {Addr(h, i)};
    }
    assert MergedBlock(h, i).size == h.blocks[i].size by {
      RunSum(h.blocks, i);
    }
    FileTracks(h.buckets, Layout(h), {Addr(h, i)}, Addr(h, i), MergedBlock(h, i));
  }

  /** Where case 2's two blocks sit, and what coalescing them leaves in the address view. */
  lemma NextFacts(h: Heap, i: nat)
    requires SizesOk(h.blocks) && i + 1 < |h.blocks| && (i == 0 || h.blocks[i - 1].alloc)
    requires !h.blocks[i].alloc && !h.blocks[i + 1].alloc
    ensures var b, L := h.blocks, Layout(h);
            var bp, np := Addr(h, i), Addr(h, i + 1);
            && np in L && L[np] == b[i + 1] && bp < np
            && MergedBlock(h, i).size == b[i].size + b[i + 1].size
            && Absorbed(h, i) == (L - {bp, np})[bp := MergedBlock(h, i)]
  {
    var bp, np := Addr(h, i), Addr(h, i + 1);
    RunKeysFree(h, i);
    RunSum(h.blocks, i);
    assert RunKeys(h, i) == {bp, np};
  }

  /** Case 2's buckets, in the terms of the address view. */
  lemma NextLists(h: Heap, i: nat)
    requires SizesOk(h.blocks) && i + 1 < |h.blocks| && |h.buckets| == NumBuckets
    requires (i == 0 || h.blocks[i - 1].alloc) && !h.blocks[i].alloc && !h.blocks[i + 1].alloc
    requires Addr(h, i + 1) in Layout(h) && Layout(h)[Addr(h, i + 1)] == h.blocks[i + 1]
    requires MergedBlock(h, i).size == h.blocks[i].size + h.blocks[i + 1].size
    ensures ListsNext(h, i)
            == PlaceFreeBlk(RemoveFreeBlk(h.buckets, Addr(h, i + 1), Layout(h)[Addr(h, i + 1)].size, true).buckets,
                            Addr(h, i), MergedBlock(h, i).size, false).buckets
  {
  }

  /** Case 2: only the next block is free. */
  lemma CoalesceBucketsNext(h: Heap, i: nat)
    requires i < |h.blocks| && !h.blocks[i].alloc && SizesOk(h.blocks) && BucketsHold(h, {Addr(h, i)})
    requires (i == 0 || h.blocks[i - 1].alloc) && i + 1 < |h.blocks| && !h.blocks[i + 1].alloc
    ensures Tracks(ListsNext(h, i), Absorbed(h, i), {})
  {
    NextFacts(h, i);
    NextLists(h, i);
    AppendTracks(h.buckets, Layout(h), Addr(h, i), Addr(h, i + 1), MergedBlock(h, i));
  }

  /** Where case 3's two blocks sit, and what coalescing them leaves in the address view. */
  lemma PrevFacts(h: Heap, i: nat)
    requires SizesOk(h.blocks) && 0 < i < |h.blocks| && (i + 1 == |h.blocks| || h.blocks[i + 1].alloc)
    requires !h.blocks[i - 1].alloc && !h.blocks[i].alloc
    ensures var b, L := h.blocks, Layout(h);
            var bp, pp := Addr(h, i), Addr(h, i - 1);
            && pp in L && L[pp] == b[i - 1] && pp < bp
            && MergedBlock(h, i).size == b[i - 1].size + b[i].size
            && Absorbed(h, i) == (L - {bp, pp})[pp := MergedBlock(h, i)]
  {
    var bp, pp := Addr(h, i), Addr(h, i - 1);
    RunKeysFree(h, i);
    RunSum(h.blocks, i);
    assert RunKeys(h, i) == {bp, pp};
  }

  /** Case 3: only the previous block is free. */
  lemma CoalesceBucketsPrev(h: Heap, i: nat)
    requires i < |h.blocks| && !h.blocks[i].alloc && SizesOk(h.blocks) && BucketsHold(h, {Addr(h, i)})
    requires 0 < i && !h.blocks[i - 1].alloc && (i + 1 == |h.blocks| || h.blocks[i + 1].alloc)
    ensures Tracks(ListsPrev(h, i), Absorbed(h, i), {})
  {
    if SameClass(h.blocks[i - 1].size, h.blocks[i - 1].size + h.blocks[i].size) {
      CoalesceBucketsGrow(h, i);
    } else {
      CoalesceBucketsMove(h, i);
    }
  }

  /** Case 3's buckets when the grown block keeps its bucket, in the terms of the address view. */
  lemma GrowLists(h: Heap, i: nat)
    requires 0 < i < |h.blocks| && |h.buckets| == NumBuckets
    requires !h.blocks[i - 1].alloc && (i + 1 == |h.blocks| || h.blocks[i + 1].alloc)
    requires SameClass(h.blocks[i - 1].size, h.blocks[i - 1].size + h.blocks[i].size)
    requires Addr(h, i - 1) in Layout(h) && Layout(h)[Addr(h, i - 1)] == h.blocks[i - 1]
    requires MergedBlock(h, i).size == h.blocks[i - 1].size + h.blocks[i].size
    ensures ListsPrev(h, i) == h.buckets
    ensures ClassOf(MergedBlock(h, i).size) == ClassOf(Layout(h)[Addr(h, i - 1)].size)
  {
  }

  /** Case 3's buckets when the grown block changes bucket, in the terms of the address view. */
  lemma MoveLists(h: Heap, i: nat)
    requires 0 < i < |h.blocks| && |h.buckets| == NumBuckets
    requires !h.blocks[i - 1].alloc && (i + 1 == |h.blocks| || h.blocks[i + 1].alloc)
    requires !SameClass(h.blocks[i - 1].size, h.blocks[i - 1].size + h.blocks[i].size)
    requires Addr(h, i - 1) in Layout(h) && Layout(h)[Addr(h, i - 1)] == h.blocks[i - 1]
    requires MergedBlock(h, i).size == h.blocks[i - 1].size + h.blocks[i].size
    ensures ListsPrev(h, i)
            == PlaceFreeBlk(RemoveFreeBlk(h.buckets, Addr(h, i - 1), Layout(h)[Addr(h, i - 1)].size, true).buckets,
                            Addr(h, i - 1), MergedBlock(h, i).size, false).buckets
  {
  }

  /** Case 3 when the grown block stays in its bucket. */
  lemma CoalesceBucketsGrow(h: Heap, i: nat)
    requires i < |h.blocks| && !h.blocks[i].alloc && SizesOk(h.blocks) && BucketsHold(h, {Addr(h, i)})
    requires 0 < i && !h.blocks[i - 1].alloc && (i + 1 == |h.blocks| || h.blocks[i + 1].alloc)
    requires SameClass(h.blocks[i - 1].size, h.blocks[i - 1].size + h.blocks[i].size)
    ensures Tracks(ListsPrev(h, i), Absorbed(h, i), {})
  {
    PrevFacts(h, i);
    GrowLists(h, i);
    GrowTracks(h.buckets, Layout(h), Addr(h, i), Addr(h, i - 1), MergedBlock(h, i));
  }

  /** Case 3 when the grown block moves to a higher bucket. */
  lemma CoalesceBucketsMove(h: Heap, i: nat)
    requires i < |h.blocks| && !h.blocks[i].alloc && SizesOk(h.blocks) && BucketsHold(h, {Addr(h, i)})
    requires 0 < i && !h.blocks[i - 1].alloc && (i + 1 == |h.blocks| || h.blocks[i + 1].alloc)
    requires !SameClass(h.blocks[i - 1].size, h.blocks[i - 1].size + h.blocks[i].size)
    ensures Tracks(ListsPrev(h, i), Absorbed(h, i), {})
  {
    PrevFacts(h, i);
    MoveLists(h, i);
    MoveTracks(h.buckets, Layout(h), Addr(h, i), Addr(h, i - 1), MergedBlock(h, i));
  }

  /** Coalesce's buckets when both neighbours are free, outside the misfiling case. */
  lemma CoalesceBucketsBoth(h: Heap, i: nat, v: Variant)
    requires Pending(h, i) && !Misfiles(h, i, v)
    requires 0 < i && i + 1 < |h.blocks| && !h.blocks[i - 1].alloc && !h.blocks[i + 1].alloc
    ensures Tracks(CoalesceLists(h, i, v), Absorbed(h, i), {})
  {
    var b := h.blocks;
    RunSum(b, i);
    if Shortcut(v, b[i - 1].size, b[i].size, MergedBlock(h, i).size) {
      CoalesceBucketsKeep(h, i, v);
    } else {
      CoalesceBucketsRefile(h, i, v);
    }
  }

  /** What coalesce does to the buckets in case 4, with and without the shortcut. */
  lemma ListsBothUnfold(h: Heap, i: nat, v: Variant)
    requires 0 < i && i + 1 < |h.blocks| && |h.buckets| == NumBuckets
    requires !h.blocks[i].alloc && !h.blocks[i - 1].alloc && !h.blocks[i + 1].alloc
    ensures var b := h.blocks; var merged := b[i - 1].size + b[i].size + b[i + 1].size;
            var u := RemoveFreeBlk(h.buckets, Addr(h, i + 1), b[i + 1].size, true).buckets;
            CoalesceLists(h, i, v)
            == if Shortcut(v, b[i - 1].size, b[i].size, merged) then u
               else PlaceFreeBlk(RemoveFreeBlk(u, Addr(h, i - 1), b[i - 1].size, true).buckets, Addr(h, i - 1), merged, false).buckets
  {
  }

  /** Where case 4's three blocks sit, and what coalescing them leaves in the address view. */
  lemma BothFacts(h: Heap, i: nat)
    requires SizesOk(h.blocks) && 0 < i && i + 1 < |h.blocks|
    requires !h.blocks[i - 1].alloc && !h.blocks[i].alloc && !h.blocks[i + 1].alloc
    ensures var b, L := h.blocks, Layout(h);
            var bp, pp, np := Addr(h, i), Addr(h, i - 1), Addr(h, i + 1);
            && np in L && pp in L && L[np] == b[i + 1] && L[pp] == b[i - 1] && pp < bp < np
            && MergedBlock(h, i).size == b[i - 1].size + b[i].size + b[i + 1].size
            && Absorbed(h, i) == (L - {bp, np, pp})[pp := MergedBlock(h, i)]
  {
    var bp, pp, np := Addr(h, i), Addr(h, i - 1), Addr(h, i + 1);
    RunKeysFree(h, i);
    RunSum(h.blocks, i);
    assert RunKeys(h, i) == {bp, np, pp};
  }

  /** Case 4 with the shortcut taken: the previous block stays filed where it was. */
  lemma CoalesceBucketsKeep(h: Heap, i: nat, v: Variant)
    requires i < |h.blocks| && !h.blocks[i].alloc && SizesOk(h.blocks) && BucketsHold(h, {Addr(h, i)})
    requires 0 < i && i + 1 < |h.blocks| && !h.blocks[i - 1].alloc && !h.blocks[i + 1].alloc
    requires Shortcut(v, h.blocks[i - 1].size, h.blocks[i].size, MergedBlock(h, i).size)
    requires ClassOf(h.blocks[i - 1].size) == ClassOf(MergedBlock(h, i).size)
    ensures Tracks(CoalesceLists(h, i, v), Absorbed(h, i), {})
  {
    BothFacts(h, i);
    ListsBothUnfold(h, i, v);
    AbsorbTracks(h.buckets, Layout(h), Addr(h, i), Addr(h, i + 1), Addr(h, i - 1), MergedBlock(h, i));
  }

  /** Case 4 without the shortcut: the previous block is unlinked and refiled with the merged size. */
  lemma CoalesceBucketsRefile(h: Heap, i: nat, v: Variant)
    requires i < |h.blocks| && !h.blocks[i].alloc && SizesOk(h.blocks) && BucketsHold(h, {Addr(h, i)})
    requires 0 < i && i + 1 < |h.blocks| && !h.blocks[i - 1].alloc && !h.blocks[i + 1].alloc
    requires !Shortcut(v, h.blocks[i - 1].size, h.blocks[i].size, MergedBlock(h, i).size)
    ensures Tracks(CoalesceLists(h, i, v), Absorbed(h, i), {})
  {
    BothFacts(h, i);
    ListsBothUnfold(h, i, v);
    RefileTracks(h.buckets, Layout(h), Addr(h, i), Addr(h, i + 1), Addr(h, i - 1), MergedBlock(h, i));
  }

  /** The intended test never misfiles, so coalesce always restores the invariant. */
  lemma CoalesceRestoresInv(h: Heap, i: nat)
    requires Pending(h, i)
    ensures var r := Coalesce(h, i);
            && SizesOk(r.heap.blocks) && NoAdjacentFree(r.heap.blocks) && BucketsHold(r.heap, {})
            && Live(Layout(r.heap)) == Live(Layout(h))
    ensures h.lo % 16 == 0 ==> Inv(Coalesce(h, i).heap)
  {
    CoalesceVariantRestoresInv(h, i, Intended);
  }

  /** A heap with a 128-byte allocated block between two free 32-byte blocks. */
  function MisfileBefore(): Heap
  {
    Heap(0, [Block(32, false), Block(128, true), Block(32, false)],
         [[], [32, 192], [], [], [], [], [], [], [], [], [], [], [], []])
  }

  /** The same heap once free has cleared the middle block's allocated bit. */
  function MisfileFreed(): Heap
  {
    MisfileBefore().(blocks := [Block(32, false), Block(128, false), Block(32, false)])
  }

  /** The free blocks of size class k in an address view of three blocks. */
  lemma FreeAddrsOfThree(a: nat, x: Block, b: nat, y: Block, c: nat, z: Block, k: nat)
    requires a != b && b != c && a != c
    ensures FreeAddrs(map[c := z][b := y][a := x], k)
         == (if !x.alloc && ClassOf(x.size) == k then {a} else {})
          + (if !y.alloc && ClassOf(y.size) == k then {b} else {})
          + (if !z.alloc && ClassOf(z.size) == k then {c} else {})
  {
  }

  /** The example's size classes: 32 bytes in bucket 1, 128 and 192 bytes in bucket 7. */
  lemma MisfileClasses()
    ensures ClassOf(32) == 1 && ClassOf(128) == 7 && ClassOf(192) == 7
  {
    ClassOfInClass(32);
    ClassOfInClass(128);
    ClassOfInClass(192);
    InClassUnique(32, ClassOf(32), 1);
    InClassUnique(128, ClassOf(128), 7);
    InClassUnique(192, ClassOf(192), 7);
  }

  /** The example's address view, with the middle block allocated or free. */
  function MisfileView(mid: Block): map<nat, Block>
  {
    map[192 := Block(32, false)][64 := mid][32 := Block(32, false)]
  }

  lemma MisfileLayouts()
    ensures Layout(MisfileBefore()) == MisfileView(Block(128, true))
    ensures Layout(MisfileFreed()) == MisfileView(Block(128, false))
  {
    LayoutFromSmall(Block(32, false), Block(128, true), Block(32, false), 32);
    LayoutFromSmall(Block(32, false), Block(128, false), Block(32, false), 32);
  }

  /** The example's buckets file both 32-byte blocks, and nothing else, whatever the middle block is. */
  lemma MisfileTracks(mid: Block, absent: set<nat>)
    requires mid.size == 128 && absent == (if mid.alloc then {} else {64})
    ensures Tracks(MisfileBefore().buckets, MisfileView(mid), absent)
  {
    var bs := MisfileBefore().buckets;
    MisfileClasses();
    assert Elems([32, 192]) == {32, 192};
    forall k | 0 <= k < NumBuckets
      ensures NoDup(bs[k]) && Elems(bs[k]) == FreeAddrs(MisfileView(mid), k) - absent
    {
      FreeAddrsOfThree(32, Block(32, false), 64, mid, 192, Block(32, false), k);
    }
  }

  lemma MisfileBeforeInv()
    ensures Inv(MisfileBefore())
  {
    MisfileLayouts();
    MisfileTracks(Block(128, true), {});
  }

  lemma MisfileFreedPending()
    ensures Pending(MisfileFreed(), 1) && Misfiles(MisfileFreed(), 1, AsWritten)
  {
    var h := MisfileFreed();
    MisfileLayouts();
    MisfileAddrs();
    MisfileTracks(Block(128, false), {64});
    MisfileClasses();
  }

  /** The as-written coalesce of the freed middle block, worked out. */
  lemma MisfileMerged()
    ensures RunStart(MisfileFreed().blocks, 1) == 0 && RunEnd(MisfileFreed().blocks, 1) == 3
    ensures Merged(MisfileFreed().blocks, 0, 3) == [Block(192, false)]
  {
    var b := MisfileFreed().blocks;
    assert b[0..3] == b;
    SumSmall(b[0], b[1], b[2]);
  }

  lemma MisfileAddrs()
    ensures Addr(MisfileFreed(), 1) == 64 && Addr(MisfileFreed(), 2) == 192
  {
    var h := MisfileFreed();
    assert h.blocks[..1] == [Block(32, false)];
    assert h.blocks[..2] == [Block(32, false), Block(128, false)];
    SumSmall(Block(32, false), Block(128, false), Block(128, false));
  }

  lemma MisfileUnlink()
    ensures RemoveFreeBlk(MisfileFreed().buckets, 192, 32, true).buckets
         == [[], [32], [], [], [], [], [], [], [], [], [], [], [], []]
  {
    MisfileClasses();
    assert [32, 192][1..] == [192] && [192][1..] == [];
    assert RemoveFirst([32, 192], 192) == [32];
    assert MisfileFreed().buckets[1 := [32]] == [[], [32], [], [], [], [], [], [], [], [], [], [], [], []];
  }

  /** The as-written coalesce of the freed middle block, worked out. */
  lemma MisfileResult()
    ensures CoalesceVariant(MisfileFreed(), 1, AsWritten)
         == Coalesced(Heap(0, [Block(192, false)], [[], [32], [], [], [], [], [], [], [], [], [], [], [], []]), 0)
  {
    MisfileMerged();
    MisfileAddrs();
    MisfileUnlink();
    MisfileClasses();
  }

  /**
   The misfiling case happens: free the 128-byte block between two free 32-byte
   blocks of a heap that satisfies the invariant. The merged 192-byte block stays
   in the 128-byte block's bucket, so the as-written test extends the previous
   block in place and leaves it filed under the 32-byte bucket.
   */
  lemma AsWrittenMisfiles()
    ensures Inv(MisfileBefore())
    ensures MisfileFreed() == MisfileBefore().(blocks := MisfileBefore().blocks[1 := Block(128, false)])
    ensures Pending(MisfileFreed(), 1) && Misfiles(MisfileFreed(), 1, AsWritten)
    ensures var r := CoalesceVariant(MisfileFreed(), 1, AsWritten);
            && 32 in r.heap.buckets[1] && 32 in Layout(r.heap) && ClassOf(Layout(r.heap)[32].size) == 7
            && !BucketsHold(r.heap, {})
  {
    MisfileBeforeInv();
    MisfileFreedPending();
    assert MisfileBefore().blocks[1 := Block(128, false)] == MisfileFreed().blocks;
    MisfileResult();
    MisfileAfter();
    MisfileClasses();
  }

  /** After the as-written coalesce, the 192-byte block is filed under the 32-byte bucket. */
  lemma MisfileAfter()
    ensures var h := Heap(0, [Block(192, false)], [[], [32], [], [], [], [], [], [], [], [], [], [], [], []]);
            && Layout(h) == map[32 := Block(192, false)]
            && 32 in h.buckets[1] && !BucketsHold(h, {})
  {
    var h := Heap(0, [Block(192, false)], [[], [32], [], [], [], [], [], [], [], [], [], [], [], []]);
    MisfileClasses();
    LayoutFromSmall(Block(192, false), Block(192, false), Block(192, false), 32);
    assert 32 in Elems(h.buckets[1]);
    assert 32 !in FreeAddrs(Layout(h), 1);
  }
}
