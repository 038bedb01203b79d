/**
 The heap: a padding word, the prologue block, the ordinary blocks and the
 epilogue, laid out contiguously from the address `lo` that the growth
 primitive returned at initialisation.

 Only the ordinary blocks are stored, as (size, allocated) pairs in physical
 order. The prologue is the fixed 16-byte allocated block whose block pointer
 heap_listp = lo + 16 is also the "empty bucket" sentinel; the first ordinary
 block pointer is lo + 32, and every later one is the previous pointer plus
 the previous size. The epilogue (size 0, allocated) follows the last block.
 */
module HeapModel {
  import opened Wrappers
  import opened SizeClass
  import opened FreeList

  datatype Block = Block(size: nat, alloc: bool)

  datatype Heap = Heap(lo: nat, blocks: seq<Block>, buckets: seq<Bucket>)

  /** heap_listp: the prologue's block pointer. */
  function HeapListp(h: Heap): nat
  {
    h.lo + 16
  }

  /** The block pointer of the first ordinary block. */
  function Base(h: Heap): nat
  {
    h.lo + 32
  }

  /** Total bytes of a run of blocks. */
  function Sum(b: seq<Block>): nat
  {
    if |b| == 0 then 0 else b[0].size + Sum(b[1..])
  }

  lemma {:induction false} SumConcat(p: seq<Block>, q: seq<Block>)
    ensures Sum(p + q) == Sum(p) + Sum(q)
  {
    if |p| > 0 {
      assert (p + q)[1..] == p[1..] + q;
      SumConcat(p[1..], q);
    } else {
      assert p + q == q;
    }
  }

  /** The block pointer of block i (of the epilogue when i == |blocks|). */
  function Addr(h: Heap, i: nat): nat
    requires i <= |h.blocks|
  {
    Base(h) + Sum(h.blocks[..i])
  }

  lemma AddrNext(h: Heap, i: nat)
    requires i < |h.blocks|
    ensures Addr(h, i + 1) == Addr(h, i) + h.blocks[i].size
  {
    assert h.blocks[..i + 1] == h.blocks[..i] + [h.blocks[i]];
    SumConcat(h.blocks[..i], [h.blocks[i]]);
  }

  /** The map from block pointer to block for a run of blocks starting at address a. */
  function LayoutFrom(b: seq<Block>, a: nat): map<nat, Block>
  {
    if |b| == 0 then map[] else LayoutFrom(b[1..], a + b[0].size)[a := b[0]]
  }

  /** What a walk with NEXT_BLKP from the first block visits. */
  function Layout(h: Heap): map<nat, Block>
  {
    LayoutFrom(h.blocks, Base(h))
  }

  predicate Positive(b: seq<Block>)
  {
    forall j :: 0 <= j < |b| ==> b[j].size > 0
  }

  lemma {:induction false} LayoutConcat(p: seq<Block>, q: seq<Block>, a: nat)
    ensures LayoutFrom(p + q, a) == LayoutFrom(q, a + Sum(p)) + LayoutFrom(p, a)
  {
    if |p| > 0 {
      assert (p + q)[1..] == p[1..] + q;
      LayoutConcat(p[1..], q, a + p[0].size);
      var M1: map<nat, Block> := LayoutFrom(q, a + Sum(p));
      var M2: map<nat, Block> := LayoutFrom(p[1..], a + p[0].size);
      var M: map<nat, Block> := M1 + M2;
      assert M[a := p[0]] == M1 + M2[a := p[0]];
    } else {
      assert p + q == q;
    }
  }

  /** With positive sizes, the block pointers of a run lie within the run's bytes. */
  lemma {:induction false} LayoutKeysBounded(b: seq<Block>, a: nat)
    requires Positive(b)
    ensures forall x :: x in LayoutFrom(b, a) ==> a <= x < a + Sum(b)
  {
    if |b| > 0 {
      LayoutKeysBounded(b[1..], a + b[0].size);
    }
  }

  /** Swapping the middle map of a disjoint three-way merge. */
  lemma MergeSwap<K, V>(ms: map<K, V>, mr: map<K, V>, mr2: map<K, V>, mp: map<K, V>)
    requires ms.Keys !! mr.Keys && ms.Keys !! mr2.Keys
    requires mp.Keys !! mr.Keys && mp.Keys !! mr2.Keys
    ensures ms + (mr2 + mp) == ((ms + (mr + mp)) - mr.Keys) + mr2
  {
    var lhs := ms + (mr2 + mp);
    var rhs := ((ms + (mr + mp)) - mr.Keys) + mr2;
    forall x
      ensures x in lhs <==> x in rhs
      ensures x in lhs ==> lhs[x] == rhs[x]
    {
      if x in mp {
        assert x !in mr && x !in mr2;
      } else if x in mr2 {
      } else if x in ms {
        assert x !in mr;
      }
    }
    assert lhs == rhs;
  }

  /**
   Replacing a run r of blocks by a run r2 of the same total size leaves every
   other block at its address: the layout changes only on r's block pointers.
   */
  lemma LayoutReplace(p: seq<Block>, r: seq<Block>, r2: seq<Block>, s: seq<Block>, a: nat)
    requires Positive(p) && Positive(r) && Positive(r2) && Positive(s)
    requires Sum(r) == Sum(r2)
    ensures LayoutFrom(p + r2 + s, a)
         == (LayoutFrom(p + r + s, a) - LayoutFrom(r, a + Sum(p)).Keys) + LayoutFrom(r2, a + Sum(p))
  {
    var aR := a + Sum(p);
    var aS := aR + Sum(r);
    var LP, LR, LR2, LS := LayoutFrom(p, a), LayoutFrom(r, aR), LayoutFrom(r2, aR), LayoutFrom(s, aS);
    var M, M2 := LayoutFrom(p + r + s, a), LayoutFrom(p + r2 + s, a);
    assert M == LS + (LR + LP) by {
      LayoutThree(p, r, s, a);
    }
    assert M2 == LS + (LR2 + LP) by {
      LayoutThree(p, r2, s, a);
    }
    assert LS.Keys !! LR.Keys && LS.Keys !! LR2.Keys by {
      LayoutKeysBounded(r, aR);
      LayoutKeysBounded(r2, aR);
      LayoutKeysBounded(s, aS);
    }
    assert LP.Keys !! LR.Keys && LP.Keys !! LR2.Keys by {
      LayoutKeysBounded(p, a);
      LayoutKeysBounded(r, aR);
      LayoutKeysBounded(r2, aR);
    }
    MergeSwap(LS, LR, LR2, LP);
    assert M2 == (M - LR.Keys) + LR2;
  }

  /** The layout of three consecutive runs is the union of their layouts. */
  lemma LayoutThree(p: seq<Block>, r: seq<Block>, s: seq<Block>, a: nat)
    ensures LayoutFrom(p + r + s, a)
         == LayoutFrom(s, a + Sum(p) + Sum(r)) + (LayoutFrom(r, a + Sum(p)) + LayoutFrom(p, a))
  {
    LayoutConcat(p + r, s, a);
    LayoutConcat(p, r, a);
    SumConcat(p, r);
  }

  /** Block i sits in the layout at its block pointer. */
  lemma LayoutAt(h: Heap, i: nat)
    requires i < |h.blocks| && Positive(h.blocks)
    ensures Addr(h, i) in Layout(h) && Layout(h)[Addr(h, i)] == h.blocks[i]
  {
    var b := h.blocks;
    assert b == b[..i] + b[i..];
    LayoutConcat(b[..i], b[i..], Base(h));
    LayoutKeysBounded(b[..i], Base(h));
    assert b[i..][0] == b[i] && b[i..][1..] == b[i + 1..];
  }

  /** The layout of a run of one, two or three blocks. */
  lemma LayoutFromSmall(x: Block, y: Block, z: Block, a: nat)
    ensures LayoutFrom([x], a) == map[a := x]
    ensures LayoutFrom([x, y], a) == map[a + x.size := y][a := x]
    ensures LayoutFrom([x, y, z], a) == map[a + x.size + y.size := z][a + x.size := y][a := x]
  {
    assert [x][1..] == [] && [y][1..] == [] && [z][1..] == [];
    assert [x, y][1..] == [y] && [y, z][1..] == [z];
    assert [x, y, z][1..] == [y, z];
    assert LayoutFrom([y], a + x.size) == map[a + x.size := y];
    assert LayoutFrom([z], a + x.size + y.size) == map[a + x.size + y.size := z];
  }

  /** The block pointers of a run of one, two or three blocks. */
  lemma LayoutKeysSmall(x: Block, y: Block, z: Block, a: nat)
    ensures LayoutFrom([x], a).Keys == {a}
    ensures LayoutFrom([x, y], a).Keys == {a} + {a + x.size}
    ensures LayoutFrom([x, y, z], a).Keys == {a} + {a + x.size} + {a + x.size + y.size}
  {
    LayoutFromSmall(x, y, z, a);
  }

  /** The block pointers of a run of one, two or three blocks, as the run's own prefix sums. */
  lemma LayoutKeysRun(r: seq<Block>, a: nat)
    requires 1 <= |r| <= 3
    ensures |r| == 1 ==> LayoutFrom(r, a).Keys == {a}
    ensures |r| == 2 ==> LayoutFrom(r, a).Keys == {a} + {a + r[0].size}
    ensures |r| == 3 ==> LayoutFrom(r, a).Keys == {a} + {a + r[0].size} + {a + r[0].size + r[1].size}
  {
    if |r| == 1 {
      assert r == [r[0]];
      LayoutKeysSmall(r[0], r[0], r[0], a);
    } else if |r| == 2 {
      assert r == [r[0], r[1]];
      LayoutKeysSmall(r[0], r[1], r[1], a);
    } else {
      assert r == [r[0], r[1], r[2]];
      LayoutKeysSmall(r[0], r[1], r[2], a);
    }
  }

  /** Removing some block pointers and (re)placing one block changes the free sets only there. */
  lemma FreeAddrsUpdate(m: map<nat, Block>, gone: set<nat>, a: nat, blk: Block, k: nat)
    ensures FreeAddrs((m - gone)[a := blk], k)
         == (FreeAddrs(m, k) - gone - {a}) + (if !blk.alloc && ClassOf(blk.size) == k then {a} else {})
  {
  }

  /** Removing and (re)placing free blocks leaves the allocated blocks alone. */
  lemma LiveUpdateFree(m: map<nat, Block>, gone: set<nat>, a: nat, blk: Block)
    requires forall x :: x in gone && x in m ==> !m[x].alloc
    requires a in gone || a !in m || !m[a].alloc
    requires !blk.alloc
    ensures Live((m - gone)[a := blk]) == Live(m)
  {
    var m2 := (m - gone)[a := blk];
    assert Live(m2).Keys == Live(m).Keys;
  }

  /** No block pointer lies strictly inside block i. */
  lemma LayoutGap(h: Heap, i: nat)
    requires i < |h.blocks| && Positive(h.blocks)
    ensures forall x :: x in Layout(h) && Addr(h, i) < x ==> Addr(h, i + 1) <= x
  {
    var b := h.blocks;
    assert b == b[..i] + b[i..];
    LayoutConcat(b[..i], b[i..], Base(h));
    LayoutKeysBounded(b[..i], Base(h));
    assert b[i..][0] == b[i] && b[i..][1..] == b[i + 1..];
    AddrNext(h, i);
    LayoutKeysBounded(b[i + 1..], Addr(h, i + 1));
  }

  /** Every block pointer lies before the epilogue's. */
  lemma LayoutBelowEnd(h: Heap)
    requires Positive(h.blocks)
    ensures forall x :: x in Layout(h) ==> x < Addr(h, |h.blocks|)
  {
    assert h.blocks[..|h.blocks|] == h.blocks;
    LayoutKeysBounded(h.blocks, Base(h));
  }

  /** Rewriting block i's tag without changing its size leaves every pointer in place. */
  lemma LayoutSet(h: Heap, i: nat, blk: Block)
    requires i < |h.blocks| && Positive(h.blocks) && blk.size == h.blocks[i].size
    ensures Addr(h.(blocks := h.blocks[i := blk]), i) == Addr(h, i)
    ensures Layout(h.(blocks := h.blocks[i := blk])) == Layout(h)[Addr(h, i) := blk]
  {
    var b := h.blocks;
    var P, S := b[..i], b[i + 1..];
    assert b == P + [b[i]] + S;
    assert b[i := blk] == P + [blk] + S;
    assert b[i := blk][..i] == P;
    assert Positive(P) && Positive(S);
    LayoutSetFrom(P, S, b[i], blk, Base(h));
  }

  /** Replacing block z of a run by a block of the same size re-points z's pointer only. */
  lemma LayoutSetFrom(p: seq<Block>, s: seq<Block>, z: Block, blk: Block, a: nat)
    requires Positive(p) && Positive(s) && blk.size == z.size && z.size > 0
    ensures LayoutFrom(p + [blk] + s, a) == LayoutFrom(p + [z] + s, a)[a + Sum(p) := blk]
  {
    var A := a + Sum(p);
    var M := LayoutFrom(p + [z] + s, a);
    SumSmall1(z);
    SumSmall1(blk);
    LayoutReplace(p, [z], [blk], s, a);
    LayoutFromSmall(z, z, z, A);
    LayoutFromSmall(blk, blk, blk, A);
    assert LayoutFrom([z], A).Keys == {A};
    MapPlusOne(M - {A}, A, blk);
    MapRemovePut(M, A, blk);
  }

  lemma MapPlusOne<V>(m: map<nat, V>, a: nat, x: V)
    ensures m + map[a := x] == m[a := x]
  {
  }

  lemma MapRemovePut<V>(m: map<nat, V>, a: nat, x: V)
    ensures (m - {a})[a := x] == m[a := x]
  {
  }

  lemma SumSmall1(x: Block)
    ensures Sum([x]) == x.size
  {
    assert [x][1..] == [];
  }

  /** Splitting block i into x and y puts y at a pointer that was inside block i. */
  lemma LayoutSplit(h: Heap, i: nat, x: Block, y: Block)
    requires i < |h.blocks| && Positive(h.blocks) && x.size > 0 && y.size > 0
    requires x.size + y.size == h.blocks[i].size
    ensures var h2 := h.(blocks := h.blocks[..i] + [x, y] + h.blocks[i + 1..]);
            && Addr(h2, i) == Addr(h, i) && Addr(h2, i + 1) == Addr(h, i) + x.size
            && Addr(h, i) + x.size !in Layout(h)
            && Layout(h2) == Layout(h)[Addr(h, i) := x][Addr(h, i) + x.size := y]
            && Sum(h2.blocks) == Sum(h.blocks)
  {
    var b := h.blocks;
    var P, S := b[..i], b[i + 1..];
    var h2 := h.(blocks := b[..i] + [x, y] + b[i + 1..]);
    var A := Addr(h, i);
    assert b == P + [b[i]] + S;
    assert Sum([x, y]) == Sum([b[i]]) by {
      SumSmall1(b[i]);
      SumSmall1(y);
      assert [x, y][1..] == [y];
    }
    assert Addr(h2, i) == A && Addr(h2, i + 1) == A + x.size by {
      assert h2.blocks[..i] == P;
      assert h2.blocks[..i + 1] == P + [x];
      SumConcat(P, [x]);
      SumSmall1(x);
    }
    assert A + x.size !in Layout(h) by {
      LayoutGap(h, i);
      AddrNext(h, i);
    }
    assert Layout(h2) == (Layout(h) - {A}) + map[A + x.size := y][A := x] by {
      assert Positive(P) && Positive(S);
      LayoutSplitFrom(P, S, b[i], x, y, Base(h));
    }
    LayoutAt(h, i);
    MapSplit(Layout(h), A, x, A + x.size, y);
    assert Sum(h2.blocks) == Sum(b) by {
      SumConcat(P + [b[i]], S);
      SumConcat(P, [b[i]]);
      SumConcat(P + [x, y], S);
      SumConcat(P, [x, y]);
    }
  }

  /** Splitting block z of a run into x and y adds y's pointer and re-points z's to x. */
  lemma LayoutSplitFrom(p: seq<Block>, s: seq<Block>, z: Block, x: Block, y: Block, a: nat)
    requires Positive(p) && Positive(s) && x.size > 0 && y.size > 0 && x.size + y.size == z.size
    ensures LayoutFrom(p + [x, y] + s, a)
         == (LayoutFrom(p + [z] + s, a) - {a + Sum(p)}) + map[a + Sum(p) + x.size := y][a + Sum(p) := x]
  {
    assert Sum([x, y]) == Sum([z]) by {
      assert [x, y][1..] == [y];
      assert [z][1..] == [] && [y][1..] == [];
    }
    var A := a + Sum(p);
    LayoutReplace(p, [z], [x, y], s, a);
    LayoutFromSmall(z, z, z, A);
    LayoutFromSmall(x, y, y, A);
    assert LayoutFrom([z], A).Keys == {A};
  }

  lemma MapSplit<V>(m: map<nat, V>, a: nat, x: V, c: nat, y: V)
    requires a in m && c !in m && a != c
    ensures (m - {a}) + map[c := y][a := x] == m[a := x][c := y]
  {
  }

  /** Growing the heap by one block puts it at the old epilogue's pointer. */
  lemma LayoutAppend(h: Heap, blk: Block)
    requires Positive(h.blocks)
    ensures var h2 := h.(blocks := h.blocks + [blk]);
            && Addr(h2, |h.blocks|) == Addr(h, |h.blocks|)
            && Addr(h, |h.blocks|) !in Layout(h)
            && Layout(h2) == Layout(h)[Addr(h, |h.blocks|) := blk]
            && Sum(h2.blocks) == Sum(h.blocks) + blk.size
  {
    var b := h.blocks;
    var h2 := h.(blocks := b + [blk]);
    assert h2.blocks[..|b|] == b;
    assert b[..|b|] == b;
    LayoutBelowEnd(h);
    LayoutConcat(b, [blk], Base(h));
    LayoutFromSmall(blk, blk, blk, Addr(h, |b|));
    SumConcat(b, [blk]);
    SumSmall1(blk);
  }

  /** Rewriting the block at pointer a changes the free sets only at a. */
  lemma FreeAddrsSet(m: map<nat, Block>, a: nat, blk: Block, k: nat)
    ensures FreeAddrs(m[a := blk], k)
         == (FreeAddrs(m, k) - {a}) + (if !blk.alloc && ClassOf(blk.size) == k then {a} else {})
  {
  }

  /** Rewriting the block at pointer a changes the allocated blocks only at a. */
  lemma LiveSet(m: map<nat, Block>, a: nat, blk: Block)
    ensures Live(m[a := blk]) == if blk.alloc then Live(m)[a := blk.size] else Live(m) - {a}
  {
    var m2 := m[a := blk];
    if blk.alloc {
      assert Live(m2).Keys == Live(m).Keys + {a};
    } else {
      assert Live(m2).Keys == Live(m).Keys - {a};
    }
  }

  /** Buckets that are exact for m stay exact, with the new pointer unfiled, when a fresh block appears. */
  lemma FreshTracks(bs: seq<Bucket>, m: map<nat, Block>, a: nat, blk: Block)
    requires Tracks(bs, m, {}) && a !in m
    ensures Tracks(bs, m[a := blk], {a})
  {
    forall k | 0 <= k < NumBuckets
      ensures Elems(bs[k]) == FreeAddrs(m[a := blk], k) - {a}
    {
      FreeAddrsSet(m, a, blk, k);
    }
  }

  /** Buckets that are exact for m, apart from a, are exact once a is allocated. */
  lemma AllocatedTracks(bs: seq<Bucket>, m: map<nat, Block>, a: nat, blk: Block)
    requires Tracks(bs, m, {a}) && blk.alloc
    ensures Tracks(bs, m[a := blk], {})
  {
    forall k | 0 <= k < NumBuckets
      ensures Elems(bs[k]) == FreeAddrs(m[a := blk], k)
    {
      FreeAddrsSet(m, a, blk, k);
    }
  }

  /** Buckets that are exact for m stay exact, with a unfiled, when allocated block a is rewritten. */
  lemma FreedTracks(bs: seq<Bucket>, m: map<nat, Block>, a: nat, blk: Block)
    requires Tracks(bs, m, {}) && a in m && m[a].alloc
    ensures Tracks(bs, m[a := blk], {a})
  {
    forall k | 0 <= k < NumBuckets
      ensures Elems(bs[k]) == FreeAddrs(m[a := blk], k) - {a}
    {
      FreeAddrsSet(m, a, blk, k);
    }
  }

  lemma SumReplace(p: seq<Block>, r: seq<Block>, r2: seq<Block>, s: seq<Block>)
    requires Sum(r) == Sum(r2)
    ensures Sum(p + r + s) == Sum(p + r2 + s)
  {
    SumConcat(p + r, s);
    SumConcat(p, r);
    SumConcat(p + r2, s);
    SumConcat(p, r2);
  }

  /** The index of the block whose pointer is x, walking from address a. */
  function IndexFrom(b: seq<Block>, a: nat, x: nat): (r: Option<nat>)
    ensures r.Some? <==> x in LayoutFrom(b, a)
    ensures r.Some? ==> r.value < |b| && LayoutFrom(b, a)[x] == b[r.value] && x == a + Sum(b[..r.value])
  {
    if |b| == 0 then None
    else if x == a then Some(0)
    else match IndexFrom(b[1..], a + b[0].size, x)
      case None => None
      case Some(j) =>
        assert b[..j + 1][1..] == b[1..][..j];
        Some(j + 1)
  }

  /** The index of the block at pointer x, if x is a block pointer of the heap. */
  function IndexOf(h: Heap, x: nat): (r: Option<nat>)
    ensures r.Some? <==> x in Layout(h)
    ensures r.Some? ==> r.value < |h.blocks| && Layout(h)[x] == h.blocks[r.value] && x == Addr(h, r.value)
  {
    IndexFrom(h.blocks, Base(h), x)
  }

  /** The free block pointers whose size maps to bucket k. */
  function FreeAddrs(m: map<nat, Block>, k: nat): set<nat>
  {
    set x | x in m && !m[x].alloc && ClassOf(m[x].size) == k
  }

  /** The allocated blocks, by pointer, with their sizes: what the allocator's clients own. */
  function Live(m: map<nat, Block>): map<nat, nat>
  {
    map x | x in m && m[x].alloc :: m[x].size
  }

  /** Every block size is a multiple of 16 and at least 32. */
  predicate SizesOk(b: seq<Block>)
  {
    forall j :: 0 <= j < |b| ==> b[j].size % 16 == 0 && b[j].size >= 32
  }

  /** No two physically adjacent blocks are both free. */
  predicate NoAdjacentFree(b: seq<Block>)
  {
    forall j :: 0 < j < |b| ==> b[j - 1].alloc || b[j].alloc
  }

  /** As NoAdjacentFree, except for the pairs that involve block i. */
  predicate NoAdjacentFreeExcept(b: seq<Block>, i: nat)
  {
    forall j :: 0 < j < |b| && j != i && j != i + 1 ==> b[j - 1].alloc || b[j].alloc
  }

  /**
   Each bucket is duplicate-free and holds exactly the free blocks whose size
   maps to it, apart from the pointers in `absent`.
   */
  predicate BucketsHold(h: Heap, absent: set<nat>)
  {
    Tracks(h.buckets, Layout(h), absent)
  }

  /** Buckets `bs` file exactly the free blocks of layout m, apart from `absent`. */
  predicate Tracks(bs: seq<Bucket>, m: map<nat, Block>, absent: set<nat>)
  {
    && |bs| == NumBuckets
    && forall k :: 0 <= k < NumBuckets ==>
         NoDup(bs[k]) && Elems(bs[k]) == FreeAddrs(m, k) - absent
  }

  /** Membership in a bucket, read off exact buckets. */
  lemma TracksIff(bs: seq<Bucket>, m: map<nat, Block>, absent: set<nat>, x: nat, k: nat)
    requires Tracks(bs, m, absent) && k < NumBuckets
    ensures x in bs[k] <==> x in m && !m[x].alloc && ClassOf(m[x].size) == k && x !in absent
  {
    assert x in bs[k] <==> x in Elems(bs[k]);
  }

  /** Unlinking a filed free block keeps the buckets exact, with that block now unfiled. */
  lemma UnlinkTracks(bs: seq<Bucket>, m: map<nat, Block>, absent: set<nat>, x: nat)
    requires Tracks(bs, m, absent) && x in m && !m[x].alloc && x !in absent
    ensures RemoveFreeBlk(bs, x, m[x].size, true).ok
    ensures Tracks(RemoveFreeBlk(bs, x, m[x].size, true).buckets, m, absent + {x})
  {
    var c := ClassOf(m[x].size);
    assert x in FreeAddrs(m, c);
    assert x in Elems(bs[c]);
    RemoveFreeBlkSpec(bs, x, m[x].size);
  }

  /**
   Filing block `a` under the bucket of its new contents `blk`, once the run `gone`
   (which holds `a`) is unfiled, makes the buckets exact for the new layout.
   */
  lemma FileTracks(bs: seq<Bucket>, m: map<nat, Block>, gone: set<nat>, a: nat, blk: Block)
    requires Tracks(bs, m, gone) && a in gone && !blk.alloc
    ensures PlaceFreeBlk(bs, a, blk.size, false).ok
    ensures Tracks(PlaceFreeBlk(bs, a, blk.size, false).buckets, (m - gone)[a := blk], {})
  {
    var r := PlaceFreeBlk(bs, a, blk.size, false);
    PlaceFreeBlkSpec(bs, a, blk.size);
    forall k | 0 <= k < NumBuckets
      ensures NoDup(r.buckets[k]) && Elems(r.buckets[k]) == FreeAddrs((m - gone)[a := blk], k)
    {
      FreeAddrsUpdate(m, gone, a, blk, k);
    }
  }

  /**
   Unlinking filed free block np and filing bp (not yet filed) with new
   contents blk, while np disappears, makes the buckets exact again.
   */
  lemma AppendTracks(bs: seq<Bucket>, m: map<nat, Block>, bp: nat, np: nat, blk: Block)
    requires Tracks(bs, m, {bp}) && np in m && !m[np].alloc && bp != np && !blk.alloc
    ensures Tracks(PlaceFreeBlk(RemoveFreeBlk(bs, np, m[np].size, true).buckets, bp, blk.size, false).buckets,
                   (m - {bp, np})[bp := blk], {})
  {
    UnlinkTracks(bs, m, {bp}, np);
    assert {bp} + {np} == {bp, np};
    FileTracks(RemoveFreeBlk(bs, np, m[np].size, true).buckets, m, {bp, np}, bp, blk);
  }

  /**
   Growing filed free block pp in place, within its bucket, while bp (not
   filed) disappears, keeps the buckets exact.
   */
  lemma GrowTracks(bs: seq<Bucket>, m: map<nat, Block>, bp: nat, pp: nat, blk: Block)
    requires Tracks(bs, m, {bp}) && pp in m && !m[pp].alloc && bp != pp
    requires !blk.alloc && ClassOf(blk.size) == ClassOf(m[pp].size)
    ensures Tracks(bs, (m - {bp, pp})[pp := blk], {})
  {
    assert {bp, pp} - {pp} == {bp};
    KeepTracks(bs, m, {bp, pp}, pp, blk);
  }

  /**
   Unlinking filed free block pp and refiling it with new contents blk, while
   bp (not filed) disappears, makes the buckets exact again.
   */
  lemma MoveTracks(bs: seq<Bucket>, m: map<nat, Block>, bp: nat, pp: nat, blk: Block)
    requires Tracks(bs, m, {bp}) && pp in m && !m[pp].alloc && bp != pp && !blk.alloc
    ensures Tracks(PlaceFreeBlk(RemoveFreeBlk(bs, pp, m[pp].size, true).buckets, pp, blk.size, false).buckets,
                   (m - {bp, pp})[pp := blk], {})
  {
    UnlinkTracks(bs, m, {bp}, pp);
    assert {bp} + {pp} == {bp, pp};
    FileTracks(RemoveFreeBlk(bs, pp, m[pp].size, true).buckets, m, {bp, pp}, pp, blk);
  }

  /**
   Unlinking two filed free blocks np and pp and refiling pp with new contents
   blk, while bp (not filed) disappears, makes the buckets exact again.
   */
  lemma RefileTracks(bs: seq<Bucket>, m: map<nat, Block>, bp: nat, np: nat, pp: nat, blk: Block)
    requires Tracks(bs, m, {bp}) && np in m && pp in m && !m[np].alloc && !m[pp].alloc
    requires bp != np && bp != pp && np != pp && !blk.alloc
    ensures var u := RemoveFreeBlk(bs, np, m[np].size, true).buckets;
            var u2 := RemoveFreeBlk(u, pp, m[pp].size, true).buckets;
            Tracks(PlaceFreeBlk(u2, pp, blk.size, false).buckets, (m - {bp, np, pp})[pp := blk], {})
  {
    var u := RemoveFreeBlk(bs, np, m[np].size, true).buckets;
    UnlinkTracks(bs, m, {bp}, np);
    UnlinkTracks(u, m, {bp} + {np}, pp);
    assert {bp} + {np} + {pp} == {bp, np, pp};
    FileTracks(RemoveFreeBlk(u, pp, m[pp].size, true).buckets, m, {bp, np, pp}, pp, blk);
  }

  /**
   Unlinking filed free block np and growing filed free block pp in place,
   within its bucket, while bp (not filed) disappears, keeps the buckets exact.
   */
  lemma AbsorbTracks(bs: seq<Bucket>, m: map<nat, Block>, bp: nat, np: nat, pp: nat, blk: Block)
    requires Tracks(bs, m, {bp}) && np in m && pp in m && !m[np].alloc && !m[pp].alloc
    requires bp != np && bp != pp && np != pp && !blk.alloc && ClassOf(blk.size) == ClassOf(m[pp].size)
    ensures Tracks(RemoveFreeBlk(bs, np, m[np].size, true).buckets, (m - {bp, np, pp})[pp := blk], {})
  {
    UnlinkTracks(bs, m, {bp}, np);
    assert {bp, np, pp} - {pp} == {bp} + {np};
    KeepTracks(RemoveFreeBlk(bs, np, m[np].size, true).buckets, m, {bp, np, pp}, pp, blk);
  }

  /**
   Growing a still-filed free block `a` in place, when its bucket does not change,
   makes the buckets exact for the new layout without relisting it.
   */
  lemma KeepTracks(bs: seq<Bucket>, m: map<nat, Block>, gone: set<nat>, a: nat, blk: Block)
    requires Tracks(bs, m, gone - {a}) && a in gone && a in m && !m[a].alloc
    requires !blk.alloc && ClassOf(blk.size) == ClassOf(m[a].size)
    ensures Tracks(bs, (m - gone)[a := blk], {})
  {
    forall k | 0 <= k < NumBuckets
      ensures Elems(bs[k]) == FreeAddrs((m - gone)[a := blk], k)
    {
      FreeAddrsUpdate(m, gone, a, blk, k);
      if k == ClassOf(blk.size) {
        assert a in FreeAddrs(m, k);
      }
    }
  }

  /**
   The heap invariant that place and coalesce maintain across public
   operations. The heap checker asserts only its alignment part and its
   bucket part; the size and adjacency parts are never checked.
   */
  predicate Inv(h: Heap)
  {
    && h.lo % 16 == 0
    && SizesOk(h.blocks)
    && NoAdjacentFree(h.blocks)
    && BucketsHold(h, {})
  }

  /** The state coalesce expects: block i was just made free and is not yet filed. */
  predicate Pending(h: Heap, i: nat)
  {
    && i < |h.blocks|
    && !h.blocks[i].alloc
    && SizesOk(h.blocks)
    && NoAdjacentFreeExcept(h.blocks, i)
    && BucketsHold(h, {Addr(h, i)})
  }

  lemma SizesOkPositive(b: seq<Block>)
    requires SizesOk(b)
    ensures Positive(b)
  {
  }

  /** Under the invariant a pointer is in bucket k exactly when it is a free block of k's size range. */
  lemma InvBucketMembership(h: Heap, x: nat, k: nat)
    requires Inv(h) && k < NumBuckets
    ensures x in h.buckets[k] <==> x in Layout(h) && !Layout(h)[x].alloc && InClass(Layout(h)[x].size, k)
  {
    var m := Layout(h);
    assert x in h.buckets[k] <==> x in Elems(h.buckets[k]);
    assert Elems(h.buckets[k]) == FreeAddrs(m, k) - {};
    assert x in FreeAddrs(m, k) <==> x in m && !m[x].alloc && ClassOf(m[x].size) == k;
    if x in m {
      ClassOfIff(m[x].size, k);
    }
  }

  /** Every block pointer is 16-byte aligned when lo is and all sizes are multiples of 16. */
  lemma {:induction false} LayoutAligned(b: seq<Block>, a: nat)
    requires a % 16 == 0 && SizesOk(b)
    ensures forall x :: x in LayoutFrom(b, a) ==> x % 16 == 0
  {
    if |b| > 0 {
      LayoutAligned(b[1..], a + b[0].size);
    }
  }

  lemma InvAligned(h: Heap, x: nat)
    requires Inv(h) && x in Layout(h)
    ensures x % 16 == 0
  {
    LayoutAligned(h.blocks, Base(h));
  }
}
