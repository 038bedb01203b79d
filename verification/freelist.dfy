/**
 The segregated free-list manager. Each of the fourteen buckets is a doubly
 linked list of free-block pointers threaded through the payloads; here a
 bucket is the sequence of its members in list order, so the `next` link of a
 member is its successor and its `prev` link its predecessor (0, the NULL
 pointer, at either end). An empty bucket's head pointer holds the prologue
 block pointer (heap_listp).

 The operations read the block's boundary tag, given as `size` and `alloc`.
 */
module FreeList {
  import opened SizeClass

  type Bucket = seq<nat>

  /** The result of an insert or remove: whether it succeeded, and the buckets after it. */
  datatype Relisted = Relisted(ok: bool, buckets: seq<Bucket>)

  /** The NULL pointer stored in an absent link. */
  const Null: nat := 0

  /** No pointer occurs twice in a bucket. */
  predicate NoDup(s: Bucket)
  {
    forall i, j :: 0 <= i < j < |s| ==> s[i] != s[j]
  }

  /** The members of a bucket. */
  function Elems(s: Bucket): set<nat>
  {
    set x | x in s
  }

  /** The head pointer of a bucket: its first member, or the empty-list sentinel. */
  function Head(s: Bucket, sentinel: nat): nat
  {
    if |s| == 0 then sentinel else s[0]
  }

  /** The `next` link of the n-th member. */
  function NextLink(s: Bucket, n: nat): nat
    requires n < |s|
  {
    if n + 1 < |s| then s[n + 1] else Null
  }

  /** The `prev` link of the n-th member. */
  function PrevLink(s: Bucket, n: nat): nat
    requires n < |s|
  {
    if n == 0 then Null else s[n - 1]
  }

  /** The position of the first occurrence of x. */
  function FirstIndex(s: Bucket, x: nat): (i: nat)
    requires x in s
    ensures i < |s| && s[i] == x && x !in s[..i]
  {
    if s[0] == x then 0 else 1 + FirstIndex(s[1..], x)
  }

  /** Unlink the first occurrence of x, scanning from the head. */
  function RemoveFirst(s: Bucket, x: nat): (r: Bucket)
    ensures x !in s ==> r == s
    ensures x in s ==> |r| + 1 == |s|
  {
    if |s| == 0 then s
    else if s[0] == x then s[1..]
    else [s[0]] + RemoveFirst(s[1..], x)
  }

  /** Unlinking splices out exactly the first occurrence, keeping the rest in order. */
  lemma {:induction false} RemoveFirstSplice(s: Bucket, x: nat)
    requires x in s
    ensures RemoveFirst(s, x) == s[..FirstIndex(s, x)] + s[FirstIndex(s, x) + 1..]
  {
    if s[0] != x {
      var t := s[1..];
      assert x in t;
      RemoveFirstSplice(t, x);
      var n := FirstIndex(t, x);
      assert s[..n + 1] == [s[0]] + t[..n];
      assert s[n + 2..] == t[n + 1..];
    }
  }

  /** Dropping the head of a duplicate-free bucket leaves a duplicate-free bucket without it. */
  lemma TailNoDup(s: Bucket)
    requires |s| > 0 && NoDup(s)
    ensures NoDup(s[1..]) && s[0] !in s[1..]
    ensures Elems(s) == Elems(s[1..]) + {s[0]}
  {
    var t := s[1..];
    forall a, b | 0 <= a < b < |t| ensures t[a] != t[b] { assert t[a] == s[a + 1] && t[b] == s[b + 1]; }
    forall n | 0 <= n < |t| ensures t[n] != s[0] { assert t[n] == s[n + 1]; }
    assert s == [s[0]] + t;
  }

  /** Putting a fresh pointer in front of a duplicate-free bucket keeps it duplicate-free. */
  lemma ConsNoDup(x: nat, t: Bucket)
    requires NoDup(t) && x !in t
    ensures NoDup([x] + t)
    ensures Elems([x] + t) == Elems(t) + {x}
  {
    var s := [x] + t;
    forall a, b | 0 <= a < b < |s| ensures s[a] != s[b] {
      assert s[b] == t[b - 1];
      if a > 0 { assert s[a] == t[a - 1]; }
    }
  }

  /** Unlinking a pointer from a duplicate-free bucket removes exactly that pointer. */
  lemma {:induction false} RemoveFirstElems(s: Bucket, x: nat)
    ensures NoDup(s) ==> NoDup(RemoveFirst(s, x))
    ensures NoDup(s) ==> Elems(RemoveFirst(s, x)) == Elems(s) - {x}
  {
    if |s| > 0 && NoDup(s) {
      TailNoDup(s);
      if s[0] != x {
        RemoveFirstElems(s[1..], x);
        assert s[0] !in Elems(RemoveFirst(s[1..], x));
        ConsNoDup(s[0], RemoveFirst(s[1..], x));
      }
    }
  }

  /**
   place_freeblk: an allocated block is refused; a free block becomes the new
   head of its size's bucket, in front of the old members (PlaceFreeBlkSpec).
   */
  function PlaceFreeBlk(buckets: seq<Bucket>, bp: nat, size: nat, alloc: bool): (r: Relisted)
    requires |buckets| == NumBuckets
    ensures alloc ==> r == Relisted(false, buckets)
    ensures !alloc ==> r.ok && |r.buckets| == NumBuckets
  {
    var c := ClassOf(size);
    if alloc then Relisted(false, buckets)
    else Relisted(true, buckets[c := [bp] + buckets[c]])
  }

  /**
   Filing a free block puts it at the head of its size's bucket, linked to the
   old head, and touches no other bucket; it adds exactly that pointer and keeps
   a bucket duplicate-free when the pointer was not yet filed there.
   */
  lemma PlaceFreeBlkSpec(buckets: seq<Bucket>, bp: nat, size: nat)
    requires |buckets| == NumBuckets
    ensures var r := PlaceFreeBlk(buckets, bp, size, false);
            && (forall k :: 0 <= k < NumBuckets && k != ClassOf(size) ==> r.buckets[k] == buckets[k])
            && var c := ClassOf(size);
               && |r.buckets[c]| == |buckets[c]| + 1
               && r.buckets[c][0] == bp && PrevLink(r.buckets[c], 0) == Null
               && NextLink(r.buckets[c], 0) == (if |buckets[c]| == 0 then Null else buckets[c][0])
               && r.buckets[c][1..] == buckets[c]
    ensures var r := PlaceFreeBlk(buckets, bp, size, false);
            forall k :: 0 <= k < NumBuckets ==>
              Elems(r.buckets[k]) == Elems(buckets[k]) + (if k == ClassOf(size) then {bp} else {})
    ensures var r := PlaceFreeBlk(buckets, bp, size, false);
            bp !in buckets[ClassOf(size)] ==>
              forall k :: 0 <= k < NumBuckets && NoDup(buckets[k]) ==> NoDup(r.buckets[k])
  {
    var c := ClassOf(size);
    var nb := [bp] + buckets[c];
    assert Elems(nb) == Elems(buckets[c]) + {bp};
    if bp !in buckets[c] && NoDup(buckets[c]) {
      ConsNoDup(bp, buckets[c]);
    }
  }

  /**
   remove_freeblk: fails on an empty bucket or a block whose allocated bit is
   clear (callers set it first); otherwise unlinks the block from its size's
   bucket if it is there, keeping the other members in order (RemoveFreeBlkSpec).
   */
  function RemoveFreeBlk(buckets: seq<Bucket>, bp: nat, size: nat, alloc: bool): (r: Relisted)
    requires |buckets| == NumBuckets
    ensures |r.buckets| == NumBuckets
    ensures r.ok <==> alloc && bp in buckets[ClassOf(size)]
    ensures !r.ok ==> r.buckets == buckets
  {
    var c := ClassOf(size);
    if |buckets[c]| == 0 then Relisted(false, buckets)
    else if !alloc then Relisted(false, buckets)
    else if bp in buckets[c] then Relisted(true, buckets[c := RemoveFirst(buckets[c], bp)])
    else Relisted(false, buckets)
  }

  /**
   Unlinking touches only the block's own bucket, splices the block out of it,
   empties a one-member bucket (its head reverts to the sentinel), and removes
   exactly that pointer from a duplicate-free bucket.
   */
  lemma RemoveFreeBlkSpec(buckets: seq<Bucket>, bp: nat, size: nat)
    requires |buckets| == NumBuckets
    ensures var r := RemoveFreeBlk(buckets, bp, size, true);
            forall k :: 0 <= k < NumBuckets && k != ClassOf(size) ==> r.buckets[k] == buckets[k]
    ensures var r := RemoveFreeBlk(buckets, bp, size, true);
            r.ok ==> var c := ClassOf(size); var i := FirstIndex(buckets[c], bp);
                     r.buckets[c] == buckets[c][..i] + buckets[c][i + 1..]
    ensures var r := RemoveFreeBlk(buckets, bp, size, true);
            forall sentinel :: r.ok && |buckets[ClassOf(size)]| == 1 ==> Head(r.buckets[ClassOf(size)], sentinel) == sentinel
    ensures var r := RemoveFreeBlk(buckets, bp, size, true);
            NoDup(buckets[ClassOf(size)]) ==>
              NoDup(r.buckets[ClassOf(size)]) &&
              Elems(r.buckets[ClassOf(size)]) == Elems(buckets[ClassOf(size)]) - {bp}
  {
    var c := ClassOf(size);
    RemoveFirstElems(buckets[c], bp);
    if bp in buckets[c] {
      RemoveFirstSplice(buckets[c], bp);
    }
  }

  /**
   Unlinking a block just filed (with its allocated bit set first, as the
   callers do) succeeds and gives back the buckets as they were.
   */
  lemma PlaceThenRemove(buckets: seq<Bucket>, bp: nat, size: nat)
    requires |buckets| == NumBuckets
    ensures RemoveFreeBlk(PlaceFreeBlk(buckets, bp, size, false).buckets, bp, size, true) == Relisted(true, buckets)
  {
    var c := ClassOf(size);
    var filed := PlaceFreeBlk(buckets, bp, size, false).buckets;
    assert filed[c] == [bp] + buckets[c];
    assert RemoveFirst(filed[c], bp) == buckets[c];
    assert filed[c := buckets[c]] == buckets;
  }
}
