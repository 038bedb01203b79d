/**
 The size-class table: fourteen ascending thresholds that partition block
 sizes into the fourteen segregated free-list buckets. Bucket k holds sizes in
 [Sizes[k], Sizes[k+1]); the last bucket is unbounded above.
 */
module SizeClass {
  import opened Wrappers

  const NumBuckets: nat := 14

  /** The compiled-in thresholds: +16 steps up to 128, then powers of four. */
  const Sizes: seq<nat> := [0, 32, 48, 64, 80, 96, 112, 128, 512, 2048, 8192, 32768, 131072, 524288]

  /** Size s belongs to the range of bucket k. */
  predicate InClass(s: nat, k: nat)
  {
    k < NumBuckets && Sizes[k] <= s && (k == NumBuckets - 1 || s < Sizes[k + 1])
  }

  /** The chain of range tests, starting at bucket k; every earlier bucket has already been ruled out. */
  function ClassFrom(s: nat, k: nat): (r: nat)
    requires k < NumBuckets
    ensures k <= r < NumBuckets
    decreases NumBuckets - k
  {
    if k == NumBuckets - 1 then k
    else if Sizes[k] <= s && s < Sizes[k + 1] then k
    else ClassFrom(s, k + 1)
  }

  /** Once the buckets below k are ruled out, the chain of tests finds the bucket whose range holds s. */
  lemma {:induction false} ClassFromInClass(s: nat, k: nat)
    requires k < NumBuckets && Sizes[k] <= s
    ensures InClass(s, ClassFrom(s, k))
    decreases NumBuckets - k
  {
    if k < NumBuckets - 1 && !(Sizes[k] <= s && s < Sizes[k + 1]) {
      ClassFromInClass(s, k + 1);
    }
  }

  /** The bucket index a block of size s is filed under. */
  function ClassOf(s: nat): (r: nat)
    ensures r < NumBuckets
  {
    ClassFrom(s, 0)
  }

  /** Every size is filed under the bucket whose range holds it. */
  lemma ClassOfInClass(s: nat)
    ensures InClass(s, ClassOf(s))
  {
    ClassFromInClass(s, 0);
  }

  /** find_free_list: no bucket for size 0, otherwise the bucket whose range holds the size. */
  function FindFreeList(asize: nat): (r: Option<nat>)
    ensures r.None? <==> asize == 0
    ensures r.Some? ==> InClass(asize, r.value)
  {
    if asize == 0 then None
    else
      ClassOfInClass(asize);
      Some(ClassOf(asize))
  }

  /** The thresholds are strictly ascending. */
  lemma SizesAscending(i: nat, j: nat)
    requires i < j < NumBuckets
    ensures Sizes[i] < Sizes[j]
  {
  }

  /** A size lies in the range of exactly one bucket. */
  lemma InClassUnique(s: nat, k1: nat, k2: nat)
    requires InClass(s, k1) && InClass(s, k2)
    ensures k1 == k2
  {
    if k1 < k2 {
      SizesAscending(k1 + 1, k2);
    } else if k2 < k1 {
      SizesAscending(k2 + 1, k1);
    }
  }

  /** A size is filed under bucket k exactly when k's range holds it. */
  lemma ClassOfIff(s: nat, k: nat)
    ensures ClassOf(s) == k <==> InClass(s, k)
  {
    ClassOfInClass(s);
    if InClass(s, k) {
      InClassUnique(s, k, ClassOf(s));
    }
  }

  /** find_free_list returns bucket k exactly when the size is non-zero and in k's range. */
  lemma FindFreeListExact(asize: nat, k: nat)
    ensures FindFreeList(asize) == Some(k) <==> asize > 0 && InClass(asize, k)
  {
    if asize > 0 && InClass(asize, k) {
      ClassOfInClass(asize);
      InClassUnique(asize, k, ClassOf(asize));
    }
  }

  /** The bucket index never decreases as the size grows. */
  lemma ClassMonotone(s: nat, t: nat)
    requires s <= t
    ensures ClassOf(s) <= ClassOf(t)
  {
    var ks, kt := ClassOf(s), ClassOf(t);
    ClassOfInClass(s);
    ClassOfInClass(t);
    if kt < ks {
      SizesAscending(kt + 1, ks);
    }
  }
}
