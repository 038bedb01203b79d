/**
 The block codec of the allocator: boundary-tag words that pack a block size
 and an allocated bit, the header/footer addressing of a block pointer, and
 physical navigation to the next and previous block.

 A boundary tag is one 64-bit word. Block pointers point at the payload, one
 word after the header. Memory is the partial map from a byte address to the
 word stored there; only the words the codec reads are relevant.
 */
module Codec {

  type Word = bv64

  /** Bytes per alignment unit, per boundary-tag word and per double word. */
  const ALIGNMENT: nat := 16
  const WSIZE: nat := 8
  const DSIZE: nat := 16

  /** The words of the heap, keyed by byte address. */
  type Memory = map<int, Word>

  /** PACK: combine a size and an allocated bit into one boundary tag. */
  function Pack(size: Word, alloc: Word): (w: Word)
    ensures size & 15 == 0 && alloc <= 1 ==> GetSize(w) == size && GetAlloc(w) == alloc
    ensures alloc < 16 ==> w & !15 == size & !15
  {
    PackBits(size, alloc);
    size | alloc
  }

  /** The bit-level facts behind the boundary-tag round trip. */
  lemma PackBits(size: Word, alloc: Word)
    ensures alloc < 16 ==> (size | alloc) & !15 == size & !15
    ensures size & 15 == 0 && alloc <= 1 ==> (size | alloc) & 1 == alloc
  {
    if alloc < 16 {
      assert alloc & !15 == 0;
    }
  }

  /** GET_SIZE: the tag with its four low bits cleared. */
  function GetSize(w: Word): (s: Word)
    ensures s & 15 == 0
    ensures s <= w && w - s < 16
  {
    w & !(DSIZE as Word - 1)
  }

  /** GET_ALLOC: the lowest bit of the tag. */
  function GetAlloc(w: Word): (a: Word)
    ensures a <= 1
    ensures a == w % 2
  {
    w & 1
  }

  /** HDRP: the header sits one word before the block pointer. */
  function Hdrp(bp: int): (hp: int)
    ensures hp < bp
    ensures bp % 16 == 0 ==> hp % 16 == 8
  {
    bp - WSIZE
  }

  /** FTRP: the footer is the last word of the block, found via the size in the header. */
  function Ftrp(mem: Memory, bp: int): (f: int)
    requires Hdrp(bp) in mem
    ensures forall s: Word, a: Word {:trigger Pack(s, a)} ::
              mem[bp - 8] == Pack(s, a) && s & 15 == 0 && a <= 1 ==> f == bp + s as int - 16
  {
    bp + GetSize(mem[Hdrp(bp)]) as int - DSIZE
  }

  /** NEXT_BLKP: the next block starts one block size further on. */
  function NextBlkp(mem: Memory, bp: int): (n: int)
    requires bp - WSIZE in mem
    ensures forall s: Word, a: Word {:trigger Pack(s, a)} ::
              mem[bp - 8] == Pack(s, a) && s & 15 == 0 && a <= 1 ==> n == bp + s as int
  {
    bp + GetSize(mem[bp - WSIZE]) as int
  }

  /** PREV_BLKP: the previous block's size is read from its footer, just before our header. */
  function PrevBlkp(mem: Memory, bp: int): (p: int)
    requires bp - DSIZE in mem
    ensures forall s: Word, a: Word {:trigger Pack(s, a)} ::
              mem[bp - 16] == Pack(s, a) && s & 15 == 0 && a <= 1 ==> p == bp - s as int
  {
    bp - GetSize(mem[bp - DSIZE]) as int
  }

  /**
   The words of one block: NEXT_BLKP reads the size from the header HDRP names,
   the header and footer are the first and last words of the block's size
   bytes, the next block's header directly follows the footer, and once the
   footer holds the same tag, PREV_BLKP of the next block leads back to this one.
   */
  lemma BlockSpan(mem: Memory, bp: int, s: Word, a: Word)
    requires Hdrp(bp) in mem && mem[Hdrp(bp)] == Pack(s, a) && s & 15 == 0 && a <= 1
    ensures NextBlkp(mem, bp) == bp + GetSize(mem[Hdrp(bp)]) as int
    ensures Ftrp(mem, bp) + WSIZE - Hdrp(bp) == s as int
    ensures Hdrp(NextBlkp(mem, bp)) == Ftrp(mem, bp) + WSIZE
    ensures Ftrp(mem, bp) in mem && mem[Ftrp(mem, bp)] == Pack(s, a) ==> PrevBlkp(mem, NextBlkp(mem, bp)) == bp
  {
    assert GetSize(mem[Hdrp(bp)]) == s;
  }

  /** align: round up to the next multiple of ALIGNMENT. */
  function Align(x: nat): (r: nat)
    ensures r % 16 == 0
    ensures x <= r < x + 16
  {
    ALIGNMENT * ((x + ALIGNMENT - 1) / ALIGNMENT)
  }

  /** Rounding up leaves multiples of the alignment alone and is idempotent. */
  lemma AlignFixesMultiples(x: nat)
    ensures Align(x) == x <==> x % 16 == 0
    ensures Align(Align(x)) == Align(x)
  {
  }
}
