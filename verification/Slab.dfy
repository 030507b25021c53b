/**
  The slab carrier of `liblumen_alloc/src/carriers/slab.rs` and the block bit
  set of `liblumen_alloc/src/blocks/block_bit_set.rs`: a super-aligned region
  that holds a header, a bit per block, and blocks of one size.
 */
module Slabs {
  import opened Bits
  import opened Wrappers
  import opened Memory

  const CARRIER_SIZE: nat := 0x4_0000
  /** `size_of::<SlabCarrier>()`: the block size and the two links of the carrier list. */
  const HEADER: nat := 24
  /** `size_of::<BlockBitSet>()`: the number of blocks. */
  const BIT_SET_HEADER: nat := 8
  const SUBSET_BYTES: nat := 8
  const SUBSET_BITS: nat := 64
  /** What the bit set counts on: the whole carrier but its own length, the carrier's header included. */
  const USABLE: nat := CARRIER_SIZE - BIT_SET_HEADER
  /** The bytes at the start of every carrier that belong to no block. */
  const PREAMBLE: nat := HEADER + BIT_SET_HEADER

  // ---------- How many blocks a slab holds ----------

  /** The blocks, and the bits for them, that fit in `usable` bytes. */
  function BlocksIn(usable: nat, block: nat): nat
    requires block > 0
  {
    var unit := SUBSET_BYTES + block * SUBSET_BITS;
    if usable >= unit then SUBSET_BITS + BlocksIn(usable - unit, block)
    else if usable > SUBSET_BYTES then (usable - SUBSET_BYTES) / block
    else 0
  }

  /** `block_len_from_slab_byte_len_and_block_byte_len`, for a slab of at least the bit set's own size. */
  method BlockLen(slab: nat, block: nat) returns (count: nat)
    requires block > 0 && slab >= BIT_SET_HEADER
    ensures count == BlocksIn(slab - BIT_SET_HEADER, block)
  {
    var usable := slab - BIT_SET_HEADER;
    var unit := SUBSET_BYTES + block * SUBSET_BITS;
    var used := 0;
    count := 0;
    while used < usable
      invariant used <= usable
      invariant count + BlocksIn(usable - used, block) == BlocksIn(usable, block)
    {
      var newUsed := used + unit;
      if newUsed > usable {
        var available := usable - used;
        if available > SUBSET_BYTES {
          count := count + (available - SUBSET_BYTES) / block;
        }
        return;
      }
      used := newUsed;
      count := count + SUBSET_BITS;
    }
  }

  /** `subset_len_from_block_len`: an extra subset when the *number of subsets* is a multiple of 64. */
  function SubsetLen(blockLen: nat): nat {
    var n := blockLen / SUBSET_BITS;
    if n % SUBSET_BITS == 0 then n + 1 else n
  }

  /** The bits of subset `i` that stand for blocks. */
  function SubsetBitLen(blockLen: nat, i: nat): nat
    requires i < SubsetLen(blockLen)
  {
    var remaining := blockLen - SUBSET_BITS * i;
    if SUBSET_BITS < remaining then SUBSET_BITS else remaining
  }

  /** The blocks that can ever be handed out: those that have a bit. */
  function Allocatable(blockLen: nat): nat {
    if SUBSET_BITS * SubsetLen(blockLen) < blockLen then SUBSET_BITS * SubsetLen(blockLen) else blockLen
  }

  /** `head`: the offset of the first block from the start of the carrier. */
  function Head(blockLen: nat): nat {
    HEADER + BIT_SET_HEADER + SUBSET_BYTES * SubsetLen(blockLen)
  }

  /** The number of blocks a carrier of this block size records: the bit set is given the whole carrier. */
  function CarrierBlockLen(block: nat): nat
    requires block > 0
  {
    BlocksIn(USABLE, block)
  }

  /** The offset of block `i` from the start of a carrier. */
  function BlockOffset(block: nat, blockLen: nat, i: nat): nat {
    Elem(Head(blockLen), i, block)
  }

  // ---------- The numbers of a carrier in closed form ----------

  /** A word of bits and the blocks it stands for. */
  function Unit(block: nat): (u: nat)
    ensures u > 0
  {
    SUBSET_BYTES + block * SUBSET_BITS
  }

  function FullWords(block: nat): nat {
    USABLE / Unit(block)
  }

  function Leftover(block: nat): nat {
    USABLE % Unit(block)
  }

  /** The blocks of the last, partial word. */
  function LastWord(block: nat): nat
    requires block > 0
  {
    if Leftover(block) > SUBSET_BYTES then (Leftover(block) - SUBSET_BYTES) / block else 0
  }

  /** What the division gives for the recursive count. */
  lemma {:induction false} BlocksInClosed(q: nat, left: nat, block: nat)
    requires block > 0 && left < Unit(block)
    ensures BlocksIn(q * Unit(block) + left, block)
            == SUBSET_BITS * q + if left > SUBSET_BYTES then (left - SUBSET_BYTES) / block else 0
  {
    if q > 0 {
      BlocksInClosed(q - 1, left, block);
      assert q * Unit(block) == (q - 1) * Unit(block) + Unit(block);
      assert q * Unit(block) + left - Unit(block) == (q - 1) * Unit(block) + left;
    }
  }

  lemma {:induction false} PartialWord(left: nat, block: nat)
    requires block > 0 && left < SUBSET_BITS * block
    ensures left / block < SUBSET_BITS
    ensures left / block * block + left % block == left
  {
    var k: nat, m := left / block, left % block;
    assert left == block * k + m;
    if k >= SUBSET_BITS { MulMonotone(SUBSET_BITS, k, block); }
  }

  lemma {:induction false} QuotientAndRest(a: nat, m: nat)
    requires m > 0
    ensures a / m * m + a % m == a
  {
  }

  lemma {:induction false} CountedBlocks(block: nat)
    requires block > 0
    ensures CarrierBlockLen(block) == SUBSET_BITS * FullWords(block) + LastWord(block)
    ensures LastWord(block) < SUBSET_BITS
    ensures FullWords(block) * Unit(block) + Leftover(block) == USABLE
  {
    QuotientAndRest(USABLE, Unit(block));
    BlocksInClosed(FullWords(block), Leftover(block), block);
    if Leftover(block) > SUBSET_BYTES { PartialWord(Leftover(block) - SUBSET_BYTES, block); }
  }

  /** How far before the carrier's end the last block that can be handed out ends; negative when it ends after it. */
  function Slack(block: nat): int
    requires block > 0
  {
    var left := Leftover(block);
    if FullWords(block) % SUBSET_BITS != 0 then left - HEADER
    else if left > SUBSET_BYTES then (left - SUBSET_BYTES) % block - HEADER
    else left - SUBSET_BYTES - HEADER
  }

  /** Block sizes of which no block reaches past its carrier. */
  predicate Fits(block: nat)
    requires block > 0
  {
    Slack(block) >= 0
  }

  /** Block sizes of which no block starts past its carrier. */
  predicate StartsInside(block: nat)
    requires block > 0
  {
    Slack(block) + block > 0
  }

  /** Whether every counted block has a bit. */
  predicate AllHaveBits(block: nat)
    requires block > 0
  {
    FullWords(block) % SUBSET_BITS == 0 || LastWord(block) == 0
  }

  /** All blocks of a carrier have a bit, and so can be handed out, exactly for these block sizes. */
  lemma {:induction false} AllBlocksHaveBits(block: nat)
    requires block > 0
    ensures var n := CarrierBlockLen(block);
      && (AllHaveBits(block) <==> Allocatable(n) == n)
      && Allocatable(n) == SUBSET_BITS * FullWords(block) + (if AllHaveBits(block) then LastWord(block) else 0)
      && SubsetLen(n) == FullWords(block) + (if FullWords(block) % SUBSET_BITS == 0 then 1 else 0)
  {
    CountedBlocks(block);
    var n := CarrierBlockLen(block);
    DivModUnique(n, SUBSET_BITS, FullWords(block), LastWord(block));
  }

  /** The blocks after `q` full words, in terms of units. */
  lemma {:induction false} UnitsAndRest(q: nat, k: nat, block: nat)
    ensures SUBSET_BYTES * q + (SUBSET_BITS * q + k) * block == q * Unit(block) + k * block
  {
    assert (SUBSET_BITS * q + k) * block == SUBSET_BITS * q * block + k * block;
    assert q * (block * SUBSET_BITS) == SUBSET_BITS * q * block;
  }

  lemma {:induction false} LastBlockEnds(block: nat)
    requires block > 0
    ensures var n := CarrierBlockLen(block); BlockOffset(block, n, Allocatable(n)) == CARRIER_SIZE - Slack(block)
    ensures Slack(block) + PREAMBLE >= 0
  {
    var n, q := CarrierBlockLen(block), FullWords(block);
    var k := if q % SUBSET_BITS == 0 then LastWord(block) else 0;
    CountedBlocks(block);
    AllBlocksHaveBits(block);
    ElemIsProduct(Head(n), SUBSET_BITS * q + k, block);
    UnitsAndRest(q, k, block);
    if Leftover(block) > SUBSET_BYTES { PartialWord(Leftover(block) - SUBSET_BYTES, block); }
  }

  /** All blocks that can be handed out end inside the carrier if and only if the block size fits. */
  lemma FitsExactly(block: nat)
    requires block > 0 && Allocatable(CarrierBlockLen(block)) > 0
    ensures var n := CarrierBlockLen(block);
      Fits(block) <==> forall i :: 0 <= i < Allocatable(n) ==> BlockOffset(block, n, i) + block <= CARRIER_SIZE
  {
    LastBlockEnds(block);
    var n := CarrierBlockLen(block);
    var last := Allocatable(n) - 1;
    assert BlockOffset(block, n, last) + block == BlockOffset(block, n, Allocatable(n));
    forall i | 0 <= i < Allocatable(n)
      ensures BlockOffset(block, n, i) + block <= BlockOffset(block, n, Allocatable(n))
    {
      ElemsApart(Head(n), i, Allocatable(n), block);
    }
  }

  /** All of them start inside the carrier under a weaker condition, also exact. */
  lemma StartsInsideExactly(block: nat)
    requires block > 0 && Allocatable(CarrierBlockLen(block)) > 0
    ensures var n := CarrierBlockLen(block);
      StartsInside(block) <==> forall i :: 0 <= i < Allocatable(n) ==> BlockOffset(block, n, i) < CARRIER_SIZE
  {
    LastBlockEnds(block);
    var n := CarrierBlockLen(block);
    var last := Allocatable(n) - 1;
    assert BlockOffset(block, n, last) + block == BlockOffset(block, n, Allocatable(n));
    forall i | 0 <= i < last
      ensures BlockOffset(block, n, i) <= BlockOffset(block, n, last)
    {
      ElemsApart(Head(n), i, last, block);
    }
  }

  /** Only small blocks can start past their carrier. */
  lemma LargeBlocksStartInside(block: nat)
    requires block > PREAMBLE
    ensures StartsInside(block)
  {
    LastBlockEnds(block);
  }

  // ---------- Block sizes at which something goes wrong ----------

  /**
    The carrier's header is not accounted for. In the shipped class of two words
    the last block starts where the carrier ends.
   */
  lemma SixteenByteBlocksOverrun()
    ensures CarrierBlockLen(16) == Allocatable(CarrierBlockLen(16)) == 16256
    ensures !Fits(16) && !StartsInside(16)
    ensures BlockOffset(16, CarrierBlockLen(16), 16255) == CARRIER_SIZE
  {
    BlocksInClosed(254, 8, 16);
    ElemIsProduct(Head(16256), 16255, 16);
  }

  /** A block can reach past its carrier and still be found by masking: 762 words. */
  lemma OverrunWithoutLoss()
    ensures !Fits(8 * 762) && StartsInside(8 * 762)
  {
  }

  /** A 260-word class counts 126 blocks and hands out 64; the one-word class counts 32262 and hands out 32256. */
  lemma SomeBlocksHaveNoBit()
    ensures CarrierBlockLen(8 * 260) == 126 && Allocatable(126) == 64
    ensures CarrierBlockLen(8) == 32262 && Allocatable(32262) == 32256
  {
    CountedBlocks(8 * 260);
    CountedBlocks(8);
  }

  // ---------- The bits of one word ----------

  /** `ThreadSafeBlockBitSubset::alloc_block`, run alone: the first clear bit is set. */
  method AllocBit(word: nat, bitLen: nat) returns (r: Option<nat>, after: nat)
    requires word < TWO_64 && bitLen <= SUBSET_BITS
    ensures r.None? <==> forall j :: 0 <= j < bitLen ==> Bit(word, j)
    ensures r.Some? ==> r.value < bitLen && !Bit(word, r.value) && forall j :: 0 <= j < r.value ==> Bit(word, j)
    ensures after == if r.Some? then Or(word, Pow2(r.value)) else word
  {
    for i := 0 to bitLen
      invariant forall j :: 0 <= j < i ==> Bit(word, j)
    {
      var flag := Pow2(i);
      AndFlag(word, i);
      if And(word, flag) == flag {
        continue;
      }
      return Some(i), Or(word, flag);
    }
    r, after := None, word;
  }

  lemma SetBitSpec(word: nat, i: nat, j: nat)
    requires word < TWO_64 && i < 64
    ensures Or(word, Pow2(i)) < TWO_64
    ensures Bit(Or(word, Pow2(i)), j) <==> Bit(word, j) || j == i
  {
    WordSizes();
    Pow2Monotone(i, 63);
    OrBound(word, Pow2(i), 64);
    BitOfOr(word, Pow2(i), j);
    BitOfFlag(i, j);
  }

  /** `word & !flag`. */
  function ClearBit(word: nat, i: nat): nat
    requires i < 64
  {
    FlagBound(i);
    And(word, TWO_64 - 1 - Pow2(i))
  }

  lemma ClearBitSpec(word: nat, i: nat, j: nat)
    requires word < TWO_64 && i < 64 && j < 64
    ensures ClearBit(word, i) < TWO_64
    ensures Bit(ClearBit(word, i), j) <==> Bit(word, j) && j != i
  {
    FlagBound(i);
    AndBound(word, TWO_64 - 1 - Pow2(i));
    BitOfAnd(word, TWO_64 - 1 - Pow2(i), j);
    BitOfNot64(Pow2(i), j);
    BitOfFlag(i, j);
  }

  // ---------- A slab ----------

  datatype Slab = Slab(base: nat, block: nat, blockLen: nat, words: seq<nat>) {

    ghost predicate Valid() {
      && block > 0 && blockLen == CarrierBlockLen(block) > 1
      && |words| == SubsetLen(blockLen)
      && forall w :: 0 <= w < |words| ==> words[w] < TWO_64
    }

    function Capacity(): nat { Allocatable(blockLen) }

    /** Block `i` is handed out. */
    predicate Taken(i: nat)
      requires |words| == SubsetLen(blockLen) && i < Capacity()
    {
      Bit(words[i / SUBSET_BITS], i % SUBSET_BITS)
    }

    function Addr(i: nat): nat {
      base + BlockOffset(block, blockLen, i)
    }
  }

  /** `SlabCarrier::init`: all blocks are free. */
  function InitSlab(base: nat, block: nat): Slab
    requires block > 0
  {
    var n := CarrierBlockLen(block);
    Slab(base, block, n, seq(SubsetLen(n), _ => 0))
  }

  lemma InitSlabIsFree(base: nat, block: nat)
    requires block > 0 && CarrierBlockLen(block) > 1
    ensures var s := InitSlab(base, block);
      s.Valid() && s.Capacity() > 0 && forall i :: 0 <= i < s.Capacity() ==> !s.Taken(i)
  {
    var s := InitSlab(base, block);
    forall i | 0 <= i < s.Capacity()
      ensures !s.Taken(i)
    {
      BitOfZero(i % SUBSET_BITS);
    }
  }

  /** `after` is `s` with block `i` handed out or taken back. */
  ghost predicate Flipped(s: Slab, after: Slab, i: nat, taken: bool)
    requires s.Valid() && i < s.Capacity()
  {
    && after == s.(words := after.words) && after.Valid()
    && after.Taken(i) == taken
    && forall j :: 0 <= j < s.Capacity() && j != i ==> (after.Taken(j) <==> s.Taken(j))
  }

  lemma FlippedByWord(s: Slab, i: nat, word: nat, taken: bool)
    requires s.Valid() && i < s.Capacity() && word < TWO_64
    requires forall j :: 0 <= j < SUBSET_BITS ==>
      (Bit(word, j) <==> if j == i % SUBSET_BITS then taken else Bit(s.words[i / SUBSET_BITS], j))
    ensures Flipped(s, s.(words := s.words[i / SUBSET_BITS := word]), i, taken)
  {
    var after := s.(words := s.words[i / SUBSET_BITS := word]);
    forall j | 0 <= j < s.Capacity() && j != i
      ensures after.Taken(j) <==> s.Taken(j)
    {
      if j / SUBSET_BITS == i / SUBSET_BITS {
        assert j % SUBSET_BITS != i % SUBSET_BITS;
      }
    }
  }

  /** Setting a clear bit of a word takes the block that it stands for. */
  lemma TakeBit(s: Slab, w: nat, bit: nat)
    requires s.Valid() && w < |s.words| && bit < SubsetBitLen(s.blockLen, w) && !Bit(s.words[w], bit)
    ensures var i := w * SUBSET_BITS + bit;
      && i < s.Capacity() && !s.Taken(i)
      && Flipped(s, s.(words := s.words[w := Or(s.words[w], Pow2(bit))]), i, true)
  {
    var i := w * SUBSET_BITS + bit;
    assert i / SUBSET_BITS == w && i % SUBSET_BITS == bit;
    var word := Or(s.words[w], Pow2(bit));
    forall j | 0 <= j < SUBSET_BITS
      ensures word < TWO_64 && (Bit(word, j) <==> Bit(s.words[w], j) || j == bit)
    {
      SetBitSpec(s.words[w], bit, j);
    }
    SetBitSpec(s.words[w], bit, 0);
    FlippedByWord(s, i, word, true);
  }

  /** Blocks below `64 * w + bit` are taken when their bits are set. */
  lemma TakenBelow(s: Slab, w: nat, bit: nat, j: nat)
    requires s.Valid() && w < |s.words| && bit <= SUBSET_BITS
    requires forall k :: 0 <= k < s.Capacity() && k < SUBSET_BITS * w ==> s.Taken(k)
    requires forall k :: 0 <= k < bit ==> Bit(s.words[w], k)
    requires j < s.Capacity() && j < SUBSET_BITS * w + bit
    ensures s.Taken(j)
  {
    if j >= SUBSET_BITS * w {
      assert j / SUBSET_BITS == w && j % SUBSET_BITS == j - SUBSET_BITS * w;
    }
  }

  /** `SlabCarrier::alloc_block`: the first free block, unless every block with a bit is taken. */
  method AllocBlock(s: Slab) returns (r: Option<nat>, ghost i: nat, after: Slab)
    requires s.Valid()
    ensures r.None? <==> forall j :: 0 <= j < s.Capacity() ==> s.Taken(j)
    ensures r.None? ==> after == s
    ensures r.Some? ==>
      && i < s.Capacity() && !s.Taken(i) && (forall j :: 0 <= j < i ==> s.Taken(j))
      && r.value == s.Addr(i) && Flipped(s, after, i, true)
  {
    i := 0;
    for w := 0 to |s.words|
      invariant forall j :: 0 <= j < s.Capacity() && j < SUBSET_BITS * w ==> s.Taken(j)
    {
      var len := SubsetBitLen(s.blockLen, w);
      var bit, word := AllocBit(s.words[w], len);
      forall j | 0 <= j < s.Capacity() && j < SUBSET_BITS * w + (if bit.Some? then bit.value else len)
        ensures s.Taken(j)
      {
        TakenBelow(s, w, if bit.Some? then bit.value else len, j);
      }
      if bit.Some? {
        TakeBit(s, w, bit.value);
        var index := w * SUBSET_BITS + bit.value;
        i := index;
        assert !s.Taken(i);
        return Some(s.Addr(index)), i, s.(words := s.words[w := word]);
      }
    }
    r, after := None, s;
  }

  /** `SlabCarrier::free_block`: the assertions hold for every block of this slab, and its bit is cleared. */
  method FreeBlock(s: Slab, ptr: nat, ghost i: nat) returns (after: Slab)
    requires s.Valid() && i < s.Capacity() && ptr == s.Addr(i)
    ensures Flipped(s, after, i, false)
  {
    var first := s.base + Head(s.blockLen);
    ElemIndex(Head(s.blockLen), i, s.block);
    ElemAligned(Head(s.blockLen), i, s.block);
    var offset := ptr - first;
    assert 0 <= offset;
    assert offset % s.block == 0;
    var index := offset / s.block;
    assert index == i < s.blockLen;
    var w, bit := index / SUBSET_BITS, index % SUBSET_BITS;
    var word := ClearBit(s.words[w], bit);
    forall j | 0 <= j < SUBSET_BITS
      ensures Bit(word, j) <==> Bit(s.words[w], j) && j != bit
    {
      ClearBitSpec(s.words[w], bit, j);
    }
    ClearBitSpec(s.words[w], bit, 0);
    FlippedByWord(s, i, word, false);
    after := s.(words := s.words[w := word]);
  }
}
