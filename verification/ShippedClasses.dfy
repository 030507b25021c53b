/**
  The size classes that `liblumen_alloc_macros/src/size_classes.rs` ships,
  against the closed forms of the slab carrier: which of them can be used, stay
  inside their carrier, and hand out all their blocks.
 */
module ShippedClasses {
  import opened Bits
  import opened SizeClasses
  import opened Slabs
  import opened SizeClassAllocs

  /**
    A shipped class, in words, with the quotients of its closed forms: the full
    words of bits, and the blocks of the last word.
   */
  datatype Row = Row(words: nat, full: nat, last: nat)

  /** `SIZE_CLASSES`: those below 512 words, and the others. */
  const SHIPPED: seq<Row> := TINY + SMALL + MEDIUM + LARGE + HUGE

  const TINY: seq<Row> := [
    Row(1, 504, 6), Row(2, 254, 0), Row(3, 169, 49), Row(4, 127, 31), Row(5, 102, 4), Row(6, 85, 6),
    Row(7, 72, 62), Row(8, 63, 55), Row(10, 51, 7)
  ]

  const SMALL: seq<Row> := [
    Row(11, 46, 30), Row(12, 42, 39), Row(13, 39, 21), Row(14, 36, 33), Row(17, 30, 5), Row(22, 23, 16),
    Row(24, 21, 20), Row(29, 17, 41), Row(34, 15, 3), Row(37, 13, 53), Row(50, 10, 15), Row(89, 5, 48),
    Row(92, 5, 36), Row(103, 4, 62), Row(106, 4, 53), Row(159, 3, 14), Row(179, 2, 55)
  ]

  const MEDIUM: seq<Row> := [
    Row(183, 2, 51), Row(206, 2, 31), Row(260, 1, 62), Row(273, 1, 56), Row(280, 1, 53), Row(309, 1, 42),
    Row(312, 1, 41), Row(315, 1, 40), Row(318, 1, 39), Row(360, 1, 27), Row(364, 1, 26), Row(390, 1, 20),
    Row(420, 1, 14), Row(431, 1, 12), Row(455, 1, 8), Row(468, 1, 6), Row(504, 1, 1)
  ]

  const LARGE: seq<Row> := [
    Row(520, 0, 63), Row(537, 0, 61), Row(546, 0, 60), Row(585, 0, 56), Row(618, 0, 53), Row(630, 0, 52),
    Row(697, 0, 47), Row(728, 0, 45), Row(780, 0, 42), Row(799, 0, 41), Row(819, 0, 40), Row(840, 0, 39),
    Row(862, 0, 38), Row(910, 0, 36), Row(936, 0, 35), Row(1092, 0, 30), Row(1170, 0, 28), Row(1260, 0, 26),
    Row(1365, 0, 24), Row(1489, 0, 22)
  ]

  const HUGE: seq<Row> := [
    Row(1560, 0, 21), Row(1638, 0, 20), Row(1724, 0, 19), Row(1820, 0, 18), Row(1927, 0, 17), Row(2184, 0, 15),
    Row(2340, 0, 14), Row(2520, 0, 13), Row(2730, 0, 12), Row(2978, 0, 11), Row(3276, 0, 10), Row(3640, 0, 9),
    Row(4095, 0, 8), Row(4680, 0, 7), Row(5459, 0, 6), Row(5460, 0, 6), Row(6551, 0, 5), Row(6552, 0, 5),
    Row(8189, 0, 4), Row(8190, 0, 4)
  ]

  lemma ShippedCount()
    ensures |SHIPPED| == 83
  {
  }

  /** Below 512 words, there are full words of bits. */
  predicate SmallOk(row: Row) {
    var block := 8 * row.words;
    var left := USABLE - row.full * (8 + 64 * block);
    && 0 < row.words < 512 && 0 < row.full && row.full % 64 != 0
    && if row.words == 2 then left == 8 && row.last == 0
       else row.last > 0 && HEADER <= left < 8 + 64 * block && 0 <= left - 8 - row.last * block < block
  }

  /** From 512 words on, there are none. */
  predicate LargeOk(row: Row) {
    var block := 8 * row.words;
    512 <= row.words && row.full == 0 && row.last > 1 && HEADER <= USABLE - 8 - row.last * block < block
  }

  lemma TinyRowsOk()
    ensures forall row :: row in TINY ==> SmallOk(row)
  {
  }

  lemma SmallRowsOk()
    ensures forall row :: row in SMALL ==> SmallOk(row)
  {
  }

  lemma MediumRowsOk()
    ensures forall row :: row in MEDIUM ==> SmallOk(row)
  {
  }

  lemma LargeRowsOk()
    ensures forall row :: row in LARGE ==> LargeOk(row)
  {
  }

  lemma HugeRowsOk()
    ensures forall row :: row in HUGE ==> LargeOk(row)
  {
  }

  lemma {:induction false} RowsOk(row: Row)
    requires row in SHIPPED
    ensures SmallOk(row) || LargeOk(row)
  {
    TinyRowsOk();
    SmallRowsOk();
    MediumRowsOk();
    LargeRowsOk();
    HugeRowsOk();
  }

  /** The quotients are the ones of the closed forms. */
  lemma {:induction false} RowIsQuotient(row: Row)
    requires SmallOk(row) || LargeOk(row)
    ensures var block := 8 * row.words;
      && FullWords(block) == row.full && LastWord(block) == row.last
      && Leftover(block) == USABLE - row.full * (8 + 64 * block)
  {
    var block := 8 * row.words;
    var left := USABLE - row.full * (8 + 64 * block);
    DivModUnique(USABLE, Unit(block), row.full, left);
    if left > SUBSET_BYTES {
      DivModUnique(left - SUBSET_BYTES, block, row.last, left - SUBSET_BYTES - row.last * block);
    }
  }

  /** What the checked quotients say about the block size. */
  lemma {:induction false} RowVerdict(row: Row)
    requires SmallOk(row) || LargeOk(row)
    ensures var block := 8 * row.words;
      && block > 0 && CarrierBlockLen(block) > 1
      && (Fits(block) <==> row.words != 2) && (StartsInside(block) <==> row.words != 2)
      && (AllHaveBits(block) <==> row.words == 2 || row.words >= 512)
  {
    RowIsQuotient(row);
    CountedBlocks(8 * row.words);
    if row.words >= 512 {
      var block := 8 * row.words;
      DivModUnique(USABLE - 8, block, row.last, USABLE - 8 - row.last * block);
    }
  }

  /**
    The allocator accepts every shipped class. Exactly the one of two words does
    not stay inside its carrier, and exactly that one and those of 512 words or
    more hand out all the blocks they count.
   */
  lemma {:induction false} ShippedFit(row: Row)
    requires row in SHIPPED
    ensures Usable(row.words)
    ensures var block := ToBytes(row.words);
      && (Fits(block) <==> row.words != 2) && (StartsInside(block) <==> row.words != 2)
      && (AllHaveBits(block) <==> row.words == 2 || row.words >= 512)
  {
    RowsOk(row);
    RowVerdict(row);
  }
}
