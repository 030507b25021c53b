/**
  `SourceIndex` of `compiler/diagnostics/src/index.rs`: a source id and a byte
  index packed into one 64-bit word.
 */
module SourceIndices {
  import opened Bits

  const UNKNOWN_SOURCE_ID: nat := TWO_32 - 1
  const UNKNOWN: nat := UNKNOWN_SOURCE_ID * TWO_32

  /** Ids that `SourceId::new` accepts. */
  type SourceId = id: nat | 0 < id < UNKNOWN_SOURCE_ID witness 1

  function New(source: nat, index: nat): nat
    requires source < TWO_32 && index < TWO_32
  {
    Or(Shl64(source, 32), index)
  }

  function SourceOf(p: nat): nat {
    p / TWO_32
  }

  function IndexOf(p: nat): nat {
    And(p, TWO_32 - 1)
  }

  /** `self + rhs`: the offset is taken modulo 2^32 by the final cast. */
  function Add(p: nat, rhs: nat): nat
    requires SourceOf(p) < TWO_32
  {
    if p == UNKNOWN then UNKNOWN
    else New(SourceOf(p), (IndexOf(p) + rhs) % TWO_32)
  }

  /** `self - rhs`, with the same final cast. */
  function Sub(p: nat, rhs: nat): nat
    requires SourceOf(p) < TWO_32
  {
    if p == UNKNOWN then UNKNOWN
    else New(SourceOf(p), (IndexOf(p) - rhs) % TWO_32)
  }

  lemma NewValue(source: nat, index: nat)
    requires source < TWO_32 && index < TWO_32
    ensures New(source, index) == source * TWO_32 + index < TWO_64
  {
    WordSizes();
    var p := Pow2(32);
    assert source * p < TWO_64;
    assert Shl64(source, 32) == source * p;
    OrAdd(index, source, 32);
  }

  lemma IndexOfValue(p: nat)
    ensures IndexOf(p) == p % TWO_32
  {
    WordSizes();
    AndLow(p, 32);
  }

  /** Unpacking undoes packing. */
  lemma PackUnpack(source: nat, index: nat)
    requires source < TWO_32 && index < TWO_32
    ensures New(source, index) == source * TWO_32 + index < TWO_64
    ensures SourceOf(New(source, index)) == source
    ensures IndexOf(New(source, index)) == index
  {
    NewValue(source, index);
    IndexOfValue(source * TWO_32 + index);
    DivModUnique(source * TWO_32 + index, TWO_32, source, index);
  }

  /** Packing undoes unpacking: every 64-bit word is the pack of its two halves. */
  lemma UnpackPack(p: nat)
    requires p < TWO_64
    ensures SourceOf(p) < TWO_32 && IndexOf(p) < TWO_32
    ensures New(SourceOf(p), IndexOf(p)) == p
  {
    IndexOfValue(p);
    PackUnpack(p / TWO_32, p % TWO_32);
  }

  /** Offsets inside a file move the index half only, and never turn into `UNKNOWN`. */
  lemma AddMovesIndex(id: SourceId, index: nat, rhs: nat)
    requires index < TWO_32
    ensures New(id, index) != UNKNOWN
    ensures SourceOf(New(id, index)) == id
    ensures Add(New(id, index), rhs) == New(id, (index + rhs) % TWO_32)
  {
    PackUnpack(id, index);
  }

  /** Adding a byte offset to the start of a file packs that offset. */
  lemma AddFromStart(id: SourceId, offset: nat)
    requires offset < TWO_32
    ensures SourceOf(New(id, 0)) < TWO_32
    ensures Add(New(id, 0), offset) == New(id, offset)
  {
    assert (0 + offset) % TWO_32 == offset;
    AddMovesIndex(id, 0, offset);
  }

  /** Subtraction undoes addition, also across the 32-bit wrap-around. */
  lemma SubUndoesAdd(p: nat, rhs: nat)
    requires p < TWO_64 && SourceOf(p) < UNKNOWN_SOURCE_ID
    ensures SourceOf(Add(p, rhs)) < TWO_32
    ensures Sub(Add(p, rhs), rhs) == p
  {
    UnpackPack(p);
    var i := IndexOf(p);
    var j := (i + rhs) % TWO_32;
    PackUnpack(SourceOf(p), j);
    WrapBack(i, rhs);
  }

  lemma WrapBack(i: nat, rhs: nat)
    requires i < TWO_32
    ensures ((i + rhs) % TWO_32 - rhs) % TWO_32 == i
  {
    var q := (i + rhs) / TWO_32;
    DivModUnique((i + rhs) % TWO_32 - rhs, TWO_32, -q, i);
  }
}
