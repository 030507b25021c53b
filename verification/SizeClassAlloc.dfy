/**
  `SizeClassAlloc` of `liblumen_alloc/src/size_class_alloc.rs`: a list of slab
  carriers per size class, and blocks that find their carrier by masking.
 */
module SizeClassAllocs {
  import opened Bits
  import opened Wrappers
  import opened Memory
  import opened SizeClasses
  import opened Slabs

  // ---------- Masks (`liblumen_alloc/src/carriers.rs`) ----------

  const CARRIER_MASK: nat := TWO_64 - CARRIER_SIZE

  function SuperalignDown(addr: nat): nat {
    And(addr, CARRIER_MASK)
  }

  /** `addr + !MASK` is a 64-bit addition. */
  function SuperalignUp(addr: nat): nat {
    SuperalignDown((addr + (TWO_64 - 1 - CARRIER_MASK)) % TWO_64)
  }

  lemma SuperalignDownValue(addr: nat)
    requires addr < TWO_64
    ensures SuperalignDown(addr) == addr - addr % CARRIER_SIZE
  {
    WordSizes();
    assert Pow2(9) == 512;
    Pow2Add(9, 9);
    AndHigh(addr, 18, 64);
  }

  /** From a carrier's start, masking leads back to it exactly up to the carrier's size. */
  lemma MaskFindsCarrier(base: nat, offset: nat)
    requires base % CARRIER_SIZE == 0 && base + offset < TWO_64
    ensures SuperalignDown(base + offset) == base <==> offset < CARRIER_SIZE
  {
    SuperalignDownValue(base + offset);
    if offset < CARRIER_SIZE {
      DivModUnique(base + offset, CARRIER_SIZE, base / CARRIER_SIZE, offset);
    }
  }

  /** The least super-aligned address not below `addr`, when there is one. */
  lemma SuperalignUpSpec(addr: nat)
    requires addr <= TWO_64 - CARRIER_SIZE
    ensures var r := SuperalignUp(addr);
      r % CARRIER_SIZE == 0 && addr <= r < addr + CARRIER_SIZE
  {
    var a := addr + CARRIER_SIZE - 1;
    SuperalignDownValue(a);
    DivModUnique(a - a % CARRIER_SIZE, CARRIER_SIZE, a / CARRIER_SIZE, 0);
  }

  // ---------- The state of the allocator ----------

  /** A block handed out: where it lies, how many bytes were asked for, and how many it has. */
  datatype Block = Block(carrier: nat, index: nat, size: nat, len: nat)

  /** Carriers are super-aligned. */
  ghost predicate Carriers(slabs: map<nat, Slab>) {
    forall a :: a in slabs ==> slabs[a].Valid() && slabs[a].base == a && Mappable(a)
  }

  /** Addresses at which a carrier can be mapped: not the first ones, and not the last. */
  predicate Mappable(a: nat) {
    0 < a && a % CARRIER_SIZE == 0 && a + CARRIER_SIZE < TWO_64
  }

  /** What a caller can tell from an address: that it is not in the preamble of a carrier. */
  predicate Starts(p: nat) {
    p % CARRIER_SIZE >= PREAMBLE
  }

  /** And that the block ends where its carrier ends, or before. */
  predicate Inside(p: nat, len: nat) {
    Starts(p) && p % CARRIER_SIZE + len <= CARRIER_SIZE
  }

  /** The carriers listed under a class hold blocks of that class. */
  ghost predicate Listed(classes: seq<SizeClass>, carriers: seq<seq<nat>>, slabs: map<nat, Slab>) {
    && |carriers| == |classes|
    && forall k, n :: 0 <= k < |carriers| && 0 <= n < |carriers[k]| ==>
         carriers[k][n] in slabs && slabs[carriers[k][n]].block == ToBytes(classes[k])
  }

  /** A record describes a taken block of the class that its size asks for. */
  ghost predicate Describes(classes: seq<SizeClass>, slabs: map<nat, Slab>, p: nat, b: Block)
    requires Carriers(slabs)
  {
    && b.carrier in slabs
    && b.index < slabs[b.carrier].Capacity() && slabs[b.carrier].Taken(b.index)
    && p == slabs[b.carrier].Addr(b.index)
    && b.len == slabs[b.carrier].block
    && ClassFor(classes, b.size).Some? && ToBytes(ClassFor(classes, b.size).value) == b.len
  }

  ghost predicate Recorded(live: map<nat, Block>, p: nat, carrier: nat, index: nat) {
    p in live && live[p].carrier == carrier && live[p].index == index
  }

  /** The live blocks are exactly the taken blocks of all carriers. */
  ghost predicate Tracks(classes: seq<SizeClass>, slabs: map<nat, Slab>, live: map<nat, Block>)
    requires Carriers(slabs)
  {
    && (forall p :: p in live ==> Describes(classes, slabs, p, live[p]))
    && (forall a, i :: a in slabs && 0 <= i < slabs[a].Capacity() && slabs[a].Taken(i) ==>
          Recorded(live, slabs[a].Addr(i), a, i))
  }

  // ---------- Blocks and carriers in memory ----------

  /** A block starts after its carrier's preamble, and ends before that of the next carrier does. */
  lemma BlockBounds(s: Slab, i: nat)
    requires s.Valid() && i < s.Capacity()
    ensures s.base + PREAMBLE < s.Addr(i) && s.Addr(i) + s.block <= s.base + CARRIER_SIZE + PREAMBLE
    ensures Fits(s.block) ==> s.Addr(i) + s.block <= s.base + CARRIER_SIZE
    ensures StartsInside(s.block) ==> s.Addr(i) < s.base + CARRIER_SIZE
  {
    ElemsApart(Head(s.blockLen), i, s.Capacity(), s.block);
    if i > 0 { ElemsApart(Head(s.blockLen), 0, i, s.block); }
    LastBlockEnds(s.block);
  }

  lemma AddressTells(base: nat, p: nat, len: nat)
    requires Mappable(base) && base + PREAMBLE <= p && len > 0 && p + len <= base + CARRIER_SIZE + PREAMBLE
    ensures Starts(p) <==> p < base + CARRIER_SIZE
    ensures Inside(p, len) <==> p + len <= base + CARRIER_SIZE
    ensures Starts(p) <==> SuperalignDown(p) == base
  {
    var offset := p - base;
    MaskFindsCarrier(base, offset);
    if offset < CARRIER_SIZE {
      DivModUnique(p, CARRIER_SIZE, base / CARRIER_SIZE, offset);
    } else {
      DivModUnique(p, CARRIER_SIZE, base / CARRIER_SIZE + 1, offset - CARRIER_SIZE);
    }
  }

  /** The tests on an address are exact: they tell where the block lies, and whether masking finds its carrier. */
  lemma BlockInCarrier(s: Slab, i: nat)
    requires s.Valid() && Mappable(s.base) && i < s.Capacity()
    ensures var p := s.Addr(i);
      && (Starts(p) <==> p < s.base + CARRIER_SIZE) && (Starts(p) <==> SuperalignDown(p) == s.base)
      && (Inside(p, s.block) <==> p + s.block <= s.base + CARRIER_SIZE)
  {
    BlockBounds(s, i);
    AddressTells(s.base, s.Addr(i), s.block);
  }

  /** When the block size fits, all blocks pass the tests. */
  lemma FittingBlocksInside(s: Slab, i: nat)
    requires s.Valid() && Mappable(s.base) && i < s.Capacity()
    ensures Fits(s.block) ==> Inside(s.Addr(i), s.block)
    ensures StartsInside(s.block) ==> Starts(s.Addr(i))
  {
    BlockBounds(s, i);
    BlockInCarrier(s, i);
  }

  /** When it does not, the last block reaches into the carrier mapped next, and fails the test. */
  lemma LastBlockOverruns(s: Slab)
    requires s.Valid() && Mappable(s.base) && s.Capacity() > 0
    ensures var p := s.Addr(s.Capacity() - 1);
      && (!Fits(s.block) ==> p + s.block > s.base + CARRIER_SIZE && !Inside(p, s.block))
      && (!StartsInside(s.block) ==> SuperalignDown(p) != s.base && !Starts(p))
  {
    LastBlockEnds(s.block);
    BlockInCarrier(s, s.Capacity() - 1);
  }

  /** Different carriers do not overlap. */
  lemma CarriersApart(a: nat, b: nat)
    requires Mappable(a) && Mappable(b) && a < b
    ensures a + CARRIER_SIZE <= b
  {
  }

  /** Any two blocks of the allocator are the same block, or do not overlap, even if they overrun their carriers. */
  lemma BlocksApart(s: Slab, i: nat, t: Slab, j: nat)
    requires s.Valid() && Mappable(s.base) && i < s.Capacity()
    requires t.Valid() && Mappable(t.base) && j < t.Capacity()
    requires s.base == t.base ==> s.block == t.block
    ensures (s.base == t.base && i == j) || s.Addr(i) + s.block <= t.Addr(j) || t.Addr(j) + t.block <= s.Addr(i)
  {
    BlockBounds(s, i);
    BlockBounds(t, j);
    if s.base < t.base {
      CarriersApart(s.base, t.base);
    } else if t.base < s.base {
      CarriersApart(t.base, s.base);
    } else if i < j {
      ElemsApart(Head(s.blockLen), i, j, s.block);
    } else if j < i {
      ElemsApart(Head(s.blockLen), j, i, s.block);
    }
  }

  /** Live blocks are pairwise disjoint, to their full block size. */
  lemma {:induction false} LiveBlocksApart(classes: seq<SizeClass>, slabs: map<nat, Slab>, live: map<nat, Block>,
      p: nat, q: nat)
    requires Carriers(slabs) && Tracks(classes, slabs, live) && p in live && q in live && p != q
    ensures p + live[p].len <= q || q + live[q].len <= p
  {
    assert Describes(classes, slabs, p, live[p]) && Describes(classes, slabs, q, live[q]);
    BlocksApart(slabs[live[p].carrier], live[p].index, slabs[live[q].carrier], live[q].index);
  }

  /** Masking the address of a live block yields the carrier that issued it, unless the block starts past it. */
  lemma {:induction false} OwnerByMask(classes: seq<SizeClass>, slabs: map<nat, Slab>, live: map<nat, Block>, p: nat)
    requires Carriers(slabs) && Tracks(classes, slabs, live) && p in live
    ensures SuperalignDown(p) == live[p].carrier <==> Starts(p)
  {
    assert Describes(classes, slabs, p, live[p]);
    BlockInCarrier(slabs[live[p].carrier], live[p].index);
  }

  /** A live block passes the test on its address when its class fits. */
  lemma {:induction false} LiveInside(classes: seq<SizeClass>, slabs: map<nat, Slab>, live: map<nat, Block>, p: nat)
    requires Carriers(slabs) && Tracks(classes, slabs, live) && p in live && live[p].len > 0
    ensures Fits(live[p].len) ==> Inside(p, live[p].len)
    ensures StartsInside(live[p].len) ==> Starts(p)
  {
    assert Describes(classes, slabs, p, live[p]);
    FittingBlocksInside(slabs[live[p].carrier], live[p].index);
  }

  /** The listed carriers have no free block. */
  ghost predicate Full(slabs: map<nat, Slab>, list: seq<nat>) {
    forall n :: 0 <= n < |list| ==> list[n] in slabs && slabs[list[n]].Valid() && AllTaken(slabs[list[n]])
  }

  ghost predicate AllTaken(s: Slab)
    requires s.Valid()
  {
    forall i :: 0 <= i < s.Capacity() ==> s.Taken(i)
  }

  // ---------- Which block is handed out ----------

  /** The address of block `i` of a carrier at `a`. */
  function BlockAt(a: nat, block: nat, i: nat): nat
    requires block > 0
  {
    a + BlockOffset(block, CarrierBlockLen(block), i)
  }

  /** The first block of a carrier, from the `i`-th on, that is not taken. */
  function FreeIn(a: nat, block: nat, taken: set<nat>, i: nat): Option<nat>
    requires block > 0
    decreases Allocatable(CarrierBlockLen(block)) - i
  {
    if i >= Allocatable(CarrierBlockLen(block)) then None
    else if BlockAt(a, block, i) !in taken then Some(BlockAt(a, block, i))
    else FreeIn(a, block, taken, i + 1)
  }

  /** The first free block of the first listed carrier that has one. */
  function FreeInList(list: seq<nat>, block: nat, taken: set<nat>): Option<nat>
    requires block > 0
  {
    if list == [] then None
    else
      var p := FreeIn(list[0], block, taken, 0);
      if p.Some? then p else FreeInList(list[1..], block, taken)
  }

  /** The lists of carriers and the carriers in memory after a request, and its answer with its length. */
  datatype Picked = Picked(carriers: seq<seq<nat>>, keys: set<nat>, block: Option<(nat, nat)>)

  /**
    `allocate` on values: the first free block of the class, or the first block of
    a new carrier in front of the others.
   */
  function Pick(classes: seq<SizeClass>, carriers: seq<seq<nat>>, keys: set<nat>, taken: set<nat>, size: nat,
                mapped: Option<nat>): Picked
  {
    var k := Position(classes, size);
    if k.None? || k.value >= |classes| || k.value >= |carriers| || classes[k.value] == 0 then
      Picked(carriers, keys, None)
    else
      var block := ToBytes(classes[k.value]);
      var p := FreeInList(carriers[k.value], block, taken);
      if p.Some? then Picked(carriers, keys, Some((p.value, block)))
      else if mapped.None? then Picked(carriers, keys, None)
      else Picked(carriers[k.value := [mapped.value] + carriers[k.value]], keys + {mapped.value},
                  Some((BlockAt(mapped.value, block, 0), block)))
  }

  /** `p` is a block of a carrier of `keys`, and all blocks before it are taken. */
  ghost predicate FirstFree(keys: set<nat>, taken: set<nat>, p: nat, block: nat) {
    exists a, i :: a in keys && IsFirstFree(a, i, taken, p, block)
  }

  ghost predicate IsFirstFree(a: nat, i: nat, taken: set<nat>, p: nat, block: nat) {
    && block > 0 && i < Allocatable(CarrierBlockLen(block)) && p == BlockAt(a, block, i) && p !in taken
    && forall j :: 0 <= j < i ==> BlockAt(a, block, j) in taken
  }

  lemma {:induction false} FreeInSpec(a: nat, block: nat, taken: set<nat>, i: nat) returns (m: nat)
    requires block > 0 && forall j :: 0 <= j < i ==> BlockAt(a, block, j) in taken
    ensures var p := FreeIn(a, block, taken, i);
      if p.Some? then IsFirstFree(a, m, taken, p.value, block)
      else forall j :: 0 <= j < Allocatable(CarrierBlockLen(block)) ==> BlockAt(a, block, j) in taken
    decreases Allocatable(CarrierBlockLen(block)) - i
  {
    if i < Allocatable(CarrierBlockLen(block)) && BlockAt(a, block, i) in taken {
      m := FreeInSpec(a, block, taken, i + 1);
    } else {
      m := i;
    }
  }

  /** The first free block is determined by being free and having none before it. */
  lemma {:induction false} FreeInIs(a: nat, block: nat, taken: set<nat>, i: nat, m: nat)
    requires block > 0 && i <= m && IsFirstFree(a, m, taken, BlockAt(a, block, m), block)
    ensures FreeIn(a, block, taken, i) == Some(BlockAt(a, block, m))
    decreases m - i
  {
    if i < m { FreeInIs(a, block, taken, i + 1, m); }
  }

  lemma {:induction false} FreeInNone(a: nat, block: nat, taken: set<nat>, i: nat)
    requires block > 0 && forall j :: i <= j < Allocatable(CarrierBlockLen(block)) ==> BlockAt(a, block, j) in taken
    ensures FreeIn(a, block, taken, i) == None
    decreases Allocatable(CarrierBlockLen(block)) - i
  {
    if i < Allocatable(CarrierBlockLen(block)) { FreeInNone(a, block, taken, i + 1); }
  }

  lemma {:induction false} FreeInListSpec(list: seq<nat>, block: nat, taken: set<nat>, keys: set<nat>)
    requires block > 0 && forall n :: 0 <= n < |list| ==> list[n] in keys
    ensures FreeInList(list, block, taken).Some? ==> FirstFree(keys, taken, FreeInList(list, block, taken).value, block)
  {
    if list != [] {
      var m := FreeInSpec(list[0], block, taken, 0);
      FreeInListSpec(list[1..], block, taken, keys);
    }
  }

  /** Whatever answers a request is the first free block of some carrier. */
  lemma {:induction false} PickSpec(classes: seq<SizeClass>, carriers: seq<seq<nat>>, taken: set<nat>, keys: set<nat>,
                                    size: nat, mapped: Option<nat>)
    requires forall k, n :: 0 <= k < |carriers| && 0 <= n < |carriers[k]| ==> carriers[k][n] in keys
    requires forall k :: 0 <= k < |classes| ==>
      Usable(classes[k]) && (mapped.Some? ==> BlockAt(mapped.value, ToBytes(classes[k]), 0) !in taken)
    ensures var pick := Pick(classes, carriers, keys, taken, size, mapped);
      && (pick.block.Some? ==> FirstFree(pick.keys, taken, pick.block.value.0, pick.block.value.1))
      && forall a :: a in pick.keys <==> a in keys || (pick.keys != keys && mapped == Some(a))
  {
    var k := Position(classes, size);
    if k.Some? && k.value < |classes| && k.value < |carriers| {
      var block := ToBytes(classes[k.value]);
      FreeInListSpec(carriers[k.value], block, taken, keys);
      if mapped.Some? {
        InitSlabIsFree(mapped.value, block);
        assert IsFirstFree(mapped.value, 0, taken, BlockAt(mapped.value, block, 0), block);
      }
    }
  }

  /** In an allocator in order, a block is taken exactly when it is live. */
  lemma {:induction false} TakenIsLive(classes: seq<SizeClass>, slabs: map<nat, Slab>, live: map<nat, Block>,
                                       a: nat, i: nat)
    requires Carriers(slabs) && Tracks(classes, slabs, live) && a in slabs && i < slabs[a].Capacity()
    ensures slabs[a].Addr(i) == BlockAt(a, slabs[a].block, i)
    ensures slabs[a].Taken(i) <==> slabs[a].Addr(i) in live
  {
    if slabs[a].Taken(i) {
      assert Recorded(live, slabs[a].Addr(i), a, i);
    } else {
      FreeIsNew(classes, slabs, live, a, i);
    }
  }

  /** The first free block of a carrier, by bits and by addresses. */
  lemma {:induction false} FreeInSlab(classes: seq<SizeClass>, slabs: map<nat, Slab>, live: map<nat, Block>,
                                      a: nat, i: nat, r: Option<nat>)
    requires Carriers(slabs) && Tracks(classes, slabs, live) && a in slabs
    requires r.None? ==> AllTaken(slabs[a])
    requires r.Some? ==>
      && i < slabs[a].Capacity() && !slabs[a].Taken(i) && r.value == slabs[a].Addr(i)
      && forall j :: 0 <= j < i ==> slabs[a].Taken(j)
    ensures FreeIn(a, slabs[a].block, live.Keys, 0) == r
  {
    var s := slabs[a];
    forall j | 0 <= j < s.Capacity()
      ensures s.Addr(j) == BlockAt(a, s.block, j) && (s.Taken(j) <==> BlockAt(a, s.block, j) in live)
    {
      TakenIsLive(classes, slabs, live, a, j);
    }
    if r.Some? {
      FreeInIs(a, s.block, live.Keys, 0, i);
    } else {
      FreeInNone(a, s.block, live.Keys, 0);
    }
  }

  lemma {:induction false} FreeInListNone(list: seq<nat>, block: nat, taken: set<nat>)
    requires block > 0
    ensures FreeInList(list, block, taken).None? <==>
      forall n :: 0 <= n < |list| ==> FreeIn(list[n], block, taken, 0).None?
  {
    if list != [] {
      FreeInListNone(list[1..], block, taken);
      assert forall n :: 0 < n < |list| ==> list[n] == list[1..][n - 1];
    }
  }

  /** Every block of the listed carriers is taken. */
  ghost predicate AllHeld(list: seq<nat>, block: nat, taken: set<nat>)
    requires block > 0
  {
    forall n, j :: 0 <= n < |list| && 0 <= j < Allocatable(CarrierBlockLen(block)) ==>
      BlockAt(list[n], block, j) in taken
  }

  lemma {:induction false} NoneFree(list: seq<nat>, block: nat, taken: set<nat>)
    requires block > 0
    ensures FreeInList(list, block, taken).None? <==> AllHeld(list, block, taken)
  {
    FreeInListNone(list, block, taken);
    forall n | 0 <= n < |list|
      ensures FreeIn(list[n], block, taken, 0).None? <==>
        forall j :: 0 <= j < Allocatable(CarrierBlockLen(block)) ==> BlockAt(list[n], block, j) in taken
    {
      var m := FreeInSpec(list[n], block, taken, 0);
    }
  }

  /** The block found in a list is the first free one of its carrier, and all carriers listed before are full. */
  lemma {:induction false} FirstInList(list: seq<nat>, block: nat, taken: set<nat>) returns (n: nat, i: nat)
    requires block > 0 && FreeInList(list, block, taken).Some?
    ensures n < |list| && AllHeld(list[..n], block, taken)
    ensures IsFirstFree(list[n], i, taken, FreeInList(list, block, taken).value, block)
  {
    i := FreeInSpec(list[0], block, taken, 0);
    n := 0;
    if FreeIn(list[0], block, taken, 0).None? {
      n, i := FirstInList(list[1..], block, taken);
      n := n + 1;
      assert list[..n] == [list[0]] + list[1..][..n - 1];
    }
  }

  /** No free block is found exactly when the listed carriers are full. */
  lemma {:induction false} FullIff(classes: seq<SizeClass>, slabs: map<nat, Slab>, live: map<nat, Block>,
                                   list: seq<nat>, block: nat)
    requires Carriers(slabs) && Tracks(classes, slabs, live) && block > 0
    requires forall n :: 0 <= n < |list| ==> list[n] in slabs && slabs[list[n]].block == block
    ensures FreeInList(list, block, live.Keys).None? <==> Full(slabs, list)
  {
    FreeInListNone(list, block, live.Keys);
    forall n | 0 <= n < |list|
      ensures FreeIn(list[n], block, live.Keys, 0).None? <==> AllTaken(slabs[list[n]])
    {
      AllTakenIff(classes, slabs, live, list[n]);
    }
  }

  lemma {:induction false} AllTakenIff(classes: seq<SizeClass>, slabs: map<nat, Slab>, live: map<nat, Block>, a: nat)
    requires Carriers(slabs) && Tracks(classes, slabs, live) && a in slabs
    ensures FreeIn(a, slabs[a].block, live.Keys, 0).None? <==> AllTaken(slabs[a])
  {
    if AllTaken(slabs[a]) {
      FreeInSlab(classes, slabs, live, a, 0, None);
    } else {
      var i := FirstClear(slabs[a], 0);
      FreeInSlab(classes, slabs, live, a, i, Some(slabs[a].Addr(i)));
    }
  }

  lemma {:induction false} FirstClear(s: Slab, i: nat) returns (m: nat)
    requires s.Valid() && i <= s.Capacity() && !AllTaken(s) && forall j :: 0 <= j < i ==> s.Taken(j)
    ensures m < s.Capacity() && !s.Taken(m) && forall j :: 0 <= j < m ==> s.Taken(j)
    decreases s.Capacity() - i
  {
    if s.Taken(i) {
      m := FirstClear(s, i + 1);
    } else {
      m := i;
    }
  }

  /** A block of a carrier that is not in memory is not live. */
  lemma {:induction false} UnmappedIsNew(classes: seq<SizeClass>, slabs: map<nat, Slab>, live: map<nat, Block>,
                                         a: nat, block: nat)
    requires Carriers(slabs) && Tracks(classes, slabs, live) && a !in slabs && Mappable(a)
    requires block > 0 && CarrierBlockLen(block) > 1
    ensures BlockAt(a, block, 0) !in live
  {
    InitSlabIsFree(a, block);
    MapKeeps(classes, slabs, live, a, block);
    TakenIsLive(classes, slabs[a := InitSlab(a, block)], live, a, 0);
  }

  // ---------- Steps ----------

  /** One block of one carrier changes hands. */
  lemma {:induction false} FlipCarriers(slabs: map<nat, Slab>, a: nat, i: nat, after: Slab, taken: bool)
    requires Carriers(slabs) && a in slabs && i < slabs[a].Capacity() && Flipped(slabs[a], after, i, taken)
    ensures Carriers(slabs[a := after])
  {
  }

  /** The records of all other blocks stay right. */
  lemma {:induction false} FlipDescribes(classes: seq<SizeClass>, slabs: map<nat, Slab>, a: nat, i: nat,
      after: Slab, taken: bool, p: nat, b: Block)
    requires Carriers(slabs) && a in slabs && i < slabs[a].Capacity() && Flipped(slabs[a], after, i, taken)
    requires Describes(classes, slabs, p, b) && (b.carrier != a || b.index != i)
    ensures Carriers(slabs[a := after]) && Describes(classes, slabs[a := after], p, b)
  {
    FlipCarriers(slabs, a, i, after, taken);
  }

  lemma {:induction false} FlipRecorded(classes: seq<SizeClass>, slabs: map<nat, Slab>, live: map<nat, Block>,
                                        a: nat, i: nat, after: Slab, taken: bool, c: nat, j: nat)
    requires Carriers(slabs) && Tracks(classes, slabs, live)
    requires a in slabs && i < slabs[a].Capacity() && Flipped(slabs[a], after, i, taken)
    requires c in slabs && j < slabs[c].Capacity() && (c != a || j != i)
    requires Carriers(slabs[a := after]) && slabs[a := after][c].Taken(j)
    ensures Recorded(live, slabs[a := after][c].Addr(j), c, j)
  {
    assert slabs[c].Taken(j);
    assert slabs[a := after][c].Addr(j) == slabs[c].Addr(j);
  }

  /** A free block is not yet recorded. */
  lemma {:induction false} FreeIsNew(classes: seq<SizeClass>, slabs: map<nat, Slab>, live: map<nat, Block>, a: nat,
                                     i: nat)
    requires Carriers(slabs) && Tracks(classes, slabs, live)
    requires a in slabs && i < slabs[a].Capacity() && !slabs[a].Taken(i)
    ensures slabs[a].Addr(i) !in live
  {
    var p := slabs[a].Addr(i);
    if p in live {
      assert Describes(classes, slabs, p, live[p]);
      BlocksApart(slabs[live[p].carrier], live[p].index, slabs[a], i);
    }
  }

  lemma {:induction false} TakeKeeps(classes: seq<SizeClass>, slabs: map<nat, Slab>, live: map<nat, Block>, a: nat,
                                     i: nat, after: Slab, size: nat)
    requires Carriers(slabs) && Tracks(classes, slabs, live) && a in slabs
    requires i < slabs[a].Capacity() && !slabs[a].Taken(i) && Flipped(slabs[a], after, i, true)
    requires ClassFor(classes, size).Some? && ToBytes(ClassFor(classes, size).value) == slabs[a].block
    ensures slabs[a].Addr(i) !in live
    ensures Carriers(slabs[a := after])
    ensures Tracks(classes, slabs[a := after], live[slabs[a].Addr(i) := Block(a, i, size, slabs[a].block)])
  {
    var p, slabs' := slabs[a].Addr(i), slabs[a := after];
    var live' := live[p := Block(a, i, size, slabs[a].block)];
    FreeIsNew(classes, slabs, live, a, i);
    FlipCarriers(slabs, a, i, after, true);
    forall q | q in live'
      ensures Describes(classes, slabs', q, live'[q])
    {
      if q != p {
        assert Describes(classes, slabs, q, live[q]);
        FlipDescribes(classes, slabs, a, i, after, true, q, live[q]);
      }
    }
    forall c, j | c in slabs' && 0 <= j < slabs'[c].Capacity() && slabs'[c].Taken(j)
      ensures Recorded(live', slabs'[c].Addr(j), c, j)
    {
      if c != a || j != i { FlipRecorded(classes, slabs, live, a, i, after, true, c, j); }
    }
  }

  lemma {:induction false} FreeKeeps(classes: seq<SizeClass>, slabs: map<nat, Slab>, live: map<nat, Block>, p: nat,
                                     after: Slab)
    requires Carriers(slabs) && Tracks(classes, slabs, live) && p in live
    requires live[p].carrier in slabs && live[p].index < slabs[live[p].carrier].Capacity()
    requires Flipped(slabs[live[p].carrier], after, live[p].index, false)
    ensures Carriers(slabs[live[p].carrier := after])
    ensures Tracks(classes, slabs[live[p].carrier := after], live - {p})
  {
    var a, i := live[p].carrier, live[p].index;
    var slabs', live' := slabs[a := after], live - {p};
    assert Describes(classes, slabs, p, live[p]);
    FlipCarriers(slabs, a, i, after, false);
    forall q | q in live'
      ensures Describes(classes, slabs', q, live'[q])
    {
      assert Describes(classes, slabs, q, live[q]);
      FlipDescribes(classes, slabs, a, i, after, false, q, live[q]);
    }
    forall c, j | c in slabs' && 0 <= j < slabs'[c].Capacity() && slabs'[c].Taken(j)
      ensures Recorded(live', slabs'[c].Addr(j), c, j)
    {
      FlipRecorded(classes, slabs, live, a, i, after, false, c, j);
    }
  }

  lemma {:induction false} MapKeeps(classes: seq<SizeClass>, slabs: map<nat, Slab>, live: map<nat, Block>, a: nat,
                                    block: nat)
    requires Carriers(slabs) && Tracks(classes, slabs, live)
    requires Mappable(a) && a !in slabs && block > 0 && CarrierBlockLen(block) > 1
    ensures Carriers(slabs[a := InitSlab(a, block)])
    ensures Tracks(classes, slabs[a := InitSlab(a, block)], live)
  {
    InitSlabIsFree(a, block);
    var slabs' := slabs[a := InitSlab(a, block)];
    forall q | q in live
      ensures Describes(classes, slabs', q, live[q])
    {
      assert Describes(classes, slabs, q, live[q]);
    }
    forall c, j | c in slabs' && 0 <= j < slabs'[c].Capacity() && slabs'[c].Taken(j)
      ensures Recorded(live, slabs'[c].Addr(j), c, j)
    {
      assert c != a;
      assert slabs[c].Taken(j);
    }
  }

  // ---------- Sorting the classes ----------

  function Insert(c: SizeClass, cs: seq<SizeClass>): seq<SizeClass> {
    if cs == [] || c <= cs[0] then [c] + cs else [cs[0]] + Insert(c, cs[1..])
  }

  function SortClasses(cs: seq<SizeClass>): seq<SizeClass> {
    if cs == [] then [] else Insert(cs[0], SortClasses(cs[1..]))
  }

  lemma {:induction false} InsertPermutes(c: SizeClass, cs: seq<SizeClass>)
    ensures multiset(Insert(c, cs)) == multiset(cs) + multiset{c}
  {
    if cs != [] && c > cs[0] {
      InsertPermutes(c, cs[1..]);
      assert cs == [cs[0]] + cs[1..];
    }
  }

  lemma {:induction false} InsertSorts(c: SizeClass, cs: seq<SizeClass>)
    requires Sorted(cs)
    ensures Sorted(Insert(c, cs))
    ensures Insert(c, cs)[0] == if cs == [] || c <= cs[0] then c else cs[0]
  {
    if cs != [] && c > cs[0] {
      InsertSorts(c, cs[1..]);
      var t := Insert(c, cs[1..]);
      assert cs[0] <= t[0];
    }
  }

  lemma {:induction false} SortSpec(cs: seq<SizeClass>)
    ensures Sorted(SortClasses(cs)) && multiset(SortClasses(cs)) == multiset(cs)
  {
    if cs != [] {
      SortSpec(cs[1..]);
      InsertPermutes(cs[0], SortClasses(cs[1..]));
      InsertSorts(cs[0], SortClasses(cs[1..]));
      assert cs == [cs[0]] + cs[1..];
    }
  }

  lemma SortedInput(input: seq<SizeClass>)
    requires forall k :: 0 <= k < |input| ==> Usable(input[k])
    ensures var cs := SortClasses(input);
      |cs| == |input| && Sorted(cs) && forall k :: 0 <= k < |cs| ==> Usable(cs[k])
  {
    SortSpec(input);
    var cs := SortClasses(input);
    assert |multiset(cs)| == |multiset(input)|;
    forall k | 0 <= k < |cs|
      ensures Usable(cs[k])
    {
      assert cs[k] in multiset(cs);
    }
  }

  /** A class for which `new` does not panic. */
  predicate Usable(c: SizeClass) {
    c > 0 && CarrierBlockLen(ToBytes(c)) > 1
  }

  /** The length of the block that a request of this size gets. */
  function Len(classes: seq<SizeClass>, size: nat): nat {
    var c := ClassFor(classes, size);
    if c.Some? then ToBytes(c.value) else 0
  }

  predicate SameClass(classes: seq<SizeClass>, size: nat, other: nat) {
    ClassFor(classes, size) == ClassFor(classes, other)
  }

  /** `p` is a new live block, and nothing else changed. */
  ghost predicate Added(before: map<nat, Block>, after: map<nat, Block>, p: nat, size: nat, len: nat) {
    p !in before && p in after && after[p].size == size && after[p].len == len && after == before[p := after[p]]
  }

  predicate IsClassTable(cs: seq<SizeClass>) {
    cs != [] && Sorted(cs) && forall k :: 0 <= k < |cs| ==> Usable(cs[k])
  }

  /** The classes of an allocator: sorted, and each one usable. */
  type ClassTable = cs: seq<SizeClass> | IsClassTable(cs) witness [8190]

  // ---------- The allocator ----------

  class SizeClassAlloc {
    const classes: ClassTable
    const maxClass: SizeClass
    /** Whether freed blocks are overwritten, as in debug builds. */
    const debug: bool
    /** For each class, the addresses of its carriers; and the carriers in memory. */
    var carriers: seq<seq<nat>>
    var slabs: map<nat, Slab>
    /** The bytes of the blocks. */
    var mem: map<nat, Byte>
    ghost var live: map<nat, Block>

    ghost predicate Valid()
      reads `carriers, `slabs, `live
    {
      && maxClass == classes[|classes| - 1]
      && Carriers(slabs) && Listed(classes, carriers, slabs) && Tracks(classes, slabs, live)
    }

    /** `new`: one empty carrier for each class. */
    constructor (input: seq<SizeClass>, maps: seq<nat>, debug: bool)
      requires input != [] && forall k :: 0 <= k < |input| ==> Usable(input[k])
      requires |maps| == |input| && forall k :: 0 <= k < |maps| ==> Mappable(maps[k])
      requires forall j, k :: 0 <= j < k < |maps| ==> maps[j] != maps[k]
      ensures Valid() && live == map[] && classes == SortClasses(input) && this.debug == debug && mem == map[]
      ensures forall a :: a in slabs ==> a in maps
      ensures |carriers| == |maps| && forall k :: 0 <= k < |maps| ==> carriers[k] == [maps[k]]
    {
      SortedInput(input);
      var cs := SortClasses(input);
      classes := cs;
      maxClass := cs[|cs| - 1];
      this.debug := debug;
      var carriers', slabs' := BuildCarriers(cs, maps);
      carriers, slabs, mem, live := carriers', slabs', map[], map[];
    }

    /** Maps one carrier for each class. */
    static method BuildCarriers(cs: seq<SizeClass>, maps: seq<nat>)
        returns (carriers: seq<seq<nat>>, slabs: map<nat, Slab>)
      requires forall k :: 0 <= k < |cs| ==> Usable(cs[k])
      requires |maps| == |cs| && forall k :: 0 <= k < |maps| ==> Mappable(maps[k])
      requires forall j, k :: 0 <= j < k < |maps| ==> maps[j] != maps[k]
      ensures Carriers(slabs) && Listed(cs, carriers, slabs) && Tracks(cs, slabs, map[])
      ensures forall k :: 0 <= k < |cs| ==> carriers[k] == [maps[k]]
      ensures forall a :: a in slabs ==> a in maps
    {
      carriers, slabs := [], map[];
      for n := 0 to |cs|
        invariant |carriers| == n && Carriers(slabs) && Tracks(cs, slabs, map[])
        invariant forall k :: 0 <= k < n ==>
          carriers[k] == [maps[k]] && maps[k] in slabs && slabs[maps[k]].block == ToBytes(cs[k])
        invariant forall a :: a in slabs ==> a in maps[..n]
      {
        MapKeeps(cs, slabs, map[], maps[n], ToBytes(cs[n]));
        slabs := slabs[maps[n] := InitSlab(maps[n], ToBytes(cs[n]))];
        carriers := carriers + [[maps[n]]];
      }
    }

    /** Looks for a free block in the carriers listed under class `k`. */
    method FindInList(k: nat) returns (r: Option<nat>, a: nat, ghost i: nat, after: Slab)
      requires Valid() && k < |classes|
      ensures r == FreeInList(carriers[k], ToBytes(classes[k]), live.Keys)
      ensures r.Some? ==>
        && a in slabs && slabs[a].block == ToBytes(classes[k])
        && i < slabs[a].Capacity() && !slabs[a].Taken(i) && r.value == slabs[a].Addr(i)
        && Flipped(slabs[a], after, i, true)
    {
      var list := carriers[k];
      ghost var block := ToBytes(classes[k]);
      a, i, after := 0, 0, Slab(0, 0, 0, []);
      for n := 0 to |list|
        invariant FreeInList(list[n..], block, live.Keys) == FreeInList(list, block, live.Keys)
      {
        a := list[n];
        assert slabs[a].block == block;
        r, i, after := AllocBlock(slabs[a]);
        FreeInSlab(classes, slabs, live, a, i, r);
        assert list[n..][1..] == list[n + 1..];
        if r.Some? {
          return;
        }
      }
      assert list[|list|..] == [];
      r := None;
    }

    /** Takes the first free block of the carriers listed under class `k`. */
    method TakeFromList(k: nat, size: nat) returns (r: Option<nat>)
      requires Valid() && k < |classes|
      requires ClassFor(classes, size) == Some(classes[k])
      modifies `slabs, `live
      ensures Valid()
      ensures r.None? ==> slabs == old(slabs) && live == old(live)
      ensures r.Some? ==> Added(old(live), live, r.value, size, ToBytes(classes[k]))
      ensures r.None? <==> Full(old(slabs), carriers[k])
      ensures slabs.Keys == old(slabs).Keys
      ensures r == FreeInList(carriers[k], ToBytes(classes[k]), old(live).Keys)
    {
      var a, after;
      ghost var i;
      r, a, i, after := FindInList(k);
      FullIff(classes, slabs, live, carriers[k], ToBytes(classes[k]));
      if r.Some? {
        TakeKeeps(classes, slabs, live, a, i, after, size);
        ListedFlip(classes, carriers, slabs, a, after);
        slabs := slabs[a := after];
        live := live[r.value := Block(a, i, size, slabs[a].block)];
      }
    }

    /** Maps a new carrier for class `k`, in front of its list, and takes its first block. */
    method TakeFromNew(k: nat, size: nat, a: nat) returns (p: nat)
      requires Valid() && k < |classes| && Mappable(a) && a !in slabs
      requires ClassFor(classes, size) == Some(classes[k])
      modifies `carriers, `slabs, `live
      ensures Valid()
      ensures Added(old(live), live, p, size, ToBytes(classes[k]))
      ensures slabs.Keys == old(slabs).Keys + {a} && carriers == old(carriers)[k := [a] + old(carriers)[k]]
      ensures p == BlockAt(a, ToBytes(classes[k]), 0)
    {
      var carrier := InitSlab(a, ToBytes(classes[k]));
      InitSlabIsFree(a, ToBytes(classes[k]));
      var r, i, after := AllocBlock(carrier);
      // the new carrier is empty, so this never fails
      assert !carrier.Taken(0);
      MapKeeps(classes, slabs, live, a, ToBytes(classes[k]));
      TakeKeeps(classes, slabs[a := carrier], live, a, i, after, size);
      p := r.value;
      assert slabs[a := carrier][a := after] == slabs[a := after];
      ListedPush(classes, carriers, slabs, k, a, after);
      slabs := slabs[a := after];
      carriers := carriers[k := [a] + carriers[k]];
      live := live[p := Block(a, i, size, ToBytes(classes[k]))];
    }

    /**
      When `allocate` fails: the request is too large, or the carriers of its
      class are full and none can be mapped.
     */
    ghost predicate Refuses(size: nat, mapped: Option<nat>)
      reads `carriers, `slabs
    {
      || size > ToBytes(maxClass)
      || (&& mapped.None?
          && var k := Position(classes, size);
             k.Some? && k.value < |carriers| && Full(slabs, carriers[k.value]))
    }

    /** `allocate`: a block of the least class that holds `size` bytes. */
    method Allocate(size: nat, mapped: Option<nat>) returns (r: Option<(nat, nat)>)
      requires Valid() && (mapped.Some? ==> Mappable(mapped.value) && mapped.value !in slabs)
      modifies `carriers, `slabs, `live
      ensures Valid()
      ensures size > ToBytes(maxClass) ==> r.None?
      ensures size <= ToBytes(maxClass) && mapped.Some? ==> r.Some?
      ensures r.None? <==> old(Refuses(size, mapped))
      ensures Picked(carriers, slabs.Keys, r)
           == Pick(classes, old(carriers), old(slabs).Keys, old(live).Keys, size, mapped)
      ensures r.None? ==> live == old(live)
      ensures r.Some? ==>
        && Added(old(live), live, r.value.0, size, r.value.1)
        && r.value.1 == Len(classes, size) >= size
        && r.value.1 > 0 && (Fits(r.value.1) ==> Inside(r.value.0, r.value.1))
    {
      if size > ToBytes(maxClass) {
        TooLarge(classes, size);
        return None;
      }
      ClassExists(classes, size);
      var found := SearchClassFor(classes, size);
      var (index, class_) := found.value;
      var p := TakeFromList(index, size);
      if p.None? {
        if mapped.None? {
          return None;
        }
        var q := TakeFromNew(index, size, mapped.value);
        p := Some(q);
      }
      r := Some((p.value, ToBytes(class_)));
      LiveInside(classes, slabs, live, p.value);
    }

    /**
      `deallocate`: the block goes back to the carrier found by masking, which is
      the one that issued it. Debug builds overwrite the block, so it must not
      reach into the next carrier.
     */
    method Deallocate(p: nat)
      requires Valid() && p in live && Starts(p) && (debug ==> Inside(p, live[p].len))
      modifies `slabs, `mem, `live
      ensures Valid() && live == old(live) - {p} && slabs.Keys == old(slabs).Keys
      ensures forall q: nat, n: nat :: q + n <= p || p + old(live)[p].len <= q ==>
        Load(mem, q, n) == Load(old(mem), q, n)
      ensures if debug then Load(mem, p, old(live)[p].len) == seq(old(live)[p].len, _ => 0) else mem == old(mem)
    {
      OwnerByMask(classes, slabs, live, p);
      assert Describes(classes, slabs, p, live[p]);
      var a := SuperalignDown(p);
      if debug {
        Scrub(p, slabs[a].block);
      }
      GiveBack(a, p);
    }

    /** Clears the bit of a block in its carrier. */
    method GiveBack(a: nat, p: nat)
      requires Valid() && p in live && a == live[p].carrier
      modifies `slabs, `live
      ensures Valid() && live == old(live) - {p} && slabs.Keys == old(slabs).Keys
    {
      assert Describes(classes, slabs, p, live[p]);
      var after := FreeBlock(slabs[a], p, live[p].index);
      FreeKeeps(classes, slabs, live, p, after);
      ListedFlip(classes, carriers, slabs, a, after);
      slabs := slabs[a := after];
      live := live - {p};
    }

    /** Overwrites a freed block with the free pattern. */
    method Scrub(p: nat, block: nat)
      modifies `mem
      ensures forall q: nat, n: nat :: q + n <= p || p + block <= q ==> Load(mem, q, n) == Load(old(mem), q, n)
      ensures Load(mem, p, block) == seq(block, _ => 0)
    {
      var zeros: seq<Byte> := seq(block, _ => 0);
      mem := Store(mem, p, zeros);
      forall q: nat, n: nat | q + n <= p || p + block <= q
        ensures Load(mem, q, n) == Load(old(mem), q, n)
      {
        StoreApart(old(mem), p, zeros, q, n);
      }
      StoreThenLoad(old(mem), p, zeros, block);
      assert zeros[..block] == zeros;
    }

    /** What the owner of a block may do with it: overwrite its first bytes. */
    method Write(p: nat, data: seq<Byte>)
      requires Valid() && p in live && Inside(p, live[p].len) && |data| <= live[p].len
      modifies `mem
      ensures Load(mem, p, |data|) == data
      ensures Untouched(live, p, old(mem), mem)
    {
      WriteKeeps(classes, slabs, live, mem, p, data);
      mem := Store(mem, p, data);
    }

    /** `copy_nonoverlapping` between two live blocks, which indeed do not overlap. */
    method Copy(p: nat, q: nat, n: nat)
      requires Valid() && p in live && q in live && p != q && Inside(p, live[p].len) && Inside(q, live[q].len)
      requires n <= live[p].len && n <= live[q].len
      modifies `mem
      ensures p + n <= q || q + n <= p
      ensures Load(mem, q, n) == Load(old(mem), p, n)
      ensures Untouched(live, q, old(mem), mem)
    {
      CopyKeeps(classes, slabs, live, mem, p, q, n);
      mem := Store(mem, q, Load(mem, p, n));
    }

    /** Frees a block without disturbing the bytes of the others. */
    method Release(p: nat)
      requires Valid() && p in live && Inside(p, live[p].len)
      modifies `slabs, `mem, `live
      ensures Valid() && live == old(live) - {p} && slabs.Keys == old(slabs).Keys
      ensures Untouched(old(live), p, old(mem), mem)
    {
      ghost var before := live;
      forall x | x in live && x != p
        ensures x + live[x].len <= p || p + live[p].len <= x
      {
        LiveBlocksApart(classes, slabs, live, x, p);
      }
      Deallocate(p);
    }

    /** Records a new size of the same class. */
    ghost method Resize(p: nat, newSize: nat)
      requires Valid() && p in live
      requires ClassFor(classes, newSize).Some? && ClassFor(classes, newSize) == ClassFor(classes, live[p].size)
      modifies `live
      ensures Valid() && live == old(live)[p := old(live)[p].(size := newSize)]
    {
      RenameKeeps(classes, slabs, live, p, newSize);
      live := live[p := live[p].(size := newSize)];
    }

    /** Copies the first `n` bytes of one live block to another, and frees the first. */
    method Transfer(p: nat, q: nat, n: nat)
      requires Valid() && p in live && q in live && p != q && Inside(p, live[p].len) && Inside(q, live[q].len)
      requires n <= live[p].len && n <= live[q].len
      modifies `slabs, `mem, `live
      ensures Valid() && live == old(live) - {p} && slabs.Keys == old(slabs).Keys
      ensures Transferred(old(live), old(mem), mem, p, q, n)
    {
      Copy(p, q, n);
      ghost var copied := mem;
      Release(p);
      TransferredBy(old(live), old(mem), copied, mem, p, q, n);
    }

    /** Moves a block to the one just allocated for it. */
    method MoveInto(p: nat, q: nat, oldSize: nat, newSize: nat, len: nat, ghost before: map<nat, Block>)
      requires Valid() && p in before && before[p].size == oldSize <= before[p].len
      requires Added(before, live, q, newSize, len) && newSize <= len
      requires Inside(p, before[p].len) && Inside(q, len)
      modifies `slabs, `mem, `live
      ensures Valid() && Moved(before, live, old(mem), mem, p, q, newSize, len) && slabs.Keys == old(slabs).Keys
    {
      ghost var both := live;
      Transfer(p, q, Min(oldSize, len));
      MovedByTransfer(before, both, old(mem), mem, p, q, newSize, len);
    }

    /** The case of `reallocate` in which the class does not change. */
    ghost method Stay(p: nat, newSize: nat)
      requires Valid() && p in live && ClassFor(classes, newSize).Some? && newSize <= Len(classes, newSize)
      requires ClassFor(classes, newSize) == ClassFor(classes, live[p].size)
      modifies `live
      ensures Valid() && Moved(old(live), live, mem, mem, p, p, newSize, newSize)
    {
      assert Describes(classes, slabs, p, live[p]);
      MovedInPlace(live, mem, p, newSize);
      Resize(p, newSize);
    }

    /** The moving case of `reallocate`. */
    method Move(p: nat, oldSize: nat, newSize: nat, mapped: Option<nat>, ghost pick: Picked)
        returns (r: Option<(nat, nat)>)
      requires Valid() && p in live && live[p].size == oldSize && newSize <= ToBytes(maxClass)
      requires oldSize <= live[p].len && Inside(p, live[p].len)
      requires mapped.Some? ==> Mappable(mapped.value) && mapped.value !in slabs
      requires pick == Pick(classes, carriers, slabs.Keys, live.Keys, newSize, mapped)
      modifies this
      ensures r.None? <==> old(Refuses(newSize, mapped))
      ensures Picked(carriers, slabs.Keys, r) == pick
      ensures r.None? ==> Valid() && live == old(live) && mem == old(mem)
      ensures r.Some? ==> r.value.1 == Len(classes, newSize) && r.value.0 !in old(live)
      ensures r.Some? ==> r.value.1 > 0 && (Fits(r.value.1) ==> Inside(r.value.0, r.value.1))
      ensures r.Some? && Inside(r.value.0, r.value.1) ==>
        Valid() && Moved(old(live), live, old(mem), mem, p, r.value.0, newSize, r.value.1)
    {
      r := AllocateFor(newSize, mapped, pick);
      if r.None? {
        return;
      }
      MoveOrSpill(p, r.value.0, oldSize, newSize, r.value.1, old(live), pick);
    }

    /** The same allocation, when it is known what it comes to. */
    method AllocateFor(size: nat, mapped: Option<nat>, ghost pick: Picked) returns (r: Option<(nat, nat)>)
      requires Valid() && size <= ToBytes(maxClass)
      requires mapped.Some? ==> Mappable(mapped.value) && mapped.value !in slabs
      requires pick == Pick(classes, carriers, slabs.Keys, live.Keys, size, mapped)
      modifies `carriers, `slabs, `live
      ensures Valid() && Picked(carriers, slabs.Keys, r) == pick
      ensures mapped.Some? ==> r.Some?
      ensures r.None? <==> old(Refuses(size, mapped))
      ensures r.None? ==> live == old(live)
      ensures r.Some? ==>
        && Added(old(live), live, r.value.0, size, r.value.1)
        && r.value.1 == Len(classes, size) >= size
        && r.value.1 > 0 && (Fits(r.value.1) ==> Inside(r.value.0, r.value.1))
    {
      r := Allocate(size, mapped);
    }

    /** Moves a block to the one just allocated for it, wherever that lies. */
    method MoveOrSpill(p: nat, q: nat, oldSize: nat, newSize: nat, len: nat, ghost before: map<nat, Block>,
                       ghost pick: Picked)
      requires Valid() && p in before && before[p].size == oldSize <= before[p].len
      requires Added(before, live, q, newSize, len) && newSize <= len && Inside(p, before[p].len)
      requires pick == Picked(carriers, slabs.Keys, Some((q, len)))
      modifies `slabs, `mem, `live
      ensures pick == Picked(carriers, slabs.Keys, Some((q, len)))
      ensures Inside(q, len) ==> Valid() && Moved(before, live, old(mem), mem, p, q, newSize, len)
    {
      if Inside(q, len) {
        MoveInto(p, q, oldSize, newSize, len, before);
      } else {
        Spill(p, q, Min(oldSize, len));
      }
    }

    /** The same copy when the new block reaches into the next carrier, of which nothing is promised. */
    method Spill(p: nat, q: nat, n: nat)
      requires Valid() && p in live && Inside(p, live[p].len)
      modifies `slabs, `mem, `live
      ensures slabs.Keys == old(slabs).Keys
    {
      mem := Store(mem, q, Load(mem, p, n));
      Deallocate(p);
    }

    /**
      `reallocate`: the same block when the class does not change; otherwise a
      new block that starts with the old bytes, and the old one is freed.
     */
    method Reallocate(p: nat, oldSize: nat, newSize: nat, mapped: Option<nat>) returns (r: Option<(nat, nat)>)
      requires Valid() && p in live && live[p].size == oldSize && Inside(p, live[p].len)
      requires mapped.Some? ==> Mappable(mapped.value) && mapped.value !in slabs
      modifies this
      ensures newSize > ToBytes(maxClass) ==> r.None?
      ensures newSize <= ToBytes(maxClass) && (mapped.Some? || SameClass(classes, oldSize, newSize)) ==> r.Some?
      ensures r.None? <==>
        newSize > ToBytes(maxClass) || (!SameClass(classes, oldSize, newSize) && old(Refuses(newSize, mapped)))
      ensures newSize <= ToBytes(maxClass) && SameClass(classes, oldSize, newSize) ==>
        r == Some((p, newSize)) && carriers == old(carriers) && slabs == old(slabs)
      ensures newSize > ToBytes(maxClass) || !SameClass(classes, oldSize, newSize) ==>
        Picked(carriers, slabs.Keys, r)
        == Pick(classes, old(carriers), old(slabs).Keys, old(live).Keys, newSize, mapped)
      ensures r.None? ==> Valid() && live == old(live) && mem == old(mem)
      ensures r.Some? && r.value.0 != p ==>
        r.value.1 == Len(classes, newSize) > 0 && (Fits(r.value.1) ==> Inside(r.value.0, r.value.1))
      ensures r.Some? && (r.value.0 == p || Inside(r.value.0, r.value.1)) ==>
        Valid() && Moved(old(live), live, old(mem), mem, p, r.value.0, newSize, r.value.1)
    {
      if newSize > ToBytes(maxClass) {
        TooLarge(classes, newSize);
        return None;
      }
      LiveFits(classes, slabs, live, p);
      ClassExists(classes, newSize);
      var oldClass := SearchClassFor(classes, oldSize);
      var newClass := SearchClassFor(classes, newSize);
      if oldClass.value.1 == newClass.value.1 {
        Stay(p, newSize);
        return Some((p, newSize));
      }
      r := Move(p, oldSize, newSize, mapped, Pick(classes, carriers, slabs.Keys, live.Keys, newSize, mapped));
    }
  }

  /** The blocks of `live` but `p` read the same before and after. */
  ghost predicate Untouched(live: map<nat, Block>, p: nat, before: map<nat, Byte>, after: map<nat, Byte>) {
    forall x :: x in live && x != p ==> Load(after, x, live[x].len) == Load(before, x, live[x].len)
  }

  /**
    Block `p` has become block `q` of `newSize` bytes: it starts with the bytes
    both sizes share, and all other blocks keep theirs.
   */
  ghost predicate Moved(live: map<nat, Block>, live': map<nat, Block>, mem: map<nat, Byte>, mem': map<nat, Byte>,
                        p: nat, q: nat, newSize: nat, len: nat)
    requires p in live
  {
    && q in live' && live'[q].size == newSize <= len <= live'[q].len
    && (if q == p then live'[q].len == live[p].len else q !in live && live'[q].len == len)
    && live' == (live - {p})[q := live'[q]]
    && (forall i :: 0 <= i < live[p].size && i < newSize ==> SameByte(mem', q, mem, p, i))
    && Untouched(live, p, mem, mem')
  }

  /** Writing into a live block leaves the bytes of all other live blocks as they were. */
  lemma {:induction false} WriteKeeps(classes: seq<SizeClass>, slabs: map<nat, Slab>, live: map<nat, Block>,
                                      mem: map<nat, Byte>, q: nat, data: seq<Byte>)
    requires Carriers(slabs) && Tracks(classes, slabs, live) && q in live && |data| <= live[q].len
    ensures Load(Store(mem, q, data), q, |data|) == data
    ensures Untouched(live, q, mem, Store(mem, q, data))
  {
    StoreThenLoad(mem, q, data, |data|);
    assert data[..|data|] == data;
    forall x | x in live && x != q
      ensures Load(Store(mem, q, data), x, live[x].len) == Load(mem, x, live[x].len)
    {
      LiveBlocksApart(classes, slabs, live, x, q);
      StoreApart(mem, q, data, x, live[x].len);
    }
  }

  /** Live blocks do not overlap, so copying from one to another copies its bytes. */
  lemma {:induction false} CopyKeeps(classes: seq<SizeClass>, slabs: map<nat, Slab>, live: map<nat, Block>,
                                     mem: map<nat, Byte>, p: nat, q: nat, n: nat)
    requires Carriers(slabs) && Tracks(classes, slabs, live) && p in live && q in live && p != q
    requires n <= live[p].len && n <= live[q].len
    ensures p + n <= q || q + n <= p
    ensures Load(Store(mem, q, Load(mem, p, n)), q, n) == Load(mem, p, n)
    ensures Untouched(live, q, mem, Store(mem, q, Load(mem, p, n)))
  {
    LiveBlocksApart(classes, slabs, live, p, q);
    WriteKeeps(classes, slabs, live, mem, q, Load(mem, p, n));
  }

  /** The first `n` bytes of `p` are now those of `q`, and all blocks but these two are untouched. */
  ghost predicate Transferred(live: map<nat, Block>, mem: map<nat, Byte>, mem': map<nat, Byte>, p: nat, q: nat,
                              n: nat) {
    && Load(mem', q, n) == Load(mem, p, n)
    && forall x :: x in live && x != p && x != q ==> Load(mem', x, live[x].len) == Load(mem, x, live[x].len)
  }

  lemma {:induction false} TransferredBy(live: map<nat, Block>, mem: map<nat, Byte>, copied: map<nat, Byte>,
                                         mem': map<nat, Byte>, p: nat, q: nat, n: nat)
    requires p in live && q in live && p != q && n <= live[q].len
    requires Load(copied, q, n) == Load(mem, p, n)
    requires Untouched(live, q, mem, copied) && Untouched(live, p, copied, mem')
    ensures Transferred(live, mem, mem', p, q, n)
  {
    SameFewer(mem', q, copied, q, n, live[q].len);
  }

  lemma {:induction false} MovedByTransfer(live: map<nat, Block>, both: map<nat, Block>,
                                           mem: map<nat, Byte>, mem': map<nat, Byte>,
                                           p: nat, q: nat, newSize: nat, len: nat)
    requires p in live && Added(live, both, q, newSize, len) && newSize <= len
    requires Transferred(both, mem, mem', p, q, Min(live[p].size, len))
    ensures Moved(live, both - {p}, mem, mem', p, q, newSize, len)
  {
    var live' := both - {p};
    assert live' == (live - {p})[q := live'[q]];
    SameBytes(mem', q, mem, p, Min(live[p].size, len));
    forall x | x in live && x != p
      ensures Load(mem', x, live[x].len) == Load(mem, x, live[x].len)
    {
      assert x in both && both[x] == live[x];
    }
  }

  lemma {:induction false} MovedInPlace(live: map<nat, Block>, mem: map<nat, Byte>, p: nat, newSize: nat)
    requires p in live && newSize <= live[p].len
    ensures Moved(live, live[p := live[p].(size := newSize)], mem, mem, p, p, newSize, newSize)
  {
    var live' := live[p := live[p].(size := newSize)];
    assert live' == (live - {p})[p := live'[p]];
  }

  /** A live block is as long as requested. */
  lemma {:induction false} LiveFits(classes: seq<SizeClass>, slabs: map<nat, Slab>, live: map<nat, Block>, p: nat)
    requires Carriers(slabs) && Tracks(classes, slabs, live) && p in live
    ensures ClassFor(classes, live[p].size).Some? && live[p].size <= live[p].len
  {
    assert Describes(classes, slabs, p, live[p]);
    RoundingIsHarmless(ClassFor(classes, live[p].size).value, live[p].size);
  }

  function Min(a: nat, b: nat): (m: nat)
    ensures m <= a && m <= b && (m == a || m == b)
  {
    if a < b then a else b
  }

  lemma {:induction false} RenameKeeps(classes: seq<SizeClass>, slabs: map<nat, Slab>, live: map<nat, Block>,
                                       p: nat, size: nat)
    requires Carriers(slabs) && Tracks(classes, slabs, live) && p in live
    requires ClassFor(classes, size).Some? && ClassFor(classes, size) == ClassFor(classes, live[p].size)
    ensures Tracks(classes, slabs, live[p := live[p].(size := size)])
  {
    var live' := live[p := live[p].(size := size)];
    forall q | q in live'
      ensures Describes(classes, slabs, q, live'[q])
    {
      assert Describes(classes, slabs, q, live[q]);
    }
    forall a, i | a in slabs && 0 <= i < slabs[a].Capacity() && slabs[a].Taken(i)
      ensures Recorded(live', slabs[a].Addr(i), a, i)
    {
      assert Recorded(live, slabs[a].Addr(i), a, i);
    }
  }

  lemma ListedFlip(classes: seq<SizeClass>, carriers: seq<seq<nat>>, slabs: map<nat, Slab>, a: nat, after: Slab)
    requires Listed(classes, carriers, slabs) && a in slabs && after.block == slabs[a].block
    ensures Listed(classes, carriers, slabs[a := after])
  {
  }

  lemma ListedPush(classes: seq<SizeClass>, carriers: seq<seq<nat>>, slabs: map<nat, Slab>, k: nat, a: nat, after: Slab)
    requires Listed(classes, carriers, slabs) && a !in slabs && k < |classes| && after.block == ToBytes(classes[k])
    ensures Listed(classes, carriers[k := [a] + carriers[k]], slabs[a := after])
  {
  }

  /** And finds nothing for a larger one. */
  lemma {:induction false} TooLarge(classes: seq<SizeClass>, size: nat)
    requires classes != [] && Sorted(classes) && size > ToBytes(classes[|classes| - 1])
    ensures Position(classes, size) == None
  {
    PositionSpec(classes, size);
    var w := NextFactorOfWord(size);
    RoundingIsHarmless(classes[|classes| - 1], size);
    assert forall i :: 0 <= i < |classes| ==> classes[i] < w;
    assert FirstFit(classes, w) == |classes|;
  }

  /** The search cannot fail on a request up to the largest class. */
  lemma ClassExists(classes: seq<SizeClass>, size: nat)
    requires classes != [] && Sorted(classes) && size <= ToBytes(classes[|classes| - 1])
    ensures ClassFor(classes, size).Some? && ToBytes(ClassFor(classes, size).value) >= size
  {
    var w := NextFactorOfWord(size);
    RoundingIsHarmless(classes[|classes| - 1], size);
    assert FirstFit(classes, w) < |classes|;
    RoundingIsHarmless(classes[FirstFit(classes, w)], size);
  }
}
