/**
  Blocks that reach past their carrier, in `liblumen_alloc/src/size_class_alloc.rs`:
  which requests can get one on the shipped classes, and that every class whose
  blocks do not fit hands one out.
 */
module AllocOverruns {
  import opened Wrappers
  import opened Memory
  import opened SizeClasses
  import opened Slabs
  import opened ShippedClasses
  import opened SizeClassAllocs
  import opened AllocSessions

  predicate AllShipped(input: seq<SizeClass>) {
    forall k :: 0 <= k < |input| ==> exists row :: row in SHIPPED && row.words == input[k]
  }

  /** On shipped classes only requests of at most 16 bytes can get a block that overruns. */
  lemma {:induction false} ShippedOverrun(input: seq<SizeClass>, size: nat, p: nat, len: nat)
    requires AllShipped(input) && Overruns(SortClasses(input), size, p, len)
    ensures len == 16 && size <= 16
  {
    var cs := SortClasses(input);
    SortSpec(input);
    var c := ClassFor(cs, size).value;
    assert c in multiset(cs);
    assert c in input;
    var k :| 0 <= k < |input| && input[k] == c;
    var row :| row in SHIPPED && row.words == input[k];
    ShippedFit(row);
    RoundingIsHarmless(c, size);
  }

  // ---------- Overruns happen ----------

  /** Live blocks of one carrier are no more than the indices they can have. */
  lemma {:induction false} FewerThanIndices(live: map<nat, Block>, n: nat)
    requires forall p :: p in live ==> live[p].index < n
    requires forall p, q :: p in live && q in live && live[p].index == live[q].index ==> p == q
    ensures |live| <= n
  {
    if n > 0 {
      if p :| p in live && live[p].index == n - 1 {
        FewerThanIndices(live - {p}, n - 1);
        assert live.Keys == (live - {p}).Keys + {p};
      } else {
        FewerThanIndices(live, n - 1);
      }
    } else {
      assert forall p :: p !in live;
      assert live == map[];
    }
  }

  /** All live blocks pass the test on their address. */
  ghost predicate AllInside(live: map<nat, Block>) {
    forall p :: p in live ==> Inside(p, live[p].len)
  }

  /** The live blocks of one carrier. */
  ghost function BlocksOf(live: map<nat, Block>, a: nat): map<nat, Block> {
    map p | p in live && live[p].carrier == a :: live[p]
  }

  /** The last block of such a carrier is not live, as it would fail the test. */
  lemma {:induction false} LastIsNotLive(classes: seq<SizeClass>, slabs: map<nat, Slab>, live: map<nat, Block>, a: nat)
    requires Carriers(slabs) && Tracks(classes, slabs, live) && AllInside(live)
    requires a in slabs && !Fits(slabs[a].block) && slabs[a].Capacity() > 0
    ensures var last := slabs[a].Capacity() - 1;
      !slabs[a].Taken(last) && forall p :: p in live && live[p].carrier == a ==> live[p].index < last
  {
    var s, last := slabs[a], slabs[a].Capacity() - 1;
    LastBlockOverruns(s);
    forall p | p in live && live[p].carrier == a
      ensures live[p].index < last
    {
      assert Describes(classes, slabs, p, live[p]);
    }
    assert s.Taken(last) ==> Recorded(live, s.Addr(last), a, last);
  }

  /** While they do, a carrier whose blocks do not fit is not full, and has fewer live blocks than it hands out. */
  lemma {:induction false} NeverFull(classes: seq<SizeClass>, slabs: map<nat, Slab>, live: map<nat, Block>, a: nat)
    requires Carriers(slabs) && Tracks(classes, slabs, live) && AllInside(live)
    requires a in slabs && !Fits(slabs[a].block) && slabs[a].Capacity() > 0
    ensures !AllTaken(slabs[a]) && |BlocksOf(live, a)| < slabs[a].Capacity()
  {
    var own := BlocksOf(live, a);
    LastIsNotLive(classes, slabs, live, a);
    forall p | p in own
      ensures p == slabs[a].Addr(own[p].index)
    {
      assert Describes(classes, slabs, p, live[p]);
    }
    FewerThanIndices(own, slabs[a].Capacity() - 1);
  }

  /** The addresses of the first `n` blocks of a carrier. */
  ghost function FirstBlocks(a: nat, block: nat, n: nat): set<nat>
    requires block > 0
  {
    if n == 0 then {} else FirstBlocks(a, block, n - 1) + {BlockAt(a, block, n - 1)}
  }

  /** Exactly these blocks are live. */
  ghost predicate Handed(live: map<nat, Block>, a: nat, block: nat, n: nat) {
    && block > 0 && live.Keys == FirstBlocks(a, block, n) && |live| == n
    && forall p :: p in live ==> live[p].len == block
  }

  lemma {:induction false} BlocksAscend(a: nat, block: nat, i: nat, j: nat)
    requires block > 0 && i < j
    ensures BlockAt(a, block, i) < BlockAt(a, block, j)
  {
    ElemsApart(Head(CarrierBlockLen(block)), i, j, block);
  }

  lemma {:induction false} AmongFirst(a: nat, block: nat, n: nat, i: nat)
    requires block > 0
    ensures BlockAt(a, block, i) in FirstBlocks(a, block, n) <==> i < n
  {
    if n > 0 {
      AmongFirst(a, block, n - 1, i);
      if i > n - 1 {
        BlocksAscend(a, block, n - 1, i);
      }
    }
  }

  /** If so, the first free block is the one after them. */
  lemma {:induction false} HandedNext(before: map<nat, Block>, after: map<nat, Block>, a: nat, block: nat, n: nat,
                                      i: nat, p: nat)
    requires Handed(before, a, block, n) && IsFirstFree(a, i, before.Keys, p, block)
    requires Added(before, after, p, block, block)
    ensures i == n && Handed(after, a, block, n + 1)
  {
    AmongFirst(a, block, n, i);
    AmongFirst(a, block, n, n);
    assert after.Keys == before.Keys + {p};
  }

  /** An allocator of one class, with one carrier, whose first `n` blocks are live. */
  ghost predicate OneCarrier(allocator: SizeClassAlloc, c: SizeClass, a: nat, n: nat)
    reads allocator
  {
    && allocator.Valid() && Handed(allocator.live, a, ToBytes(c), n)
    && allocator.classes == [c] && allocator.carriers == [[a]] && allocator.slabs.Keys == {a}
  }

  lemma {:induction false} NotRefused(allocator: SizeClassAlloc, c: SizeClass, a: nat, n: nat)
    requires OneCarrier(allocator, c, a, n) && AllInside(allocator.live) && Usable(c) && !Fits(ToBytes(c))
    ensures !allocator.Refuses(ToBytes(c), None)
  {
    var s := allocator.slabs[a];
    assert allocator.carriers[0][0] == a && s.block == ToBytes(c);
    InitSlabIsFree(a, s.block);
    NeverFull(allocator.classes, allocator.slabs, allocator.live, a);
    PositionSpec([c], ToBytes(c));
    assert [a][0] == a;
  }

  lemma {:induction false} AddedInside(before: map<nat, Block>, after: map<nat, Block>, p: nat, size: nat, len: nat)
    requires Added(before, after, p, size, len) && AllInside(before)
    ensures p in after && AllInside(after - {p}) && (Inside(p, len) ==> AllInside(after))
  {
  }

  /** All blocks handed out but the last, block `n` at `p`, pass the test. */
  ghost predicate UpTo(allocator: SizeClassAlloc, c: SizeClass, a: nat, n: nat, p: nat)
    reads allocator
  {
    && OneCarrier(allocator, c, a, n + 1) && p in allocator.live && AllInside(allocator.live - {p})
    && n < Allocatable(CarrierBlockLen(ToBytes(c))) && p == BlockAt(a, ToBytes(c), n)
  }

  ghost predicate GoesOn(allocator: SizeClassAlloc, c: SizeClass, a: nat, n: nat)
    reads allocator
  {
    OneCarrier(allocator, c, a, n) && AllInside(allocator.live)
  }

  method OnlyCarrier(c: SizeClass, a: nat, debug: bool) returns (allocator: SizeClassAlloc)
    requires Usable(c) && Mappable(a)
    ensures fresh(allocator) && GoesOn(allocator, c, a, 0)
  {
    allocator := new SizeClassAlloc([c], [a], debug);
    assert SortClasses([c]) == [c];
    assert allocator.carriers[0][0] in allocator.slabs;
  }

  /** Allocates the next block. */
  method Another(allocator: SizeClassAlloc, c: SizeClass, a: nat, ghost n: nat) returns (p: nat)
    requires GoesOn(allocator, c, a, n) && Usable(c) && !Fits(ToBytes(c))
    modifies allocator
    ensures UpTo(allocator, c, a, n, p) && (Inside(p, ToBytes(c)) ==> GoesOn(allocator, c, a, n + 1))
  {
    ghost var before := allocator.live;
    ghost var pick := Pick(allocator.classes, allocator.carriers, allocator.slabs.Keys, before.Keys, ToBytes(c), None);
    NotRefused(allocator, c, a, n);
    PickIsFirst(allocator, ToBytes(c), None, pick);
    var r := allocator.Allocate(ToBytes(c), None);
    p := r.value.0;
    ghost var x, i :| x in {a} && IsFirstFree(x, i, before.Keys, p, r.value.1);
    HandedNext(before, allocator.live, a, ToBytes(c), n, i, p);
    AddedInside(before, allocator.live, p, ToBytes(c), ToBytes(c));
  }

  /**
    A class whose blocks do not fit is found out: a new allocator hands out the
    blocks of its carrier in order, up to the first that fails the test on its
    address, and there is one.
   */
  method FirstOverrun(c: SizeClass, a: nat, debug: bool) returns (allocator: SizeClassAlloc, n: nat, p: nat)
    requires Usable(c) && !Fits(ToBytes(c)) && Mappable(a)
    ensures fresh(allocator) && UpTo(allocator, c, a, n, p) && !Inside(p, ToBytes(c))
  {
    allocator := OnlyCarrier(c, a, debug);
    n := 0;
    p := Another(allocator, c, a, n);
    while Inside(p, ToBytes(c))
      invariant fresh(allocator) && UpTo(allocator, c, a, n, p)
      invariant Inside(p, ToBytes(c)) ==> GoesOn(allocator, c, a, n + 1)
      decreases Allocatable(CarrierBlockLen(ToBytes(c))) - n
    {
      n := n + 1;
      p := Another(allocator, c, a, n);
    }
  }
}
