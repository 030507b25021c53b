/**
  A program that uses `SizeClassAlloc` of `liblumen_alloc/src/size_class_alloc.rs`:
  over every run, what it wrote into its blocks is what it reads back.
 */
module AllocSessions {
  import opened Bits
  import opened Wrappers
  import opened Memory
  import opened SizeClasses
  import opened Slabs
  import opened SizeClassAllocs

  /** A block as its owner sees it: how many bytes it asked for, and the first of them as last written. */
  datatype Held = Held(size: nat, data: seq<Byte>)

  /** In the first and second kind, the address of a carrier the system would map if one is needed. */
  datatype Op =
    | Allocate(size: nat, mapped: Option<nat>)
    | Reallocate(p: nat, newSize: nat, mapped: Option<nat>)
    | Write(p: nat, data: seq<Byte>)
    | Deallocate(p: nat)

  /** The first `n` bytes, or all if there are not so many. */
  function Prefix(data: seq<Byte>, n: nat): (r: seq<Byte>)
    ensures r <= data && |r| <= n && (|r| == n || r == data)
  {
    data[..Min(|data|, n)]
  }

  /** A block that was held at `p` is now at `q`, with as much of its bytes as it has room for. */
  function Resized(held: map<nat, Held>, p: nat, q: nat, newSize: nat): map<nat, Held> {
    if p in held then (held - {p})[q := Held(newSize, Prefix(held[p].data, newSize))] else held
  }

  /** What the owner expects after an operation that was answered with a block, or with an error. */
  function Next(held: map<nat, Held>, op: Op, answer: Option<nat>): map<nat, Held> {
    match op
    case Allocate(size, _) =>
      if answer.Some? then held[answer.value := Held(size, [])] else held
    case Reallocate(p, newSize, _) =>
      if answer.Some? then Resized(held, p, answer.value, newSize) else held
    case Write(p, data) =>
      if p in held && |data| <= held[p].size then held[p := Held(held[p].size, data)] else held
    case Deallocate(p) => held - {p}
  }

  /** A block may answer an operation unless it is held already, by anyone but who reallocates it. */
  predicate New(held: map<nat, Held>, op: Op, q: nat) {
    q !in held || (op.Reallocate? && q == op.p)
  }

  /** An owner only uses blocks that it holds, within their size; anything else is skipped. */
  predicate Allowed(held: map<nat, Held>, op: Op) {
    op.Allocate? || (op.p in held && (op.Write? ==> |op.data| <= held[op.p].size))
  }

  lemma NothingHappens(held: map<nat, Held>, op: Op)
    requires !Allowed(held, op)
    ensures Next(held, op, None) == held
  {
    assert op.p !in held ==> held - {op.p} == held;
  }

  function Track(ops: seq<Op>, answers: seq<Option<nat>>): map<nat, Held>
    requires |ops| == |answers|
  {
    if ops == [] then map[]
    else
      var n := |ops| - 1;
      Next(Track(ops[..n], answers[..n]), ops[n], answers[n])
  }

  /** The size that an operation asks for, and the address it is offered. */
  function Size(op: Op): nat {
    match op
    case Allocate(size, _) => size
    case Reallocate(_, newSize, _) => newSize
    case _ => 0
  }

  function Offered(op: Op): Option<nat> {
    if op.Allocate? || op.Reallocate? then op.mapped else None
  }

  // ---------- What the owner expects is what memory holds ----------

  /** A block is as long as its owner thinks, inside one carrier, and starts with the bytes its owner wrote. */
  ghost predicate Sound(b: Block, mem: map<nat, Byte>, p: nat, h: Held) {
    && |h.data| <= h.size == b.size <= b.len && Inside(p, b.len)
    && Load(mem, p, |h.data|) == h.data
  }

  ghost predicate Mirrors(live: map<nat, Block>, mem: map<nat, Byte>, held: map<nat, Held>) {
    && (forall p :: p in live ==> p in held)
    && (forall p :: p in held ==> p in live && Sound(live[p], mem, p, held[p]))
  }

  /** A block that is not touched stays sound. */
  lemma {:induction false} StaysSound(live: map<nat, Block>, p: nat, mem: map<nat, Byte>, mem': map<nat, Byte>,
                                      x: nat, h: Held)
    requires Untouched(live, p, mem, mem') && x in live && x != p && Sound(live[x], mem, x, h)
    ensures Sound(live[x], mem', x, h)
  {
    SameFewer(mem', x, mem, x, |h.data|, live[x].len);
  }

  lemma {:induction false} WriteMirrors(live: map<nat, Block>, held: map<nat, Held>, p: nat, data: seq<Byte>,
                                        mem: map<nat, Byte>, mem': map<nat, Byte>)
    requires Mirrors(live, mem, held) && p in live && |data| <= live[p].size
    requires Load(mem', p, |data|) == data && Untouched(live, p, mem, mem')
    ensures Mirrors(live, mem', held[p := Held(live[p].size, data)])
  {
    assert p in held;
    forall x | x in held && x != p
      ensures Sound(live[x], mem', x, held[x])
    {
      StaysSound(live, p, mem, mem', x, held[x]);
    }
  }

  lemma {:induction false} PlaceMirrors(live: map<nat, Block>, held: map<nat, Held>, q: nat, b: Block, h: Held,
                                        mem: map<nat, Byte>)
    requires Mirrors(live, mem, held) && Sound(b, mem, q, h)
    ensures Mirrors(live[q := b], mem, held[q := h])
  {
  }

  lemma {:induction false} AddMirrors(live: map<nat, Block>, live': map<nat, Block>, held: map<nat, Held>, p: nat,
                                      size: nat, len: nat,
                                      mem: map<nat, Byte>)
    requires Mirrors(live, mem, held) && Added(live, live', p, size, len) && size <= len && Inside(p, len)
    ensures p !in held && Mirrors(live', mem, held[p := Held(size, [])])
  {
    PlaceMirrors(live, held, p, live'[p], Held(size, []), mem);
  }

  lemma {:induction false} FreeMirrors(live: map<nat, Block>, held: map<nat, Held>, p: nat, mem: map<nat, Byte>,
                                       mem': map<nat, Byte>)
    requires Mirrors(live, mem, held) && p in live && Untouched(live, p, mem, mem')
    ensures Mirrors(live - {p}, mem', held - {p})
  {
    forall x | x in held && x != p
      ensures Sound(live[x], mem', x, held[x])
    {
      StaysSound(live, p, mem, mem', x, held[x]);
    }
  }

  /** A block that moved starts with as much of the old bytes as it has room for. */
  lemma {:induction false} MovedIsSound(live: map<nat, Block>, live': map<nat, Block>, mem: map<nat, Byte>,
                                        mem': map<nat, Byte>,
                                        p: nat, q: nat, newSize: nat, len: nat, h: Held)
    requires p in live && Sound(live[p], mem, p, h) && Moved(live, live', mem, mem', p, q, newSize, len)
    requires Inside(q, live'[q].len)
    ensures Sound(live'[q], mem', q, Held(newSize, Prefix(h.data, newSize)))
  {
    var n := Min(|h.data|, newSize);
    SameBytes(mem', q, mem, p, n);
    LoadPrefix(mem, p, n, |h.data|);
  }

  lemma {:induction false} MoveMirrors(live: map<nat, Block>, live': map<nat, Block>, held: map<nat, Held>,
                                       mem: map<nat, Byte>, mem': map<nat, Byte>,
                                       p: nat, q: nat, newSize: nat, len: nat)
    requires Mirrors(live, mem, held) && p in live && p in held
    requires Moved(live, live', mem, mem', p, q, newSize, len) && Inside(q, live'[q].len)
    ensures Mirrors(live', mem', Resized(held, p, q, newSize))
  {
    FreeMirrors(live, held, p, mem, mem');
    MovedIsSound(live, live', mem, mem', p, q, newSize, len, held[p]);
    PlaceMirrors(live - {p}, held - {p}, q, live'[q], Held(newSize, Prefix(held[p].data, newSize)), mem');
  }

  // ---------- What an operation comes to ----------

  /** An answer, or a block that fails the test on its address because it reaches into the next carrier. */
  datatype Outcome = Done(answer: Option<nat>) | Outside(p: nat, len: nat)

  /** The lists of carriers, the carriers in memory, and the blocks held: all that decides what comes next. */
  datatype State = State(carriers: seq<seq<nat>>, keys: set<nat>, held: map<nat, Held>)

  /** A carrier can be mapped where none is yet. */
  function Offer(keys: set<nat>, mapped: Option<nat>): Option<nat> {
    if mapped.Some? && Mappable(mapped.value) && mapped.value !in keys then mapped else None
  }

  function OutcomeOf(block: Option<(nat, nat)>): Outcome {
    if block.None? then Done(None)
    else if Inside(block.value.0, block.value.1) then Done(Some(block.value.0))
    else Outside(block.value.0, block.value.1)
  }

  function Settle(s: State, op: Op, pick: Picked): (State, Outcome) {
    var o := OutcomeOf(pick.block);
    (State(pick.carriers, pick.keys, if o.Done? then Next(s.held, op, o.answer) else s.held), o)
  }

  function PickFor(classes: seq<SizeClass>, s: State, size: nat, mapped: Option<nat>): Picked {
    Pick(classes, s.carriers, s.keys, s.held.Keys, size, Offer(s.keys, mapped))
  }

  function MaxBytes(classes: seq<SizeClass>): nat {
    if classes == [] then 0 else ToBytes(classes[|classes| - 1])
  }

  /** The state after an operation, and what the operation comes to. */
  function Step(classes: seq<SizeClass>, s: State, op: Op): (State, Outcome) {
    match op
    case Allocate(size, mapped) => Settle(s, op, PickFor(classes, s, size, mapped))
    case Reallocate(p, newSize, mapped) =>
      if p !in s.held then (s, Done(None))
      else if newSize <= MaxBytes(classes) && SameClass(classes, s.held[p].size, newSize) then
        (s.(held := Next(s.held, op, Some(p))), Done(Some(p)))
      else Settle(s, op, PickFor(classes, s, newSize, mapped))
    case _ => (s.(held := Next(s.held, op, None)), Done(None))
  }

  /** One carrier for each class, and nothing held. */
  function Initial(maps: seq<nat>): State {
    State(seq(|maps|, k requires 0 <= k < |maps| => [maps[k]]), set m | m in maps, map[])
  }

  function Play(classes: seq<SizeClass>, maps: seq<nat>, ops: seq<Op>): State {
    if ops == [] then Initial(maps) else Step(classes, Play(classes, maps, ops[..|ops| - 1]), ops[|ops| - 1]).0
  }

  /** What operation `i` of a run comes to. */
  function OutcomeAt(classes: seq<SizeClass>, maps: seq<nat>, ops: seq<Op>, i: nat): Outcome
    requires i < |ops|
  {
    Step(classes, Play(classes, maps, ops[..i]), ops[i]).1
  }

  // ---------- When an operation is refused ----------

  /** All carriers that serve requests of this size are full. */
  ghost predicate NoneLeft(classes: seq<SizeClass>, s: State, size: nat) {
    var k := Position(classes, size);
    && k.Some? && k.value < |classes| && k.value < |s.carriers| && classes[k.value] > 0
    && AllHeld(s.carriers[k.value], ToBytes(classes[k.value]), s.held.Keys)
  }

  /** The request is too large, or there is no block left for it and no carrier can be mapped. */
  ghost predicate Refused(classes: seq<SizeClass>, s: State, size: nat, mapped: Option<nat>) {
    size > MaxBytes(classes) || (NoneLeft(classes, s, size) && Offer(s.keys, mapped).None?)
  }

  predicate InTable(classes: seq<SizeClass>, s: State) {
    IsClassTable(classes) && |s.carriers| == |classes|
  }

  lemma {:induction false} PickIsNone(classes: seq<SizeClass>, s: State, size: nat, mapped: Option<nat>)
    requires InTable(classes, s)
    ensures PickFor(classes, s, size, mapped).block.None? <==> Refused(classes, s, size, mapped)
  {
    PositionSpec(classes, size);
    if size > MaxBytes(classes) {
      TooLarge(classes, size);
    } else {
      ClassExists(classes, size);
      var k := Position(classes, size).value;
      assert Usable(classes[k]);
      NoneFree(s.carriers[k], ToBytes(classes[k]), s.held.Keys);
    }
  }

  /** A reallocation that leaves the block where it is. */
  predicate StaysPut(classes: seq<SizeClass>, s: State, op: Op) {
    && op.Reallocate? && op.p in s.held
    && op.newSize <= MaxBytes(classes) && SameClass(classes, s.held[op.p].size, op.newSize)
  }

  predicate AsksFor(s: State, op: Op) {
    op.Allocate? || (op.Reallocate? && op.p in s.held)
  }

  /**
    An operation that asks for a block is refused if and only if the block has
    to be a new one, and the request is too large or no carrier has or can get
    room for it.
   */
  lemma {:induction false} RefusedIff(classes: seq<SizeClass>, s: State, op: Op)
    requires InTable(classes, s) && AsksFor(s, op)
    ensures Step(classes, s, op).1 == Done(None) <==>
      !StaysPut(classes, s, op) && Refused(classes, s, Size(op), Offered(op))
  {
    PickIsNone(classes, s, Size(op), Offered(op));
  }

  lemma {:induction false} PickKeepsShape(classes: seq<SizeClass>, s: State, size: nat, mapped: Option<nat>)
    ensures var pick := PickFor(classes, s, size, mapped);
      |pick.carriers| == |s.carriers| && forall x :: x in pick.keys ==> x in s.keys || mapped == Some(x)
  {
  }

  /** A step maps at most the carrier on offer. */
  lemma {:induction false} StepKeepsShape(classes: seq<SizeClass>, s: State, op: Op)
    requires InTable(classes, s)
    ensures var s' := Step(classes, s, op).0;
      InTable(classes, s') && forall x :: x in s'.keys ==> x in s.keys || Offered(op) == Some(x)
  {
    PickKeepsShape(classes, s, Size(op), Offered(op));
  }

  // ---------- Operations on the allocator ----------

  /** The allocator is in order, and its live blocks are as their owner expects. */
  ghost predicate Serves(a: SizeClassAlloc, held: map<nat, Held>)
    reads a
  {
    a.Valid() && Mirrors(a.live, a.mem, held)
  }

  /** A block that fails the test has the length of its class, which does not fit. */
  ghost predicate Overruns(classes: seq<SizeClass>, size: nat, p: nat, len: nat) {
    len == Len(classes, size) > 0 && !Inside(p, len) && !Fits(len)
  }

  lemma {:induction false} MirrorsKeys(live: map<nat, Block>, mem: map<nat, Byte>, held: map<nat, Held>)
    requires Mirrors(live, mem, held)
    ensures live.Keys == held.Keys
  {
  }

  /** In an allocator in order, whatever answers a request is the first free block of some carrier. */
  lemma {:induction false} PickIsFirst(a: SizeClassAlloc, size: nat, mapped: Option<nat>, pick: Picked)
    requires a.Valid() && (mapped.Some? ==> Mappable(mapped.value) && mapped.value !in a.slabs)
    requires pick == Pick(a.classes, a.carriers, a.slabs.Keys, a.live.Keys, size, mapped)
    ensures pick.block.Some? ==> FirstFree(pick.keys, a.live.Keys, pick.block.value.0, pick.block.value.1)
    ensures pick.block.Some? ==> pick.block.value.0 !in a.live
  {
    if mapped.Some? {
      forall k | 0 <= k < |a.classes|
        ensures Usable(a.classes[k]) && BlockAt(mapped.value, ToBytes(a.classes[k]), 0) !in a.live
      {
        UnmappedIsNew(a.classes, a.slabs, a.live, mapped.value, ToBytes(a.classes[k]));
      }
    }
    PickSpec(a.classes, a.carriers, a.live.Keys, a.slabs.Keys, size, mapped);
  }

  /** An operation has come to what was chosen for it; a block that fails the test is the first free one. */
  ghost predicate Settled(carriers: seq<seq<nat>>, keys: set<nat>, taken: set<nat>, pick: Picked, o: Outcome) {
    && carriers == pick.carriers && keys == pick.keys && o == OutcomeOf(pick.block)
    && (o.Outside? ==> FirstFree(keys, taken, o.p, o.len))
  }

  method Obtain(a: SizeClassAlloc, held: map<nat, Held>, size: nat, mapped: Option<nat>, ghost pick: Picked)
      returns (o: Outcome)
    requires Serves(a, held)
    requires pick == PickFor(a.classes, State(a.carriers, a.slabs.Keys, held), size, mapped)
    modifies a
    ensures Settled(a.carriers, a.slabs.Keys, held.Keys, pick, o)
    ensures o == Done(None) ==> Serves(a, held)
    ensures o.Done? && o.answer.Some? ==> o.answer.value !in held && Serves(a, held[o.answer.value := Held(size, [])])
    ensures o.Outside? ==> Overruns(a.classes, size, o.p, o.len)
  {
    ghost var before := a.live;
    MirrorsKeys(a.live, a.mem, held);
    var offer := Offer(a.slabs.Keys, mapped);
    PickIsFirst(a, size, offer, pick);
    var r := a.Allocate(size, offer);
    o := OutcomeOf(r);
    if o.Done? && o.answer.Some? {
      AddMirrors(before, a.live, held, r.value.0, size, r.value.1, a.mem);
    }
  }

  method Change(a: SizeClassAlloc, held: map<nat, Held>, p: nat, newSize: nat, mapped: Option<nat>, ghost stays: bool,
                ghost pick: Picked)
      returns (o: Outcome)
    requires Serves(a, held) && p in held
    requires stays <==> newSize <= MaxBytes(a.classes) && SameClass(a.classes, held[p].size, newSize)
    requires pick == PickFor(a.classes, State(a.carriers, a.slabs.Keys, held), newSize, mapped)
    modifies a
    ensures o == Done(None) ==> Serves(a, held)
    ensures o.Done? && o.answer.Some? ==>
      && (o.answer.value == p || o.answer.value !in held)
      && Serves(a, Resized(held, p, o.answer.value, newSize))
    ensures o.Outside? ==> Overruns(a.classes, newSize, o.p, o.len)
    ensures stays ==> o == Done(Some(p)) && a.carriers == old(a.carriers) && a.slabs.Keys == old(a.slabs).Keys
    ensures !stays ==> Settled(a.carriers, a.slabs.Keys, held.Keys, pick, o)
  {
    ghost var before, mem := a.live, a.mem;
    MirrorsKeys(a.live, a.mem, held);
    var offer := Offer(a.slabs.Keys, mapped);
    PickIsFirst(a, newSize, offer, pick);
    var r := a.Reallocate(p, held[p].size, newSize, offer);
    if r.None? {
      return Done(None);
    }
    var (q, len) := r.value;
    if q != p && !Inside(q, len) {
      return Outside(q, len);
    }
    MoveMirrors(before, a.live, held, mem, a.mem, p, q, newSize, len);
    o := Done(Some(q));
  }

  method Fill(a: SizeClassAlloc, held: map<nat, Held>, p: nat, data: seq<Byte>)
    requires Serves(a, held) && p in held && |data| <= held[p].size
    modifies a
    ensures Serves(a, held[p := Held(held[p].size, data)])
    ensures a.carriers == old(a.carriers) && a.slabs.Keys == old(a.slabs).Keys
  {
    ghost var before := a.mem;
    a.Write(p, data);
    WriteMirrors(a.live, held, p, data, before, a.mem);
  }

  method Discard(a: SizeClassAlloc, held: map<nat, Held>, p: nat)
    requires Serves(a, held) && p in held
    modifies a
    ensures Serves(a, held - {p}) && a.carriers == old(a.carriers) && a.slabs.Keys == old(a.slabs).Keys
  {
    ghost var before, mem := a.live, a.mem;
    a.Release(p);
    FreeMirrors(before, held, p, mem, a.mem);
  }

  /**
    An operation has come to the outcome of its step, and the allocator to the
    state after it; a block that fails the test is the first free one.
   */
  ghost predicate Took(a: SizeClassAlloc, held: map<nat, Held>, op: Op, step: (State, Outcome), o: Outcome)
    reads a
  {
    && o == step.1
    && (o.Done? ==>
          && step.0 == State(a.carriers, a.slabs.Keys, Next(held, op, o.answer))
          && Serves(a, Next(held, op, o.answer))
          && (o.answer.Some? ==> New(held, op, o.answer.value)))
    && (o.Outside? ==> Overruns(a.classes, Size(op), o.p, o.len) && FirstFree(step.0.keys, held.Keys, o.p, o.len))
  }

  /** One operation: the allocator goes through the very step that is computed from its lists and the blocks held. */
  method Perform(a: SizeClassAlloc, held: map<nat, Held>, op: Op, ghost step: (State, Outcome)) returns (o: Outcome)
    requires Serves(a, held)
    requires step == Step(a.classes, State(a.carriers, a.slabs.Keys, held), op)
    modifies a
    ensures Took(a, held, op, step, o)
  {
    if op.Allocate? {
      o := PerformAllocate(a, held, op, step);
    } else if !Allowed(held, op) {
      NothingHappens(held, op);
      o := Done(None);
    } else if op.Reallocate? {
      o := PerformReallocate(a, held, op, step);
    } else if op.Write? {
      o := PerformWrite(a, held, op, step);
    } else {
      o := PerformDeallocate(a, held, op, step);
    }
  }

  method PerformAllocate(a: SizeClassAlloc, held: map<nat, Held>, op: Op, ghost step: (State, Outcome))
      returns (o: Outcome)
    requires Serves(a, held) && op.Allocate?
    requires step == Step(a.classes, State(a.carriers, a.slabs.Keys, held), op)
    modifies a
    ensures Took(a, held, op, step, o)
  {
    o := Obtain(a, held, op.size, op.mapped,
                PickFor(a.classes, State(a.carriers, a.slabs.Keys, held), op.size, op.mapped));
  }

  method PerformReallocate(a: SizeClassAlloc, held: map<nat, Held>, op: Op, ghost step: (State, Outcome))
      returns (o: Outcome)
    requires Serves(a, held) && op.Reallocate? && op.p in held
    requires step == Step(a.classes, State(a.carriers, a.slabs.Keys, held), op)
    modifies a
    ensures Took(a, held, op, step, o)
  {
    ghost var s := State(a.carriers, a.slabs.Keys, held);
    o := Change(a, held, op.p, op.newSize, op.mapped, StaysPut(a.classes, s, op),
                PickFor(a.classes, s, op.newSize, op.mapped));
  }

  method PerformWrite(a: SizeClassAlloc, held: map<nat, Held>, op: Op, ghost step: (State, Outcome))
      returns (o: Outcome)
    requires Serves(a, held) && op.Write? && Allowed(held, op)
    requires step == Step(a.classes, State(a.carriers, a.slabs.Keys, held), op)
    modifies a
    ensures Took(a, held, op, step, o)
  {
    assert Next(held, op, None) == held[op.p := Held(held[op.p].size, op.data)];
    Fill(a, held, op.p, op.data);
    o := Done(None);
  }

  method PerformDeallocate(a: SizeClassAlloc, held: map<nat, Held>, op: Op, ghost step: (State, Outcome))
      returns (o: Outcome)
    requires Serves(a, held) && op.Deallocate? && Allowed(held, op)
    requires step == Step(a.classes, State(a.carriers, a.slabs.Keys, held), op)
    modifies a
    ensures Took(a, held, op, step, o)
  {
    assert Next(held, op, None) == held - {op.p};
    Discard(a, held, op.p);
    o := Done(None);
  }

  /** The blocks an owner holds do not overlap. */
  ghost predicate Apart(held: map<nat, Held>) {
    forall p, q :: p in held && q in held && p != q ==> p + held[p].size <= q || q + held[q].size <= p
  }

  /** Memory holds what was written into the blocks an owner holds. */
  ghost predicate ReadsBack(held: map<nat, Held>, mem: map<nat, Byte>) {
    forall p :: p in held ==> Load(mem, p, |held[p].data|) == held[p].data
  }

  lemma {:induction false} HeldApart(a: SizeClassAlloc, held: map<nat, Held>)
    requires Serves(a, held)
    ensures Apart(held)
  {
    forall p, q | p in held && q in held && p != q
      ensures p + held[p].size <= q || q + held[q].size <= p
    {
      LiveBlocksApart(a.classes, a.slabs, a.live, p, q);
    }
  }

  // ---------- Answers ----------

  /** Operation `i` is offered an address that was neither mapped at first nor offered before. */
  predicate FreshOffer(maps: seq<nat>, ops: seq<Op>, i: nat)
    requires i < |ops|
  {
    var m := Offered(ops[i]);
    m.Some? && Mappable(m.value) && m.value !in maps && forall j :: 0 <= j < i ==> Offered(ops[j]) != m
  }

  /** An operation that no allocator in order may refuse. */
  predicate MustAnswer(maps: seq<nat>, max: nat, ops: seq<Op>, i: nat, held: map<nat, Held>)
    requires i < |ops|
  {
    FreshOffer(maps, ops, i) && Size(ops[i]) <= max && Allowed(held, ops[i])
  }

  /**
    What is said of each answer of a run: it is the one computed from what went
    before, a block that is not held, and an error only if the request is too
    large or no carrier has or can get room for it.
   */
  ghost predicate AnswerOk(classes: seq<SizeClass>, maps: seq<nat>, ops: seq<Op>, answers: seq<Option<nat>>, i: nat)
    requires i < |answers| <= |ops|
  {
    var s := Play(classes, maps, ops[..i]);
    && s.held == Track(ops[..i], answers[..i])
    && Step(classes, s, ops[i]).1 == Done(answers[i])
    && (answers[i].Some? ==> New(s.held, ops[i], answers[i].value))
    && (answers[i].None? && AsksFor(s, ops[i]) ==> Refused(classes, s, Size(ops[i]), Offered(ops[i])))
    && (MustAnswer(maps, MaxBytes(classes), ops, i, s.held) ==> answers[i].Some?)
  }

  ghost predicate AnswersOk(classes: seq<SizeClass>, maps: seq<nat>, ops: seq<Op>, answers: seq<Option<nat>>)
    requires |answers| <= |ops|
  {
    forall i :: 0 <= i < |answers| ==> AnswerOk(classes, maps, ops, answers, i)
  }

  /** A carrier that was mapped at first, or offered by the first `n` operations. */
  ghost predicate Known(x: nat, maps: seq<nat>, ops: seq<Op>, n: nat)
    requires n <= |ops|
  {
    x in maps || exists j :: 0 <= j < n && Offered(ops[j]) == Some(x)
  }

  ghost predicate KnownCarriers(keys: set<nat>, maps: seq<nat>, ops: seq<Op>, n: nat)
    requires n <= |ops|
  {
    forall x :: x in keys ==> Known(x, maps, ops, n)
  }

  lemma {:induction false} FreshIsOffered(keys: set<nat>, maps: seq<nat>, ops: seq<Op>, n: nat)
    requires n < |ops| && KnownCarriers(keys, maps, ops, n) && FreshOffer(maps, ops, n)
    ensures Offer(keys, Offered(ops[n])) == Offered(ops[n])
  {
    var m := Offered(ops[n]).value;
    assert m in keys ==> Known(m, maps, ops, n);
  }

  lemma {:induction false} CarriersStayKnown(classes: seq<SizeClass>, s: State, maps: seq<nat>, ops: seq<Op>, n: nat)
    requires InTable(classes, s) && n < |ops| && KnownCarriers(s.keys, maps, ops, n)
    ensures KnownCarriers(Step(classes, s, ops[n]).0.keys, maps, ops, n + 1)
  {
    StepKeepsShape(classes, s, ops[n]);
    forall x | x in Step(classes, s, ops[n]).0.keys
      ensures Known(x, maps, ops, n + 1)
    {
      assert x in s.keys ==> Known(x, maps, ops, n);
    }
  }

  /** The block that ends a run is the first one that is free in a carrier known by then. */
  ghost predicate StopsAt(maps: seq<nat>, ops: seq<Op>, n: nat, held: map<nat, Held>, p: nat, len: nat)
    requires n <= |ops|
  {
    exists a, i :: Known(a, maps, ops, n) && IsFirstFree(a, i, held.Keys, p, len)
  }

  predicate AllFit(input: seq<SizeClass>) {
    forall k :: 0 <= k < |input| ==> input[k] > 0 && Fits(ToBytes(input[k]))
  }

  /** An allocator on classes that all fit never hands out a block that overruns. */
  lemma {:induction false} FittingClassesNeverOverrun(input: seq<SizeClass>, size: nat, p: nat, len: nat)
    requires AllFit(input)
    ensures !Overruns(SortClasses(input), size, p, len)
  {
    var cs := SortClasses(input);
    SortSpec(input);
    var c := ClassFor(cs, size);
    if c.Some? {
      assert c.value in multiset(cs);
      assert c.value in input;
    }
  }

  /** What has happened in a run so far. */
  ghost predicate Story(classes: seq<SizeClass>, s: State, maps: seq<nat>, ops: seq<Op>, answers: seq<Option<nat>>) {
    && |answers| <= |ops| && InTable(classes, s) && s == Play(classes, maps, ops[..|answers|])
    && s.held == Track(ops[..|answers|], answers)
    && KnownCarriers(s.keys, maps, ops, |answers|) && AnswersOk(classes, maps, ops, answers)
  }

  lemma {:induction false} PlayNext(classes: seq<SizeClass>, s: State, maps: seq<nat>, ops: seq<Op>, n: nat, s': State)
    requires n < |ops| && InTable(classes, s) && KnownCarriers(s.keys, maps, ops, n)
    requires s == Play(classes, maps, ops[..n]) && s' == Step(classes, s, ops[n]).0
    ensures s' == Play(classes, maps, ops[..n + 1]) && InTable(classes, s') && KnownCarriers(s'.keys, maps, ops, n + 1)
  {
    assert ops[..n + 1][..n] == ops[..n];
    StepKeepsShape(classes, s, ops[n]);
    CarriersStayKnown(classes, s, maps, ops, n);
  }

  lemma {:induction false} NextAnswerOk(classes: seq<SizeClass>, s: State, maps: seq<nat>, ops: seq<Op>,
                                        answers: seq<Option<nat>>, answer: Option<nat>)
    requires Story(classes, s, maps, ops, answers) && |answers| < |ops|
    requires Step(classes, s, ops[|answers|]).1 == Done(answer)
    requires answer.Some? ==> New(s.held, ops[|answers|], answer.value)
    ensures AnswersOk(classes, maps, ops, answers + [answer])
  {
    var n := |answers|;
    var op := ops[n];
    if AsksFor(s, op) { RefusedIff(classes, s, op); }
    if FreshOffer(maps, ops, n) { FreshIsOffered(s.keys, maps, ops, n); }
    forall i | 0 <= i <= n
      ensures AnswerOk(classes, maps, ops, answers + [answer], i)
    {
      assert (answers + [answer])[..i] == answers[..i];
      assert answers[..n] == answers;
      assert i < n ==> AnswerOk(classes, maps, ops, answers, i);
    }
  }

  lemma {:induction false} TrackNext(ops: seq<Op>, n: nat, answers: seq<Option<nat>>, answer: Option<nat>)
    requires n < |ops| && |answers| == n
    ensures Track(ops[..n + 1], answers + [answer]) == Next(Track(ops[..n], answers), ops[n], answer)
    ensures (answers + [answer])[..n] == answers
  {
    assert ops[..n + 1][..n] == ops[..n];
    assert (answers + [answer])[..n] == answers;
  }

  lemma {:induction false} StoryNext(classes: seq<SizeClass>, s: State, maps: seq<nat>, ops: seq<Op>,
                                     answers: seq<Option<nat>>, answer: Option<nat>, s': State)
    requires Story(classes, s, maps, ops, answers) && |answers| < |ops|
    requires AnswersOk(classes, maps, ops, answers + [answer])
    requires var n := |answers| + 1;
      s' == Play(classes, maps, ops[..n]) && InTable(classes, s') && KnownCarriers(s'.keys, maps, ops, n)
    requires s'.held == Next(s.held, ops[|answers|], answer)
    ensures Story(classes, s', maps, ops, answers + [answer])
  {
    TrackNext(ops, |answers|, answers, answer);
  }

  /** What is said of the block that ends a run, if one does. */
  ghost predicate EndsWell(classes: seq<SizeClass>, maps: seq<nat>, ops: seq<Op>, answers: seq<Option<nat>>,
                           outside: Option<(nat, nat)>)
  {
    if outside.None? then |answers| == |ops|
    else
      var n := |answers|;
      n < |ops| && var (p, len) := outside.value;
      && OutcomeAt(classes, maps, ops, n) == Outside(p, len)
      && Overruns(classes, Size(ops[n]), p, len)
      && StopsAt(maps, ops, n + 1, Track(ops[..n], answers), p, len)
  }

  lemma {:induction false} Stops(classes: seq<SizeClass>, s: State, maps: seq<nat>, ops: seq<Op>,
                                 answers: seq<Option<nat>>, p: nat, len: nat)
    requires Story(classes, s, maps, ops, answers) && |answers| < |ops|
    requires var step := Step(classes, s, ops[|answers|]);
      step.1 == Outside(p, len) && FirstFree(step.0.keys, s.held.Keys, p, len)
    requires Overruns(classes, Size(ops[|answers|]), p, len)
    ensures EndsWell(classes, maps, ops, answers, Some((p, len)))
  {
    var n := |answers|;
    CarriersStayKnown(classes, s, maps, ops, n);
    var step := Step(classes, s, ops[n]);
    var a, i :| a in step.0.keys && IsFirstFree(a, i, s.held.Keys, p, len);
    assert Known(a, maps, ops, n + 1);
  }

  /**
    Every run of an allocator, up to the first block, if any, that fails the test
    on its address. Whatever was written into the blocks still held is there, as
    far as reallocation kept it, and these blocks do not overlap. Each answer is
    the one computed from the operations before it: no block is handed out while
    it is held, and an operation is refused only when it asks for too much or
    all blocks of its class are held and no new carrier can be mapped. The block
    that ends the run is the first free one of a carrier mapped by then.
   */
  method Session(input: seq<SizeClass>, maps: seq<nat>, debug: bool, ops: seq<Op>)
      returns (answers: seq<Option<nat>>, mem: map<nat, Byte>, outside: Option<(nat, nat)>)
    requires input != [] && forall k :: 0 <= k < |input| ==> Usable(input[k])
    requires |maps| == |input| && forall k :: 0 <= k < |maps| ==> Mappable(maps[k])
    requires forall j, k :: 0 <= j < k < |maps| ==> maps[j] != maps[k]
    ensures EndsWell(SortClasses(input), maps, ops, answers, outside)
    ensures AllFit(input) ==> outside.None?
    ensures |answers| <= |ops|
    ensures var held := Track(ops[..|answers|], answers); Apart(held) && ReadsBack(held, mem)
    ensures AnswersOk(SortClasses(input), maps, ops, answers)
  {
    var a := new SizeClassAlloc(input, maps, debug);
    var held := map[];
    answers, outside := [], None;
    ghost var s := Initial(maps);
    FirstCarriers(a, maps);
    for n := 0 to |ops|
      invariant fresh(a) && a.classes == SortClasses(input) && |answers| == n
      invariant Serves(a, held) && s == State(a.carriers, a.slabs.Keys, held)
      invariant Story(a.classes, s, maps, ops, answers)
    {
      HeldApart(a, held);
      mem := a.mem;
      ghost var step := Step(a.classes, s, ops[n]);
      var o := Perform(a, held, ops[n], step);
      if o.Outside? {
        outside := Some((o.p, o.len));
        Stops(a.classes, s, maps, ops, answers, o.p, o.len);
        if AllFit(input) { FittingClassesNeverOverrun(input, Size(ops[n]), o.p, o.len); }
        return;
      }
      NextAnswerOk(a.classes, s, maps, ops, answers, o.answer);
      PlayNext(a.classes, s, maps, ops, n, step.0);
      StoryNext(a.classes, s, maps, ops, answers, o.answer, step.0);
      s := step.0;
      answers := answers + [o.answer];
      held := Next(held, ops[n], o.answer);
    }
    HeldApart(a, held);
    mem := a.mem;
  }

  lemma {:induction false} FirstCarriers(a: SizeClassAlloc, maps: seq<nat>)
    requires a.Valid() && |maps| == |a.classes|
    requires forall x :: x in a.slabs ==> x in maps
    requires |a.carriers| == |maps| && forall k :: 0 <= k < |maps| ==> a.carriers[k] == [maps[k]]
    ensures Initial(maps) == State(a.carriers, a.slabs.Keys, map[])
  {
    assert Initial(maps).carriers == a.carriers;
    forall m | m in maps
      ensures m in a.slabs
    {
      var k :| 0 <= k < |maps| && maps[k] == m;
      assert a.carriers[k][0] == m;
    }
    assert Initial(maps).keys == a.slabs.Keys;
  }

  // ---------- What an owner reads back ----------

  /** What the owner holds after the first `n` operations. */
  function HeldAt(ops: seq<Op>, answers: seq<Option<nat>>, n: nat): map<nat, Held>
    requires n <= |ops| && n <= |answers|
  {
    Track(ops[..n], answers[..n])
  }

  predicate Concerns(op: Op, x: nat) {
    !op.Allocate? && op.p == x
  }

  /** No operation is answered with a block that is held, but for a reallocation with its own. */
  ghost predicate AllNew(ops: seq<Op>, answers: seq<Option<nat>>) {
    && |answers| <= |ops|
    && forall k :: 0 <= k < |answers| && answers[k].Some? ==> New(HeldAt(ops, answers, k), ops[k], answers[k].value)
  }

  lemma {:induction false} HeldNext(ops: seq<Op>, answers: seq<Option<nat>>, n: nat)
    requires n < |ops| && n < |answers|
    ensures HeldAt(ops, answers, n + 1) == Next(HeldAt(ops, answers, n), ops[n], answers[n])
  {
    assert ops[..n + 1][..n] == ops[..n] && answers[..n + 1][..n] == answers[..n];
  }

  /** A block stays as it is while no operation concerns it. */
  lemma {:induction false} StaysHeld(ops: seq<Op>, answers: seq<Option<nat>>, i: nat, n: nat, x: nat)
    requires AllNew(ops, answers) && i <= n <= |answers|
    requires x in HeldAt(ops, answers, i) && forall k :: i <= k < n ==> !Concerns(ops[k], x)
    ensures x in HeldAt(ops, answers, n) && HeldAt(ops, answers, n)[x] == HeldAt(ops, answers, i)[x]
    decreases n - i
  {
    if i < n {
      StaysHeld(ops, answers, i, n - 1, x);
      HeldNext(ops, answers, n - 1);
    }
  }

  /** What was last written into a block is held. */
  lemma {:induction false} LastWriteIsHeld(ops: seq<Op>, answers: seq<Option<nat>>, i: nat, n: nat)
    requires AllNew(ops, answers) && i < n <= |answers| && ops[i].Write? && Allowed(HeldAt(ops, answers, i), ops[i])
    requires forall k :: i < k < n ==> !Concerns(ops[k], ops[i].p)
    ensures ops[i].p in HeldAt(ops, answers, n) && HeldAt(ops, answers, n)[ops[i].p].data == ops[i].data
  {
    HeldNext(ops, answers, i);
    StaysHeld(ops, answers, i + 1, n, ops[i].p);
  }

  /** A reallocated block has the new size, and as much of the old bytes as it has room for. */
  lemma {:induction false} ReallocatedIsHeld(ops: seq<Op>, answers: seq<Option<nat>>, i: nat, n: nat, q: nat)
    requires AllNew(ops, answers) && i < n <= |answers| && ops[i].Reallocate? && answers[i] == Some(q)
    requires ops[i].p in HeldAt(ops, answers, i) && forall k :: i < k < n ==> !Concerns(ops[k], q)
    ensures q in HeldAt(ops, answers, n)
    ensures var before, after := HeldAt(ops, answers, i)[ops[i].p], HeldAt(ops, answers, n)[q];
      && after.size == ops[i].newSize
      && after.data <= before.data && |after.data| <= after.size
      && (|after.data| == after.size || after.data == before.data)
  {
    HeldNext(ops, answers, i);
    StaysHeld(ops, answers, i + 1, n, q);
  }

  /** So after every run, what was last written into a block is what memory holds there. */
  lemma {:induction false} LastWriteIsRead(classes: seq<SizeClass>, maps: seq<nat>, ops: seq<Op>,
                                           answers: seq<Option<nat>>, mem: map<nat, Byte>, i: nat)
    requires |answers| <= |ops| && AnswersOk(classes, maps, ops, answers)
    requires ReadsBack(Track(ops[..|answers|], answers), mem)
    requires i < |answers| && ops[i].Write? && Allowed(HeldAt(ops, answers, i), ops[i])
    requires forall k :: i < k < |answers| ==> !Concerns(ops[k], ops[i].p)
    ensures Load(mem, ops[i].p, |ops[i].data|) == ops[i].data
  {
    forall k | 0 <= k < |answers| && answers[k].Some?
      ensures New(HeldAt(ops, answers, k), ops[k], answers[k].value)
    {
      assert AnswerOk(classes, maps, ops, answers, k);
    }
    assert answers[..|answers|] == answers;
    LastWriteIsHeld(ops, answers, i, |answers|);
  }
}
