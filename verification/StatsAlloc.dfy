/**
  The statistics allocator's `GlobalAlloc` side, `liblumen_alloc/src/stats_alloc.rs`.
  The wrapped allocator's answers are parameters. Counters are 64-bit and wrap.
 */
module StatsAllocs {
  import opened Bits
  import opened Wrappers

  ghost function Sum(live: map<nat, nat>): nat {
    if live == map[] then 0 else
      var p :| p in live;
      live[p] + Sum(live - {p})
  }

  lemma {:induction false} SumWithout(live: map<nat, nat>, p: nat)
    requires p in live
    ensures Sum(live) == live[p] + Sum(live - {p})
    decreases |live|
  {
    var q :| q in live && Sum(live) == live[q] + Sum(live - {q});
    if p != q {
      SumWithout(live - {q}, p);
      SumWithout(live - {p}, q);
      assert live - {q} - {p} == live - {p} - {q};
    }
  }

  lemma {:induction false} SumWith(live: map<nat, nat>, p: nat, size: nat)
    requires p !in live
    ensures Sum(live[p := size]) == Sum(live) + size && |live[p := size]| == |live| + 1
  {
    SumWithout(live[p := size], p);
    assert live[p := size] - {p} == live;
    assert live[p := size].Keys == live.Keys + {p};
  }

  lemma CountWithout(live: map<nat, nat>, p: nat)
    requires p in live
    ensures |live - {p}| == |live| - 1
  {
    assert (live - {p}).Keys == live.Keys - {p};
  }

  /** Bytes and calls are conserved. */
  ghost predicate Balanced(alloced: nat, freed: nat, allocs: nat, deallocs: nat, live: map<nat, nat>) {
    alloced == freed + Sum(live) && allocs == deallocs + |live|
  }

  lemma {:induction false} AllocBalances(alloced: nat, freed: nat, allocs: nat, deallocs: nat, live: map<nat, nat>,
      p: nat, size: nat)
    requires Balanced(alloced, freed, allocs, deallocs, live) && p !in live
    ensures Balanced(alloced + size, freed, allocs + 1, deallocs, live[p := size])
  {
    SumWith(live, p, size);
  }

  lemma {:induction false} DeallocBalances(alloced: nat, freed: nat, allocs: nat, deallocs: nat, live: map<nat,
      nat>, p: nat)
    requires Balanced(alloced, freed, allocs, deallocs, live) && p in live
    ensures Balanced(alloced, freed + live[p], allocs, deallocs + 1, live - {p})
  {
    SumWithout(live, p);
    CountWithout(live, p);
  }

  lemma {:induction false} ReallocBalances(alloced: nat, freed: nat, allocs: nat, deallocs: nat, live: map<nat,
      nat>, p: nat, q: nat, size: nat)
    requires Balanced(alloced, freed, allocs, deallocs, live) && p in live && (q == p || q !in live)
    ensures alloced >= live[p]
    ensures Balanced(alloced - live[p] + size, freed, allocs, deallocs, (live - {p})[q := size])
  {
    SumWithout(live, p);
    CountWithout(live, p);
    SumWith(live - {p}, q, size);
  }

  lemma WrapsTogether(exact: int, word: int, delta: int)
    requires word == exact % TWO_64
    ensures (word + delta) % TWO_64 == (exact + delta) % TWO_64
  {
    ModShift(word + delta, exact / TWO_64, TWO_64);
  }

  datatype Counts = Counts(allocs: nat, deallocs: nat, reallocs: nat, alloced: nat, freed: nat) {
    /** Each is a 64-bit word. */
    predicate Words() {
      allocs < TWO_64 && deallocs < TWO_64 && reallocs < TWO_64 && alloced < TWO_64 && freed < TWO_64
    }
  }

  class StatsAlloc {
    var allocCalls: nat
    var deallocCalls: nat
    var reallocCalls: nat
    var totalBytesAlloced: nat
    var totalBytesFreed: nat
    /** The sizes recorded in the histogram, in order. */
    var histogram: seq<nat>

    /** The live blocks and their current sizes. */
    ghost var live: map<nat, nat>
    /** The totals without wrap-around: shrinking blocks never takes the first below the second. */
    ghost var alloced: nat
    ghost var freed: nat
    ghost var allocs: nat
    ghost var deallocs: nat

    ghost predicate Valid()
      reads this
    {
      && totalBytesAlloced == alloced % TWO_64 && totalBytesFreed == freed % TWO_64
      && allocCalls == allocs % TWO_64 && deallocCalls == deallocs % TWO_64 && Counters().Words()
      && Balanced(alloced, freed, allocs, deallocs, live)
    }

    function Counters(): Counts
      reads this
    {
      Counts(allocCalls, deallocCalls, reallocCalls, totalBytesAlloced, totalBytesFreed)
    }

    constructor ()
      ensures Valid() && live == map[] && histogram == []
      ensures allocCalls == deallocCalls == reallocCalls == totalBytesAlloced == totalBytesFreed == 0
    {
      allocCalls, deallocCalls, reallocCalls, totalBytesAlloced, totalBytesFreed := 0, 0, 0, 0, 0;
      histogram := [];
      live, alloced, freed, allocs, deallocs := map[], 0, 0, 0, 0;
    }

    /** `alloc`, where `answer` is what the wrapped allocator returns: nothing for a null pointer. */
    method Alloc(size: nat, answer: Option<nat>) returns (r: Option<nat>)
      requires Valid() && (answer.Some? ==> answer.value !in live)
      modifies this
      ensures Valid() && r == answer
      ensures live == if answer.Some? then old(live)[answer.value := size] else old(live)
      ensures histogram == if answer.Some? then old(histogram) + [size] else old(histogram)
      ensures answer.None? ==> Counters() == old(Counters())
      ensures answer.Some? ==>
        Counters() == old(Counters()).(allocs := (old(allocCalls) + 1) % TWO_64,
                                       alloced := (old(totalBytesAlloced) + size) % TWO_64)
    {
      r := answer;
      if answer.None? {
        return;
      }
      AllocBalances(alloced, freed, allocs, deallocs, live, answer.value, size);
      WrapsTogether(allocs, allocCalls, 1);
      WrapsTogether(alloced, totalBytesAlloced, size);
      allocCalls := (allocCalls + 1) % TWO_64;
      totalBytesAlloced := (totalBytesAlloced + size) % TWO_64;
      histogram := histogram + [size];
      live, alloced, allocs := live[answer.value := size], alloced + size, allocs + 1;
    }

    /** `realloc`: the block moves, stays or, when the wrapped allocator refuses, is left alone. */
    method Realloc(p: nat, oldSize: nat, newSize: nat, answer: Option<nat>) returns (r: Option<nat>)
      requires Valid() && p in live && live[p] == oldSize
      requires answer.Some? ==> answer.value == p || answer.value !in live
      modifies this
      ensures Valid() && r == answer
      ensures live == if answer.Some? then (old(live) - {p})[answer.value := newSize] else old(live)
      ensures histogram == if answer.Some? then old(histogram) + [newSize] else old(histogram)
      ensures answer.None? ==> Counters() == old(Counters())
      ensures answer.Some? ==>
        Counters() == old(Counters()).(reallocs := (old(reallocCalls) + 1) % TWO_64,
                                       alloced := (old(totalBytesAlloced) + newSize - oldSize) % TWO_64)
    {
      r := answer;
      if answer.None? {
        return;
      }
      ReallocBalances(alloced, freed, allocs, deallocs, live, p, answer.value, newSize);
      WrapsTogether(alloced, totalBytesAlloced, newSize - oldSize);
      reallocCalls := (reallocCalls + 1) % TWO_64;
      if oldSize < newSize {
        totalBytesAlloced := (totalBytesAlloced + (newSize - oldSize)) % TWO_64;
      } else {
        totalBytesAlloced := (totalBytesAlloced - (oldSize - newSize)) % TWO_64;
      }
      histogram := histogram + [newSize];
      live, alloced := (live - {p})[answer.value := newSize], alloced - oldSize + newSize;
    }

    /** `dealloc` with the layout of the live block. */
    method Dealloc(p: nat, size: nat)
      requires Valid() && p in live && live[p] == size
      modifies this
      ensures Valid() && live == old(live) - {p}
      ensures histogram == old(histogram)
      ensures Counters() == old(Counters()).(deallocs := (old(deallocCalls) + 1) % TWO_64,
                                             freed := (old(totalBytesFreed) + size) % TWO_64)
    {
      DeallocBalances(alloced, freed, allocs, deallocs, live, p);
      WrapsTogether(deallocs, deallocCalls, 1);
      WrapsTogether(freed, totalBytesFreed, size);
      deallocCalls := (deallocCalls + 1) % TWO_64;
      totalBytesFreed := (totalBytesFreed + size) % TWO_64;
      live, freed, deallocs := live - {p}, freed + size, deallocs + 1;
    }
  }

  // ---------- Every run ----------

  datatype Op =
    | Alloc(size: nat, answer: Option<nat>)
    | Realloc(p: nat, newSize: nat, answer: Option<nat>)
    | Dealloc(p: nat)

  /** Calls that a program can make: the block is live, and the answer is a new block. */
  predicate Possible(live: map<nat, nat>, op: Op) {
    match op
    case Alloc(_, answer) => answer.None? || answer.value !in live
    case Realloc(p, _, answer) => p in live && (answer.None? || answer.value == p || answer.value !in live)
    case Dealloc(p) => p in live
  }

  /** What a call does to the live blocks; an impossible one is skipped. */
  function Next(live: map<nat, nat>, op: Op): map<nat, nat> {
    if !Possible(live, op) then live else
    match op
    case Alloc(size, answer) => if answer.Some? then live[answer.value := size] else live
    case Realloc(p, newSize, answer) => if answer.Some? then (live - {p})[answer.value := newSize] else live
    case Dealloc(p) => live - {p}
  }

  function Run(ops: seq<Op>): map<nat, nat> {
    if ops == [] then map[] else Next(Run(ops[..|ops| - 1]), ops[|ops| - 1])
  }

  // ---------- What a run adds up to ----------

  /** A call that a program can make, and that the wrapped allocator did not refuse. */
  predicate Served(live: map<nat, nat>, op: Op) {
    Possible(live, op) && (op.Dealloc? || op.answer.Some?)
  }

  /** The sum of a number for each operation that was served. */
  function Tally(ops: seq<Op>, f: (map<nat, nat>, Op) -> int): int {
    if ops == [] then 0
    else
      var n := |ops| - 1;
      Tally(ops[..n], f) + if Served(Run(ops[..n]), ops[n]) then f(Run(ops[..n]), ops[n]) else 0
  }

  function IsAlloc(live: map<nat, nat>, op: Op): int {
    if op.Alloc? then 1 else 0
  }

  function IsRealloc(live: map<nat, nat>, op: Op): int {
    if op.Realloc? then 1 else 0
  }

  function IsDealloc(live: map<nat, nat>, op: Op): int {
    if op.Dealloc? then 1 else 0
  }

  function SizeAt(live: map<nat, nat>, p: nat): nat {
    if p in live then live[p] else 0
  }

  /** The bytes by which a call grows the blocks; fewer than none if it shrinks one. */
  function Growth(live: map<nat, nat>, op: Op): int {
    match op
    case Alloc(size, _) => size
    case Realloc(p, newSize, _) => newSize - SizeAt(live, p)
    case Dealloc(_) => 0
  }

  function Released(live: map<nat, nat>, op: Op): int {
    if op.Dealloc? then SizeAt(live, op.p) else 0
  }

  function RecordedBy(op: Op): seq<nat> {
    match op
    case Alloc(size, _) => [size]
    case Realloc(_, newSize, _) => [newSize]
    case Dealloc(_) => []
  }

  /** What is recorded in the histogram: the size of each block allocated or reallocated, in order. */
  function Recorded(ops: seq<Op>): seq<nat> {
    if ops == [] then []
    else
      var n := |ops| - 1;
      Recorded(ops[..n]) + if Served(Run(ops[..n]), ops[n]) then RecordedBy(ops[n]) else []
  }

  /** The counters after a run: calls and bytes of all calls served, modulo the width of a word. */
  function Totals(ops: seq<Op>): Counts {
    Counts(Tally(ops, IsAlloc) % TWO_64, Tally(ops, IsDealloc) % TWO_64, Tally(ops, IsRealloc) % TWO_64,
           Tally(ops, Growth) % TWO_64, Tally(ops, Released) % TWO_64)
  }

  /** Each counter moves by its number for the call, in 64-bit arithmetic. */
  function Charged(c: Counts, live: map<nat, nat>, op: Op): Counts {
    if !Served(live, op) then c
    else Counts((c.allocs + IsAlloc(live, op)) % TWO_64, (c.deallocs + IsDealloc(live, op)) % TWO_64,
                (c.reallocs + IsRealloc(live, op)) % TWO_64,
                (c.alloced + Growth(live, op)) % TWO_64, (c.freed + Released(live, op)) % TWO_64)
  }

  lemma {:induction false} TallyNext(ops: seq<Op>, n: nat, f: (map<nat, nat>, Op) -> int)
    requires n < |ops|
    ensures var live := Run(ops[..n]);
      Tally(ops[..n + 1], f) == Tally(ops[..n], f) + if Served(live, ops[n]) then f(live, ops[n]) else 0
  {
    assert ops[..n + 1][..n] == ops[..n];
  }

  lemma {:induction false} TotalsNext(ops: seq<Op>, n: nat)
    requires n < |ops|
    ensures Totals(ops[..n + 1]) == Charged(Totals(ops[..n]), Run(ops[..n]), ops[n])
  {
    var fs := [IsAlloc, IsDealloc, IsRealloc, Growth, Released];
    forall i | 0 <= i < 5
      ensures var live := Run(ops[..n]);
        Tally(ops[..n + 1], fs[i]) % TWO_64
        == if Served(live, ops[n]) then (Tally(ops[..n], fs[i]) % TWO_64 + fs[i](live, ops[n])) % TWO_64
           else Tally(ops[..n], fs[i]) % TWO_64
    {
      var f, live := fs[i], Run(ops[..n]);
      TallyNext(ops, n, f);
      WrapsTogether(Tally(ops[..n], f), Tally(ops[..n], f) % TWO_64, f(live, ops[n]));
    }
    assert fs[0] == IsAlloc && fs[1] == IsDealloc && fs[2] == IsRealloc && fs[3] == Growth && fs[4] == Released;
  }

  lemma {:induction false} NoChange(word: nat)
    requires word < TWO_64
    ensures (word + 0) % TWO_64 == word
  {
  }

  lemma {:induction false} ChargedFor(c: Counts, live: map<nat, nat>, op: Op)
    requires c.Words() && Served(live, op)
    ensures op.Alloc? ==>
      Charged(c, live, op) == c.(allocs := (c.allocs + 1) % TWO_64, alloced := (c.alloced + op.size) % TWO_64)
    ensures op.Realloc? ==>
      Charged(c, live, op)
      == c.(reallocs := (c.reallocs + 1) % TWO_64, alloced := (c.alloced + op.newSize - live[op.p]) % TWO_64)
    ensures op.Dealloc? ==>
      Charged(c, live, op) == c.(deallocs := (c.deallocs + 1) % TWO_64, freed := (c.freed + live[op.p]) % TWO_64)
  {
    NoChange(c.allocs);
    NoChange(c.deallocs);
    NoChange(c.reallocs);
    NoChange(c.alloced);
    NoChange(c.freed);
  }

  method PerformAlloc(stats: StatsAlloc, live: map<nat, nat>, op: Op, ghost before: Counts, ghost after: Counts)
    requires stats.Valid() && stats.live == live && before == stats.Counters() && op.Alloc? && Possible(live, op)
    requires after == Charged(before, live, op)
    modifies stats
    ensures stats.Valid() && stats.live == Next(live, op) && stats.Counters() == after
    ensures stats.histogram == old(stats.histogram) + if Served(live, op) then RecordedBy(op) else []
  {
    if Served(live, op) { ChargedFor(before, live, op); }
    var _ := stats.Alloc(op.size, op.answer);
  }

  method PerformRealloc(stats: StatsAlloc, live: map<nat, nat>, op: Op, ghost before: Counts, ghost after: Counts)
    requires stats.Valid() && stats.live == live && before == stats.Counters() && op.Realloc? && Possible(live, op)
    requires after == Charged(before, live, op)
    modifies stats
    ensures stats.Valid() && stats.live == Next(live, op) && stats.Counters() == after
    ensures stats.histogram == old(stats.histogram) + if Served(live, op) then RecordedBy(op) else []
  {
    if Served(live, op) { ChargedFor(before, live, op); }
    var _ := stats.Realloc(op.p, live[op.p], op.newSize, op.answer);
  }

  method PerformDealloc(stats: StatsAlloc, live: map<nat, nat>, op: Op, ghost before: Counts, ghost after: Counts)
    requires stats.Valid() && stats.live == live && before == stats.Counters() && op.Dealloc? && Possible(live, op)
    requires after == Charged(before, live, op)
    modifies stats
    ensures stats.Valid() && stats.live == Next(live, op) && stats.Counters() == after
    ensures stats.histogram == old(stats.histogram) + if Served(live, op) then RecordedBy(op) else []
  {
    if Served(live, op) { ChargedFor(before, live, op); }
    stats.Dealloc(op.p, live[op.p]);
  }

  method Perform(stats: StatsAlloc, live: map<nat, nat>, op: Op, ghost before: Counts, ghost after: Counts)
    requires stats.Valid() && stats.live == live && before == stats.Counters()
    requires after == Charged(before, live, op)
    modifies stats
    ensures stats.Valid() && stats.live == Next(live, op) && stats.Counters() == after
    ensures stats.histogram == old(stats.histogram) + if Served(live, op) then RecordedBy(op) else []
  {
    if !Possible(live, op) {
      return;
    }
    if op.Alloc? {
      PerformAlloc(stats, live, op, before, after);
    } else if op.Realloc? {
      PerformRealloc(stats, live, op, before, after);
    } else {
      PerformDealloc(stats, live, op, before, after);
    }
  }

  /** What the first `n` operations of a run come to. */
  ghost predicate After(ops: seq<Op>, n: nat, live: map<nat, nat>, counters: Counts, histogram: seq<nat>) {
    && n <= |ops| && live == Run(ops[..n])
    && counters == Totals(ops[..n]) && histogram == Recorded(ops[..n])
  }

  lemma {:induction false} AfterNext(ops: seq<Op>, n: nat, live: map<nat, nat>, counters: Counts, histogram: seq<nat>,
                                     counters': Counts, histogram': seq<nat>)
    requires n < |ops| && After(ops, n, live, counters, histogram)
    requires counters' == Charged(counters, live, ops[n])
    requires histogram' == histogram + if Served(live, ops[n]) then RecordedBy(ops[n]) else []
    ensures After(ops, n + 1, Next(live, ops[n]), counters', histogram')
  {
    assert ops[..n + 1][..n] == ops[..n];
    TotalsNext(ops, n);
  }

  method Replay(ops: seq<Op>) returns (stats: StatsAlloc)
    ensures stats.Valid() && After(ops, |ops|, stats.live, stats.Counters(), stats.histogram)
  {
    stats := new StatsAlloc();
    var live := map[];
    AfterNone(ops);
    for i := 0 to |ops|
      invariant stats.Valid() && stats.live == live && fresh(stats)
      invariant After(ops, i, live, stats.Counters(), stats.histogram)
    {
      ghost var before, recorded := stats.Counters(), stats.histogram;
      ghost var after := Charged(before, live, ops[i]);
      Perform(stats, live, ops[i], before, after);
      AfterNext(ops, i, live, before, recorded, after, stats.histogram);
      live := Next(live, ops[i]);
    }
  }

  /**
    Over every run the counters are the calls served and their bytes, in 64-bit
    arithmetic, and account for the live blocks: bytes allocated minus bytes
    freed is their total size, and calls to `alloc` minus calls to `dealloc`
    their number.
   */
  method Account(ops: seq<Op>) returns (counters: Counts, histogram: seq<nat>)
    ensures counters == Totals(ops) && histogram == Recorded(ops)
    ensures (counters.alloced - counters.freed) % TWO_64 == Sum(Run(ops)) % TWO_64
    ensures (counters.allocs - counters.deallocs) % TWO_64 == |Run(ops)| % TWO_64
  {
    var stats := Replay(ops);
    assert ops[..|ops|] == ops;
    counters, histogram := stats.Counters(), stats.histogram;
    Accounts(stats);
  }

  /** The counters of any such allocator account for its live blocks. */
  lemma {:induction false} Accounts(stats: StatsAlloc)
    requires stats.Valid()
    ensures (stats.totalBytesAlloced - stats.totalBytesFreed) % TWO_64 == Sum(stats.live) % TWO_64
    ensures (stats.allocCalls - stats.deallocCalls) % TWO_64 == |stats.live| % TWO_64
  {
    Difference(stats.alloced, stats.freed, Sum(stats.live));
    Difference(stats.allocs, stats.deallocs, |stats.live|);
  }

  /** Without wrap-around, over every run: all bytes and calls are freed or still live. */
  lemma {:induction false} Conserved(ops: seq<Op>)
    ensures Tally(ops, Released) >= 0 && Tally(ops, Growth) == Tally(ops, Released) + Sum(Run(ops))
    ensures Tally(ops, IsDealloc) >= 0 && Tally(ops, IsAlloc) == Tally(ops, IsDealloc) + |Run(ops)|
  {
    if ops != [] {
      var n := |ops| - 1;
      var live, op := Run(ops[..n]), ops[n];
      Conserved(ops[..n]);
      if Served(live, op) { StepConserves(live, op); }
    }
  }

  lemma {:induction false} StepConserves(live: map<nat, nat>, op: Op)
    requires Served(live, op)
    ensures Sum(Next(live, op)) == Sum(live) + Growth(live, op) - Released(live, op)
    ensures |Next(live, op)| == |live| + IsAlloc(live, op) - IsDealloc(live, op)
  {
    match op
    case Alloc(size, answer) => SumWith(live, answer.value, size);
    case Realloc(p, newSize, answer) =>
      SumWithout(live, p);
      CountWithout(live, p);
      SumWith(live - {p}, answer.value, newSize);
    case Dealloc(p) =>
      SumWithout(live, p);
      CountWithout(live, p);
  }

  lemma {:induction false} AfterNone(ops: seq<Op>)
    ensures After(ops, 0, map[], Counts(0, 0, 0, 0, 0), [])
  {
  }

  lemma Difference(a: nat, f: nat, d: nat)
    requires a == f + d
    ensures (a % TWO_64 - f % TWO_64) % TWO_64 == d % TWO_64
  {
    ModShift(d, f / TWO_64 - a / TWO_64, TWO_64);
  }
}
