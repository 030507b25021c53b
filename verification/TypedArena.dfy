/**
  `TypedArena` of `compiler/intern/src/arena.rs`, for a type with a destructor
  and a non-zero size: a bump allocator over chunks of doubling capacity.
 */
module TypedArenas {
  import opened Bits
  import opened Wrappers
  import opened ArenaGrowth
  import opened Memory

  /** One slot of raw storage. Objects are numbered in the order of their allocation. */
  datatype Cell<T> = Raw | Live(value: T, serial: nat) | Dropped

  /** A chunk is a buffer at some address; its capacity is the number of slots. */
  datatype Chunk<T> = Chunk(start: nat, cells: seq<Cell<T>>) {
    function Capacity(): nat { |cells| }
  }

  // ---------- The numbers of live objects ----------

  function Serials<T>(cells: seq<Cell<T>>): seq<nat> {
    if cells == [] then []
    else Serials(cells[..|cells| - 1]) + if cells[|cells| - 1].Live? then [cells[|cells| - 1].serial] else []
  }

  function LiveSerials<T>(chunks: seq<Chunk<T>>): seq<nat> {
    if chunks == [] then []
    else LiveSerials(chunks[..|chunks| - 1]) + Serials(chunks[|chunks| - 1].cells)
  }

  /** The numbers from `lo` up to but not including `hi`. */
  function Range(lo: nat, hi: nat): seq<nat> {
    if hi <= lo then [] else Range(lo, hi - 1) + [hi - 1]
  }

  /** The log holds each number below `n` exactly once, and nothing else. */
  ghost predicate EachOnce(log: seq<nat>, n: nat) {
    forall k: nat :: multiset(log)[k] == if k < n then 1 else 0
  }

  lemma {:induction false} RangeCounts(lo: nat, hi: nat, k: nat)
    ensures multiset(Range(lo, hi))[k] == if lo <= k < hi then 1 else 0
  {
    if lo < hi { RangeCounts(lo, hi - 1, k); }
  }

  lemma {:induction false} RangeLength(lo: nat, hi: nat)
    requires lo <= hi
    ensures |Range(lo, hi)| == hi - lo
  {
    if lo < hi { RangeLength(lo, hi - 1); }
  }

  /** Logging the numbers from `m` up to `n`, in any order, completes the log. */
  lemma LogCompletes(log: seq<nat>, more: seq<nat>, m: nat, n: nat)
    requires m <= n && EachOnce(log, m) && multiset(more) == multiset(Range(m, n))
    ensures EachOnce(log + more, n)
  {
    forall k: nat
      ensures multiset(log + more)[k] == if k < n then 1 else 0
    {
      RangeCounts(m, n, k);
    }
  }

  lemma {:induction false} SerialsAppend<T>(a: seq<Cell<T>>, b: seq<Cell<T>>)
    ensures Serials(a + b) == Serials(a) + Serials(b)
  {
    if b == [] {
      assert a + b == a;
    } else {
      assert (a + b)[..|a + b| - 1] == a + b[..|b| - 1];
      SerialsAppend(a, b[..|b| - 1]);
    }
  }

  lemma {:induction false} NoneLive<T>(cells: seq<Cell<T>>)
    requires forall i :: 0 <= i < |cells| ==> !cells[i].Live?
    ensures Serials(cells) == []
  {
    if cells != [] { NoneLive(cells[..|cells| - 1]); }
  }

  /** Only the first `k` slots matter when the rest are not live. */
  lemma SerialsOfPrefix<T>(cells: seq<Cell<T>>, k: nat)
    requires k <= |cells| && forall i :: k <= i < |cells| ==> !cells[i].Live?
    ensures Serials(cells) == Serials(cells[..k])
  {
    assert cells == cells[..k] + cells[k..];
    SerialsAppend(cells[..k], cells[k..]);
    NoneLive(cells[k..]);
  }

  /** Writing object number `n` into the first slot that is not live. */
  lemma SerialsWrite<T>(cells: seq<Cell<T>>, k: nat, x: T, n: nat)
    requires k < |cells| && forall i :: k <= i < |cells| ==> !cells[i].Live?
    ensures Serials(cells[k := Live(x, n)]) == Serials(cells) + [n]
  {
    var after := cells[k := Live(x, n)];
    SerialsOfPrefix(cells, k);
    SerialsOfPrefix(after, k + 1);
    assert after[..k + 1][..k] == cells[..k];
  }

  // ---------- Capacities ----------

  /** The capacity of the last chunk, 0 when there is none, and how much of it is used. */
  datatype Shape = Shape(last: nat, used: nat)

  function LastCapacity<T>(chunks: seq<Chunk<T>>): nat {
    if chunks == [] then 0 else chunks[|chunks| - 1].Capacity()
  }

  /** The capacity that `grow(n)` asks for. */
  function NewCapacity(shape: Shape, n: nat, size: nat): Option<nat>
    requires size > 0
  {
    if shape.last == 0 then Some(if n > PAGE / size then n else PAGE / size)
    else Doubled(shape.last, shape.used + n)
  }

  /** `grow` panics only when doubling overflows, or when the buffer would be too large to allocate. */
  predicate CanGrow(shape: Shape, n: nat, size: nat, grant: Grant)
    requires size > 0
  {
    var capacity := NewCapacity(shape, n, size);
    capacity.Some? && Elem(0, capacity.value + grant.extra, size) <= ISIZE_MAX
  }

  /** Whether `alloc` succeeds. */
  predicate Accepts(shape: Shape, size: nat, grant: Grant)
    requires size > 0
  {
    shape.used < shape.last || CanGrow(shape, 1, size, grant)
  }

  /** The shape after `alloc`. */
  function Taken(shape: Shape, size: nat, grant: Grant): Shape
    requires size > 0
  {
    if shape.used < shape.last then shape.(used := shape.used + 1)
    else if CanGrow(shape, 1, size, grant) then Shape(NewCapacity(shape, 1, size).value + grant.extra, 1)
    else shape
  }

  // ---------- The state of the chunks ----------

  /** Exactly the first `k` slots are live. */
  ghost predicate LiveUpTo<T>(cells: seq<Cell<T>>, k: nat) {
    k <= |cells| && forall i :: 0 <= i < |cells| ==> (cells[i].Live? <==> i < k)
  }

  /** Live slots hold the object they were created with. */
  ghost predicate Holds<T>(cells: seq<Cell<T>>, created: seq<T>) {
    forall i :: 0 <= i < |cells| && cells[i].Live? ==>
      cells[i].serial < |created| && cells[i].value == created[cells[i].serial]
  }

  /** Every chunk but the last is full, and the last is filled up to `used`. */
  ghost predicate Filled<T>(chunks: seq<Chunk<T>>, used: nat) {
    && (forall c :: 0 <= c < |chunks| - 1 ==> LiveUpTo(chunks[c].cells, chunks[c].Capacity()))
    && (if chunks == [] then used == 0 else LiveUpTo(chunks[|chunks| - 1].cells, used))
  }

  ghost predicate Intact<T>(chunks: seq<Chunk<T>>, created: seq<T>) {
    forall c :: 0 <= c < |chunks| ==> chunks[c].Capacity() > 0 && Holds(chunks[c].cells, created)
  }

  /**
    The first `gone` objects have been destroyed, each exactly once; the others
    are live, in the order of their creation.
   */
  ghost predicate Inv<T>(chunks: seq<Chunk<T>>, used: nat, destroyed: seq<nat>, gone: nat, created: seq<T>) {
    && Filled(chunks, used) && Intact(chunks, created)
    && gone <= |created|
    && LiveSerials(chunks) == Range(gone, |created|)
    && EachOnce(destroyed, gone)
  }

  lemma PushRawKeeps<T>(chunks: seq<Chunk<T>>, used: nat, destroyed: seq<nat>, gone: nat, created: seq<T>,
                        chunk: Chunk<T>)
    requires Inv(chunks, used, destroyed, gone, created)
    requires chunks != [] ==> used == chunks[|chunks| - 1].Capacity()
    requires chunk.Capacity() > 0 && LiveUpTo(chunk.cells, 0)
    ensures Inv(chunks + [chunk], 0, destroyed, gone, created)
  {
    NoneLive(chunk.cells);
    assert (chunks + [chunk])[..|chunks|] == chunks;
  }

  /** A single emptied chunk, when everything has been destroyed. */
  lemma {:induction false} ResetKeeps<T>(last: Chunk<T>, destroyed: seq<nat>, created: seq<T>)
    requires last.Capacity() > 0 && LiveUpTo(last.cells, 0) && EachOnce(destroyed, |created|)
    ensures LiveSerials([last]) == [] && Inv([last], 0, destroyed, |created|, created)
  {
    NoneLive(last.cells);
    assert [last][..0] == [];
    RangeLength(|created|, |created|);
  }

  /** The chunks after writing a new object into the next slot. */
  function Written<T>(chunks: seq<Chunk<T>>, used: nat, x: T, n: nat): seq<Chunk<T>>
    requires chunks != [] && used < chunks[|chunks| - 1].Capacity()
  {
    var last := chunks[|chunks| - 1];
    chunks[|chunks| - 1 := last.(cells := last.cells[used := Live(x, n)])]
  }

  lemma {:induction false} WriteSerials<T>(chunks: seq<Chunk<T>>, used: nat, x: T, n: nat)
    requires Filled(chunks, used)
    requires chunks != [] && used < chunks[|chunks| - 1].Capacity()
    ensures LiveSerials(Written(chunks, used, x, n)) == LiveSerials(chunks) + [n]
  {
    var after, l := Written(chunks, used, x, n), |chunks| - 1;
    SerialsWrite(chunks[l].cells, used, x, n);
    assert after[..l] == chunks[..l];
    assert after[l].cells == chunks[l].cells[used := Live(x, n)];
  }

  lemma {:induction false} WriteFills<T>(chunks: seq<Chunk<T>>, used: nat, x: T, n: nat)
    requires Filled(chunks, used)
    requires chunks != [] && used < chunks[|chunks| - 1].Capacity()
    ensures Filled(Written(chunks, used, x, n), used + 1)
  {
  }

  lemma {:induction false} WriteHolds<T>(cells: seq<Cell<T>>, created: seq<T>, k: nat, x: T)
    requires Holds(cells, created) && k < |cells|
    ensures Holds(cells, created + [x]) && Holds(cells[k := Live(x, |created|)], created + [x])
  {
  }

  lemma {:induction false} WriteKeeps<T>(chunks: seq<Chunk<T>>, used: nat, destroyed: seq<nat>, gone: nat,
      created: seq<T>, x: T)
    requires Inv(chunks, used, destroyed, gone, created)
    requires chunks != [] && used < chunks[|chunks| - 1].Capacity()
    ensures Inv(Written(chunks, used, x, |created|), used + 1, destroyed, gone, created + [x])
  {
    var after := Written(chunks, used, x, |created|);
    WriteSerials(chunks, used, x, |created|);
    WriteFills(chunks, used, x, |created|);
    forall c | 0 <= c < |after|
      ensures after[c].Capacity() > 0 && Holds(after[c].cells, created + [x])
    {
      WriteHolds(chunks[c].cells, created, if c == |chunks| - 1 then used else 0, x);
    }
  }

  /** The new capacity has room for the request. */
  lemma CapacityHasRoom(shape: Shape, n: nat, size: nat)
    requires size > 0 && n > 0 && NewCapacity(shape, n, size).Some?
    ensures NewCapacity(shape, n, size).value >= n
    ensures NewCapacity(shape, n, size).value >= 2 * shape.last
  {
    if shape.last > 0 { DoubledHasRoom(shape.last, shape.used + n); }
  }

  /** `c` slots fill a page, or are as many as are needed; a later chunk doubles the one before it. */
  ghost predicate IsNewCapacity(shape: Shape, n: nat, size: nat, c: nat) {
    if shape.last == 0 then c >= n && (c + 1) * size > PAGE && (c == n || c * size <= PAGE)
    else IsDoubled(shape.last, shape.used + n, c)
  }

  lemma {:induction false} PageOfSlots(size: nat, c: nat)
    requires size > 0
    ensures c * size <= PAGE <==> c <= PAGE / size
  {
    var q := PAGE / size;
    assert q * size <= PAGE < q * size + size;
    if c <= q { MulMonotone(c, q, size); } else { MulMonotone(q + 1, c, size); }
  }

  lemma {:induction false} NewCapacityIs(shape: Shape, n: nat, size: nat, c: nat)
    requires size > 0
    ensures NewCapacity(shape, n, size) == Some(c) <==> IsNewCapacity(shape, n, size, c)
  {
    if shape.last == 0 {
      PageOfSlots(size, c);
      PageOfSlots(size, c + 1);
    } else {
      DoubledIs(shape.last, shape.used + n, c);
    }
  }

  /** The arena can grow if and only if that capacity exists, and its slots are no more bytes than can be allocated. */
  lemma {:induction false} CanGrowIff(shape: Shape, n: nat, size: nat, grant: Grant)
    requires size > 0
    ensures CanGrow(shape, n, size, grant) <==>
      exists c: nat :: IsNewCapacity(shape, n, size, c) && (c + grant.extra) * size <= ISIZE_MAX
  {
    var capacity := NewCapacity(shape, n, size);
    if capacity.Some? {
      NewCapacityIs(shape, n, size, capacity.value);
      ElemIsProduct(0, capacity.value + grant.extra, size);
    }
    forall c: nat | IsNewCapacity(shape, n, size, c)
      ensures capacity == Some(c)
    {
      NewCapacityIs(shape, n, size, c);
    }
  }

  class TypedArena<T> {
    const size: nat
    var ptr: nat
    var end: nat
    var chunks: seq<Chunk<T>>

    /** Every object ever handed to `Alloc`, and the numbers of those destroyed, in order. */
    var created: seq<T>
    var destroyed: seq<nat>
    /** Slots of the last chunk that have been handed out. */
    ghost var used: nat
    /** How many of the created objects have been destroyed. */
    ghost var gone: nat

    ghost predicate Pointers()
      reads this
    {
      && size > 0
      && (chunks == [] ==> ptr == end == 0)
      && (chunks != [] ==>
            && ptr == Elem(chunks[|chunks| - 1].start, used, size)
            && end == Elem(chunks[|chunks| - 1].start, chunks[|chunks| - 1].Capacity(), size))
    }

    ghost function ShapeOf(): Shape
      reads this
    {
      Shape(LastCapacity(chunks), used)
    }

    ghost predicate Valid()
      reads this
    {
      Pointers() && Inv(chunks, used, destroyed, gone, created)
    }

    constructor (size: nat)
      requires size > 0
      ensures Valid() && created == [] && destroyed == [] && chunks == [] && this.size == size
    {
      this.size := size;
      ptr, end, chunks := 0, 0, [];
      created, destroyed, used, gone := [], [], 0, 0;
    }

    /** The doubling loop of `grow`. */
    method GrownCapacity(n: nat) returns (r: Option<nat>)
      requires Valid() && n > 0
      ensures r == NewCapacity(ShapeOf(), n, size)
    {
      if chunks == [] {
        return Some(if n > PAGE / size then n else PAGE / size);
      }
      var last := chunks[|chunks| - 1];
      ElemIndex(last.start, used, size);
      var currentlyUsed := (ptr - last.start) / size;
      var newCapacity := last.Capacity();
      while true
        invariant newCapacity > 0
        invariant Doubled(newCapacity, used + n) == Doubled(last.Capacity(), used + n)
        decreases TWO_64 - newCapacity
      {
        if 2 * newCapacity >= TWO_64 {
          return None;
        }
        newCapacity := 2 * newCapacity;
        if newCapacity >= currentlyUsed + n {
          return Some(newCapacity);
        }
      }
    }

    /** `grow`: a new last chunk with room for `n` objects; fails only when the capacity overflows. */
    method Grow(n: nat, grant: Grant) returns (ok: bool)
      requires Valid() && ptr == end && n > 0
      modifies `ptr, `end, `chunks, `used
      ensures Valid()
      ensures ok <==> CanGrow(old(ShapeOf()), n, size, grant)
      ensures !ok ==> ptr == old(ptr) && end == old(end) && chunks == old(chunks) && used == old(used)
      ensures ok ==> |chunks| == |old(chunks)| + 1 && chunks[..|chunks| - 1] == old(chunks)
      ensures ok ==> ShapeOf() == Shape(NewCapacity(old(ShapeOf()), n, size).value + grant.extra, 0)
      ensures ok ==> n <= LastCapacity(chunks)
    {
      var newCapacity := GrownCapacity(n);
      if newCapacity.None? || Elem(0, newCapacity.value + grant.extra, size) > ISIZE_MAX {
        return false;
      }
      CapacityHasRoom(ShapeOf(), n, size);
      Push(grant.addr, newCapacity.value + grant.extra);
      ok := true;
    }

    /** Adds a raw chunk after a full one. */
    method Push(start: nat, capacity: nat)
      requires Valid() && ptr == end && capacity > 0
      modifies `ptr, `end, `chunks, `used
      ensures Valid() && |chunks| == |old(chunks)| + 1 && chunks[..|chunks| - 1] == old(chunks)
      ensures ShapeOf() == Shape(capacity, 0)
    {
      var chunk := Chunk(start, seq(capacity, _ => Raw));
      if chunks != [] { ElemInjective(chunks[|chunks| - 1].start, used, chunks[|chunks| - 1].Capacity(), size); }
      PushRawKeeps(chunks, used, destroyed, gone, created, chunk);
      ptr := chunk.start;
      end := Elem(chunk.start, chunk.Capacity(), size);
      chunks := chunks + [chunk];
      used := 0;
    }

    /** Grows the arena when the last chunk is full. */
    method Reserve(grant: Grant) returns (ok: bool)
      requires Valid()
      modifies `ptr, `end, `chunks, `used
      ensures Valid()
      ensures ok <==> Accepts(old(ShapeOf()), size, grant)
      ensures ok ==> used < LastCapacity(chunks) && ShapeOf().(used := used + 1) == Taken(old(ShapeOf()), size, grant)
      ensures !ok ==> ShapeOf() == old(ShapeOf())
    {
      assert ptr == end <==> used == LastCapacity(chunks) by {
        if chunks != [] { SlotsLeft(chunks[|chunks| - 1].start, used, chunks[|chunks| - 1].Capacity(), size); }
      }
      ok := true;
      if ptr == end {
        ok := Grow(1, grant);
      }
    }

    /** Writes an object to the next slot. */
    method Put(x: T)
      requires Valid() && used < LastCapacity(chunks)
      modifies `ptr, `chunks, `created, `used
      ensures Valid() && ShapeOf() == old(ShapeOf()).(used := old(used) + 1)
      ensures created == old(created) + [x]
    {
      var last := chunks[|chunks| - 1];
      ElemIndex(last.start, used, size);
      var slot := (ptr - last.start) / size;
      assert slot == used;
      WriteKeeps(chunks, used, destroyed, gone, created, x);
      ptr := ptr + size;
      chunks := Written(chunks, slot, x, |created|);
      created := created + [x];
      used := used + 1;
    }

    /** `alloc`: the object goes to the next slot, of a new chunk when the last one is full. */
    method Alloc(x: T, grant: Grant) returns (ok: bool)
      requires Valid()
      modifies this
      ensures Valid()
      ensures ok <==> Accepts(old(ShapeOf()), size, grant)
      ensures ShapeOf() == Taken(old(ShapeOf()), size, grant)
      ensures created == if ok then old(created) + [x] else old(created)
      ensures destroyed == old(destroyed) && gone == old(gone)
    {
      ok := Reserve(grant);
      if ok {
        Put(x);
      }
    }

    /** `drop_in_place`: the slot must hold an object, whose destructor runs. */
    method DropInPlace(cell: Cell<T>)
      requires cell.Live?
      modifies `destroyed
      ensures destroyed == old(destroyed) + [cell.serial]
    {
      destroyed := destroyed + [cell.serial];
    }

    /** `TypedArenaChunk::destroy`: runs the destructors of the first `len` slots. */
    method Destroy(chunk: Chunk<T>, len: nat) returns (after: Chunk<T>)
      requires LiveUpTo(chunk.cells, len)
      modifies `destroyed
      ensures destroyed == old(destroyed) + Serials(chunk.cells)
      ensures after.start == chunk.start && after.Capacity() == chunk.Capacity() && LiveUpTo(after.cells, 0)
    {
      after := chunk;
      for i := 0 to len
        invariant after.start == chunk.start && |after.cells| == |chunk.cells|
        invariant forall k :: 0 <= k < i ==> after.cells[k] == Dropped
        invariant forall k :: i <= k < |chunk.cells| ==> after.cells[k] == chunk.cells[k]
        invariant destroyed == old(destroyed) + Serials(chunk.cells[..i])
      {
        assert chunk.cells[..i + 1][..i] == chunk.cells[..i];
        DropInPlace(after.cells[i]);
        after := after.(cells := after.cells[i := Dropped]);
      }
      SerialsOfPrefix(chunk.cells, len);
    }

    /** Destroys the contents of the last chunk, filled up to the pointer, and resets the pointer. */
    method ClearLastChunk(last: Chunk<T>) returns (after: Chunk<T>)
      requires size > 0 && ptr == Elem(last.start, used, size) && LiveUpTo(last.cells, used)
      modifies `ptr, `destroyed
      ensures ptr == last.start
      ensures destroyed == old(destroyed) + Serials(last.cells)
      ensures after.start == last.start && after.Capacity() == last.Capacity() && LiveUpTo(after.cells, 0)
    {
      ElemIndex(last.start, used, size);
      var diff := (ptr - last.start) / size;
      after := Destroy(last, diff);
      ptr := last.start;
    }

    /** Destroys every chunk of `full`, each to its capacity. */
    method DestroyFull(full: seq<Chunk<T>>)
      requires forall c :: 0 <= c < |full| ==> LiveUpTo(full[c].cells, full[c].Capacity())
      modifies `destroyed
      ensures destroyed == old(destroyed) + LiveSerials(full)
    {
      for c := 0 to |full|
        invariant destroyed == old(destroyed) + LiveSerials(full[..c])
      {
        assert full[..c + 1][..c] == full[..c];
        var after := Destroy(full[c], full[c].Capacity());
      }
      assert full[..|full|] == full;
    }

    /** `clear`: destroys every object, and keeps the last chunk for reuse. */
    method Clear()
      requires Valid()
      modifies this
      ensures Valid() && created == old(created)
      ensures EachOnce(destroyed, |created|)
      ensures LiveSerials(chunks) == [] && |chunks| <= 1 && gone == |created|
      ensures ShapeOf() == Shape(old(LastCapacity(chunks)), 0)
    {
      if chunks == [] {
        RangeLength(gone, |created|);
        return;
      }
      var n := |chunks| - 1;
      var last := ClearLastChunk(chunks[n]);
      DestroyFull(chunks[..n]);
      AllLogged(chunks, old(destroyed), gone, created);
      assert destroyed == old(destroyed) + (Serials(chunks[n].cells) + LiveSerials(chunks[..n]));
      ResetKeeps(last, destroyed, created);
      chunks := [last];
      used, gone := 0, |created|;
    }

    /** `drop`: the last chunk goes first, then all the others; nothing is left alive. */
    method Drop()
      requires Valid()
      modifies this
      ensures created == old(created)
      ensures EachOnce(destroyed, |created|)
    {
      if chunks == [] {
        RangeLength(gone, |created|);
        return;
      }
      var n := |chunks| - 1;
      var last := ClearLastChunk(chunks[n]);
      DestroyFull(chunks[..n]);
      AllLogged(chunks, old(destroyed), gone, created);
      assert destroyed == old(destroyed) + (Serials(chunks[n].cells) + LiveSerials(chunks[..n]));
      chunks := chunks[..n];
    }
  }

  /** The pointers differ exactly when a slot is left. */
  lemma {:induction false} SlotsLeft(start: nat, used: nat, capacity: nat, size: nat)
    requires size > 0 && used <= capacity
    ensures Elem(start, used, size) == Elem(start, capacity, size) <==> used == capacity
  {
    if used < capacity { ElemsApart(start, used, capacity, size); }
  }

  lemma {:induction false} AllLogged<T>(chunks: seq<Chunk<T>>, destroyed: seq<nat>, gone: nat, created: seq<T>)
    requires chunks != [] && gone <= |created|
    requires LiveSerials(chunks) == Range(gone, |created|) && EachOnce(destroyed, gone)
    ensures var n := |chunks| - 1;
      EachOnce(destroyed + (Serials(chunks[n].cells) + LiveSerials(chunks[..n])), |created|)
  {
    var n := |chunks| - 1;
    LogCompletes(destroyed, Serials(chunks[n].cells) + LiveSerials(chunks[..n]), gone, |created|);
  }

  // ---------- Every run ----------

  datatype Op<T> = Alloc(x: T, grant: Grant) | Clear

  /** The shape after an operation. */
  function Next<T>(shape: Shape, size: nat, op: Op<T>): Shape
    requires size > 0
  {
    match op
    case Alloc(_, grant) => Taken(shape, size, grant)
    case Clear => Shape(shape.last, 0)
  }

  function ShapeAfter<T>(size: nat, ops: seq<Op<T>>): Shape
    requires size > 0
  {
    if ops == [] then Shape(0, 0) else Next(ShapeAfter(size, ops[..|ops| - 1]), size, ops[|ops| - 1])
  }

  /** The allocation that is operation `i` succeeds. */
  predicate Succeeds<T>(size: nat, ops: seq<Op<T>>, i: nat)
    requires size > 0 && i < |ops|
  {
    ops[i].Alloc? && Accepts(ShapeAfter(size, ops[..i]), size, ops[i].grant)
  }

  /** The objects that a run hands to the arena: those of the allocations that succeed. */
  function Handed<T>(size: nat, ops: seq<Op<T>>): seq<T>
    requires size > 0
  {
    if ops == [] then [] else
      var n := |ops| - 1;
      Handed(size, ops[..n]) + if Succeeds(size, ops, n) then [ops[n].x] else []
  }

  /** How many objects are destroyed after a run: all that were handed over before its last `Clear`. */
  function Gone<T>(size: nat, ops: seq<Op<T>>): nat
    requires size > 0
  {
    if ops == [] then 0
    else if ops[|ops| - 1].Clear? then |Handed(size, ops)|
    else Gone(size, ops[..|ops| - 1])
  }

  /** The allocations that succeed so far are the specified ones. */
  ghost predicate OksOk<T>(size: nat, ops: seq<Op<T>>, oks: seq<bool>)
    requires size > 0
  {
    |oks| <= |ops| && forall i :: 0 <= i < |oks| ==> oks[i] == Succeeds(size, ops, i)
  }

  /** The log after each operation holds each object destroyed by then once. */
  ghost predicate LogsOk<T>(size: nat, ops: seq<Op<T>>, logs: seq<seq<nat>>)
    requires size > 0
  {
    |logs| <= |ops| && forall i :: 0 <= i < |logs| ==> EachOnce(logs[i], Gone(size, ops[..i + 1]))
  }

  /** What an arena is like after the first `n` operations. */
  ghost predicate After<T>(size: nat, ops: seq<Op<T>>, n: nat, shape: Shape, created: seq<T>, gone: nat)
    requires size > 0
  {
    && n <= |ops| && shape == ShapeAfter(size, ops[..n])
    && created == Handed(size, ops[..n]) && gone == Gone(size, ops[..n])
  }

  lemma {:induction false} AfterNext<T>(size: nat, ops: seq<Op<T>>, n: nat, shape: Shape, created: seq<T>, gone: nat,
                                        ok: bool, shape': Shape, created': seq<T>, gone': nat)
    requires size > 0 && n < |ops| && After(size, ops, n, shape, created, gone)
    requires shape' == Next(shape, size, ops[n])
    requires ok <==> ops[n].Alloc? && Accepts(shape, size, ops[n].grant)
    requires created' == created + if ok then [ops[n].x] else []
    requires gone' == if ops[n].Clear? then |created'| else gone
    ensures After(size, ops, n + 1, shape', created', gone') && ok == Succeeds(size, ops, n)
  {
    assert ops[..n + 1][..n] == ops[..n];
  }

  lemma {:induction false} LogsNext<T>(size: nat, ops: seq<Op<T>>, oks: seq<bool>, ok: bool, logs: seq<seq<nat>>,
                                       log: seq<nat>)
    requires size > 0 && |oks| == |logs| < |ops| && OksOk(size, ops, oks) && LogsOk(size, ops, logs)
    requires ok == Succeeds(size, ops, |oks|) && EachOnce(log, Gone(size, ops[..|logs| + 1]))
    ensures OksOk(size, ops, oks + [ok]) && LogsOk(size, ops, logs + [log])
  {
  }

  method Perform<T>(arena: TypedArena<T>, op: Op<T>) returns (ok: bool)
    requires arena.Valid()
    modifies arena
    ensures arena.Valid() && arena.ShapeOf() == Next(old(arena.ShapeOf()), arena.size, op)
    ensures ok <==> op.Alloc? && Accepts(old(arena.ShapeOf()), arena.size, op.grant)
    ensures arena.created == old(arena.created) + if ok then [op.x] else []
    ensures arena.gone == if op.Clear? then |arena.created| else old(arena.gone)
  {
    ok := false;
    match op {
      case Alloc(x, grant) => ok := arena.Alloc(x, grant);
      case Clear => arena.Clear();
    }
  }

  /**
    Over the whole life of an arena (any allocations and clears, whatever the
    system allocator grants, then the final drop) an allocation fails only when
    the arena cannot grow, no object is destroyed before the next clear or the
    drop, and each object handed over is destroyed exactly once.
   */
  method Lifetime<T>(size: nat, ops: seq<Op<T>>)
      returns (oks: seq<bool>, created: seq<T>, logs: seq<seq<nat>>, destroyed: seq<nat>)
    requires size > 0
    ensures |oks| == |logs| == |ops| && OksOk(size, ops, oks) && LogsOk(size, ops, logs)
    ensures created == Handed(size, ops)
    ensures EachOnce(destroyed, |created|)
  {
    var arena := new TypedArena<T>(size);
    oks, logs := [], [];
    for n := 0 to |ops|
      invariant arena.Valid() && fresh(arena) && arena.size == size
      invariant After(size, ops, n, arena.ShapeOf(), arena.created, arena.gone)
      invariant |oks| == |logs| == n && OksOk(size, ops, oks) && LogsOk(size, ops, logs)
    {
      ghost var shape, before, gone := arena.ShapeOf(), arena.created, arena.gone;
      var ok := Perform(arena, ops[n]);
      AfterNext(size, ops, n, shape, before, gone, ok, arena.ShapeOf(), arena.created, arena.gone);
      LogsNext(size, ops, oks, ok, logs, arena.destroyed);
      oks, logs := oks + [ok], logs + [arena.destroyed];
    }
    assert ops[..|ops|] == ops;
    arena.Drop();
    created, destroyed := arena.created, arena.destroyed;
  }
}
