/**
  `DroplessArena` of `compiler/intern/src/arena.rs`: a bump allocator of raw
  bytes. Memory is flat, so that regions handed out at different times can be
  compared by address.
 */
module DroplessArenas {
  import opened Bits
  import opened Wrappers
  import opened ArenaGrowth
  import opened Memory

  datatype Span = Span(start: nat, len: nat) {
    function End(): nat { start + len }

    predicate Apart(other: Span) {
      End() <= other.start || other.End() <= start
    }

    predicate Within(outer: Span) {
      outer.start <= start && End() <= outer.End()
    }
  }

  /** A region handed out, the chunk it lies in, and the bytes copied into it. */
  datatype Region = Region(span: Span, chunk: nat, data: seq<Byte>)

  const ADDRESS_LIMIT: nat := TWO_64 / 2

  /** `(p + align - 1) & !(align - 1)` for `align == 2^k`. */
  function AlignUp(p: nat, k: nat): (r: nat)
    requires k <= 62 && p <= ADDRESS_LIMIT
    ensures p <= r <= ADDRESS_LIMIT
    ensures p == 0 || k == 0 ==> r == p
  {
    AlignMask(p, k);
    And(p + Pow2(k) - 1, TWO_64 - Pow2(k))
  }

  /** The mask clears the low bits: what is left is a multiple `h` of the alignment, just above `p`. */
  lemma {:induction false} MaskRoundsUp(p: nat, k: nat) returns (h: nat)
    requires k <= 62 && p <= ADDRESS_LIMIT
    ensures Pow2(k) < ADDRESS_LIMIT
    ensures And(p + Pow2(k) - 1, TWO_64 - Pow2(k)) == h * Pow2(k)
    ensures p <= h * Pow2(k) < p + Pow2(k)
  {
    var q := p + Pow2(k) - 1;
    WordSizes();
    Pow2Monotone(k, 62);
    AndHighBits(q, k, 64);
    LowHigh(q, k);
    h := High(q, k);
  }

  lemma {:induction false} AlignMask(p: nat, k: nat)
    requires k <= 62 && p <= ADDRESS_LIMIT
    ensures Pow2(k) <= TWO_64
    ensures p <= And(p + Pow2(k) - 1, TWO_64 - Pow2(k)) <= ADDRESS_LIMIT
    ensures p == 0 || k == 0 ==> And(p + Pow2(k) - 1, TWO_64 - Pow2(k)) == p
  {
    var h := MaskRoundsUp(p, k);
    WordSizes();
    Pow2Add(63 - k, k);
    MultiplesApart(h, Pow2(63 - k), Pow2(k));
    if p == 0 { MultiplesApart(h, 0, Pow2(k)); }
  }

  /** Aligned pointers are the least multiples of the alignment that are not below the pointer. */
  lemma {:induction false} AlignUpSpec(p: nat, k: nat)
    requires k <= 62 && p <= ADDRESS_LIMIT
    ensures AlignUp(p, k) % Pow2(k) == 0
    ensures p <= AlignUp(p, k) < p + Pow2(k)
  {
    var h := MaskRoundsUp(p, k);
    DivModUnique(h * Pow2(k), Pow2(k), h, 0);
  }

  lemma MultiplesApart(i: nat, j: nat, m: nat)
    requires m > 0 && i * m < j * m + m
    ensures i * m <= j * m
  {
    if i > j { MulMonotone(j + 1, i, m); }
  }

  // ---------- Chunks, regions and memory ----------

  /** The chunks do not overlap, and lie in the lower half of the address space. */
  ghost predicate Disjoint(chunks: seq<Span>) {
    && (forall c :: 0 <= c < |chunks| ==> 0 < chunks[c].start && 0 < chunks[c].len && chunks[c].End() <= ISIZE_MAX)
    && (forall c, d :: 0 <= c < d < |chunks| ==> chunks[c].Apart(chunks[d]))
  }

  /** Every region lies in its chunk; in the last chunk, below the pointer. */
  ghost predicate Placed(chunks: seq<Span>, ptr: nat, regions: seq<Region>) {
    forall r :: 0 <= r < |regions| ==>
      && regions[r].chunk < |chunks|
      && 0 < regions[r].span.len == |regions[r].data|
      && regions[r].span.Within(chunks[regions[r].chunk])
      && (regions[r].chunk == |chunks| - 1 ==> regions[r].span.End() <= ptr)
  }

  ghost predicate Separate(regions: seq<Region>) {
    forall q, r :: 0 <= q < r < |regions| ==> regions[q].span.Apart(regions[r].span)
  }

  ghost predicate Reads(mem: map<nat, Byte>, span: Span, data: seq<Byte>) {
    span.len == |data| && forall k :: span.start <= k < span.End() ==> k in mem && mem[k] == data[k - span.start]
  }

  /** Every region still holds its bytes. */
  ghost predicate Kept(mem: map<nat, Byte>, regions: seq<Region>) {
    forall r :: 0 <= r < |regions| ==> Reads(mem, regions[r].span, regions[r].data)
  }

  /** The granted chunk is memory that the arena does not yet own. */
  predicate Granted(chunks: seq<Span>, span: Span) {
    0 < span.start && span.End() <= ISIZE_MAX && forall c :: 0 <= c < |chunks| ==> chunks[c].Apart(span)
  }

  /** The capacity that `grow(n)` asks for, given how much of the last chunk is used. */
  function NextCapacity(chunks: seq<Span>, used: nat, n: nat): Option<nat>
    requires chunks != [] ==> chunks[|chunks| - 1].len > 0
  {
    if chunks == [] then Some(if n > PAGE then n else PAGE)
    else Doubled(chunks[|chunks| - 1].len, used + n)
  }

  /** The bytes of the last chunk below the pointer. */
  function Used(chunks: seq<Span>, ptr: nat): nat
    requires chunks != [] ==> chunks[|chunks| - 1].start <= ptr
  {
    if chunks == [] then 0 else ptr - chunks[|chunks| - 1].start
  }

  /** `grow` succeeds unless doubling overflows or the chunk would be too large to allocate. */
  predicate Room(chunks: seq<Span>, ptr: nat, n: nat, grant: Grant)
    requires chunks != [] ==> chunks[|chunks| - 1].start <= ptr && chunks[|chunks| - 1].len > 0
  {
    var capacity := NextCapacity(chunks, Used(chunks, ptr), n);
    capacity.Some? && capacity.value + grant.extra <= ISIZE_MAX
  }

  /**
    When an allocation succeeds: it asks for something, the aligned pointer has
    not left the chunk, and the request fits below the end or the arena can grow.
   */
  predicate Accepts(chunks: seq<Span>, ptr: nat, end: nat, n: nat, k: nat, grant: Grant)
    requires k <= 62 && ptr <= ADDRESS_LIMIT
    requires chunks != [] ==> chunks[|chunks| - 1].start <= ptr && chunks[|chunks| - 1].len > 0
  {
    var p := AlignUp(ptr, k);
    n > 0 && p <= end && (p + n < end || Room(chunks, p, n, grant))
  }

  /** What the system allocator promises about the chunk that `grow(n)` would ask for. */
  predicate Honest(chunks: seq<Span>, ptr: nat, n: nat, grant: Grant)
    requires chunks != [] ==> chunks[|chunks| - 1].start <= ptr && chunks[|chunks| - 1].len > 0
  {
    Room(chunks, ptr, n, grant) ==>
      Granted(chunks, Span(grant.addr, NextCapacity(chunks, Used(chunks, ptr), n).value + grant.extra))
  }

  /** The chunks and the next free address: all that decides how requests are answered. */
  datatype Shape = Shape(chunks: seq<Span>, ptr: nat) {
    function End(): nat {
      if chunks == [] then 0 else chunks[|chunks| - 1].End()
    }

    predicate Fine() {
      && (chunks != [] ==> chunks[|chunks| - 1].start <= ptr && chunks[|chunks| - 1].len > 0)
      && ptr <= ADDRESS_LIMIT && End() <= ISIZE_MAX
    }
  }

  /** The chunk that `grow(n)` adds. */
  function NewChunk(shape: Shape, n: nat, grant: Grant): Span
    requires shape.Fine() && Room(shape.chunks, shape.ptr, n, grant)
  {
    Span(grant.addr, NextCapacity(shape.chunks, Used(shape.chunks, shape.ptr), n).value + grant.extra)
  }

  /** Room for `n` bytes at the next free address: a request that would end at or past the end grows the arena. */
  function Reserved(shape: Shape, n: nat, grant: Grant): (Shape, bool)
    requires shape.Fine()
  {
    if shape.ptr + n < shape.End() then (shape, true)
    else if Room(shape.chunks, shape.ptr, n, grant) then
      (Shape(shape.chunks + [NewChunk(shape, n, grant)], grant.addr), true)
    else (shape, false)
  }

  /** The shape that `alloc_raw` leaves, and the address it returns. */
  function Taken(shape: Shape, n: nat, k: nat, grant: Grant): (Shape, Option<nat>)
    requires shape.Fine() && k <= 62
  {
    var aligned := shape.(ptr := AlignUp(shape.ptr, k));
    if n == 0 then (shape, None)
    // the assertion of `align` fails after the address has moved
    else if aligned.ptr > aligned.End() then (aligned, None)
    else
      var (after, ok) := Reserved(aligned, n, grant);
      Bumped(after, n, ok)
  }

  /** The next `n` bytes are handed out, if there is room for them. */
  function Bumped(shape: Shape, n: nat, ok: bool): (Shape, Option<nat>) {
    if ok then (shape.(ptr := shape.ptr + n), Some(shape.ptr)) else (shape, None)
  }

  lemma {:induction false} CapacityCovers(chunks: seq<Span>, used: nat, n: nat)
    requires chunks != [] ==> chunks[|chunks| - 1].len > 0
    requires NextCapacity(chunks, used, n).Some?
    ensures NextCapacity(chunks, used, n).value >= n
  {
    if chunks != [] { DoubledHasRoom(chunks[|chunks| - 1].len, used + n); }
  }

  /** A first chunk is a page, or as many bytes as are needed; a later one doubles the one before it. */
  ghost predicate IsNextCapacity(chunks: seq<Span>, used: nat, n: nat, c: nat) {
    if chunks == [] then c >= n && c >= PAGE && (c == n || c == PAGE)
    else IsDoubled(chunks[|chunks| - 1].len, used + n, c)
  }

  /** The arena can grow if and only if that capacity exists, and can be allocated; and that is what the chunk holds. */
  lemma {:induction false} RoomIff(shape: Shape, n: nat, grant: Grant)
    requires shape.Fine()
    ensures Room(shape.chunks, shape.ptr, n, grant) <==> exists c: nat ::
      IsNextCapacity(shape.chunks, Used(shape.chunks, shape.ptr), n, c) && c + grant.extra <= ISIZE_MAX
    ensures Room(shape.chunks, shape.ptr, n, grant) ==>
      && NewChunk(shape, n, grant).start == grant.addr && NewChunk(shape, n, grant).len >= grant.extra
      && IsNextCapacity(shape.chunks, Used(shape.chunks, shape.ptr), n, NewChunk(shape, n, grant).len - grant.extra)
  {
    var used := Used(shape.chunks, shape.ptr);
    var capacity := NextCapacity(shape.chunks, used, n);
    if capacity.Some? { NextCapacityIs(shape.chunks, used, n, capacity.value); }
    forall c: nat | IsNextCapacity(shape.chunks, used, n, c)
      ensures capacity == Some(c)
    {
      NextCapacityIs(shape.chunks, used, n, c);
    }
  }

  lemma {:induction false} NextCapacityIs(chunks: seq<Span>, used: nat, n: nat, c: nat)
    requires chunks != [] ==> chunks[|chunks| - 1].len > 0
    ensures NextCapacity(chunks, used, n) == Some(c) <==> IsNextCapacity(chunks, used, n, c)
  {
    if chunks != [] { DoubledIs(chunks[|chunks| - 1].len, used + n, c); }
  }

  /**
    A request is answered exactly when it is accepted, with the aligned address
    if it ends before the chunk does, and otherwise with the start of a new chunk.
   */
  lemma {:induction false} TakenSpec(shape: Shape, n: nat, k: nat, grant: Grant)
    requires shape.Fine() && k <= 62
    ensures var (after, r) := Taken(shape, n, k, grant);
      && (r.Some? <==> Accepts(shape.chunks, shape.ptr, shape.End(), n, k, grant))
      && (r.Some? ==> after.chunks != [] && after.ptr == r.value + n <= after.End())
      && (r.Some? ==>
            var p := AlignUp(shape.ptr, k);
            if p + n < shape.End() then r.value == p && after.chunks == shape.chunks
            else r.value == grant.addr && |after.chunks| == |shape.chunks| + 1
                 && after.chunks == shape.chunks + [NewChunk(shape.(ptr := p), n, grant)])
      && (AlignUp(shape.ptr, k) <= shape.End() ==> after.ptr <= after.End())
  {
    var aligned := shape.(ptr := AlignUp(shape.ptr, k));
    if Room(aligned.chunks, aligned.ptr, n, grant) {
      CapacityCovers(aligned.chunks, Used(aligned.chunks, aligned.ptr), n);
    }
  }

  /** A region of the last chunk at or above the next free address is apart from all the others. */
  lemma NewRegionApart(chunks: seq<Span>, ptr: nat, regions: seq<Region>, span: Span)
    requires Disjoint(chunks) && Placed(chunks, ptr, regions) && chunks != []
    requires ptr <= span.start && span.Within(chunks[|chunks| - 1])
    ensures forall r :: 0 <= r < |regions| ==> regions[r].span.Apart(span)
  {
    forall r | 0 <= r < |regions|
      ensures regions[r].span.Apart(span)
    {
      var c := regions[r].chunk;
      if c < |chunks| - 1 { assert chunks[c].Apart(chunks[|chunks| - 1]); }
    }
  }

  lemma StoreKeeps(mem: map<nat, Byte>, regions: seq<Region>, span: Span, data: seq<Byte>)
    requires Kept(mem, regions) && span.len == |data|
    requires forall r :: 0 <= r < |regions| ==> regions[r].span.Apart(span)
    ensures Kept(Store(mem, span.start, data), regions)
    ensures Reads(Store(mem, span.start, data), span, data)
  {
    var after := Store(mem, span.start, data);
    forall r | 0 <= r < |regions|
      ensures Reads(after, regions[r].span, regions[r].data)
    {
      assert regions[r].span.Apart(span) && Reads(mem, regions[r].span, regions[r].data);
    }
  }

  lemma PushKeeps(chunks: seq<Span>, ptr: nat, regions: seq<Region>, chunk: Span)
    requires Disjoint(chunks) && Placed(chunks, ptr, regions)
    requires 0 < chunk.len && Granted(chunks, chunk)
    ensures Disjoint(chunks + [chunk]) && Placed(chunks + [chunk], chunk.start, regions)
  {
  }

  lemma AddKeeps(chunks: seq<Span>, regions: seq<Region>, span: Span, data: seq<Byte>)
    requires Placed(chunks, span.End(), regions) && Separate(regions) && chunks != []
    requires span.Within(chunks[|chunks| - 1]) && 0 < span.len == |data|
    requires forall r :: 0 <= r < |regions| ==> regions[r].span.Apart(span)
    ensures Placed(chunks, span.End(), regions + [Region(span, |chunks| - 1, data)])
    ensures Separate(regions + [Region(span, |chunks| - 1, data)])
  {
  }

  lemma {:induction false} KeptNext(mem: map<nat, Byte>, regions: seq<Region>, region: Region)
    requires Kept(mem, regions) && Reads(mem, region.span, region.data)
    ensures Kept(mem, regions + [region])
  {
  }

  class DroplessArena {
    var ptr: nat
    var end: nat
    var chunks: seq<Span>
    var mem: map<nat, Byte>
    ghost var regions: seq<Region>

    /**
      The pointer may be past the end: that is how the arena is left by a failed
      alignment assertion.
     */
    ghost predicate Valid()
      reads this
    {
      && Disjoint(chunks) && Placed(chunks, ptr, regions) && Separate(regions) && Kept(mem, regions)
      && (if chunks == [] then ptr == end == 0
          else chunks[|chunks| - 1].start <= ptr && end == chunks[|chunks| - 1].End())
      && end <= ISIZE_MAX && ptr <= ADDRESS_LIMIT
    }

    ghost function ShapeOf(): Shape
      reads this
    {
      Shape(chunks, ptr)
    }

    constructor ()
      ensures Valid() && ptr == end == 0 && chunks == [] && regions == [] && mem == map[]
      ensures fresh(this)
    {
      ptr, end, chunks, mem, regions := 0, 0, [], map[], [];
    }

    /** `align`: moves the pointer, then asserts that it has not left the chunk. */
    method Align(k: nat) returns (ok: bool)
      requires Valid() && k <= 62
      modifies `ptr
      ensures Valid() && ptr == AlignUp(old(ptr), k) >= old(ptr)
      ensures ok <==> ptr <= end
    {
      ptr := AlignUp(ptr, k);
      ok := ptr <= end;
    }

    method GrownCapacity(n: nat) returns (r: Option<nat>)
      requires Valid()
      ensures r == NextCapacity(chunks, Used(chunks, ptr), n)
      ensures r.Some? ==> r.value >= n
    {
      if chunks == [] {
        return Some(if n > PAGE then n else PAGE);
      }
      var last := chunks[|chunks| - 1];
      var used := ptr - last.start;
      var newCapacity := last.len;
      while true
        invariant newCapacity > 0
        invariant Doubled(newCapacity, used + n) == Doubled(last.len, used + n)
        decreases TWO_64 - newCapacity
      {
        if 2 * newCapacity >= TWO_64 {
          return None;
        }
        newCapacity := 2 * newCapacity;
        if newCapacity >= used + n {
          return Some(newCapacity);
        }
      }
    }

    /** `grow`: a new last chunk with room for `n` bytes. */
    method Grow(n: nat, grant: Grant) returns (ok: bool)
      requires Valid() && n > 0 && Honest(chunks, ptr, n, grant)
      modifies `ptr, `end, `chunks
      ensures Valid()
      ensures ok <==> Room(old(chunks), old(ptr), n, grant)
      ensures !ok ==> ptr == old(ptr) && end == old(end) && chunks == old(chunks)
      ensures ok ==> ShapeOf() == Shape(old(chunks) + [NewChunk(old(ShapeOf()), n, grant)], grant.addr)
      ensures ok ==> ptr == chunks[|chunks| - 1].start && ptr + n <= end
    {
      var capacity := GrownCapacity(n);
      if capacity.None? || capacity.value + grant.extra > ISIZE_MAX {
        return false;
      }
      var chunk := Span(grant.addr, capacity.value + grant.extra);
      PushKeeps(chunks, ptr, regions, chunk);
      ptr := chunk.start;
      end := chunk.End();
      chunks := chunks + [chunk];
      ok := true;
    }

    method Reserve(n: nat, grant: Grant) returns (ok: bool)
      requires Valid() && n > 0 && ptr <= end && Honest(chunks, ptr, n, grant)
      modifies `ptr, `end, `chunks
      ensures Valid() && (ShapeOf(), ok) == Reserved(old(ShapeOf()), n, grant)
      ensures ok ==> chunks != [] && ptr + n <= end
    {
      ok := true;
      var futureEnd := ptr + n;
      if futureEnd >= end {
        ok := Grow(n, grant);
      }
    }

    /** `alloc_raw`: a region of `n` bytes, or a panic that leaves every earlier region as it was. */
    method AllocRaw(n: nat, k: nat, grant: Grant) returns (r: Option<nat>)
      requires Valid() && n <= ISIZE_MAX && k <= 62
      requires n > 0 ==> Honest(chunks, AlignUp(ptr, k), n, grant)
      modifies `ptr, `end, `chunks
      ensures Valid() && (ShapeOf(), r) == Taken(old(ShapeOf()), n, k, grant)
      ensures r.Some? ==>
        && chunks != [] && Span(r.value, n).Within(chunks[|chunks| - 1])
        && ptr == r.value + n <= end
        && forall q :: 0 <= q < |regions| ==> regions[q].span.Apart(Span(r.value, n))
    {
      if n == 0 {
        return None;
      }
      var aligned := Align(k);
      if !aligned {
        return None;
      }
      r := Carve(n, grant);
    }

    method Carve(n: nat, grant: Grant) returns (r: Option<nat>)
      requires Valid() && n > 0 && ptr <= end && Honest(chunks, ptr, n, grant)
      modifies `ptr, `end, `chunks
      ensures Valid()
      ensures var (after, ok) := Reserved(old(ShapeOf()), n, grant); (ShapeOf(), r) == Bumped(after, n, ok)
      ensures r.Some? ==>
        && chunks != [] && Span(r.value, n).Within(chunks[|chunks| - 1])
        && ptr == r.value + n <= end
        && forall q :: 0 <= q < |regions| ==> regions[q].span.Apart(Span(r.value, n))
    {
      var reserved := Reserve(n, grant);
      if !reserved {
        return None;
      }
      var p := Bump(n);
      r := Some(p);
    }

    /** Hands out the next `n` bytes of the last chunk. */
    method Bump(n: nat) returns (p: nat)
      requires Valid() && chunks != [] && ptr + n <= end
      modifies `ptr
      ensures Valid() && p == old(ptr) && ptr == p + n
      ensures Span(p, n).Within(chunks[|chunks| - 1])
      ensures forall q :: 0 <= q < |regions| ==> regions[q].span.Apart(Span(p, n))
    {
      p := ptr;
      NewRegionApart(chunks, ptr, regions, Span(p, n));
      ptr := ptr + n;
    }

    /** `alloc_slice`: the bytes are copied into a region of their own. */
    method AllocSlice(data: seq<Byte>, k: nat, grant: Grant) returns (r: Option<nat>)
      requires Valid() && |data| <= ISIZE_MAX && k <= 62
      requires data != [] ==> Honest(chunks, AlignUp(ptr, k), |data|, grant)
      modifies this
      ensures Valid()
      ensures (ShapeOf(), r) == Taken(old(ShapeOf()), |data|, k, grant)
      ensures r.None? ==> regions == old(regions) && mem == old(mem)
      ensures r.Some? ==>
        && chunks != []
        && regions == old(regions) + [Region(Span(r.value, |data|), |chunks| - 1, data)]
    {
      r := AllocRaw(|data|, k, grant);
      if r.None? {
        return;
      }
      CopyTo(r.value, data);
    }

    /** Copies the bytes to a region just reserved for them. */
    method CopyTo(addr: nat, data: seq<Byte>)
      requires Valid() && chunks != [] && data != []
      requires Span(addr, |data|).Within(chunks[|chunks| - 1]) && ptr == addr + |data|
      requires forall q :: 0 <= q < |regions| ==> regions[q].span.Apart(Span(addr, |data|))
      modifies `mem, `regions
      ensures Valid() && regions == old(regions) + [Region(Span(addr, |data|), |chunks| - 1, data)]
    {
      var span := Span(addr, |data|);
      StoreKeeps(mem, regions, span, data);
      AddKeeps(chunks, regions, span, data);
      mem := Store(mem, addr, data);
      KeptNext(mem, regions, Region(span, |chunks| - 1, data));
      regions := regions + [Region(span, |chunks| - 1, data)];
    }
  }

  /**
    The assertion in `align` is a real limit: with the chunk filled to its end,
    it holds exactly when that end happens to be aligned.
   */
  lemma {:induction false} FullChunkAligns(end: nat, k: nat)
    requires k <= 62 && end <= ADDRESS_LIMIT
    ensures AlignUp(end, k) <= end <==> end % Pow2(k) == 0
  {
    AlignUpSpec(end, k);
    LeastMultiple(AlignUp(end, k), end, Pow2(k));
  }

  lemma LeastMultiple(a: nat, e: nat, m: nat)
    requires m > 0 && a % m == 0 && e <= a < e + m
    ensures a <= e <==> e % m == 0
  {
    var i, j := a / m, e / m;
    assert a == i * m;
    if e % m == 0 {
      assert e == j * m;
      MultiplesApart(i, j, m);
    }
  }

  /**
    The answer is aligned if and only if the arena did not have to grow for it, or
    the new chunk happens to start at an aligned address: nothing aligns it again.
   */
  lemma {:induction false} AlignedIff(shape: Shape, n: nat, k: nat, grant: Grant)
    requires shape.Fine() && k <= 62 && Taken(shape, n, k, grant).1.Some?
    ensures Taken(shape, n, k, grant).1.value % Pow2(k) == 0
            <==> AlignUp(shape.ptr, k) + n < shape.End() || grant.addr % Pow2(k) == 0
  {
    AlignUpSpec(shape.ptr, k);
  }

  // ---------- Every run ----------

  datatype Request = Request(data: seq<Byte>, k: nat, grant: Grant) {
    predicate Sized() { |data| <= ISIZE_MAX && k <= 62 }
  }

  /** The system allocator could have made this grant. */
  predicate Possible(shape: Shape, request: Request)
    requires shape.Fine() && request.Sized()
  {
    request.data == [] || Honest(shape.chunks, AlignUp(shape.ptr, request.k), |request.data|, request.grant)
  }

  /** A request whose grant could not have been made is skipped. */
  function Next(shape: Shape, request: Request): (r: (Shape, Option<nat>))
    requires shape.Fine() && request.Sized()
    ensures r.0.Fine()
  {
    if Possible(shape, request) then
      NextIsFine(shape, request);
      Taken(shape, |request.data|, request.k, request.grant)
    else (shape, None)
  }

  lemma {:induction false} NextIsFine(shape: Shape, request: Request)
    requires shape.Fine() && request.Sized() && Possible(shape, request)
    ensures Taken(shape, |request.data|, request.k, request.grant).0.Fine()
  {
    TakenSpec(shape, |request.data|, request.k, request.grant);
  }

  function ShapeAfter(requests: seq<Request>): (r: Shape)
    requires forall i :: 0 <= i < |requests| ==> requests[i].Sized()
    ensures r.Fine()
  {
    if requests == [] then Shape([], 0)
    else Next(ShapeAfter(requests[..|requests| - 1]), requests[|requests| - 1]).0
  }

  /** How request `i` of a run is answered. */
  function Answer(requests: seq<Request>, i: nat): Option<nat>
    requires i < |requests| && forall j :: 0 <= j < |requests| ==> requests[j].Sized()
  {
    Next(ShapeAfter(requests[..i]), requests[i]).1
  }

  ghost predicate Answered(requests: seq<Request>, addrs: seq<Option<nat>>)
    requires forall i :: 0 <= i < |requests| ==> requests[i].Sized()
  {
    |addrs| <= |requests| && forall i :: 0 <= i < |addrs| ==> addrs[i] == Answer(requests, i)
  }

  lemma {:induction false} ShapeNext(requests: seq<Request>, n: nat)
    requires n < |requests| && forall i :: 0 <= i < |requests| ==> requests[i].Sized()
    ensures ShapeAfter(requests[..n + 1]) == Next(ShapeAfter(requests[..n]), requests[n]).0
  {
    assert requests[..n + 1][..n] == requests[..n];
  }

  lemma {:induction false} AnsweredNext(requests: seq<Request>, addrs: seq<Option<nat>>, shape: Shape,
                                        addr: Option<nat>)
    requires forall i :: 0 <= i < |requests| ==> requests[i].Sized()
    requires Answered(requests, addrs) && |addrs| < |requests|
    requires (shape, addr) == Next(ShapeAfter(requests[..|addrs|]), requests[|addrs|])
    ensures Answered(requests, addrs + [addr]) && shape == ShapeAfter(requests[..|addrs| + 1])
  {
    ShapeNext(requests, |addrs|);
    forall i | 0 <= i <= |addrs|
      ensures (addrs + [addr])[i] == Answer(requests, i)
    {
      assert i < |addrs| ==> (addrs + [addr])[i] == addrs[i];
    }
  }

  ghost predicate Recorded(regions: seq<Region>, at: int, request: Request, addr: nat) {
    0 <= at < |regions| && regions[at].span == Span(addr, |request.data|) && regions[at].data == request.data
  }

  /** The answered requests have regions, in order. */
  ghost predicate Served(requests: seq<Request>, addrs: seq<Option<nat>>, at: seq<int>, regions: seq<Region>) {
    && |addrs| == |at| <= |requests|
    && (forall a :: 0 <= a < |addrs| && addrs[a].Some? ==> Recorded(regions, at[a], requests[a], addrs[a].value))
    && (forall a, b :: 0 <= a < b < |addrs| && addrs[a].Some? && addrs[b].Some? ==> at[a] < at[b])
  }

  lemma {:induction false} ServedNext(requests: seq<Request>, addrs: seq<Option<nat>>, at: seq<int>,
                                      regions: seq<Region>, addr: Option<nat>, after: seq<Region>)
    requires Served(requests, addrs, at, regions) && |addrs| < |requests|
    requires addr.None? ==> after == regions
    requires addr.Some? ==> regions < after && Recorded(after, |regions|, requests[|addrs|], addr.value)
    ensures Served(requests, addrs + [addr], at + [|regions|], after)
  {
  }

  /** What each answer and each two answers of a run come to. */
  ghost predicate AllRead(requests: seq<Request>, addrs: seq<Option<nat>>, mem: map<nat, Byte>)
    requires |addrs| == |requests|
  {
    forall i :: 0 <= i < |addrs| && addrs[i].Some? ==>
      Reads(mem, Span(addrs[i].value, |requests[i].data|), requests[i].data)
  }

  ghost predicate AllApart(requests: seq<Request>, addrs: seq<Option<nat>>)
    requires |addrs| == |requests|
  {
    forall i, j :: 0 <= i < j < |addrs| && addrs[i].Some? && addrs[j].Some? ==>
      Span(addrs[i].value, |requests[i].data|).Apart(Span(addrs[j].value, |requests[j].data|))
  }

  /** Each region lies inside one of the chunks. */
  ghost predicate AllPlaced(requests: seq<Request>, addrs: seq<Option<nat>>, chunks: seq<Span>)
    requires |addrs| == |requests|
  {
    forall i :: 0 <= i < |addrs| && addrs[i].Some? ==>
      exists c :: 0 <= c < |chunks| && Span(addrs[i].value, |requests[i].data|).Within(chunks[c])
  }

  lemma {:induction false} ServedInChunks(requests: seq<Request>, addrs: seq<Option<nat>>, at: seq<int>,
                                          regions: seq<Region>, chunks: seq<Span>, ptr: nat)
    requires Served(requests, addrs, at, regions) && |addrs| == |requests| && Placed(chunks, ptr, regions)
    ensures AllPlaced(requests, addrs, chunks)
  {
    forall i | 0 <= i < |addrs| && addrs[i].Some?
      ensures exists c :: 0 <= c < |chunks| && Span(addrs[i].value, |requests[i].data|).Within(chunks[c])
    {
      var region := regions[at[i]];
      assert region.span.Within(chunks[region.chunk]);
    }
  }

  lemma {:induction false} ServedWell(requests: seq<Request>, addrs: seq<Option<nat>>, at: seq<int>,
                                      regions: seq<Region>, mem: map<nat, Byte>)
    requires Served(requests, addrs, at, regions) && |addrs| == |requests|
    requires Separate(regions) && Kept(mem, regions)
    ensures AllRead(requests, addrs, mem) && AllApart(requests, addrs)
  {
  }

  /**
    Over every run in which the system allocator keeps its promise, the regions
    handed out do not overlap and still hold their bytes at the end; and which
    requests are answered, and with what, is a function of the requests.
   */
  method AllocMany(requests: seq<Request>) returns (addrs: seq<Option<nat>>, mem: map<nat, Byte>)
    requires forall i :: 0 <= i < |requests| ==> requests[i].Sized()
    ensures |addrs| == |requests| && Answered(requests, addrs)
    ensures AllRead(requests, addrs, mem) && AllApart(requests, addrs)
    ensures AllPlaced(requests, addrs, ShapeAfter(requests).chunks)
  {
    var arena := new DroplessArena();
    addrs := [];
    ghost var at: seq<int> := [];
    for i := 0 to |requests|
      invariant arena.Valid() && fresh(arena) && arena.ShapeOf() == ShapeAfter(requests[..i])
      invariant |addrs| == i && Served(requests, addrs, at, arena.regions) && Answered(requests, addrs)
    {
      ghost var before := arena.regions;
      var r := Serve(arena, requests[i]);
      ServedNext(requests, addrs, at, before, r, arena.regions);
      AnsweredNext(requests, addrs, arena.ShapeOf(), r);
      at := at + [|before|];
      addrs := addrs + [r];
    }
    ServedWell(requests, addrs, at, arena.regions, arena.mem);
    ServedInChunks(requests, addrs, at, arena.regions, arena.chunks, arena.ptr);
    assert requests[..|requests|] == requests;
    mem := arena.mem;
  }

  method Serve(arena: DroplessArena, request: Request) returns (r: Option<nat>)
    requires arena.Valid() && arena.ShapeOf().Fine() && request.Sized()
    modifies arena
    ensures arena.Valid() && (arena.ShapeOf(), r) == Next(old(arena.ShapeOf()), request)
    ensures r.None? ==> arena.regions == old(arena.regions)
    ensures r.Some? ==>
      old(arena.regions) < arena.regions && Recorded(arena.regions, |old(arena.regions)|, request, r.value)
  {
    var Request(data, k, grant) := request;
    r := None;
    if data == [] || Honest(arena.chunks, AlignUp(arena.ptr, k), |data|, grant) {
      r := arena.AllocSlice(data, k, grant);
    }
  }

  lemma {:induction false} FirstChunk(first: seq<Byte>, addr: nat)
    requires PAGE <= |first| && 0 < addr && addr + |first| <= ISIZE_MAX
    ensures Next(Shape([], 0), Request(first, 0, Grant(addr, 0)))
            == (Shape([Span(addr, |first|)], addr + |first|), Some(addr))
  {
    var shape, request := Shape([], 0), Request(first, 0, Grant(addr, 0));
    var n, grant := |first|, Grant(addr, 0);
    assert AlignUp(shape.ptr, 0) == 0;
    assert Room(shape.chunks, shape.ptr, n, grant) && NewChunk(shape, n, grant) == Span(addr, n);
    assert Possible(shape, request);
    assert shape.chunks + [Span(addr, n)] == [Span(addr, n)];
    assert Reserved(shape, n, grant) == (Shape([Span(addr, n)], addr), true);
    assert shape.(ptr := AlignUp(shape.ptr, 0)) == shape;
  }

  /**
    A first request of at least a page fills a chunk of exactly its size. What
    comes next trips the assertion of `align` unless the chunk's end is aligned.
   */
  lemma {:induction false} FilledChunk(first: seq<Byte>, addr: nat, next: Request)
    requires PAGE <= |first| && 0 < addr && addr + |first| <= ISIZE_MAX
    requires next.Sized() && next.data != []
    ensures var shape := ShapeAfter([Request(first, 0, Grant(addr, 0))]);
      && shape == Shape([Span(addr, |first|)], addr + |first|)
      && ((addr + |first|) % Pow2(next.k) != 0 && Possible(shape, next) ==>
            Next(shape, next) == (shape.(ptr := AlignUp(shape.ptr, next.k)), None))
  {
    var request := Request(first, 0, Grant(addr, 0));
    assert [request][..0] == [];
    FirstChunk(first, addr);
    assert ShapeAfter([request]) == Next(ShapeAfter([request][..0]), request).0;
    FullChunkAligns(addr + |first|, next.k);
  }

  /** Such a run: 4097 bytes at address 8, then a byte aligned to eight, whatever the system would grant. */
  lemma {:induction false} AlignmentAssertionFails(first: seq<Byte>, grant: Grant)
    requires |first| == 4097
    ensures var requests := [Request(first, 0, Grant(8, 0)), Request([0], 3, grant)];
      Answer(requests, 0) == Some(8) && Answer(requests, 1) == None
  {
    var requests := [Request(first, 0, Grant(8, 0)), Request([0], 3, grant)];
    FilledChunk(first, 8, requests[1]);
    assert Pow2(3) == 8 && 4105 % 8 != 0;
    assert requests[..0] == [] && requests[..1] == [requests[0]];
  }
}
