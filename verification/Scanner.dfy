/**
  `Scanner` of `compiler/parser/src/scanner.rs` over a `FileMapSource`: a
  two-stage pipeline `source -> pending -> current`.
 */
module Scanners {
  import opened Bits
  import opened Wrappers
  import opened Utf8
  import opened SourceIndices
  import opened FileMapSources

  const NUL: nat := 0

  /** The end of the span of a source: the index one past its last byte. */
  ghost function EndOf(id: SourceId, cs: seq<Scalar>): nat
    requires |EncodeAll(cs)| < TWO_32
  {
    New(id, |EncodeAll(cs)|)
  }

  /**
    What the `k`-th `pop` returns. After the characters come NULs, at the end of
    the span; but the two stages filled by the constructor use `UNKNOWN`.
   */
  ghost function PopAt(id: SourceId, cs: seq<Scalar>, k: nat): Item
    requires |EncodeAll(cs)| < TWO_32
  {
    if k < |cs| then ItemAt(id, cs, k)
    else if k < 2 then (UNKNOWN, NUL)
    else (EndOf(id, cs), NUL)
  }

  class Scanner {
    const source: FileMapSource
    const start: nat
    const end: nat
    var current: Item
    var pending: Item

    ghost const id: SourceId
    ghost const chars: seq<Scalar>
    ghost var popped: nat

    ghost predicate Valid()
      reads this, source
    {
      && source.Valid() && source.id == id && source.chars == chars
      && start == New(id, 0) && end == EndOf(id, chars)
      && current == PopAt(id, chars, popped)
      && pending == PopAt(id, chars, popped + 1)
      && source.taken == if popped + 2 <= |chars| then popped + 2 else |chars|
    }

    constructor (source: FileMapSource)
      requires source.Valid() && source.taken == 0
      modifies source
      ensures Valid() && popped == 0
      ensures this.source == source && id == source.id && chars == source.chars
    {
      this.source := source;
      id := source.id;
      chars := source.chars;
      popped := 0;
      start := source.start;
      // the span of the source ends at its byte length
      PackUnpack(source.id, |source.bytes|);
      end := New(SourceOf(source.start), source.end);
      PackUnpack(source.id, 0);
      var first := source.Read();
      current := if first.Some? then first.value else (UNKNOWN, NUL);
      var second := source.Read();
      pending := if second.Some? then second.value else (UNKNOWN, NUL);
    }

    method Advance()
      requires Valid()
      modifies this, source
      ensures Valid() && popped == old(popped) + 1
    {
      current := pending;
      var next := source.Read();
      pending := if next.None? then (end, NUL) else next.value;
      popped := popped + 1;
    }

    method Pop() returns (c: Item)
      requires Valid()
      modifies this, source
      ensures Valid() && popped == old(popped) + 1
      ensures c == PopAt(id, chars, old(popped))
    {
      c := current;
      Advance();
    }

    method Read() returns (c: Item)
      requires Valid()
      ensures c == PopAt(id, chars, popped)
    {
      c := current;
    }

    method Peek() returns (c: Item)
      requires Valid()
      ensures c == PopAt(id, chars, popped + 1)
    {
      c := pending;
    }

    method PeekNext() returns (c: Item)
      requires Valid()
      ensures c == PopAt(id, chars, popped + 2)
    {
      var p := source.Peek();
      c := if p.None? then (end, NUL) else p.value;
    }
  }

  /** What a pop returns, with what `read`, `peek` and `peek_next` returned just before it. */
  datatype Observation = Observation(pop: Item, read: Item, peek: Item, peekNext: Item)

  /** The observation at the `k`-th pop: the look-aheads are this pop and the next two. */
  ghost function Observed(id: SourceId, cs: seq<Scalar>, k: nat): Observation
    requires |EncodeAll(cs)| < TWO_32
  {
    Observation(PopAt(id, cs, k), PopAt(id, cs, k), PopAt(id, cs, k + 1), PopAt(id, cs, k + 2))
  }

  method LookThenPop(scanner: Scanner) returns (o: Observation)
    requires scanner.Valid()
    modifies scanner, scanner.source
    ensures scanner.Valid() && scanner.popped == old(scanner.popped) + 1
    ensures o == Observed(scanner.id, scanner.chars, old(scanner.popped))
  {
    var a := scanner.Read();
    var b := scanner.Peek();
    var c := scanner.PeekNext();
    var pop := scanner.Pop();
    o := Observation(pop, a, b, c);
  }

  ghost predicate AllObserved(id: SourceId, cs: seq<Scalar>, os: seq<Observation>)
    requires |EncodeAll(cs)| < TWO_32
  {
    forall k :: 0 <= k < |os| ==> os[k] == Observed(id, cs, k)
  }

  method PopLoop(scanner: Scanner, n: nat) returns (os: seq<Observation>)
    requires scanner.Valid() && scanner.popped == 0
    modifies scanner, scanner.source
    ensures |os| == n && AllObserved(scanner.id, scanner.chars, os)
  {
    os := [];
    for k := 0 to n
      invariant scanner.Valid() && scanner.popped == |os| == k
      invariant AllObserved(scanner.id, scanner.chars, os)
    {
      var o := LookThenPop(scanner);
      os := os + [o];
    }
  }

  /** Every run of `n` pops over every UTF-8 source. */
  method PopMany(id: SourceId, bytes: seq<Byte>, ghost cs: seq<Scalar>, n: nat)
      returns (os: seq<Observation>)
    requires bytes == EncodeAll(cs) && |bytes| < TWO_32
    ensures |os| == n && AllObserved(id, cs, os)
  {
    var source := new FileMapSource(id, bytes, cs);
    var scanner := new Scanner(source);
    os := PopLoop(scanner, n);
  }

  /**
    The end of a source is always reported at the end of its span exactly when
    the source has at least two characters.
   */
  lemma EndReportedAtSpanEnd(id: SourceId, cs: seq<Scalar>)
    requires |EncodeAll(cs)| < TWO_32
    ensures |cs| >= 2 <==> forall k: nat :: k >= |cs| ==> PopAt(id, cs, k) == (EndOf(id, cs), NUL)
  {
    AddMovesIndex(id, |EncodeAll(cs)|, 0);
    if |cs| < 2 {
      assert PopAt(id, cs, |cs|) == (UNKNOWN, NUL);
    }
  }
}
