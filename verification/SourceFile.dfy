/**
  Line and column lookup of `compiler/diagnostics/src/source.rs`, against a
  cursor that walks the characters one by one.
 */
module SourceFiles {
  import opened Bits
  import opened Utf8

  const NEWLINE: Byte := 10

  datatype Error =
    | LineTooLarge(given: nat, max: nat)
    | IndexTooLarge(given: nat, max: nat)
    | InvalidCharBoundary(given: nat)
    | LengthUnderflow  // `len() - 1` on an empty source

  datatype Result<T> = Ok(value: T) | Err(error: Error)

  datatype Location = Location(line: nat, column: nat)

  /** The byte offset of each line: 0, and one past each newline. */
  function LineStarts(b: seq<Byte>): (s: seq<nat>)
    ensures s != []
  {
    if b == [] then [0]
    else LineStarts(b[..|b| - 1]) + if b[|b| - 1] == NEWLINE then [|b|] else []
  }

  /** An `as u32` cast. */
  function U32(n: nat): nat {
    n % TWO_32
  }

  /** The line starts as the source file keeps them. */
  function Stored(b: seq<Byte>): seq<nat> {
    CastAll(LineStarts(b))
  }

  function CastAll(s: seq<nat>): (r: seq<nat>)
    ensures |r| == |s| && forall i :: 0 <= i < |s| ==> r[i] == U32(s[i])
  {
    if s == [] then [] else CastAll(s[..|s| - 1]) + [U32(s[|s| - 1])]
  }

  /** `line_start`, for a 32-bit line index. */
  function LineStart(b: seq<Byte>, line: nat): Result<nat> {
    var n := U32(|Stored(b)|);
    if line < n then Ok(Stored(b)[line])
    else if line == n then Ok(U32(|b|))
    else Err(LineTooLarge(line, n))
  }

  function LineSpan(b: seq<Byte>, line: nat): Result<(nat, nat)> {
    var start := LineStart(b, line);
    if start.Err? then Err(start.error) else
      var next := LineStart(b, U32(line + 1));
      if next.Err? then Err(next.error) else Ok((start.value, next.value))
  }

  /** The number of elements of `s` below `x`: where a binary search would insert `x`. */
  function InsertionPoint(s: seq<nat>, x: nat): nat {
    if s == [] then 0
    else InsertionPoint(s[..|s| - 1], x) + if s[|s| - 1] < x then 1 else 0
  }

  /** `line_index`: the found line, or the one before the insertion point. */
  function LineIndex(b: seq<Byte>, byte: nat): int {
    var s := Stored(b);
    if byte in s then InsertionPoint(s, byte) else InsertionPoint(s, byte) - 1
  }

  predicate IsBoundary(b: seq<Byte>, i: nat) {
    i == 0 || i == |b| || (i < |b| && !Continues(b[i]))
  }

  /** `chars().count()` on a slice: the bytes that start a character. */
  function CharCount(b: seq<Byte>): nat {
    if b == [] then 0
    else CharCount(b[..|b| - 1]) + if Continues(b[|b| - 1]) then 0 else 1
  }

  function LocationOf(b: seq<Byte>, byte: nat): Result<Location>
    requires LineIndex(b, byte) >= 0
  {
    var line := LineIndex(b, byte);
    var start := LineStart(b, line);
    if start.Err? then
      if b == [] then Err(LengthUnderflow) else Err(IndexTooLarge(byte, |b| - 1))
    else if start.value <= byte <= |b| && IsBoundary(b, start.value) && IsBoundary(b, byte) then
      Ok(Location(line, U32(CharCount(b[start.value..byte]))))
    else if b == [] then Err(LengthUnderflow)
    else if byte >= |b| - 1 then Err(IndexTooLarge(byte, |b| - 1))
    else Err(InvalidCharBoundary(byte))
  }

  // ---------- Line starts ----------

  /** The offset of the line in which `b` ends. */
  function LastStart(b: seq<Byte>): nat {
    var s := LineStarts(b);
    s[|s| - 1]
  }

  /** Line starts increase, begin at 0, and are exactly the offsets that follow a newline. */
  lemma {:induction false} LineStartsSpec(b: seq<Byte>)
    ensures var s := LineStarts(b);
      && s[0] == 0
      && (forall i, j :: 0 <= i < j < |s| ==> s[i] < s[j])
      && (forall x :: x in s <==> x == 0 || (0 < x <= |b| && b[x - 1] == NEWLINE))
      && (forall i :: 0 <= i < |s| ==> s[i] <= |b|)
  {
    if b != [] {
      LineStartsSpec(b[..|b| - 1]);
    }
  }

  /** Sources whose lines, and whose bytes, can be counted in 32 bits. */
  predicate Small(b: seq<Byte>) {
    |b| < TWO_32 && |LineStarts(b)| + 1 < TWO_32
  }

  /** The casts change no number, of a line start, a length or a line index, exactly for small sources. */
  lemma {:induction false} CastsAreExact(b: seq<Byte>)
    ensures Small(b) <==>
      Stored(b) == LineStarts(b) && U32(|b|) == |b| && U32(|LineStarts(b)| + 1) == |LineStarts(b)| + 1
    ensures Small(b) ==> U32(|LineStarts(b)|) == |LineStarts(b)|
  {
    var s := LineStarts(b);
    SmallCast(|b|);
    SmallCast(|s|);
    SmallCast(|s| + 1);
    if |b| < TWO_32 {
      assert forall i :: 0 <= i < |s| ==> s[i] < TWO_32 by { LineStartsSpec(b); }
      CastAllExact(s);
    }
  }

  lemma {:induction false} SmallCast(n: nat)
    ensures U32(n) == n <==> n < TWO_32
  {
  }

  lemma {:induction false} CastAllExact(s: seq<nat>)
    requires forall i :: 0 <= i < |s| ==> s[i] < TWO_32
    ensures CastAll(s) == s
  {
    forall i | 0 <= i < |s|
      ensures CastAll(s)[i] == s[i]
    {
      SmallCast(s[i]);
    }
  }

  /** A source that is two bytes short of the bound is small, whatever its lines. */
  lemma {:induction false} ShortIsSmall(b: seq<Byte>)
    requires |b| + 2 < TWO_32
    ensures Small(b)
  {
    LineCount(b);
  }

  lemma {:induction false} LineCount(b: seq<Byte>)
    ensures |LineStarts(b)| <= |b| + 1
  {
    if b != [] { LineCount(b[..|b| - 1]); }
  }

  /** Where the casts lose something: a line that starts at 2^32 is kept as a second line that starts at 0. */
  lemma {:induction false} HugeSourceRepeatsStart(b: seq<Byte>) returns (i: nat)
    requires |b| >= TWO_32 && b[TWO_32 - 1] == NEWLINE
    ensures 0 < i < |Stored(b)| && Stored(b)[i] == Stored(b)[0] == 0
  {
    LineStartsSpec(b);
    assert TWO_32 in LineStarts(b);
    i :| 0 <= i < |LineStarts(b)| && LineStarts(b)[i] == TWO_32;
  }

  /** The line starts of a prefix are the first line starts of the whole. */
  lemma {:induction false} LineStartsPrefix(b: seq<Byte>, i: nat)
    requires i <= |b|
    ensures LineStarts(b[..i]) <= LineStarts(b)
    ensures forall l :: |LineStarts(b[..i])| <= l < |LineStarts(b)| ==> LineStarts(b)[l] > i
  {
    if i == |b| {
      assert b[..i] == b;
    } else {
      var front := b[..|b| - 1];
      LineStartsPrefix(front, i);
      assert front[..i] == b[..i];
    }
  }

  lemma {:induction false} InsertionPointSpec(s: seq<nat>, x: nat, n: nat)
    requires n <= |s|
    requires forall l :: 0 <= l < n ==> s[l] < x
    requires forall l :: n <= l < |s| ==> s[l] >= x
    ensures InsertionPoint(s, x) == n
  {
    if s != [] {
      var front := s[..|s| - 1];
      InsertionPointSpec(front, x, if n == |s| then n - 1 else n);
    }
  }

  /** The line of a byte is the last one that starts at or before it: it always exists. */
  lemma {:induction false} LineIndexSpec(b: seq<Byte>, byte: nat)
    requires Small(b)
    ensures var s, l := LineStarts(b), LineIndex(b, byte);
      && 0 <= l < |s|
      && s[l] <= byte
      && (forall m :: l < m < |s| ==> s[m] > byte)
  {
    var s := LineStarts(b);
    LineStartsSpec(b);
    CastsAreExact(b);
    var n := 0;
    while n < |s| && s[n] < byte
      invariant n <= |s|
      invariant forall l :: 0 <= l < n ==> s[l] < byte
    {
      n := n + 1;
    }
    InsertionPointSpec(s, byte, n);
    if byte in s {
      var l :| 0 <= l < |s| && s[l] == byte;
      assert l == n;
    }
  }

  /** Inside the source, the line of a byte is the line in which the text before it ends. */
  lemma {:induction false} LineIndexOfPrefix(b: seq<Byte>, i: nat)
    requires Small(b)
    requires i <= |b|
    ensures LineIndex(b, i) == |LineStarts(b[..i])| - 1
    ensures LineStart(b, |LineStarts(b[..i])| - 1) == Ok(LastStart(b[..i]))
    ensures LastStart(b[..i]) <= i
  {
    LineIndexSpec(b, i);
    CastsAreExact(b);
    LineStartsPrefix(b, i);
    LineStartsSpec(b[..i]);
    var s, p := LineStarts(b), LineStarts(b[..i]);
    var l := LineIndex(b, i);
    assert s[|p| - 1] == p[|p| - 1] <= i;
    assert l == |p| - 1;
  }

  // ---------- Lines tile the source ----------

  /** Where line `n` starts; the line after the last one starts at the end. */
  function StartOf(b: seq<Byte>, n: nat): nat {
    if n < |LineStarts(b)| then LineStarts(b)[n] else |b|
  }

  /** In a small source, lines start and end where they should. */
  lemma {:induction false} LineSpanIn(b: seq<Byte>, line: nat)
    requires Small(b) && line < |LineStarts(b)|
    ensures StartOf(b, line) <= StartOf(b, line + 1) <= |b|
    ensures LineSpan(b, line) == Ok((StartOf(b, line), StartOf(b, line + 1)))
  {
    LineStartsSpec(b);
    CastsAreExact(b);
  }

  function LineText(b: seq<Byte>, line: nat): seq<Byte>
    requires Small(b)
    requires line < |LineStarts(b)|
  {
    LineSpanIn(b, line);
    b[LineSpan(b, line).value.0..LineSpan(b, line).value.1]
  }

  function JoinLines(b: seq<Byte>, n: nat): seq<Byte>
    requires Small(b)
    requires n <= |LineStarts(b)|
  {
    if n == 0 then [] else JoinLines(b, n - 1) + LineText(b, n - 1)
  }

  lemma {:induction false} JoinLinesPrefix(b: seq<Byte>, n: nat)
    requires Small(b) && n <= |LineStarts(b)|
    ensures StartOf(b, n) <= |b| && JoinLines(b, n) == b[..StartOf(b, n)]
  {
    if n == 0 {
      LineStartsSpec(b);
    } else {
      JoinLinesPrefix(b, n - 1);
      LineSpanIn(b, n - 1);
      var i, j := StartOf(b, n - 1), StartOf(b, n);
      assert b[..i] + b[i..j] == b[..j];
    }
  }

  /** The line spans, in order, make up the whole source; past them there is no span. */
  lemma LinesTile(b: seq<Byte>)
    requires Small(b)
    ensures JoinLines(b, |LineStarts(b)|) == b
    ensures forall l: nat :: l < TWO_32 ==> (LineSpan(b, l).Ok? <==> l < |LineStarts(b)|)
  {
    CastsAreExact(b);
    JoinLinesPrefix(b, |LineStarts(b)|);
    assert b[..|b|] == b;
  }

  /** A newline inside a line ends it. */
  lemma NewlineEndsLine(b: seq<Byte>, line: nat, x: nat)
    requires line < |LineStarts(b)| && LineStarts(b)[line] < x <= |b| && b[x - 1] == NEWLINE
    requires line + 1 < |LineStarts(b)| ==> x <= LineStarts(b)[line + 1]
    ensures line + 1 < |LineStarts(b)| && x == LineStarts(b)[line + 1]
  {
    LineStartsSpec(b);
    var s := LineStarts(b);
    assert x in s;
    var m :| 0 <= m < |s| && s[m] == x;
    assert m > line;
  }

  /** A line ends with a newline unless it is the last one, and has no other newline. */
  lemma LineHasOneNewline(b: seq<Byte>, line: nat)
    requires Small(b)
    requires line < |LineStarts(b)|
    ensures var t := LineText(b, line);
      && (forall i :: 0 <= i < |t| - 1 ==> t[i] != NEWLINE)
      && (line + 1 < |LineStarts(b)| <==> t != [] && t[|t| - 1] == NEWLINE)
  {
    LineStartsSpec(b);
    LineSpanIn(b, line);
    var s := LineStarts(b);
    var lo, hi := StartOf(b, line), StartOf(b, line + 1);
    var t := LineText(b, line);
    assert t == b[lo..hi];
    forall i | 0 <= i < |t| - 1
      ensures t[i] != NEWLINE
    {
      if t[i] == NEWLINE { NewlineEndsLine(b, line, lo + i + 1); }
    }
    if line + 1 < |s| {
      assert s[line + 1] in s;
      assert t[|t| - 1] == b[hi - 1];
    } else if t != [] && t[|t| - 1] == NEWLINE {
      NewlineEndsLine(b, line, hi);
    }
  }

  // ---------- Locations ----------

  /** The reference: a cursor that has walked over `cs`. */
  function Walk(cs: seq<Scalar>): Location {
    if cs == [] then Location(0, 0) else
      var at := Walk(cs[..|cs| - 1]);
      if cs[|cs| - 1] == 10 then Location(at.line + 1, 0) else Location(at.line, at.column + 1)
  }

  lemma {:induction false} CharCountAppend(x: seq<Byte>, y: seq<Byte>)
    ensures CharCount(x + y) == CharCount(x) + CharCount(y)
  {
    if y == [] {
      assert x + y == x;
    } else {
      assert (x + y)[..|x + y| - 1] == x + y[..|y| - 1];
      CharCountAppend(x, y[..|y| - 1]);
    }
  }

  lemma {:induction false} CharCountTail(x: seq<Byte>)
    requires forall i :: 0 <= i < |x| ==> Continues(x[i])
    ensures CharCount(x) == 0
  {
    if x != [] { CharCountTail(x[..|x| - 1]); }
  }

  lemma CharCountOne(c: Scalar)
    ensures CharCount(Encode(c)) == 1
  {
    EncodeShape(c);
    var e := Encode(c);
    assert e == e[..1] + e[1..];
    CharCountTail(e[1..]);
    CharCountAppend(e[..1], e[1..]);
    assert e[..1][..0] == [];
  }

  lemma {:induction false} LineStartsAppend(p: seq<Byte>, e: seq<Byte>)
    requires forall i :: 0 <= i < |e| ==> e[i] != NEWLINE
    ensures LineStarts(p + e) == LineStarts(p)
  {
    if e == [] {
      assert p + e == p;
    } else {
      assert (p + e)[..|p + e| - 1] == p + e[..|e| - 1];
      LineStartsAppend(p, e[..|e| - 1]);
    }
  }

  /** The byte-level line and column of the end of a text are where the cursor stands. */
  lemma {:induction false} WalkBytes(cs: seq<Scalar>)
    ensures var b := EncodeAll(cs);
      && LastStart(b) <= |b|
      && Walk(cs) == Location(|LineStarts(b)| - 1, CharCount(b[LastStart(b)..]))
  {
    LineStartsSpec(EncodeAll(cs));
    if cs != [] {
      var front, c := cs[..|cs| - 1], cs[|cs| - 1];
      WalkBytes(front);
      WalkStep(EncodeAll(front), c);
    }
  }

  lemma {:induction false} WalkStep(p: seq<Byte>, c: Scalar)
    requires LastStart(p) <= |p|
    ensures var b := p + Encode(c);
      if c == 10 then |LineStarts(b)| == |LineStarts(p)| + 1 && LastStart(b) == |b|
      else |LineStarts(b)| == |LineStarts(p)| && LastStart(b) == LastStart(p)
           && CharCount(b[LastStart(p)..]) == CharCount(p[LastStart(p)..]) + 1
  {
    var e := Encode(c);
    var b := p + e;
    if c == 10 {
      assert b[..|b| - 1] == p;
    } else {
      EncodeShape(c);
      LineStartsAppend(p, e);
      assert b[LastStart(p)..] == p[LastStart(p)..] + e;
      CharCountAppend(p[LastStart(p)..], e);
      CharCountOne(c);
    }
  }

  /** The current line starts at a character. */
  lemma {:induction false} LastStartIsOffset(cs: seq<Scalar>) returns (j: nat)
    ensures j <= |cs| && LastStart(EncodeAll(cs)) == Offset(cs, j)
  {
    if cs == [] {
      j := 0;
    } else {
      var front, c := cs[..|cs| - 1], cs[|cs| - 1];
      LineStartsSpec(EncodeAll(front));
      WalkStep(EncodeAll(front), c);
      if c == 10 {
        j := |cs|;
        OffsetEnd(cs);
      } else {
        j := LastStartIsOffset(front);
        assert front[..j] == cs[..j];
      }
    }
  }

  lemma {:induction false} OffsetIsBoundary(cs: seq<Scalar>, k: nat)
    requires k <= |cs|
    ensures IsBoundary(EncodeAll(cs), Offset(cs, k))
  {
    if k == |cs| {
      OffsetEnd(cs);
    } else {
      EncodeAllSplit(cs, k);
      EncodeShape(cs[k]);
      assert EncodeAll(cs)[Offset(cs, k)] == EncodeAll(cs)[Offset(cs, k)..Offset(cs, k + 1)][0];
    }
  }

  /** Character boundaries are exactly the offsets of characters and the end. */
  lemma {:induction false} BoundaryIsOffset(cs: seq<Scalar>, i: nat) returns (k: nat)
    requires i <= |EncodeAll(cs)| && IsBoundary(EncodeAll(cs), i)
    ensures k <= |cs| && i == Offset(cs, k)
  {
    if i == |EncodeAll(cs)| {
      k := |cs|;
      OffsetEnd(cs);
    } else {
      var front, c := cs[..|cs| - 1], cs[|cs| - 1];
      var b := EncodeAll(front);
      EncodeShape(c);
      assert forall j :: 0 < j < |Encode(c)| ==> EncodeAll(cs)[|b| + j] == Encode(c)[j];
      k := BoundaryIsOffset(front, i);
      assert front[..k] == cs[..k];
    }
  }

  lemma {:induction false} LocationInBytes(b: seq<Byte>, p: seq<Byte>)
    requires Small(b)
    requires p <= b && IsBoundary(b, |p|) && IsBoundary(b, LastStart(p))
    ensures LastStart(p) <= |p| && LineIndex(b, |p|) >= 0
    ensures LocationOf(b, |p|) == Ok(Location(|LineStarts(p)| - 1, CharCount(p[LastStart(p)..])))
  {
    assert b[..|p|] == p;
    LineIndexOfPrefix(b, |p|);
    assert b[LastStart(p)..|p|] == p[LastStart(p)..];
    CharCountBound(p[LastStart(p)..]);
  }

  lemma {:induction false} LocationInBytesIs(b: seq<Byte>, p: seq<Byte>, at: Location)
    requires Small(b) && p <= b && IsBoundary(b, |p|) && IsBoundary(b, LastStart(p))
    requires LastStart(p) <= |p| && at == Location(|LineStarts(p)| - 1, CharCount(p[LastStart(p)..]))
    ensures LineIndex(b, |p|) >= 0 && LocationOf(b, |p|) == Ok(at)
  {
    LocationInBytes(b, p);
  }

  lemma {:induction false} CharCountBound(b: seq<Byte>)
    ensures CharCount(b) <= |b|
  {
    if b != [] { CharCountBound(b[..|b| - 1]); }
  }

  lemma {:induction false} BoundariesOfPrefix(cs: seq<Scalar>, k: nat)
    requires k <= |cs|
    ensures IsBoundary(EncodeAll(cs), Offset(cs, k))
    ensures IsBoundary(EncodeAll(cs), LastStart(EncodeAll(cs[..k])))
  {
    var j := LastStartIsOffset(cs[..k]);
    assert cs[..k][..j] == cs[..j];
    OffsetIsBoundary(cs, j);
    OffsetIsBoundary(cs, k);
  }

  /**
    For every source and every character boundary, `location` is where a cursor
    stands after walking over the characters before it.
   */
  lemma {:induction false} LocationIsWalk(cs: seq<Scalar>, k: nat)
    requires Small(EncodeAll(cs))
    requires k <= |cs|
    ensures LineIndex(EncodeAll(cs), Offset(cs, k)) >= 0
    ensures LocationOf(EncodeAll(cs), Offset(cs, k)) == Ok(Walk(cs[..k]))
  {
    var b, p := EncodeAll(cs), EncodeAll(cs[..k]);
    assert Offset(cs, k) == |p|;
    assert p <= b by { EncodePrefix(cs, k); }
    assert IsBoundary(b, |p|) && IsBoundary(b, LastStart(p)) by { BoundariesOfPrefix(cs, k); }
    WalkBytes(cs[..k]);
    LocationInBytesIs(b, p, Walk(cs[..k]));
  }

  /** `location` succeeds exactly at character boundaries; past them it says which error it is. */
  lemma {:induction false} LocationErrors(cs: seq<Scalar>, i: nat)
    requires Small(EncodeAll(cs))
    ensures LineIndex(EncodeAll(cs), i) >= 0
    ensures var b, r := EncodeAll(cs), LocationOf(EncodeAll(cs), i);
      && (r.Ok? <==> exists k :: 0 <= k <= |cs| && i == Offset(cs, k))
      && (r.Err? ==> r.error == if b == [] then LengthUnderflow
                                else if i >= |b| - 1 then IndexTooLarge(i, |b| - 1)
                                else InvalidCharBoundary(i))
  {
    var b := EncodeAll(cs);
    LineIndexSpec(b, i);
    if k :| 0 <= k <= |cs| && i == Offset(cs, k) {
      LocationIsWalk(cs, k);
    } else if i <= |b| && IsBoundary(b, i) {
      var k := BoundaryIsOffset(cs, i);
      assert false;
    }
  }

  predicate Before(a: Location, b: Location) {
    a.line < b.line || (a.line == b.line && a.column < b.column)
  }

  lemma {:induction false} WalkAdvances(cs: seq<Scalar>, j: nat, k: nat)
    requires j < k <= |cs|
    ensures Before(Walk(cs[..j]), Walk(cs[..k]))
  {
    assert cs[..k][..k - 1] == cs[..k - 1];
    if j < k - 1 { WalkAdvances(cs, j, k - 1); }
  }

  /** Locations increase strictly along the source, so no two boundaries share one. */
  lemma {:induction false} LocationsIncrease(cs: seq<Scalar>, j: nat, k: nat)
    requires Small(EncodeAll(cs))
    requires j < k <= |cs|
    ensures LineIndex(EncodeAll(cs), Offset(cs, j)) >= 0 && LineIndex(EncodeAll(cs), Offset(cs, k)) >= 0
    ensures var x, y := LocationOf(EncodeAll(cs), Offset(cs, j)), LocationOf(EncodeAll(cs), Offset(cs, k));
      x.Ok? && y.Ok? && Before(x.value, y.value)
  {
    LocationIsWalk(cs, j);
    LocationIsWalk(cs, k);
    WalkAdvances(cs, j, k);
  }
}
