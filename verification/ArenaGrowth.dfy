/**
  What both arenas of `compiler/intern/src/arena.rs` share: how the capacity of
  the next chunk is chosen, and what the system allocator answers.
 */
module ArenaGrowth {
  import opened Bits
  import opened Wrappers

  const PAGE: nat := 4 * 1024
  const ISIZE_MAX: nat := TWO_64 / 2 - 1

  /** The answer to a request: an address, and capacity beyond what was asked for. */
  datatype Grant = Grant(addr: nat, extra: nat)

  /** Doubling until `need` fits, or until the capacity overflows. */
  function Doubled(capacity: nat, need: nat): Option<nat>
    requires capacity > 0
    decreases TWO_64 - capacity
  {
    if 2 * capacity >= TWO_64 then None
    else if 2 * capacity >= need then Some(2 * capacity)
    else Doubled(2 * capacity, need)
  }

  /** The doubling loop ends with room for the request, and not later than it must. */
  lemma {:induction false} DoubledHasRoom(capacity: nat, need: nat)
    requires capacity > 0 && Doubled(capacity, need).Some?
    ensures var d := Doubled(capacity, need).value;
      d >= need && d >= 2 * capacity && (d == 2 * capacity || d < 2 * need)
    decreases TWO_64 - capacity
  {
    if 2 * capacity < need { DoubledHasRoom(2 * capacity, need); }
  }

  /** Doubling `j` times, and at least once, is the least that reaches `need`. */
  ghost predicate LeastDoubling(capacity: nat, need: nat, j: nat) {
    j >= 1 && need <= capacity * Pow2(j) && forall i :: 1 <= i < j ==> capacity * Pow2(i) < need
  }

  lemma {:induction false} DoubleFirst(capacity: nat, j: nat)
    ensures capacity * Pow2(j + 1) == 2 * capacity * Pow2(j) && capacity * Pow2(j + 1) >= capacity
  {
    MulTwice(capacity, Pow2(j));
    assert capacity * Pow2(j + 1) == capacity * (2 * Pow2(j));
    assert capacity * Pow2(j + 1) >= capacity * 1;
  }

  lemma {:induction false} LeastNext(capacity: nat, need: nat, j: nat)
    requires 2 * capacity < need && LeastDoubling(2 * capacity, need, j)
    ensures LeastDoubling(capacity, need, j + 1)
  {
    DoubleFirst(capacity, j);
    forall i | 1 <= i < j + 1
      ensures capacity * Pow2(i) < need
    {
      DoubleFirst(capacity, i - 1);
      assert i > 1 ==> 2 * capacity * Pow2(i - 1) < need;
    }
  }

  /** The loop doubles just as often, and fails exactly when that overflows. */
  lemma {:induction false} DoubledSpec(capacity: nat, need: nat) returns (j: nat)
    requires capacity > 0
    ensures LeastDoubling(capacity, need, j)
    ensures var c := capacity * Pow2(j); Doubled(capacity, need) == if c < TWO_64 then Some(c) else None
    decreases need - capacity
  {
    if 2 * capacity >= need {
      j := 1;
      assert Pow2(1) == 2;
    } else {
      var k := DoubledSpec(2 * capacity, need);
      LeastNext(capacity, need, k);
      DoubleFirst(capacity, k);
      DoubleFirst(2 * capacity, k - 1);
      j := k + 1;
    }
  }

  ghost predicate Reaches(capacity: nat, need: nat, j: nat) {
    j >= 1 && need <= capacity * Pow2(j) < TWO_64
  }

  lemma {:induction false} LeastIsLeast(capacity: nat, need: nat, least: nat, j: nat)
    requires LeastDoubling(capacity, need, least) && Reaches(capacity, need, j)
    ensures Reaches(capacity, need, least)
  {
    Pow2Monotone(least, j);
    MulMonotone(Pow2(least), Pow2(j), capacity);
  }

  /** It succeeds if and only if some number of doublings reaches `need` without overflow. */
  lemma {:induction false} DoubledIff(capacity: nat, need: nat)
    requires capacity > 0
    ensures Doubled(capacity, need).Some? <==> exists j :: Reaches(capacity, need, j)
  {
    var least := DoubledSpec(capacity, need);
    if j :| Reaches(capacity, need, j) {
      LeastIsLeast(capacity, need, least, j);
    } else {
      assert !Reaches(capacity, need, least);
    }
  }

  lemma {:induction false} LeastIsUnique(capacity: nat, need: nat, j: nat, k: nat)
    requires LeastDoubling(capacity, need, j) && LeastDoubling(capacity, need, k)
    ensures j == k
  {
  }

  /** `c` is `capacity` doubled as often as it takes to reach `need`, and no overflow. */
  ghost predicate IsDoubled(capacity: nat, need: nat, c: nat) {
    c < TWO_64 && exists j :: LeastDoubling(capacity, need, j) && c == capacity * Pow2(j)
  }

  lemma {:induction false} DoubledIs(capacity: nat, need: nat, c: nat)
    requires capacity > 0
    ensures Doubled(capacity, need) == Some(c) <==> IsDoubled(capacity, need, c)
  {
    var least := DoubledSpec(capacity, need);
    if j :| LeastDoubling(capacity, need, j) && c == capacity * Pow2(j) {
      LeastIsUnique(capacity, need, least, j);
    }
  }
}
