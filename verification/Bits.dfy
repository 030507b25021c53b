/**
  Machine words as natural numbers, with the bitwise operators of the source
  defined bit by bit. The lemmas turn the masks and shifts that the source uses
  into division and remainder by powers of two.
 */
module Bits {

  const TWO_32: nat := 0x1_0000_0000
  const TWO_64: nat := 0x1_0000_0000_0000_0000

  type Byte = b: nat | b < 256

  function Pow2(k: nat): (p: nat)
    ensures p >= 1
  {
    if k == 0 then 1 else 2 * Pow2(k - 1)
  }

  /** Bitwise `a & b`. */
  function And(a: nat, b: nat): nat {
    if a == 0 then 0 else 2 * And(a / 2, b / 2) + (if a % 2 == 1 && b % 2 == 1 then 1 else 0)
  }

  /** Bitwise `a | b`. */
  function Or(a: nat, b: nat): nat
    decreases a + b
  {
    if a == 0 then b
    else if b == 0 then a
    else 2 * Or(a / 2, b / 2) + (if a % 2 == 1 || b % 2 == 1 then 1 else 0)
  }

  /** `x << k` in a 32-bit word. */
  function Shl32(x: nat, k: nat): nat
    requires k < 32
  {
    x * Pow2(k) % TWO_32
  }

  /** `x << k` in a 64-bit word. */
  function Shl64(x: nat, k: nat): nat
    requires k < 64
  {
    x * Pow2(k) % TWO_64
  }

  lemma DivModUnique(a: int, m: int, q: int, r: int)
    requires a == q * m + r && 0 <= r < m
    ensures a / m == q && a % m == r
  {
    var d := a / m - q;
    assert a == (a / m) * m + a % m;
    assert d * m == r - a % m by {
      assert d * m == (a / m) * m - q * m;
    }
    assert d >= 1 ==> d * m >= m;
    assert d <= -1 ==> d * m <= -m;
  }

  /** Adding a multiple of the modulus does not change the remainder. */
  lemma ModShift(a: int, k: int, m: int)
    requires m > 0
    ensures (a + k * m) % m == a % m
  {
    assert a + k * m == (a / m + k) * m + a % m by {
      assert (a / m + k) * m == (a / m) * m + k * m;
    }
    DivModUnique(a + k * m, m, a / m + k, a % m);
  }

  lemma MulTwice(h: int, p: int)
    ensures h * (2 * p) == 2 * (h * p)
  {
  }

  lemma {:induction false} Pow2Add(i: nat, j: nat)
    ensures Pow2(i + j) == Pow2(i) * Pow2(j)
  {
    if i > 0 {
      Pow2Add(i - 1, j);
      MulTwice(Pow2(j), Pow2(i - 1));
    }
  }

  lemma {:induction false} Pow2Monotone(i: nat, j: nat)
    requires i <= j
    ensures Pow2(i) <= Pow2(j)
  {
    if i < j {
      Pow2Monotone(i, j - 1);
    }
  }

  lemma WordSizes()
    ensures Pow2(32) == TWO_32 && Pow2(63) == TWO_64 / 2 && Pow2(64) == TWO_64
  {
    Pow2Eight(8);
    Pow2Eight(16);
    Pow2Eight(24);
    Pow2Eight(32);
    Pow2Eight(40);
    Pow2Eight(48);
    Pow2Eight(56);
    assert Pow2(64) == 2 * Pow2(63);
  }

  lemma Pow2Eight(k: nat)
    ensures Pow2(8) == 0x100
    ensures Pow2(k + 8) == 0x100 * Pow2(k)
  {
    Pow2Add(8, k);
  }

  lemma {:induction false} AndZero(a: nat)
    ensures And(a, 0) == 0
  {
    if a > 0 { AndZero(a / 2); }
  }

  /** The low `k` bits of `a`, bit by bit. */
  function Low(a: nat, k: nat): nat {
    if k == 0 then 0 else 2 * Low(a / 2, k - 1) + a % 2
  }

  /** `a` without its low `k` bits, bit by bit. */
  function High(a: nat, k: nat): nat {
    if k == 0 then a else High(a / 2, k - 1)
  }

  lemma {:induction false} LowHigh(a: nat, k: nat)
    ensures Low(a, k) < Pow2(k)
    ensures a == High(a, k) * Pow2(k) + Low(a, k)
  {
    if k > 0 {
      LowHigh(a / 2, k - 1);
      MulTwice(High(a, k), Pow2(k - 1));
    }
  }

  lemma LowHighArith(a: nat, k: nat)
    ensures Low(a, k) == a % Pow2(k) && High(a, k) == a / Pow2(k)
  {
    LowHigh(a, k);
    DivModUnique(a, Pow2(k), High(a, k), Low(a, k));
  }

  /** Masking with the low `k` bits keeps them. */
  lemma {:induction false} AndLowBits(a: nat, k: nat)
    ensures And(a, Pow2(k) - 1) == Low(a, k)
  {
    if k == 0 {
      AndZero(a);
    } else {
      var m := Pow2(k - 1);
      assert (2 * m - 1) / 2 == m - 1 && (2 * m - 1) % 2 == 1;
      AndLowBits(a / 2, k - 1);
    }
  }

  /** Masking with the low `k` bits is the remainder by `2^k`. */
  lemma AndLow(a: nat, k: nat)
    ensures And(a, Pow2(k) - 1) == a % Pow2(k)
  {
    AndLowBits(a, k);
    LowHighArith(a, k);
  }

  /** Bit `k` of a word. */
  predicate Bit(a: nat, k: nat) {
    High(a, k) % 2 == 1
  }

  /** Masking with a single flag tests that bit. */
  lemma {:induction false} AndFlag(a: nat, k: nat)
    ensures And(a, Pow2(k)) == if Bit(a, k) then Pow2(k) else 0
  {
    if k == 0 {
      AndLowBits(a, 1);
      assert Low(a, 1) == 2 * Low(a / 2, 0) + a % 2;
    } else {
      assert 2 * Pow2(k - 1) / 2 == Pow2(k - 1) && 2 * Pow2(k - 1) % 2 == 0;
      AndFlag(a / 2, k - 1);
    }
  }

  lemma {:induction false} LowIsAll(a: nat, n: nat)
    requires a < Pow2(n)
    ensures Low(a, n) == a
  {
    if n > 0 { LowIsAll(a / 2, n - 1); }
  }

  /** Masking away the low `k` bits of an `n`-bit word. */
  lemma {:induction false} AndHighBits(a: nat, k: nat, n: nat)
    requires k <= n && a < Pow2(n)
    ensures Pow2(k) <= Pow2(n)
    ensures And(a, Pow2(n) - Pow2(k)) == a - Low(a, k)
  {
    Pow2Monotone(k, n);
    if k == 0 {
      AndLowBits(a, n);
      LowIsAll(a, n);
    } else {
      var b := Pow2(n) - Pow2(k);
      AndHighBits(a / 2, k - 1, n - 1);
      assert b / 2 == Pow2(n - 1) - Pow2(k - 1) && b % 2 == 0;
    }
  }

  /** Masking away the low `k` bits rounds down to a multiple of `2^k`. */
  lemma AndHigh(a: nat, k: nat, n: nat)
    requires k <= n && a < Pow2(n)
    ensures Pow2(k) <= Pow2(n)
    ensures And(a, Pow2(n) - Pow2(k)) == a - a % Pow2(k)
  {
    AndHighBits(a, k, n);
    LowHighArith(a, k);
  }

  /** Words with no bit in common are or-ed by adding them. */
  lemma {:induction false} OrAdd(a: nat, b: nat, k: nat)
    requires a < Pow2(k)
    ensures Or(a, b * Pow2(k)) == a + b * Pow2(k)
    ensures Or(b * Pow2(k), a) == a + b * Pow2(k)
  {
    if k > 0 {
      MulTwice(b, Pow2(k - 1));
      OrAdd(a / 2, b, k - 1);
      OrDouble(a, b * Pow2(k - 1));
    }
  }

  lemma {:induction false} OrDouble(a: nat, h: nat)
    ensures Or(a, 2 * h) == 2 * Or(a / 2, h) + a % 2
    ensures Or(2 * h, a) == 2 * Or(h, a / 2) + a % 2
  {
    assert (2 * h) / 2 == h && (2 * h) % 2 == 0;
  }

  /** Scaling a division by `q` into a division by `q * p`. */
  lemma ScaledParts(x: nat, e: nat, q: nat, r: nat, p: nat)
    requires x == e * q + r && r < q && p > 0
    ensures x * p == e * (q * p) + r * p
    ensures 0 <= r * p <= q * p - p
  {
    assert x * p == (e * q) * p + r * p;
    assert (e * q) * p == e * (q * p);
    MulMonotone(r, q - 1, p);
    assert (q - 1) * p == q * p - p;
  }

  lemma MulMonotone(a: nat, b: nat, c: nat)
    requires a <= b
    ensures a * c <= b * c
  {
  }

  lemma WordSplit(k: nat)
    requires k <= 64
    ensures Pow2(64 - k) * Pow2(k) == TWO_64
  {
    WordSizes();
    Pow2Add(64 - k, k);
  }

  /** A 64-bit shift multiplies the bits of its operand that stay in the word. */
  lemma Shl64Keeps(x: nat, k: nat)
    requires k < 64
    ensures Shl64(x, k) == x % Pow2(64 - k) * Pow2(k)
    ensures x % Pow2(64 - k) * Pow2(k) <= TWO_64 - Pow2(k)
    ensures x * Pow2(k) == x / Pow2(64 - k) * TWO_64 + Shl64(x, k)
  {
    var p, q := Pow2(k), Pow2(64 - k);
    var e, r := x / q, x % q;
    assert x == e * q + r;
    WordSplit(k);
    ScaledParts(x, e, q, r, p);
    DivModUnique(x * p, TWO_64, e, r * p);
  }

  // ---------- Single bits ----------

  lemma {:induction false} BitOfAnd(a: nat, b: nat, j: nat)
    ensures Bit(And(a, b), j) <==> Bit(a, j) && Bit(b, j)
  {
    HalfAnd(a, b);
    if j > 0 { BitOfAnd(a / 2, b / 2, j - 1); }
  }

  lemma {:induction false} BitOfOr(a: nat, b: nat, j: nat)
    ensures Bit(Or(a, b), j) <==> Bit(a, j) || Bit(b, j)
  {
    HalfOr(a, b);
    if j > 0 { BitOfOr(a / 2, b / 2, j - 1); }
  }

  lemma {:induction false} HalfAnd(a: nat, b: nat)
    ensures And(a, b) / 2 == And(a / 2, b / 2)
    ensures And(a, b) % 2 == 1 <==> a % 2 == 1 && b % 2 == 1
  {
  }

  lemma {:induction false} HalfOr(a: nat, b: nat)
    ensures Or(a, b) / 2 == Or(a / 2, b / 2)
    ensures Or(a, b) % 2 == 1 <==> a % 2 == 1 || b % 2 == 1
  {
  }

  lemma {:induction false} BitOfZero(j: nat)
    ensures !Bit(0, j)
  {
    if j > 0 { BitOfZero(j - 1); }
  }

  lemma {:induction false} BitOfFlag(i: nat, j: nat)
    ensures Bit(Pow2(i), j) <==> i == j
  {
    if i == 0 {
      if j > 0 { BitOfZero(j - 1); }
    } else if j > 0 {
      assert Pow2(i) / 2 == Pow2(i - 1);
      BitOfFlag(i - 1, j - 1);
    }
  }

  /** The complement of an `n`-bit word flips each of its bits. */
  lemma {:induction false} BitOfNot(a: nat, j: nat, n: nat)
    requires a < Pow2(n) && j < n
    ensures Bit(Pow2(n) - 1 - a, j) <==> !Bit(a, j)
  {
    var c := Pow2(n) - 1 - a;
    assert c / 2 == Pow2(n - 1) - 1 - a / 2;
    if j > 0 { BitOfNot(a / 2, j - 1, n - 1); }
  }

  lemma BitOfNot64(a: nat, j: nat)
    requires a < TWO_64 && j < 64
    ensures Bit(TWO_64 - 1 - a, j) <==> !Bit(a, j)
  {
    WordSizes();
    BitOfNot(a, j, 64);
  }

  lemma FlagBound(i: nat)
    requires i < 64
    ensures Pow2(i) < TWO_64
  {
    WordSizes();
    Pow2Monotone(i, 63);
  }

  lemma {:induction false} AndBound(a: nat, b: nat)
    ensures And(a, b) <= a
  {
    if a > 0 { AndBound(a / 2, b / 2); }
  }

  lemma {:induction false} OrBound(a: nat, b: nat, n: nat)
    requires a < Pow2(n) && b < Pow2(n)
    ensures Or(a, b) < Pow2(n)
  {
    if a > 0 && b > 0 && n > 0 { OrBound(a / 2, b / 2, n - 1); }
  }
}
