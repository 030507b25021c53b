/**
  Unique local symbol names, `compiler/llvm/src/builder.rs`: a prefix, a dot and
  a counter written in base 62.
 */
module SymbolNames {
  import opened Bits

  const BASE_N_ALPHANUMERIC_ONLY: nat := 62
  const MAX_BASE: nat := 64
  const BUFFER: nat := 128
  const TWO_128: nat := TWO_64 * TWO_64

  type Digit = d: nat | d < MAX_BASE

  /** The digits of base 64: 0-9, a-z, A-Z, then `@` and `$`. */
  function Char(d: Digit): char {
    if d < 10 then ('0' as int + d) as char
    else if d < 36 then ('a' as int + d - 10) as char
    else if d < 62 then ('A' as int + d - 36) as char
    else if d == 62 then '@'
    else '$'
  }

  function Value(c: char): nat {
    if '0' <= c <= '9' then c as int - '0' as int
    else if 'a' <= c <= 'z' then c as int - 'a' as int + 10
    else if 'A' <= c <= 'Z' then c as int - 'A' as int + 36
    else if c == '@' then 62
    else 63
  }

  /** The alphabet: four runs of consecutive characters. */
  lemma Alphabet(d: Digit)
    ensures Char(0) == '0' && Char(9) == '9' && Char(10) == 'a' && Char(35) == 'z' && Char(36) == 'A' && Char(61) == 'Z'
    ensures Char(62) == '@' && Char(63) == '$'
    ensures d < 61 && d != 9 && d != 35 ==> Char(d + 1) as int == Char(d) as int + 1
  {
  }

  lemma CharSpec(d: Digit)
    ensures Value(Char(d)) == d && Char(d) != '.'
    ensures Char(d) == '0' <==> d == 0
  {
  }

  // ---------- Numerals ----------

  /** `n / b`, by repeated subtraction. */
  function Quot(n: nat, b: nat): (q: nat)
    requires b >= 2
    ensures 2 * q <= n && (q == 0 <==> n < b)
  {
    if n < b then 0 else 1 + Quot(n - b, b)
  }

  /** `n % b`, likewise. */
  function Rem(n: nat, b: nat): (r: nat)
    requires b >= 2
    ensures r < b && (n < b ==> r == n)
  {
    if n < b then n else Rem(n - b, b)
  }

  lemma {:induction false} QuotRem(n: nat, b: nat)
    requires b >= 2
    ensures Quot(n, b) * b + Rem(n, b) == n
  {
    if n >= b {
      QuotRem(n - b, b);
      var q := Quot(n - b, b);
      assert (1 + q) * b == q * b + b;
    }
  }

  lemma DivMod(n: nat, b: nat)
    requires b >= 2
    ensures n / b == Quot(n, b) && n % b == Rem(n, b)
  {
    QuotRem(n, b);
    DivModUnique(n, b, Quot(n, b), Rem(n, b));
  }

  /** `n` written in base `base`, most significant digit first. */
  function Numeral(n: nat, base: nat): string
    requires 2 <= base <= MAX_BASE
  {
    if n < base then [Char(n)] else Numeral(Quot(n, base), base) + [Char(Rem(n, base))]
  }

  function Eval(s: string, base: nat): nat {
    if s == [] then 0 else Eval(s[..|s| - 1], base) * base + Value(s[|s| - 1])
  }

  /** A numeral evaluates back to its number. */
  lemma {:induction false} EvalNumeral(n: nat, base: nat)
    requires 2 <= base <= MAX_BASE
    ensures Eval(Numeral(n, base), base) == n
  {
    if n < base {
      CharSpec(n);
      assert [Char(n)][..0] == [];
    } else {
      CharSpec(Rem(n, base));
      EvalNumeral(Quot(n, base), base);
      QuotRem(n, base);
      var front := Numeral(Quot(n, base), base);
      assert (front + [Char(Rem(n, base))])[..|front|] == front;
    }
  }

  /** Numerals have no dot, are not empty, and start with zero only for zero. */
  lemma {:induction false} NumeralShape(n: nat, base: nat)
    requires 2 <= base <= MAX_BASE
    ensures Numeral(n, base) != [] && '.' !in Numeral(n, base)
    ensures Numeral(n, base)[0] == '0' <==> n == 0
  {
    if n < base {
      CharSpec(n);
    } else {
      CharSpec(Rem(n, base));
      NumeralShape(Quot(n, base), base);
    }
  }

  // ---------- Writing a numeral ----------

  /** The number of binary digits of `n`. */
  function BitLen(n: nat): nat {
    if n == 0 then 0 else 1 + BitLen(n / 2)
  }

  lemma {:induction false} BitLenBound(n: nat, k: nat)
    requires n < Pow2(k)
    ensures BitLen(n) <= k
  {
    if n > 0 {
      if k == 0 { assert false; }
      BitLenBound(n / 2, k - 1);
    }
  }

  lemma {:induction false} BitLenMonotone(m: nat, n: nat)
    requires m <= n
    ensures BitLen(m) <= BitLen(n)
  {
    if m > 0 { BitLenMonotone(m / 2, n / 2); }
  }

  /** A 128-bit number has at most 128 digits in any base. */
  lemma BitLenOf128(n: nat)
    requires n < TWO_128
    ensures BitLen(n) <= 128
  {
    WordSizes();
    Pow2Add(64, 64);
    BitLenBound(n, 128);
  }

  /** Dividing by the base drops at least one binary digit. */
  lemma {:induction false} DivDropsBit(n: nat, base: nat)
    requires n > 0 && base >= 2
    ensures BitLen(Quot(n, base)) < BitLen(n)
  {
    BitLenMonotone(Quot(n, base), n / 2);
  }

  function Reversed(s: string): string {
    seq(|s|, k requires 0 <= k < |s| => s[|s| - 1 - k])
  }

  lemma {:induction false} ReversedSnoc(s: string, c: char)
    ensures Reversed(s + [c]) == [c] + Reversed(s)
  {
  }

  method ReversePrefix(a: array<char>, n: nat)
    requires n <= a.Length
    modifies a
    ensures a[..n] == Reversed(old(a[..n]))
  {
    var i := 0;
    while i < n / 2
      invariant i <= n / 2
      invariant forall k :: 0 <= k < i ==> a[k] == old(a[n - 1 - k]) && a[n - 1 - k] == old(a[k])
      invariant forall k :: i <= k < n - i ==> a[k] == old(a[k])
    {
      a[i], a[n - 1 - i] := a[n - 1 - i], a[i];
      i := i + 1;
    }
  }

  /** `push_base_n_str`: the digits go into a buffer of 128 bytes, least significant first, which is then reversed. */
  method PushBaseN(number: nat, base: nat, output: string) returns (r: string)
    requires number < TWO_128 && 2 <= base <= MAX_BASE
    ensures r == output + Numeral(number, base)
  {
    var s := new char[BUFFER](_ => '\0');
    var index := 0;
    var n: nat := number;
    BitLenOf128(n);
    while true
      invariant index <= BUFFER && index + BitLen(n) <= BUFFER && (index > 0 ==> n > 0)
      invariant Numeral(n, base) + Reversed(s[..index]) == Numeral(number, base)
      decreases n
    {
      if n > 0 { DivDropsBit(n, base); }
      DivMod(n, base);
      ghost var before := s[..index];
      s[index] := Char(n % base);
      assert s[..index + 1] == before + [Char(Rem(n, base))];
      ReversedSnoc(before, Char(Rem(n, base)));
      NumeralStep(n, base, Reversed(before));
      index := index + 1;
      n := n / base;
      if n == 0 {
        break;
      }
    }
    ReversePrefix(s, index);
    r := output + s[..index];
  }

  lemma {:induction false} NumeralStep(n: nat, base: nat, tail: string)
    requires 2 <= base <= MAX_BASE
    ensures Numeral(n, base) + tail
            == (if n < base then [] else Numeral(Quot(n, base), base)) + ([Char(Rem(n, base))] + tail)
  {
  }

  // ---------- Names ----------

  function Name(prefix: string, idx: nat): string {
    prefix + "." + Numeral(idx, BASE_N_ALPHANUMERIC_ONLY)
  }

  /** The position of the last `c`, or -1 if there is none. */
  function Last(s: string, c: char): (k: int)
    ensures -1 <= k < |s| && (k >= 0 ==> s[k] == c)
    ensures forall i :: k < i < |s| ==> s[i] != c
  {
    if s == [] then -1
    else if s[|s| - 1] == c then |s| - 1
    else Last(s[..|s| - 1], c)
  }

  lemma LastOf(a: string, c: char, b: string)
    requires c !in b
    ensures Last(a + [c] + b, c) == |a|
  {
    var s := a + [c] + b;
    var k := Last(s, c);
    assert s[|a|] == c;
    assert s[|a| + 1..] == b;
  }

  /** A name determines its prefix and its index, even when prefixes contain dots. */
  lemma {:induction false} NamesAreUnique(p: string, i: nat, q: string, j: nat)
    requires Name(p, i) == Name(q, j)
    ensures p == q && i == j
  {
    var base := BASE_N_ALPHANUMERIC_ONLY;
    var d, e := Numeral(i, base), Numeral(j, base);
    NumeralShape(i, base);
    NumeralShape(j, base);
    LastOf(p, '.', d);
    LastOf(q, '.', e);
    assert p == Name(p, i)[..|p|] == q;
    assert d == Name(p, i)[|p| + 1..] == e;
    EvalNumeral(i, base);
    EvalNumeral(j, base);
  }

  class Builder {
    var localGenSymCounter: nat

    constructor ()
      ensures localGenSymCounter == 0
    {
      localGenSymCounter := 0;
    }

    method GenerateLocalSymbolName(prefix: string) returns (name: string)
      requires localGenSymCounter + 1 < TWO_64
      modifies this
      ensures name == Name(prefix, old(localGenSymCounter))
      ensures localGenSymCounter == old(localGenSymCounter) + 1
    {
      var idx := localGenSymCounter;
      localGenSymCounter := idx + 1;
      name := prefix;
      name := name + ".";
      name := PushBaseN(idx, BASE_N_ALPHANUMERIC_ONLY, name);
    }
  }

  /** Over every run, whatever the prefixes, all names are distinct. */
  method GenerateAll(prefixes: seq<string>) returns (names: seq<string>)
    requires |prefixes| < TWO_64
    ensures |names| == |prefixes|
    ensures forall i, j :: 0 <= i < j < |names| ==> names[i] != names[j]
    ensures forall i :: 0 <= i < |names| ==> names[i] == Name(prefixes[i], i)
  {
    var builder := new Builder();
    names := [];
    for n := 0 to |prefixes|
      invariant builder.localGenSymCounter == n == |names|
      invariant forall i :: 0 <= i < n ==> names[i] == Name(prefixes[i], i)
    {
      var name := builder.GenerateLocalSymbolName(prefixes[n]);
      names := names + [name];
    }
    forall i, j | 0 <= i < j < |names|
      ensures names[i] != names[j]
    {
      if names[i] == names[j] { NamesAreUnique(prefixes[i], i, prefixes[j], j); }
    }
  }
}
