/**
  Printing and parsing of function names, `compiler/syntax_base/src/functions.rs`.
  A symbol is its text.
 */
module FunctionNames {
  import opened Wrappers
  import opened SymbolNames

  datatype FunctionName = FunctionName(mod: Option<string>, function_: string, arity: nat)

  datatype ParseResult = Ok(name: FunctionName) | MissingArity | InvalidArity

  /** `M:F/A`, or `F/A` for a local name. */
  function Print(n: FunctionName): string {
    var local := n.function_ + "/" + Numeral(n.arity, 10);
    if n.mod.Some? then n.mod.value + ":" + local else local
  }

  // ---------- Splitting ----------

  /** The position of the first `c`, or the length if there is none. */
  function First(s: string, c: char): (k: nat)
    ensures k <= |s| && (k < |s| ==> s[k] == c)
    ensures forall i :: 0 <= i < k ==> s[i] != c
  {
    if s == [] || s[0] == c then 0 else First(s[1..], c) + 1
  }

  predicate AllDigits(s: string) {
    forall i :: 0 <= i < |s| ==> '0' <= s[i] <= '9'
  }

  /** `u8::from_str`: decimal digits after an optional plus sign, at most 255. */
  function ParseU8(s: string): Option<nat> {
    var digits := if |s| > 1 && s[0] == '+' then s[1..] else s;
    if digits == [] || !AllDigits(digits) then None
    else if Eval(digits, 10) > 255 then None
    else Some(Eval(digits, 10))
  }

  /** `from_str`: the module is what precedes the first colon, the arity what follows the last slash. */
  function Parse(s: string): ParseResult {
    var colon := First(s, ':');
    var mod, rest := if colon < |s| then Some(s[..colon]) else None, if colon < |s| then s[colon + 1..] else s;
    var slash := Last(rest, '/');
    if slash < 0 then MissingArity
    else
      var arity := ParseU8(rest[slash + 1..]);
      if arity.None? then InvalidArity else Ok(FunctionName(mod, rest[..slash], arity.value))
  }

  // ---------- What each string parses to ----------

  predicate Signless(s: string, digits: string) {
    s == digits || s == "+" + digits
  }

  /** An arity is a number below 256 in decimal digits, with or without a plus sign. */
  lemma {:induction false} ParseU8Iff(s: string, n: nat)
    ensures ParseU8(s) == Some(n) <==>
      n < 256 && exists digits :: Signless(s, digits) && digits != [] && Eval(digits, 10) == n
                                  && forall i :: 0 <= i < |digits| ==> '0' <= digits[i] <= '9'
  {
    forall digits | Signless(s, digits) && digits != [] && AllDigits(digits)
      ensures ParseU8(s) == if Eval(digits, 10) < 256 then Some(Eval(digits, 10)) else None
    {
      if s == "+" + digits { assert s[1..] == digits; }
    }
    if ParseU8(s).Some? {
      var digits := if |s| > 1 && s[0] == '+' then s[1..] else s;
      assert Signless(s, digits);
    }
  }

  /** The text before the first colon, if there is one, and the text after it. */
  predicate Heads(s: string, mod: Option<string>, rest: string) {
    if mod.Some? then ':' !in mod.value && s == mod.value + ":" + rest else ':' !in s && rest == s
  }

  /** The text before the last slash and the text after it. */
  predicate Tails(rest: string, f: string, arity: string) {
    '/' !in arity && rest == f + "/" + arity
  }

  lemma {:induction false} HeadsIs(s: string, mod: Option<string>, rest: string)
    requires Heads(s, mod, rest)
    ensures var colon := First(s, ':');
      if mod.Some? then colon == |mod.value| < |s| && s[..colon] == mod.value && s[colon + 1..] == rest
      else colon == |s|
  {
    if mod.Some? {
      FirstOf(mod.value, ':', rest);
      assert s == mod.value + [':'] + rest;
    }
  }

  /** Without a slash after the module, the arity is missing. */
  lemma {:induction false} ParseMissing(s: string, mod: Option<string>, rest: string)
    requires Heads(s, mod, rest) && '/' !in rest
    ensures Parse(s) == MissingArity
  {
    HeadsIs(s, mod, rest);
  }

  /** Otherwise what follows the last slash is the arity, or makes the name invalid. */
  lemma {:induction false} ParseParts(s: string, mod: Option<string>, rest: string, f: string, arity: string)
    requires Heads(s, mod, rest) && Tails(rest, f, arity)
    ensures Parse(s) == if ParseU8(arity).Some? then Ok(FunctionName(mod, f, ParseU8(arity).value)) else InvalidArity
  {
    HeadsIs(s, mod, rest);
    LastOf(f, '/', arity);
    assert rest == f + ['/'] + arity;
    assert rest[..|f|] == f && rest[|f| + 1..] == arity;
  }

  /** Every string is of exactly one of these forms. */
  lemma {:induction false} ParseSpec(s: string) returns (mod: Option<string>, rest: string, f: string, arity: string)
    ensures Heads(s, mod, rest) && ('/' in rest ==> Tails(rest, f, arity))
    ensures Parse(s) == MissingArity <==> '/' !in rest
    ensures Parse(s) == InvalidArity <==> '/' in rest && ParseU8(arity).None?
    ensures Parse(s).Ok? ==> Parse(s).name == FunctionName(mod, f, ParseU8(arity).value)
  {
    var colon := First(s, ':');
    mod := if colon < |s| then Some(s[..colon]) else None;
    rest := if colon < |s| then s[colon + 1..] else s;
    assert colon < |s| ==> s == s[..colon] + ":" + s[colon + 1..];
    f, arity := "", "";
    if '/' in rest {
      var slash := Last(rest, '/');
      f, arity := rest[..slash], rest[slash + 1..];
      assert rest == f + "/" + arity;
      ParseParts(s, mod, rest, f, arity);
    } else {
      ParseMissing(s, mod, rest);
    }
  }

  // ---------- Parsing what was printed ----------

  lemma FirstOf(a: string, c: char, b: string)
    requires c !in a
    ensures First(a + [c] + b, c) == |a|
  {
    var s := a + [c] + b;
    var k := First(s, c);
    assert s[|a|] == c;
    assert forall i :: 0 <= i < |a| ==> s[i] == a[i];
  }

  lemma {:induction false} DecimalDigits(n: nat)
    ensures forall i :: 0 <= i < |Numeral(n, 10)| ==> '0' <= Numeral(n, 10)[i] <= '9'
  {
    if n >= 10 { DecimalDigits(Quot(n, 10)); }
  }

  lemma ParseDecimal(n: nat)
    requires n < 256
    ensures ParseU8(Numeral(n, 10)) == Some(n)
    ensures '/' !in Numeral(n, 10)
  {
    DecimalDigits(n);
    NumeralShape(n, 10);
    EvalNumeral(n, 10);
  }

  /** What follows the colon is split at its last slash, so slashes in the function's own text survive. */
  lemma LocalPart(f: string, arity: nat)
    requires arity < 256
    ensures var rest := f + "/" + Numeral(arity, 10);
      Last(rest, '/') == |f| && rest[..|f|] == f && ParseU8(rest[|f| + 1..]) == Some(arity)
  {
    ParseDecimal(arity);
    LastOf(f, '/', Numeral(arity, 10));
    var rest := f + "/" + Numeral(arity, 10);
    assert rest[|f| + 1..] == Numeral(arity, 10);
  }

  /** Splitting at a colon in front of the local part. */
  lemma {:induction false} ParseSplit(s: string, m: string, f: string, arity: nat)
    requires s == m + ":" + (f + "/" + Numeral(arity, 10)) && ':' !in m && arity < 256
    ensures Parse(s) == Ok(FunctionName(Some(m), f, arity))
  {
    var local := f + "/" + Numeral(arity, 10);
    LocalPart(f, arity);
    FirstOf(m, ':', local);
    assert s == m + [':'] + local;
    assert s[..|m|] == m && s[|m| + 1..] == local;
  }

  lemma {:induction false} ParseLocal(s: string, f: string, arity: nat)
    requires s == f + "/" + Numeral(arity, 10) && ':' !in f && arity < 256
    ensures Parse(s) == Ok(FunctionName(None, f, arity))
  {
    LocalPart(f, arity);
    NoColon(f, arity);
  }

  /** A colon in the first part makes parsing find a shorter module. */
  lemma {:induction false} ParseCutsShort(s: string, a: string, b: string)
    requires s == a + b && ':' in a
    ensures Parse(s).Ok? ==> Parse(s).name.mod.Some? && |Parse(s).name.mod.value| < |a|
  {
    ColonFoundEarly(a, b);
  }

  /**
    Parsing a printed name gives it back if and only if the text before the
    first possible colon has none: the module, or the function of a local name.
   */
  lemma {:induction false} RoundTripIff(n: FunctionName)
    requires n.arity < 256
    ensures Parse(Print(n)) == Ok(n) <==> ':' !in (if n.mod.Some? then n.mod.value else n.function_)
  {
    if n.mod.Some? {
      QualifiedRoundTrip(n.mod.value, n.function_, n.arity);
    } else {
      LocalRoundTrip(n.function_, n.arity);
    }
  }

  lemma {:induction false} QualifiedRoundTrip(m: string, f: string, arity: nat)
    requires arity < 256
    ensures var n := FunctionName(Some(m), f, arity); Parse(Print(n)) == Ok(n) <==> ':' !in m
  {
    var s, local := Print(FunctionName(Some(m), f, arity)), f + "/" + Numeral(arity, 10);
    if ':' in m {
      assert s == m + (":" + local);
      ParseCutsShort(s, m, ":" + local);
    } else {
      ParseSplit(s, m, f, arity);
    }
  }

  lemma {:induction false} LocalRoundTrip(f: string, arity: nat)
    requires arity < 256
    ensures var n := FunctionName(None, f, arity); Parse(Print(n)) == Ok(n) <==> ':' !in f
  {
    var s := Print(FunctionName(None, f, arity));
    if ':' in f {
      assert s == f + ("/" + Numeral(arity, 10));
      ParseCutsShort(s, f, "/" + Numeral(arity, 10));
    } else {
      ParseLocal(s, f, arity);
    }
  }

  lemma ColonFoundEarly(a: string, b: string)
    requires ':' in a
    ensures First(a + b, ':') < |a|
  {
    var k := First(a + b, ':');
    var i :| 0 <= i < |a| && a[i] == ':';
    assert (a + b)[i] == ':';
  }

  lemma NoColon(f: string, arity: nat)
    requires ':' !in f
    ensures var s := f + "/" + Numeral(arity, 10); First(s, ':') == |s|
  {
    DecimalDigits(arity);
    var s := f + "/" + Numeral(arity, 10);
    forall i | 0 <= i < |s|
      ensures s[i] != ':'
    {
      assert s[i] == if i < |f| then f[i] else if i == |f| then '/' else Numeral(arity, 10)[i - |f| - 1];
    }
  }
}
