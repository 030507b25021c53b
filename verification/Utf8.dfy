/**
  The UTF-8 encoding of section 3 of RFC 3629, as the reference that the
  hand-written decoder and the line index are compared with.
 */
module Utf8 {
  import opened Bits

  /** A Unicode scalar value: any code point but a surrogate. */
  type Scalar = c: nat | c < 0xD800 || 0xE000 <= c < 0x11_0000

  function Encode(c: Scalar): (e: seq<Byte>)
    ensures 1 <= |e| <= 4
  {
    if c < 0x80 then [c]
    else if c < 0x800 then [0xC0 + c / 64, 0x80 + c % 64]
    else if c < 0x1_0000 then [0xE0 + c / 4096, 0x80 + c / 64 % 64, 0x80 + c % 64]
    else [0xF0 + c / 262144, 0x80 + c / 4096 % 64, 0x80 + c / 64 % 64, 0x80 + c % 64]
  }

  function EncodeAll(cs: seq<Scalar>): seq<Byte> {
    if cs == [] then [] else EncodeAll(cs[..|cs| - 1]) + Encode(cs[|cs| - 1])
  }

  /** The byte offset at which character `k` starts. */
  function Offset(cs: seq<Scalar>, k: nat): nat
    requires k <= |cs|
  {
    |EncodeAll(cs[..k])|
  }

  /** A byte that continues a character rather than starting one. */
  predicate Continues(b: Byte) {
    0x80 <= b < 0xC0
  }

  lemma EncodeShape(c: Scalar)
    ensures !Continues(Encode(c)[0])
    ensures forall i :: 0 < i < |Encode(c)| ==> Continues(Encode(c)[i])
    ensures Encode(c)[0] == 10 <==> c == 10
  {
  }

  lemma {:induction false} EncodePrefix(cs: seq<Scalar>, k: nat)
    requires k <= |cs|
    ensures EncodeAll(cs[..k]) <= EncodeAll(cs)
  {
    if k == |cs| {
      assert cs[..k] == cs;
    } else {
      var front := cs[..|cs| - 1];
      EncodePrefix(front, k);
      assert front[..k] == cs[..k];
    }
  }

  lemma {:induction false} EncodeNext(cs: seq<Scalar>, k: nat)
    requires k < |cs|
    ensures EncodeAll(cs[..k + 1]) == EncodeAll(cs[..k]) + Encode(cs[k])
  {
    assert cs[..k + 1][..k] == cs[..k];
  }

  /** The bytes of a source around character `k`. */
  lemma {:induction false} EncodeAllSplit(cs: seq<Scalar>, k: nat)
    requires k < |cs|
    ensures Offset(cs, k + 1) == Offset(cs, k) + |Encode(cs[k])| <= |EncodeAll(cs)|
    ensures EncodeAll(cs)[..Offset(cs, k)] == EncodeAll(cs[..k])
    ensures EncodeAll(cs)[Offset(cs, k)..Offset(cs, k + 1)] == Encode(cs[k])
  {
    EncodePrefix(cs, k + 1);
    EncodeNext(cs, k);
    SlicesOf(EncodeAll(cs), EncodeAll(cs[..k]), Encode(cs[k]));
  }

  lemma SlicesOf(b: seq<Byte>, p: seq<Byte>, e: seq<Byte>)
    requires p + e <= b
    ensures b[..|p|] == p && b[|p|..|p| + |e|] == e
  {
    assert b[..|p| + |e|] == p + e;
    assert b[..|p|] == (p + e)[..|p|];
    assert b[|p|..|p| + |e|] == (p + e)[|p|..];
  }

  lemma {:induction false} OffsetEnd(cs: seq<Scalar>)
    ensures Offset(cs, |cs|) == |EncodeAll(cs)|
  {
    assert cs[..|cs|] == cs;
  }

  lemma {:induction false} OffsetMonotone(cs: seq<Scalar>, j: nat, k: nat)
    requires j < k <= |cs|
    ensures Offset(cs, j) < Offset(cs, k) <= |EncodeAll(cs)|
  {
    EncodeNext(cs, k - 1);
    EncodePrefix(cs, k);
    if j < k - 1 {
      OffsetMonotone(cs, j, k - 1);
    }
  }
}
