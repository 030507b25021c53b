/**
  `FileMapSource` of `compiler/parser/src/source.rs`: a hand-written UTF-8
  decoder with one character of look-ahead and an end-of-file flag.
 */
module FileMapSources {
  import opened Bits
  import opened Wrappers
  import opened Utf8
  import opened SourceIndices

  /** A packed source index and a code point. */
  type Item = (nat, nat)

  const CONT_MASK: nat := 0x3F

  /** `byte & (0x7F >> width)` for `width == 2`, the only width in use. */
  function FirstByte(byte: Byte): nat {
    And(byte, 0x1F)
  }

  function AccContByte(ch: nat, byte: Byte): nat {
    Or(Shl32(ch, 6), And(byte, CONT_MASK))
  }

  /** The two continuation bytes of a three-byte sequence. */
  function TwoContBytes(y: Byte, z: Byte): nat {
    AccContByte(And(y, CONT_MASK), z)
  }

  function Decode3(x: Byte, y: Byte, z: Byte): nat {
    Or(Shl32(FirstByte(x), 12), TwoContBytes(y, z))
  }

  function Decode4(x: Byte, y: Byte, z: Byte, w: Byte): nat {
    Or(Shl32(And(FirstByte(x), 7), 18), AccContByte(TwoContBytes(y, z), w))
  }

  // ---------- The bit operations undo the encoding ----------

  lemma Mask(a: nat, k: nat, mask: nat, m: nat)
    requires m == Pow2(k) && mask == m - 1
    ensures And(a, mask) == a % m
  {
    AndLow(a, k);
  }

  lemma ShiftedOr(hi: nat, lo: nat, k: nat, m: nat)
    requires k < 32 && m == Pow2(k) && lo < m && hi * m < TWO_32
    ensures Or(Shl32(hi, k), lo) == hi * m + lo
  {
    assert Shl32(hi, k) == hi * m;
    OrAdd(lo, hi, k);
  }

  lemma Continuation(acc: nat, byte: Byte)
    requires acc < 0x1_0000
    ensures AccContByte(acc, byte) == acc * 64 + byte % 64
  {
    assert Pow2(6) == 64;
    Mask(byte, 6, CONT_MASK, 64);
    ShiftedOr(acc, byte % 64, 6, 64);
  }

  lemma TwoContinuations(y: Byte, z: Byte)
    ensures TwoContBytes(y, z) == y % 64 * 64 + z % 64
  {
    assert Pow2(6) == 64;
    Mask(y, 6, CONT_MASK, 64);
    Continuation(y % 64, z);
  }

  lemma LeadByte(x: Byte)
    ensures FirstByte(x) == x % 32
    ensures And(FirstByte(x), 7) == x % 32 % 8
  {
    assert Pow2(5) == 32 && Pow2(3) == 8;
    Mask(x, 5, 0x1F, 32);
    Mask(x % 32, 3, 7, 8);
  }

  lemma Decode2Value(x: Byte, y: Byte)
    ensures AccContByte(FirstByte(x), y) == x % 32 * 64 + y % 64
  {
    LeadByte(x);
    Continuation(x % 32, y);
  }

  lemma Decode3Value(x: Byte, y: Byte, z: Byte)
    ensures Decode3(x, y, z) == x % 32 * 4096 + y % 64 * 64 + z % 64
  {
    assert Pow2(12) == 4096;
    LeadByte(x);
    TwoContinuations(y, z);
    ShiftedOr(x % 32, y % 64 * 64 + z % 64, 12, 4096);
  }

  lemma Decode4Value(x: Byte, y: Byte, z: Byte, w: Byte)
    ensures Decode4(x, y, z, w) == x % 32 % 8 * 262144 + y % 64 * 4096 + z % 64 * 64 + w % 64
  {
    assert Pow2(9) == 512;
    assert Pow2(18) == 262144 by { Pow2Add(9, 9); }
    LeadByte(x);
    TwoContinuations(y, z);
    Continuation(y % 64 * 64 + z % 64, w);
    ShiftedOr(x % 32 % 8, y % 64 * 4096 + z % 64 * 64 + w % 64, 18, 262144);
  }

  lemma Digits2(c: nat)
    requires c < 0x800
    ensures (0xC0 + c / 64) % 32 * 64 + (0x80 + c % 64) % 64 == c
  {
    Marked(c % 64);
    DivModUnique(0xC0 + c / 64, 32, 6, c / 64);
  }

  lemma Undo2(c: Scalar)
    requires 0x80 <= c < 0x800
    ensures AccContByte(FirstByte(0xC0 + c / 64), 0x80 + c % 64) == c
  {
    Decode2Value(0xC0 + c / 64, 0x80 + c % 64);
    Digits2(c);
  }

  /** Base-64 digits: nested division agrees with division by the product. */
  lemma Base64(c: nat)
    ensures c / 4096 == c / 64 / 64 && c / 262144 == c / 64 / 64 / 64
  {
    var a := c / 64;
    var b := a / 64;
    DivModUnique(c, 4096, b, a % 64 * 64 + c % 64);
    DivModUnique(c, 262144, b / 64, b % 64 * 4096 + a % 64 * 64 + c % 64);
  }

  lemma Digits3(c: nat)
    requires c < 0x1_0000
    ensures (0xE0 + c / 4096) % 32 * 4096 + (0x80 + c / 64 % 64) % 64 * 64 + (0x80 + c % 64) % 64 == c
  {
    Base64(c);
    Marked(c % 64);
    Marked(c / 64 % 64);
    var x := c / 4096;
    DivModUnique(0xE0 + x, 32, 7, x);
  }

  lemma Marked(d: nat)
    requires d < 64
    ensures (0x80 + d) % 64 == d
  {
  }

  lemma Undo3(c: Scalar)
    requires 0x800 <= c < 0x1_0000
    ensures Decode3(0xE0 + c / 4096, 0x80 + c / 64 % 64, 0x80 + c % 64) == c
  {
    Decode3Value(0xE0 + c / 4096, 0x80 + c / 64 % 64, 0x80 + c % 64);
    Digits3(c);
  }

  lemma Digits4(c: nat)
    requires c < 0x11_0000
    ensures (0xF0 + c / 262144) % 32 % 8 * 262144 + (0x80 + c / 4096 % 64) % 64 * 4096
            + (0x80 + c / 64 % 64) % 64 * 64 + (0x80 + c % 64) % 64 == c
  {
    Base64(c);
    Marked(c % 64);
    Marked(c / 64 % 64);
    Marked(c / 4096 % 64);
    var x := c / 262144;
    DivModUnique(0xF0 + x, 32, 7, 16 + x);
    DivModUnique(16 + x, 8, 2, x);
  }

  lemma Undo4(c: Scalar)
    requires 0x1_0000 <= c
    ensures Decode4(0xF0 + c / 262144, 0x80 + c / 4096 % 64, 0x80 + c / 64 % 64, 0x80 + c % 64) == c
  {
    Decode4Value(0xF0 + c / 262144, 0x80 + c / 4096 % 64, 0x80 + c / 64 % 64, 0x80 + c % 64);
    Digits4(c);
  }

  /** What the decoder computes from the bytes of one character, chosen by their number. */
  function DecodeOne(e: seq<Byte>): nat
    requires 1 <= |e| <= 4
  {
    if |e| == 1 then e[0]
    else if |e| == 2 then AccContByte(FirstByte(e[0]), e[1])
    else if |e| == 3 then Decode3(e[0], e[1], e[2])
    else Decode4(e[0], e[1], e[2], e[3])
  }

  /** On the bytes of a character, the decoder computes the character. */
  lemma DecodeUndoesEncode(c: Scalar)
    ensures DecodeOne(Encode(c)) == c
  {
    if 0x80 <= c < 0x800 {
      Undo2(c);
    } else if 0x800 <= c < 0x1_0000 {
      Undo3(c);
    } else if 0x1_0000 <= c {
      Undo4(c);
    }
  }

  /** The lead byte tells how many bytes follow. */
  lemma LeadTellsLength(c: Scalar)
    ensures var e := Encode(c);
      (e[0] < 128 <==> |e| == 1) && (e[0] >= 0xE0 <==> |e| >= 3) && (e[0] >= 0xF0 <==> |e| == 4)
  {
  }

  /** The code point of item `k` of a source, with the index where its encoding starts. */
  ghost function ItemAt(id: SourceId, cs: seq<Scalar>, k: nat): Item
    requires k < |cs| && |EncodeAll(cs)| < TWO_32
  {
    OffsetMonotone(cs, k, k + 1);
    (New(id, Offset(cs, k)), cs[k])
  }

  /** What the `k`-th read of a source returns. */
  ghost function Nth(id: SourceId, cs: seq<Scalar>, k: nat): Option<Item>
    requires |EncodeAll(cs)| < TWO_32
  {
    if k < |cs| then Some(ItemAt(id, cs, k)) else None
  }

  class FileMapSource {
    const bytes: seq<Byte>
    const start: nat
    const end: nat
    var peek: Option<Item>
    var pos: nat
    var eof: bool

    ghost const id: SourceId
    ghost const chars: seq<Scalar>
    /** Characters decoded so far, and characters handed out by `Read` so far. */
    ghost var decoded: nat
    ghost var taken: nat

    ghost predicate Decoding()
      reads this
    {
      && bytes == EncodeAll(chars) && end == |bytes| < TWO_32
      && start == New(id, 0)
      && decoded <= |chars| && pos == Offset(chars, decoded)
      && (eof ==> decoded == |chars|)
    }

    ghost predicate Valid()
      reads this
    {
      && Decoding()
      && taken <= |chars|
      && peek == Nth(id, chars, taken)
      && decoded == if taken < |chars| then taken + 1 else taken
    }

    constructor (id: SourceId, bytes: seq<Byte>, ghost cs: seq<Scalar>)
      requires bytes == EncodeAll(cs) && |bytes| < TWO_32
      ensures Valid() && fresh(this) && taken == 0
      ensures this.id == id && chars == cs && this.bytes == bytes
    {
      this.bytes := bytes;
      start := New(id, 0);
      end := |bytes|;
      peek := None;
      pos := 0;
      eof := false;
      this.id := id;
      chars := cs;
      decoded := 0;
      taken := 0;
      new;
      peek := NextCharInternal();
    }

    method NextCharInternal() returns (r: Option<Item>)
      requires Decoding()
      modifies `pos, `eof, `decoded
      ensures Decoding()
      ensures r == Nth(id, chars, old(decoded))
      ensures decoded == if old(decoded) < |chars| then old(decoded) + 1 else old(decoded)
    {
      EndOfFile();
      if pos == end {
        eof := true;
      }
      if eof {
        return None;
      }
      AtChar();
      var first := Add(start, pos);
      var ch, p := DecodeChar(chars[decoded]);
      if bytes[pos] >= 128 && p >= end {
        eof := true;
      }
      decoded := decoded + 1;
      pos := p;
      EndOfFile();
      r := Some((first, ch));
    }

    /** The code point at `pos`, and the position after it. */
    method DecodeChar(ghost c: Scalar) returns (ch: nat, p: nat)
      requires end == |bytes| && pos + |Encode(c)| <= end
      requires bytes[pos..pos + |Encode(c)|] == Encode(c)
      ensures ch == c && p == pos + |Encode(c)|
    {
      CharBytes(bytes, pos, Encode(c));
      LeadTellsLength(c);
      DecodeUndoesEncode(c);
      if bytes[pos] < 128 {
        return bytes[pos], pos + 1;
      }
      ch, p := DecodeMultibyte(Encode(c));
    }

    /** The multi-byte case: the code point at `pos`, and the position after it. */
    method DecodeMultibyte(ghost e: seq<Byte>) returns (ch: nat, p: nat)
      requires end == |bytes| && pos + |e| <= end && 2 <= |e| <= 4
      requires forall i :: 0 <= i < |e| ==> bytes[pos + i] == e[i]
      requires (e[0] >= 0xE0 <==> |e| >= 3) && (e[0] >= 0xF0 <==> |e| == 4)
      ensures ch == DecodeOne(e) && p == pos + |e|
    {
      var x := bytes[pos];
      var init := FirstByte(x);
      p := pos + 1;
      var y: Byte := if p == end then 0 else bytes[p];
      ch := AccContByte(init, y);
      if x >= 0xE0 {
        p := p + 1;
        var z: Byte := if p == end then 0 else bytes[p];
        var yz := AccContByte(And(y, CONT_MASK), z);
        ch := Or(Shl32(init, 12), yz);
        if x >= 0xF0 {
          p := p + 1;
          var w: Byte := if p == end then 0 else bytes[p];
          ch := Or(Shl32(And(init, 7), 18), AccContByte(yz, w));
        }
      }
      p := p + 1;
    }

    /** Before the end, the reader stands at the bytes of the next character. */
    lemma AtChar()
      requires Decoding() && decoded < |chars|
      ensures SourceOf(start) < TWO_32
      ensures Nth(id, chars, decoded) == Some((Add(start, pos), chars[decoded]))
      ensures pos + |Encode(chars[decoded])| == Offset(chars, decoded + 1) <= end
      ensures bytes[pos..pos + |Encode(chars[decoded])|] == Encode(chars[decoded])
    {
      EncodeAllSplit(chars, decoded);
      AddFromStart(id, pos);
    }

    lemma EndOfFile()
      requires bytes == EncodeAll(chars)
      requires decoded <= |chars| && pos == Offset(chars, decoded)
      ensures pos <= |bytes|
      ensures pos == |bytes| <==> decoded == |chars|
    {
      OffsetEnd(chars);
      if decoded < |chars| {
        OffsetMonotone(chars, decoded, |chars|);
      }
    }

    /** `read`: the next character of the source, or `None` for ever after the last. */
    method Read() returns (r: Option<Item>)
      requires Valid()
      modifies this
      ensures Valid()
      ensures r == Nth(id, chars, old(taken))
      ensures taken == if old(taken) < |chars| then old(taken) + 1 else old(taken)
    {
      if peek.Some? {
        r := peek;
        peek := None;
      } else {
        r := NextCharInternal();
        if r == None {
          eof := true;
          return;
        }
      }
      taken := taken + 1;
      peek := NextCharInternal();
    }

    /** `peek`: what the next `Read` will return, without consuming it. */
    method Peek() returns (r: Option<Item>)
      requires Valid()
      ensures r == Nth(id, chars, taken)
    {
      r := peek;
    }
  }

  /**
    Every run of `n` reads over every UTF-8 source returns exactly the encoded
    scalar values in order, each with the offset of its first byte, then `None`;
    and the peek before each read agrees with it.
   */
  method ReadMany(id: SourceId, bytes: seq<Byte>, ghost cs: seq<Scalar>, n: nat)
      returns (got: seq<Option<Item>>, peeks: seq<Option<Item>>)
    requires bytes == EncodeAll(cs) && |bytes| < TWO_32
    ensures |got| == n && peeks == got
    ensures forall k :: 0 <= k < n ==> got[k] == Nth(id, cs, k)
  {
    var source := new FileMapSource(id, bytes, cs);
    got, peeks := [], [];
    for k := 0 to n
      invariant source.Valid() && source.id == id && source.chars == cs && fresh(source)
      invariant source.taken == if k <= |cs| then k else |cs|
      invariant |got| == k && peeks == got
      invariant forall i :: 0 <= i < k ==> got[i] == Nth(id, cs, i)
    {
      var p := source.Peek();
      var r := source.Read();
      got, peeks := got + [r], peeks + [p];
    }
  }

  /** Valid sources are read unambiguously: no two character sequences share their bytes. */
  lemma {:induction false} EncodingIsInjective(cs: seq<Scalar>, ds: seq<Scalar>)
    requires EncodeAll(cs) == EncodeAll(ds)
    ensures cs == ds
  {
    if cs == [] || ds == [] {
    } else {
      var c, d := cs[|cs| - 1], ds[|ds| - 1];
      var m, n := |Encode(c)|, |Encode(d)|;
      var b := EncodeAll(cs);
      EncodeShape(c);
      EncodeShape(d);
      // the last lead byte marks where the last character starts
      assert b[|b| - m..] == Encode(c) && b[|b| - n..] == Encode(d);
      assert m == n;
      DecodeUndoesEncode(c);
      DecodeUndoesEncode(d);
      assert EncodeAll(cs[..|cs| - 1]) == b[..|b| - m] == EncodeAll(ds[..|ds| - 1]);
      EncodingIsInjective(cs[..|cs| - 1], ds[..|ds| - 1]);
      assert cs == cs[..|cs| - 1] + [c] && ds == ds[..|ds| - 1] + [d];
    }
  }

  lemma CharBytes(bytes: seq<Byte>, pos: nat, e: seq<Byte>)
    requires pos + |e| <= |bytes| && bytes[pos..pos + |e|] == e
    ensures forall i :: 0 <= i < |e| ==> bytes[pos + i] == e[i]
  {
    forall i | 0 <= i < |e| ensures bytes[pos + i] == e[i] {
      assert bytes[pos..pos + |e|][i] == bytes[pos + i];
    }
  }
}
