/**
  The variable-length integer readers of `compiler/panic/src/dwarf.rs`, against
  the encodings of section 7.6 of the DWARF 4 standard.
 */
module Leb128 {
  import opened Bits
  import opened Wrappers

  // ---------- What a group of bytes denotes ----------

  /** The bytes up to and including the first one whose high bit is clear. */
  function Group(s: seq<Byte>): (g: seq<Byte>)
    ensures g <= s
  {
    if s == [] then []
    else if s[0] < 128 then [s[0]]
    else [s[0]] + Group(s[1..])
  }

  /** `g` is one complete group: only its last byte has a clear high bit. */
  ghost predicate Complete(g: seq<Byte>) {
    g != [] && g[|g| - 1] < 128 && forall i :: 0 <= i < |g| - 1 ==> g[i] >= 128
  }

  /** The seven-bit digits of `g`, least significant first. */
  function Payload(g: seq<Byte>): nat {
    if g == [] then 0 else g[0] % 128 + 128 * Payload(g[1..])
  }

  function SignBit(g: seq<Byte>): bool {
    g != [] && g[|g| - 1] % 128 >= 64
  }

  /** The two's complement reading of `g`. */
  function SignedPayload(g: seq<Byte>): int {
    Payload(g) - (if SignBit(g) then Pow2(7 * |g|) else 0)
  }

  /** The value of a 64-bit word read as two's complement. */
  function ToI64(w: nat): int
    requires w < TWO_64
  {
    if w < TWO_64 / 2 then w else w - TWO_64
  }

  // ---------- The encoders of the standard ----------

  function EncodeU(v: nat): (g: seq<Byte>)
    ensures g != []
  {
    if v < 128 then [v] else [v % 128 + 128] + EncodeU(v / 128)
  }

  function EncodeS(v: int): (g: seq<Byte>)
    ensures g != []
    decreases if v < 0 then -v else v
  {
    if -64 <= v < 64 then [v % 128] else [v % 128 + 128] + EncodeS(v / 128)
  }

  lemma GroupCons(d: nat, t: seq<Byte>)
    requires d < 128 && Complete(t)
    ensures var g := [d + 128] + t;
      && Complete(g)
      && Payload(g) == d + 128 * Payload(t)
      && SignBit(g) == SignBit(t)
      && SignedPayload(g) == d + 128 * SignedPayload(t)
  {
    var g: seq<Byte> := [d + 128] + t;
    assert g[1..] == t && (d + 128) % 128 == d;
    Pow2Add(7, 7 * |t|);
    assert Pow2(7) == 128 && 7 * |g| == 7 + 7 * |t|;
  }

  lemma {:induction false} EncodeUDenotes(v: nat)
    ensures Complete(EncodeU(v)) && Payload(EncodeU(v)) == v
  {
    if v >= 128 {
      EncodeUDenotes(v / 128);
      GroupCons(v % 128, EncodeU(v / 128));
    }
  }

  lemma {:induction false} EncodeSDenotes(v: int)
    ensures Complete(EncodeS(v)) && SignedPayload(EncodeS(v)) == v
    decreases if v < 0 then -v else v
  {
    if -64 <= v < 64 {
      var g: seq<Byte> := [v % 128];
      assert Payload(g) == v % 128 + 128 * Payload(g[1..]) == v % 128;
      assert Pow2(7) == 128;
    } else {
      EncodeSDenotes(v / 128);
      GroupCons(v % 128, EncodeS(v / 128));
    }
  }

  /** Each byte carries seven bits of the value. */
  lemma {:induction false} EncodeULength(v: nat, n: nat)
    requires v < Pow2(7 * (n + 1))
    ensures |EncodeU(v)| <= n + 1
  {
    if v >= 128 {
      assert Pow2(7) == 128;
      if n == 0 { assert false; }
      Pow2Add(7, 7 * n);
      assert 7 * (n + 1) == 7 + 7 * n;
      EncodeULength(v / 128, n - 1);
    }
  }

  lemma {:induction false} EncodeSLength(v: int, n: nat)
    requires -64 * Pow2(7 * n) <= v < 64 * Pow2(7 * n)
    ensures |EncodeS(v)| <= n + 1
    decreases if v < 0 then -v else v
  {
    if !(-64 <= v < 64) {
      if n == 0 { assert false; }
      Pow2Add(7, 7 * (n - 1));
      assert 7 * n == 7 + 7 * (n - 1) && Pow2(7) == 128;
      EncodeSLength(v / 128, n - 1);
    }
  }

  /** Ten bytes are enough for every unsigned and every signed 64-bit value. */
  lemma TenBytesUnsigned(v: nat)
    requires v < TWO_64
    ensures |EncodeU(v)| <= 10
  {
    WordSizes();
    Pow2Monotone(64, 70);
    EncodeULength(v, 9);
  }

  lemma TenBytesSigned(v: int)
    requires -(TWO_64 / 2) <= v < TWO_64 / 2
    ensures |EncodeS(v)| <= 10
  {
    WordSizes();
    Pow2Add(6, 57);
    Pow2Monotone(57, 63);
    assert Pow2(6) == 64;
    EncodeSLength(v, 9);
  }

  // ---------- Groups inside a stream ----------

  lemma {:induction false} GroupOfPrefix(g: seq<Byte>, rest: seq<Byte>)
    requires Complete(g)
    ensures Group(g + rest) == g
  {
    assert (g + rest)[0] == g[0];
    if |g| > 1 {
      assert (g + rest)[1..] == g[1..] + rest;
      GroupOfPrefix(g[1..], rest);
    }
  }

  lemma {:induction false} PayloadSnoc(g: seq<Byte>, b: Byte)
    ensures Payload(g + [b]) == Payload(g) + b % 128 * Pow2(7 * |g|)
  {
    if g == [] {
      assert Payload([b]) == b % 128 + 128 * Payload([]);
    } else {
      var t := g[1..];
      assert (g + [b])[1..] == t + [b];
      PayloadSnoc(t, b);
      Pow2Add(7, 7 * |t|);
      assert Pow2(7) == 128 && 7 * |g| == 7 + 7 * |t|;
      var d := b % 128;
      assert 128 * (d * Pow2(7 * |t|)) == d * (128 * Pow2(7 * |t|));
    }
  }

  lemma {:induction false} PayloadBound(g: seq<Byte>)
    ensures Payload(g) < Pow2(7 * |g|)
  {
    if g != [] {
      PayloadBound(g[1..]);
      Pow2Add(7, 7 * |g[1..]|);
      assert Pow2(7) == 128 && 7 * |g| == 7 + 7 * |g[1..]|;
    }
  }

  // ---------- One step of the accumulation loop ----------

  /** Or-ing a shifted digit into the accumulator adds it, modulo the word size. */
  lemma AccumulateDigit(acc: nat, d: nat, shift: nat)
    requires acc < Pow2(shift) && d < 128 && shift < 64
    ensures Or(acc, Shl64(d, shift)) == (acc + d * Pow2(shift)) % TWO_64
  {
    var e, kept := d / Pow2(64 - shift), d % Pow2(64 - shift);
    Shl64Keeps(d, shift);
    OrAdd(acc, kept, shift);
    DivModUnique(acc + d * Pow2(shift), TWO_64, e, acc + Shl64(d, shift));
  }

  lemma AllOnesShifted(shift: nat)
    requires shift < 64
    ensures Shl64(TWO_64 - 1, shift) == TWO_64 - Pow2(shift) == (Pow2(64 - shift) - 1) * Pow2(shift)
  {
    var p := Pow2(shift);
    WordSizes();
    Pow2Monotone(shift, 63);
    assert (TWO_64 - 1) * p == (p - 1) * TWO_64 + (TWO_64 - p);
    DivModUnique((TWO_64 - 1) * p, TWO_64, p - 1, TWO_64 - p);
    WordSplit(shift);
  }

  /** Or-ing in the sign extension subtracts `2^shift`, modulo the word size. */
  lemma ExtendSign(acc: nat, shift: nat)
    requires shift < 64 && acc < Pow2(shift)
    ensures Or(acc, Shl64(TWO_64 - 1, shift)) == (acc - Pow2(shift)) % TWO_64
  {
    AllOnesShifted(shift);
    OrAdd(acc, Pow2(64 - shift) - 1, shift);
    DivModUnique(acc - Pow2(shift), TWO_64, -1, acc - Pow2(shift) + TWO_64);
  }

  /** One round of the accumulation loop, on the digits of the first `i` bytes. */
  lemma AppendByte(g: seq<Byte>, i: nat)
    requires i < |g| && i < 10
    ensures Or(Payload(g[..i]), Shl64(And(g[i], 0x7F), 7 * i)) == Payload(g[..i + 1]) % TWO_64
  {
    var p, d := g[..i], g[i] % 128;
    PayloadBound(p);
    SevenBits(g[i]);
    AccumulateDigit(Payload(p), d, 7 * i);
    PayloadSnoc(p, g[i]);
    assert g[..i + 1] == p + [g[i]];
  }

  lemma SevenBits(b: Byte)
    ensures And(b, 0x7F) == b % 128
  {
    assert Pow2(7) == 128;
    AndLow(b, 7);
  }

  class DwarfReader {
    /** The memory behind the pointer. */
    const data: seq<Byte>
    var ptr: nat

    constructor (data: seq<Byte>)
      ensures this.data == data && ptr == 0
    {
      this.data := data;
      ptr := 0;
    }

    /** The reader stands at a group that ends inside its memory. */
    ghost predicate AtGroup()
      reads this
    {
      ptr <= |data| && Complete(Group(data[ptr..]))
    }

    /**
      The digits accumulated from the group the reader stands at. A group of more
      than ten bytes would shift by the word size or more, which is an overflow.
     */
    method ReadDigits() returns (ok: bool, result: nat, shift: nat, byte: Byte)
      requires AtGroup()
      modifies this
      ensures var g := old(Group(data[ptr..]));
        && (ok <==> |g| <= 10)
        && (!ok ==> ptr == old(ptr) + 11)
        && (ok ==> ptr == old(ptr) + |g| && result == Payload(g) % TWO_64 && shift == 7 * |g| && byte == g[|g| - 1])
    {
      ghost var g := Group(data[ptr..]);
      shift, result := 0, 0;
      ghost var i := 0;
      while true
        invariant i < |g| && i <= 10
        invariant ptr == old(ptr) + i && shift == 7 * i
        invariant i < 10 ==> result == Payload(g[..i])
        decreases |g| - i
      {
        assert data[old(ptr)..][i] == g[i];
        byte := data[ptr];
        ptr := ptr + 1;
        if shift >= 64 {
          return false, result, shift, byte;
        }
        AppendByte(g, i);
        result := Or(result, Shl64(And(byte, 0x7F), shift));
        shift := shift + 7;
        FlagTests(byte);
        if And(byte, 0x80) == 0 {
          assert g[..i + 1] == g;
          return true, result, shift, byte;
        }
        i := i + 1;
        if i < 10 { SmallPayload(g[..i]); }
      }
    }

    /** `read_uleb128`, or nothing when a shift overflows. */
    method ReadUleb128() returns (r: Option<nat>)
      requires AtGroup()
      modifies this
      ensures var g := old(Group(data[ptr..]));
        && (r.Some? <==> |g| <= 10)
        && (r.Some? ==> ptr == old(ptr) + |g| && r.value == Payload(g) % TWO_64)
    {
      var ok, result, shift, byte := ReadDigits();
      r := if ok then Some(result) else None;
    }

    /** `read_sleb128`, or nothing when a shift overflows. */
    method ReadSleb128() returns (r: Option<int>)
      requires AtGroup()
      modifies this
      ensures var g := old(Group(data[ptr..]));
        && (r.Some? <==> |g| <= 10)
        && (r.Some? ==> ptr == old(ptr) + |g| && r.value == ToI64(SignedPayload(g) % TWO_64))
    {
      ghost var g := Group(data[ptr..]);
      var ok, result, shift, byte := ReadDigits();
      if !ok {
        return None;
      }
      FlagTests(byte);
      if shift < 64 && And(byte, 0x40) != 0 {
        SmallPayload(g);
        PayloadBound(g);
        ExtendSign(result, shift);
        result := Or(result, Shl64(TWO_64 - 1, shift));
      } else if shift >= 64 {
        SkippedSign(g);
      }
      r := Some(ToI64(result));
    }
  }

  lemma {:induction false} SmallPayload(g: seq<Byte>)
    requires |g| <= 9
    ensures Payload(g) < TWO_64 && Payload(g) % TWO_64 == Payload(g)
  {
    PayloadBound(g);
    Pow2Monotone(7 * |g|, 63);
    WordSizes();
  }

  lemma TenByteWeight()
    ensures Pow2(7 * 10) == 64 * TWO_64
  {
    WordSizes();
    Pow2Add(6, 64);
    assert Pow2(6) == 64;
  }

  /** With ten bytes the sign weight is a multiple of the word size, so skipping it is harmless. */
  lemma {:induction false} SkippedSign(g: seq<Byte>)
    requires |g| == 10
    ensures Payload(g) % TWO_64 == SignedPayload(g) % TWO_64
  {
    TenByteWeight();
    ModShift(Payload(g), -64, TWO_64);
  }

  lemma {:induction false} FlagTests(b: Byte)
    ensures And(b, 0x80) == 0 <==> b < 128
    ensures And(b, 0x40) != 0 <==> b % 128 >= 64
  {
    assert Pow2(7) == 128 && Pow2(6) == 64;
    AndFlag(b, 7);
    AndFlag(b, 6);
    LowHighArith(b, 7);
    LowHighArith(b, 6);
  }

  // ---------- Reading back what was written ----------

  /** For every unsigned 64-bit value, the group read back denotes it and is exactly its encoding. */
  lemma UnsignedRoundTrip(v: nat, rest: seq<Byte>)
    requires v < TWO_64
    ensures var g := Group(EncodeU(v) + rest);
      g == EncodeU(v) && Complete(g) && |g| <= 10 && Payload(g) % TWO_64 == v
  {
    EncodeUDenotes(v);
    GroupOfPrefix(EncodeU(v), rest);
    TenBytesUnsigned(v);
  }

  lemma TwosComplement(v: int)
    requires -(TWO_64 / 2) <= v < TWO_64 / 2
    ensures ToI64(v % TWO_64) == v
  {
    if v < 0 {
      DivModUnique(v, TWO_64, -1, v + TWO_64);
    }
  }

  /** The same for every signed 64-bit value. */
  lemma SignedRoundTrip(v: int, rest: seq<Byte>)
    requires -(TWO_64 / 2) <= v < TWO_64 / 2
    ensures var g := Group(EncodeS(v) + rest);
      g == EncodeS(v) && Complete(g) && |g| <= 10 && ToI64(SignedPayload(g) % TWO_64) == v
  {
    EncodeSDenotes(v);
    GroupOfPrefix(EncodeS(v), rest);
    TenBytesSigned(v);
    TwosComplement(v);
  }

  datatype Item = Unsigned(u: nat) | Signed(s: int) {
    predicate InRange() {
      match this
      case Unsigned(u) => u < TWO_64
      case Signed(s) => -(TWO_64 / 2) <= s < TWO_64 / 2
    }

    function Encode(): seq<Byte> {
      match this
      case Unsigned(u) => EncodeU(u)
      case Signed(s) => EncodeS(s)
    }
  }

  function EncodeAll(items: seq<Item>): seq<Byte> {
    if items == [] then [] else items[0].Encode() + EncodeAll(items[1..])
  }

  /** One value of either kind, read from a stream that continues with its encoding. */
  method ReadItem(reader: DwarfReader, signed: bool, ghost item: Item, ghost rest: seq<Byte>) returns (out: Item)
    requires signed == item.Signed? && item.InRange() && reader.ptr <= |reader.data|
    requires reader.data[reader.ptr..] == item.Encode() + rest
    modifies reader
    ensures out == item && reader.ptr == old(reader.ptr) + |item.Encode()|
  {
    if signed {
      SignedRoundTrip(item.s, rest);
      var y := reader.ReadSleb128();
      out := Signed(y.value);
    } else {
      UnsignedRoundTrip(item.u, rest);
      var x := reader.ReadUleb128();
      out := Unsigned(x.value);
    }
  }

  lemma NextItem(items: seq<Item>, i: nat)
    requires i < |items|
    ensures EncodeAll(items[i..]) == items[i].Encode() + EncodeAll(items[i + 1..])
  {
    assert items[i..][1..] == items[i + 1..];
  }

  lemma Advance(s: seq<Byte>, p: nat, e: seq<Byte>, rest: seq<Byte>)
    requires p <= |s| && s[p..] == e + rest
    ensures p + |e| <= |s| && s[p + |e|..] == rest
  {
    assert s[p + |e|..] == s[p..][|e|..];
  }

  /** Any mix of encoded values, followed by any bytes, is read back value by value and in order. */
  method ReadBack(items: seq<Item>, trailer: seq<Byte>) returns (out: seq<Item>, consumed: nat)
    requires forall i :: 0 <= i < |items| ==> items[i].InRange()
    ensures out == items && consumed == |EncodeAll(items)|
  {
    var reader := new DwarfReader(EncodeAll(items) + trailer);
    out := [];
    assert items[0..] == items && reader.data[0..] == reader.data;
    for i := 0 to |items|
      invariant reader.ptr <= |reader.data|
      invariant reader.data == EncodeAll(items) + trailer
      invariant reader.data[reader.ptr..] == EncodeAll(items[i..]) + trailer
      invariant out == items[..i]
    {
      NextItem(items, i);
      ghost var e, rest := items[i].Encode(), EncodeAll(items[i + 1..]) + trailer;
      assert e + EncodeAll(items[i + 1..]) + trailer == e + rest;
      ghost var at := reader.ptr;
      var item := ReadItem(reader, items[i].Signed?, items[i], rest);
      Advance(reader.data, at, e, rest);
      out := out + [item];
    }
    assert EncodeAll(items[|items|..]) == [];
    consumed := reader.ptr;
  }
}
