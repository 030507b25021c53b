/** Flat memory: addresses of equal-sized elements of a buffer, and bytes. */
module Memory {
  import opened Bits

  /** The address of element `k` of a buffer at `start`: `start.add(k)`. */
  function Elem(start: nat, k: nat, size: nat): nat {
    if k == 0 then start else Elem(start, k - 1, size) + size
  }

  lemma {:induction false} ElemIsProduct(start: nat, k: nat, size: nat)
    ensures Elem(start, k, size) == start + k * size
  {
    if k > 0 {
      ElemIsProduct(start, k - 1, size);
      assert k * size == (k - 1) * size + size;
    }
  }

  /** The number of elements between the start of a buffer and element `k`. */
  lemma ElemIndex(start: nat, k: nat, size: nat)
    requires size > 0
    ensures Elem(start, k, size) >= start
    ensures (Elem(start, k, size) - start) / size == k
  {
    ElemIsProduct(start, k, size);
    DivModUnique(k * size, size, k, 0);
  }

  lemma {:induction false} ElemInjective(start: nat, j: nat, k: nat, size: nat)
    requires size > 0 && Elem(start, j, size) == Elem(start, k, size)
    ensures j == k
  {
    ElemIndex(start, j, size);
    ElemIndex(start, k, size);
  }

  /** Elements do not overlap: a later one starts at or after the end of an earlier one. */
  lemma {:induction false} ElemsApart(start: nat, j: nat, k: nat, size: nat)
    requires j < k
    ensures Elem(start, j, size) + size <= Elem(start, k, size)
  {
    if j < k - 1 { ElemsApart(start, j, k - 1, size); }
  }

  lemma {:induction false} ElemAligned(start: nat, k: nat, size: nat)
    requires size > 0
    ensures Elem(start, k, size) >= start && (Elem(start, k, size) - start) % size == 0
  {
    ElemIsProduct(start, k, size);
    DivModUnique(k * size, size, k, 0);
  }

  /** Copying `data` to `addr`. */
  function Store(mem: map<nat, Byte>, addr: nat, data: seq<Byte>): (r: map<nat, Byte>)
    ensures forall k :: addr <= k < addr + |data| ==> k in r && r[k] == data[k - addr]
    ensures forall k :: !(addr <= k < addr + |data|) ==> (k in r <==> k in mem) && (k in mem ==> r[k] == mem[k])
  {
    if data == [] then mem
    else
      var n := |data| - 1;
      Store(mem, addr, data[..n])[addr + n := data[n]]
  }

  /** The byte at an address; memory that was never written is zero. */
  function ByteAt(mem: map<nat, Byte>, a: nat): Byte {
    if a in mem then mem[a] else 0
  }

  /** The `n` bytes from `addr` on. */
  function Load(mem: map<nat, Byte>, addr: nat, n: nat): (r: seq<Byte>)
    ensures |r| == n && forall k :: 0 <= k < n ==> r[k] == ByteAt(mem, addr + k)
  {
    if n == 0 then [] else Load(mem, addr, n - 1) + [ByteAt(mem, addr + n - 1)]
  }

  /** Storing into a range leaves every range apart from it unchanged. */
  lemma StoreApart(mem: map<nat, Byte>, addr: nat, data: seq<Byte>, other: nat, n: nat)
    requires addr + |data| <= other || other + n <= addr
    ensures Load(Store(mem, addr, data), other, n) == Load(mem, other, n)
  {
  }

  lemma StoreThenLoad(mem: map<nat, Byte>, addr: nat, data: seq<Byte>, n: nat)
    requires n <= |data|
    ensures Load(Store(mem, addr, data), addr, n) == data[..n]
  {
  }

  lemma LoadPrefix(mem: map<nat, Byte>, addr: nat, m: nat, n: nat)
    requires m <= n
    ensures Load(mem, addr, m) == Load(mem, addr, n)[..m]
  {
  }

  /** Ranges that read the same for `n` bytes read the same for fewer. */
  lemma SameFewer(mem: map<nat, Byte>, a: nat, mem': map<nat, Byte>, b: nat, m: nat, n: nat)
    requires m <= n && Load(mem, a, n) == Load(mem', b, n)
    ensures Load(mem, a, m) == Load(mem', b, m)
  {
    LoadPrefix(mem, a, m, n);
    LoadPrefix(mem', b, m, n);
  }

  /** Byte `i` of the range at `a` is byte `i` of the range at `b`. */
  predicate SameByte(mem: map<nat, Byte>, a: nat, mem': map<nat, Byte>, b: nat, i: nat) {
    ByteAt(mem, a + i) == ByteAt(mem', b + i)
  }

  /** Ranges read the same if and only if they agree byte by byte. */
  lemma SameBytes(mem: map<nat, Byte>, a: nat, mem': map<nat, Byte>, b: nat, n: nat)
    ensures Load(mem, a, n) == Load(mem', b, n) <==> forall i :: 0 <= i < n ==> SameByte(mem, a, mem', b, i)
  {
    var x, y := Load(mem, a, n), Load(mem', b, n);
    if forall i :: 0 <= i < n ==> SameByte(mem, a, mem', b, i) {
      forall i | 0 <= i < n ensures x[i] == y[i] { assert SameByte(mem, a, mem', b, i); }
    } else {
      var i :| 0 <= i < n && !SameByte(mem, a, mem', b, i);
      assert x[i] != y[i];
    }
  }
}
