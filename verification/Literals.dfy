/**
  The order and equality of literals, `compiler/syntax_base/src/literals.rs`.
  Spans are carried along and ignored by both. Floats are not modelled; binaries
  are whole bytes.
 */
module Literals {
  import opened Bits
  import opened Wrappers

  datatype Literal = Literal(span: nat, value: Lit)

  datatype Entry = Entry(key: Literal, val: Literal)

  datatype Lit =
    | Atom(sym: nat)
    | Integer(n: int)
    | Nil
    | Cons(head: Literal, tail: Literal)
    | Tuple(elements: seq<Literal>)
    | Map(entries: seq<Entry>)  // in the order of their keys
    | Binary(data: seq<Byte>)

  // ---------- The comparison ----------

  function CmpBytes(x: seq<Byte>, y: seq<Byte>): Ordering {
    if x == [] then if y == [] then Equal else Less
    else if y == [] then Greater
    else Compare(x[0], y[0]).Then(CmpBytes(x[1..], y[1..]))
  }

  /** `cmp` as it is coded. */
  function Cmp(a: Literal, b: Literal): Ordering {
    CmpBy(a, b, false)
  }

  /** The comparison that the comment on it documents. */
  function Documented(a: Literal, b: Literal): Ordering {
    CmpBy(a, b, true)
  }

  function CmpBy(a: Literal, b: Literal, doc: bool): Ordering
    decreases a, 0
  {
    CmpLitBy(a.value, b.value, doc)
  }

  /**
    number < atom < tuple < map < nil < list < bit string, as documented; the
    code differs in one case.
   */
  function CmpLitBy(a: Lit, b: Lit, doc: bool): Ordering
    decreases a, 0
  {
    match (a, b)
    case (Integer(x), Integer(y)) => Compare(x, y)
    case (Integer(_), _) => Less
    case (Atom(_), Integer(_)) => Greater
    case (Atom(x), Atom(y)) => Compare(x, y)
    case (Atom(_), _) => Less
    case (Tuple(_), Integer(_)) => Greater
    case (Tuple(_), Atom(_)) => Greater
    case (Tuple(xs), Tuple(ys)) => CmpSeqBy(xs, ys, doc)
    case (Tuple(_), _) => Less
    case (Map(_), Integer(_)) => Greater
    case (Map(_), Atom(_)) => Greater
    case (Map(_), Tuple(_)) => Greater
    case (Map(x), Map(y)) => CmpEntriesBy(x, y, doc)
    case (Map(_), _) => Less
    case (Nil, Nil) => Equal
    case (Nil, Cons(_, _)) => Less
    // the code says that nil is greater
    case (Nil, Binary(_)) => if doc then Less else Greater
    case (Nil, _) => Greater
    case (Cons(h1, t1), Cons(h2, t2)) => CmpBy(h1, h2, doc).Then(CmpBy(t1, t2, doc))
    case (Cons(_, _), Binary(_)) => Less
    case (Cons(_, _), _) => Greater
    case (Binary(x), Binary(y)) => CmpBytes(x, y)
    case (Binary(_), _) => Greater
  }

  /** `Vec` order: the first difference decides, then the length. */
  function CmpSeqBy(xs: seq<Literal>, ys: seq<Literal>, doc: bool): Ordering
    decreases xs, 1
  {
    if xs == [] then if ys == [] then Equal else Less
    else if ys == [] then Greater
    else CmpBy(xs[0], ys[0], doc).Then(CmpSeqBy(xs[1..], ys[1..], doc))
  }

  /** `BTreeMap` order: the same over key-value pairs. */
  function CmpEntriesBy(xs: seq<Entry>, ys: seq<Entry>, doc: bool): Ordering
    decreases xs, 1
  {
    if xs == [] then if ys == [] then Equal else Less
    else if ys == [] then Greater
    else CmpEntryBy(xs[0], ys[0], doc).Then(CmpEntriesBy(xs[1..], ys[1..], doc))
  }

  function CmpEntryBy(x: Entry, y: Entry, doc: bool): Ordering
    decreases x, 0
  {
    CmpBy(x.key, y.key, doc).Then(CmpBy(x.val, y.val, doc))
  }

  // ---------- Equality ----------

  predicate Eq(a: Literal, b: Literal)
    decreases a, 0
  {
    EqLit(a.value, b.value)
  }

  predicate EqLit(a: Lit, b: Lit)
    decreases a, 0
  {
    match (a, b)
    case (Atom(x), Atom(y)) => x == y
    case (Integer(x), Integer(y)) => x == y
    case (Nil, Nil) => true
    case (Cons(h1, t1), Cons(h2, t2)) => Eq(h1, h2) && Eq(t1, t2)
    case (Tuple(xs), Tuple(ys)) => |xs| == |ys| && forall i :: 0 <= i < |xs| ==> Eq(xs[i], ys[i])
    case (Map(xs), Map(ys)) =>
      |xs| == |ys| && forall i :: 0 <= i < |xs| ==> Eq(xs[i].key, ys[i].key) && Eq(xs[i].val, ys[i].val)
    case (Binary(x), Binary(y)) => x == y
    case _ => false
  }

  // ---------- Equal means equal ----------

  lemma {:induction false} BytesEqual(x: seq<Byte>, y: seq<Byte>)
    ensures CmpBytes(x, y) == Equal <==> x == y
  {
    if x != [] && y != [] {
      BytesEqual(x[1..], y[1..]);
      assert x == [x[0]] + x[1..] && y == [y[0]] + y[1..];
    }
  }

  /** A comparison is `Equal` exactly when `==` holds, for all literals. */
  lemma {:induction false} EqualIffEq(a: Literal, b: Literal, doc: bool)
    ensures CmpBy(a, b, doc) == Equal <==> Eq(a, b)
    decreases a, 1
  {
    LitEqualIffEq(a.value, b.value, doc);
  }

  lemma {:induction false} LitEqualIffEq(a: Lit, b: Lit, doc: bool)
    ensures CmpLitBy(a, b, doc) == Equal <==> EqLit(a, b)
    decreases a, 1
  {
    match (a, b)
    case (Cons(h1, t1), Cons(h2, t2)) =>
      EqualIffEq(h1, h2, doc);
      EqualIffEq(t1, t2, doc);
    case (Tuple(xs), Tuple(ys)) => SeqEqualIffEq(xs, ys, doc);
    case (Map(xs), Map(ys)) => EntriesEqualIffEq(xs, ys, doc);
    case (Binary(x), Binary(y)) => BytesEqual(x, y);
    case _ =>
  }

  lemma {:induction false} SeqEqualIffEq(xs: seq<Literal>, ys: seq<Literal>, doc: bool)
    ensures CmpSeqBy(xs, ys, doc) == Equal <==> |xs| == |ys| && forall i :: 0 <= i < |xs| ==> Eq(xs[i], ys[i])
    decreases xs, 2
  {
    if xs != [] && ys != [] {
      EqualIffEq(xs[0], ys[0], doc);
      SeqEqualIffEq(xs[1..], ys[1..], doc);
      assert |xs| == |ys| ==> forall i :: 0 < i < |xs| ==> xs[i] == xs[1..][i - 1] && ys[i] == ys[1..][i - 1];
    }
  }

  lemma {:induction false} EntryEqualIffEq(x: Entry, y: Entry, doc: bool)
    ensures CmpEntryBy(x, y, doc) == Equal <==> Eq(x.key, y.key) && Eq(x.val, y.val)
    decreases x, 1
  {
    EqualIffEq(x.key, y.key, doc);
    EqualIffEq(x.val, y.val, doc);
  }

  lemma {:induction false} EntriesEqualIffEq(xs: seq<Entry>, ys: seq<Entry>, doc: bool)
    ensures CmpEntriesBy(xs, ys, doc) == Equal <==>
      |xs| == |ys| && forall i :: 0 <= i < |xs| ==> Eq(xs[i].key, ys[i].key) && Eq(xs[i].val, ys[i].val)
    decreases xs, 2
  {
    if xs != [] && ys != [] {
      EntryEqualIffEq(xs[0], ys[0], doc);
      EntriesEqualIffEq(xs[1..], ys[1..], doc);
      assert |xs| == |ys| ==> forall i :: 0 < i < |xs| ==> xs[i] == xs[1..][i - 1] && ys[i] == ys[1..][i - 1];
    }
  }

  // ---------- Which of two literals comes first ----------

  /** The place of each kind in the documented order. */
  function Rank(l: Lit): nat {
    match l
    case Integer(_) => 0
    case Atom(_) => 1
    case Tuple(_) => 2
    case Map(_) => 3
    case Nil => 4
    case Cons(_, _) => 5
    case Binary(_) => 6
  }

  predicate EqEntry(x: Entry, y: Entry) {
    Eq(x.key, y.key) && Eq(x.val, y.val)
  }

  /** The first index at which two sequences differ, or where the shorter one ends. */
  function FirstDiff<T>(xs: seq<T>, ys: seq<T>, same: (T, T) -> bool): (k: nat)
    ensures k <= |xs| && k <= |ys| && forall i :: 0 <= i < k ==> same(xs[i], ys[i])
    ensures k < |xs| && k < |ys| ==> !same(xs[k], ys[k])
  {
    if xs == [] || ys == [] || !same(xs[0], ys[0]) then 0
    else
      var k := FirstDiff(xs[1..], ys[1..], same);
      assert forall i :: 0 < i <= k ==> xs[i] == xs[1..][i - 1] && ys[i] == ys[1..][i - 1];
      k + 1
  }

  /**
    The documented order, by ranks and first differences: kinds by their rank,
    numbers and atoms by value, and the others by what they hold at the first
    difference, or by length if there is none.
   */
  predicate Before(a: Literal, b: Literal)
    decreases a, 0
  {
    BeforeLit(a.value, b.value)
  }

  predicate BeforeLit(a: Lit, b: Lit)
    decreases a, 0
  {
    if Rank(a) != Rank(b) then Rank(a) < Rank(b)
    else
      match a
      case Integer(x) => x < b.n
      case Atom(x) => x < b.sym
      case Nil => false
      case Cons(h, t) => if Eq(h, b.head) then Before(t, b.tail) else Before(h, b.head)
      case Binary(x) =>
        var y := b.data;
        var k := FirstDiff(x, y, (c: Byte, d: Byte) => c == d);
        if k < |x| && k < |y| then x[k] < y[k] else |x| < |y|
      case Tuple(xs) =>
        var ys := b.elements;
        var k := FirstDiff(xs, ys, Eq);
        if k < |xs| && k < |ys| then Before(xs[k], ys[k]) else |xs| < |ys|
      case Map(xs) =>
        var ys := b.entries;
        var k := FirstDiff(xs, ys, EqEntry);
        if k < |xs| && k < |ys| then BeforeEntry(xs[k], ys[k]) else |xs| < |ys|
  }

  /** Keys decide before values. */
  predicate BeforeEntry(x: Entry, y: Entry)
    decreases x, 0
  {
    if Eq(x.key, y.key) then Before(x.val, y.val) else Before(x.key, y.key)
  }

  lemma {:induction false} BytesByFirstDiff(x: seq<Byte>, y: seq<Byte>)
    ensures var k := FirstDiff(x, y, (c: Byte, d: Byte) => c == d);
      CmpBytes(x, y) == if k < |x| && k < |y| then Compare(x[k], y[k]) else Compare(|x|, |y|)
  {
    if x != [] && y != [] { BytesByFirstDiff(x[1..], y[1..]); }
  }

  lemma {:induction false} SeqByFirstDiff(xs: seq<Literal>, ys: seq<Literal>, doc: bool)
    ensures var k := FirstDiff(xs, ys, Eq);
      CmpSeqBy(xs, ys, doc) == if k < |xs| && k < |ys| then CmpBy(xs[k], ys[k], doc) else Compare(|xs|, |ys|)
  {
    if xs != [] && ys != [] {
      EqualIffEq(xs[0], ys[0], doc);
      SeqByFirstDiff(xs[1..], ys[1..], doc);
    }
  }

  lemma {:induction false} EntriesByFirstDiff(xs: seq<Entry>, ys: seq<Entry>, doc: bool)
    ensures var k := FirstDiff(xs, ys, EqEntry);
      CmpEntriesBy(xs, ys, doc) == if k < |xs| && k < |ys| then CmpEntryBy(xs[k], ys[k], doc) else Compare(|xs|, |ys|)
  {
    if xs != [] && ys != [] {
      EntryEqualIffEq(xs[0], ys[0], doc);
      EntriesByFirstDiff(xs[1..], ys[1..], doc);
    }
  }

  /** The documented comparison says `Less` exactly when the first literal comes before the second. */
  lemma {:induction false} LessIffBefore(a: Literal, b: Literal)
    ensures Documented(a, b) == Less <==> Before(a, b)
    decreases a, 1
  {
    LitLessIffBefore(a.value, b.value);
  }

  lemma {:induction false} LitLessIffBefore(a: Lit, b: Lit)
    ensures CmpLitBy(a, b, true) == Less <==> BeforeLit(a, b)
    decreases a, 1
  {
    match (a, b)
    case (Cons(h1, t1), Cons(h2, t2)) =>
      EqualIffEq(h1, h2, true);
      LessIffBefore(h1, h2);
      LessIffBefore(t1, t2);
    case (Tuple(xs), Tuple(ys)) =>
      SeqByFirstDiff(xs, ys, true);
      var k := FirstDiff(xs, ys, Eq);
      if k < |xs| && k < |ys| { LessIffBefore(xs[k], ys[k]); }
    case (Map(xs), Map(ys)) =>
      EntriesByFirstDiff(xs, ys, true);
      var k := FirstDiff(xs, ys, EqEntry);
      if k < |xs| && k < |ys| { EntryLessIffBefore(xs[k], ys[k]); }
    case (Binary(x), Binary(y)) => BytesByFirstDiff(x, y);
    case _ =>
  }

  lemma {:induction false} EntryLessIffBefore(x: Entry, y: Entry)
    ensures CmpEntryBy(x, y, true) == Less <==> BeforeEntry(x, y)
    decreases x, 1
  {
    EqualIffEq(x.key, y.key, true);
    LessIffBefore(x.key, y.key);
    LessIffBefore(x.val, y.val);
  }

  // ---------- The documented order is a total order ----------

  lemma {:induction false} BytesAntisymmetric(x: seq<Byte>, y: seq<Byte>)
    ensures CmpBytes(y, x) == CmpBytes(x, y).Flip()
  {
    if x != [] && y != [] { BytesAntisymmetric(x[1..], y[1..]); }
  }

  lemma {:induction false} Antisymmetric(a: Literal, b: Literal)
    ensures Documented(b, a) == Documented(a, b).Flip()
    decreases a, 1
  {
    LitAntisymmetric(a.value, b.value);
  }

  lemma {:induction false} LitAntisymmetric(a: Lit, b: Lit)
    ensures CmpLitBy(b, a, true) == CmpLitBy(a, b, true).Flip()
    decreases a, 1
  {
    match (a, b)
    case (Cons(h1, t1), Cons(h2, t2)) =>
      Antisymmetric(h1, h2);
      Antisymmetric(t1, t2);
    case (Tuple(xs), Tuple(ys)) => SeqAntisymmetric(xs, ys);
    case (Map(xs), Map(ys)) => EntriesAntisymmetric(xs, ys);
    case (Binary(x), Binary(y)) => BytesAntisymmetric(x, y);
    case _ =>
  }

  lemma {:induction false} SeqAntisymmetric(xs: seq<Literal>, ys: seq<Literal>)
    ensures CmpSeqBy(ys, xs, true) == CmpSeqBy(xs, ys, true).Flip()
    decreases xs, 2
  {
    if xs != [] && ys != [] {
      Antisymmetric(xs[0], ys[0]);
      SeqAntisymmetric(xs[1..], ys[1..]);
    }
  }

  lemma {:induction false} EntryAntisymmetric(x: Entry, y: Entry)
    ensures CmpEntryBy(y, x, true) == CmpEntryBy(x, y, true).Flip()
    decreases x, 1
  {
    Antisymmetric(x.key, y.key);
    Antisymmetric(x.val, y.val);
  }

  lemma {:induction false} EntriesAntisymmetric(xs: seq<Entry>, ys: seq<Entry>)
    ensures CmpEntriesBy(ys, xs, true) == CmpEntriesBy(xs, ys, true).Flip()
    decreases xs, 2
  {
    if xs != [] && ys != [] {
      EntryAntisymmetric(xs[0], ys[0]);
      EntriesAntisymmetric(xs[1..], ys[1..]);
    }
  }

  /** How the comparisons of three values fit together in a total order. */
  predicate Chains(ab: Ordering, bc: Ordering, ac: Ordering) {
    && (ab == Equal ==> ac == bc)
    && (bc == Equal ==> ac == ab)
    && (ab == bc ==> ac == ab)
  }

  lemma {:induction false} BytesTransitive(x: seq<Byte>, y: seq<Byte>, z: seq<Byte>)
    ensures Chains(CmpBytes(x, y), CmpBytes(y, z), CmpBytes(x, z))
  {
    if x != [] && y != [] && z != [] { BytesTransitive(x[1..], y[1..], z[1..]); }
  }

  lemma {:induction false} Transitive(a: Literal, b: Literal, c: Literal)
    ensures Chains(Documented(a, b), Documented(b, c), Documented(a, c))
    decreases a, 1
  {
    LitTransitive(a.value, b.value, c.value);
  }

  lemma {:induction false} LitTransitive(a: Lit, b: Lit, c: Lit)
    ensures Chains(CmpLitBy(a, b, true), CmpLitBy(b, c, true), CmpLitBy(a, c, true))
    decreases a, 1
  {
    match (a, b, c)
    case (Cons(h1, t1), Cons(h2, t2), Cons(h3, t3)) =>
      Transitive(h1, h2, h3);
      Transitive(t1, t2, t3);
    case (Tuple(xs), Tuple(ys), Tuple(zs)) => SeqTransitive(xs, ys, zs);
    case (Map(xs), Map(ys), Map(zs)) => EntriesTransitive(xs, ys, zs);
    case (Binary(x), Binary(y), Binary(z)) => BytesTransitive(x, y, z);
    case _ =>
  }

  lemma {:induction false} SeqTransitive(xs: seq<Literal>, ys: seq<Literal>, zs: seq<Literal>)
    ensures Chains(CmpSeqBy(xs, ys, true), CmpSeqBy(ys, zs, true), CmpSeqBy(xs, zs, true))
    decreases xs, 2
  {
    if xs != [] && ys != [] && zs != [] {
      Transitive(xs[0], ys[0], zs[0]);
      SeqTransitive(xs[1..], ys[1..], zs[1..]);
    }
  }

  lemma {:induction false} EntryTransitive(x: Entry, y: Entry, z: Entry)
    ensures Chains(CmpEntryBy(x, y, true), CmpEntryBy(y, z, true), CmpEntryBy(x, z, true))
    decreases x, 1
  {
    Transitive(x.key, y.key, z.key);
    Transitive(x.val, y.val, z.val);
  }

  lemma {:induction false} EntriesTransitive(xs: seq<Entry>, ys: seq<Entry>, zs: seq<Entry>)
    ensures Chains(CmpEntriesBy(xs, ys, true), CmpEntriesBy(ys, zs, true), CmpEntriesBy(xs, zs, true))
    decreases xs, 2
  {
    if xs != [] && ys != [] && zs != [] {
      EntryTransitive(xs[0], ys[0], zs[0]);
      EntriesTransitive(xs[1..], ys[1..], zs[1..]);
    }
  }

  // ---------- Where the code departs from it ----------

  /** The first difference between two literals is nil against a binary. */
  predicate Clash(a: Literal, b: Literal)
    decreases a, 0
  {
    ClashLit(a.value, b.value)
  }

  predicate ClashLit(a: Lit, b: Lit)
    decreases a, 0
  {
    match (a, b)
    case (Nil, Binary(_)) => true
    case (Binary(_), Nil) => true
    case (Cons(h1, t1), Cons(h2, t2)) => if Eq(h1, h2) then Clash(t1, t2) else Clash(h1, h2)
    case (Tuple(xs), Tuple(ys)) => ClashSeq(xs, ys)
    case (Map(xs), Map(ys)) => ClashEntries(xs, ys)
    case _ => false
  }

  predicate ClashSeq(xs: seq<Literal>, ys: seq<Literal>)
    decreases xs, 1
  {
    xs != [] && ys != [] && if Eq(xs[0], ys[0]) then ClashSeq(xs[1..], ys[1..]) else Clash(xs[0], ys[0])
  }

  predicate ClashEntries(xs: seq<Entry>, ys: seq<Entry>)
    decreases xs, 1
  {
    && xs != [] && ys != []
    && if Eq(xs[0].key, ys[0].key) && Eq(xs[0].val, ys[0].val) then ClashEntries(xs[1..], ys[1..])
       else ClashEntry(xs[0], ys[0])
  }

  predicate ClashEntry(x: Entry, y: Entry)
    decreases x, 0
  {
    if Eq(x.key, y.key) then Clash(x.val, y.val) else Clash(x.key, y.key)
  }

  /** On a clash the code says `Greater`; otherwise it says what is documented. */
  predicate Departs(clash: bool, coded: Ordering, documented: Ordering) {
    if clash then coded == Greater && documented != Equal else coded == documented
  }

  lemma {:induction false} CodedOrder(a: Literal, b: Literal)
    ensures Departs(Clash(a, b), Cmp(a, b), Documented(a, b))
    decreases a, 1
  {
    LitCodedOrder(a.value, b.value);
  }

  lemma {:induction false} LitCodedOrder(a: Lit, b: Lit)
    ensures Departs(ClashLit(a, b), CmpLitBy(a, b, false), CmpLitBy(a, b, true))
    decreases a, 1
  {
    match (a, b)
    case (Cons(h1, t1), Cons(h2, t2)) =>
      CodedOrder(h1, h2);
      CodedOrder(t1, t2);
      EqualIffEq(h1, h2, true);
      EqualIffEq(h1, h2, false);
    case (Tuple(xs), Tuple(ys)) => SeqCodedOrder(xs, ys);
    case (Map(xs), Map(ys)) => EntriesCodedOrder(xs, ys);
    case _ =>
  }

  lemma {:induction false} SeqCodedOrder(xs: seq<Literal>, ys: seq<Literal>)
    ensures Departs(ClashSeq(xs, ys), CmpSeqBy(xs, ys, false), CmpSeqBy(xs, ys, true))
    decreases xs, 2
  {
    if xs != [] && ys != [] {
      CodedOrder(xs[0], ys[0]);
      SeqCodedOrder(xs[1..], ys[1..]);
      EqualIffEq(xs[0], ys[0], true);
      EqualIffEq(xs[0], ys[0], false);
    }
  }

  lemma {:induction false} EntryCodedOrder(x: Entry, y: Entry)
    ensures Departs(ClashEntry(x, y), CmpEntryBy(x, y, false), CmpEntryBy(x, y, true))
    decreases x, 1
  {
    CodedOrder(x.key, y.key);
    CodedOrder(x.val, y.val);
    EqualIffEq(x.key, y.key, true);
    EqualIffEq(x.key, y.key, false);
  }

  lemma {:induction false} EntriesCodedOrder(xs: seq<Entry>, ys: seq<Entry>)
    ensures Departs(ClashEntries(xs, ys), CmpEntriesBy(xs, ys, false), CmpEntriesBy(xs, ys, true))
    decreases xs, 2
  {
    if xs != [] && ys != [] {
      EntryCodedOrder(xs[0], ys[0]);
      EntriesCodedOrder(xs[1..], ys[1..]);
      EntryEqualIffEq(xs[0], ys[0], true);
      EntryEqualIffEq(xs[0], ys[0], false);
    }
  }

  lemma {:induction false} EqSymmetric(a: Literal, b: Literal)
    ensures Eq(a, b) <==> Eq(b, a)
  {
    EqualIffEq(a, b, true);
    EqualIffEq(b, a, true);
    Antisymmetric(a, b);
  }

  lemma {:induction false} ClashSymmetric(a: Literal, b: Literal)
    ensures Clash(a, b) <==> Clash(b, a)
    decreases a, 1
  {
    match (a.value, b.value)
    case (Cons(h1, t1), Cons(h2, t2)) =>
      EqSymmetric(h1, h2);
      ClashSymmetric(h1, h2);
      ClashSymmetric(t1, t2);
    case (Tuple(xs), Tuple(ys)) => ClashSeqSymmetric(xs, ys);
    case (Map(xs), Map(ys)) => ClashEntriesSymmetric(xs, ys);
    case _ =>
  }

  lemma {:induction false} ClashSeqSymmetric(xs: seq<Literal>, ys: seq<Literal>)
    ensures ClashSeq(xs, ys) <==> ClashSeq(ys, xs)
    decreases xs, 2
  {
    if xs != [] && ys != [] {
      EqSymmetric(xs[0], ys[0]);
      ClashSymmetric(xs[0], ys[0]);
      ClashSeqSymmetric(xs[1..], ys[1..]);
    }
  }

  lemma {:induction false} ClashEntriesSymmetric(xs: seq<Entry>, ys: seq<Entry>)
    ensures ClashEntries(xs, ys) <==> ClashEntries(ys, xs)
    decreases xs, 2
  {
    if xs != [] && ys != [] {
      ClashEntrySymmetric(xs[0], ys[0]);
      ClashEntriesSymmetric(xs[1..], ys[1..]);
    }
  }

  lemma {:induction false} ClashEntrySymmetric(x: Entry, y: Entry)
    ensures Eq(x.key, y.key) <==> Eq(y.key, x.key)
    ensures Eq(x.val, y.val) <==> Eq(y.val, x.val)
    ensures ClashEntry(x, y) <==> ClashEntry(y, x)
    decreases x, 1
  {
    EqSymmetric(x.key, y.key);
    EqSymmetric(x.val, y.val);
    ClashSymmetric(x.key, y.key);
    ClashSymmetric(x.val, y.val);
  }

  /** Two literals compare consistently in both directions if and only if they do not clash. */
  lemma {:induction false} AntisymmetricIff(a: Literal, b: Literal)
    ensures Cmp(b, a) == Cmp(a, b).Flip() <==> !Clash(a, b)
  {
    CodedOrder(a, b);
    CodedOrder(b, a);
    ClashSymmetric(a, b);
    Antisymmetric(a, b);
  }

  /** What the code says of any two literals: on a clash that the first is greater, otherwise the documented order. */
  lemma {:induction false} CmpSpec(a: Literal, b: Literal)
    ensures Cmp(a, b) == Less <==> Before(a, b) && !Clash(a, b)
    ensures Cmp(a, b) == Equal <==> Eq(a, b)
    ensures Cmp(a, b) == Greater <==> Before(b, a) || Clash(a, b)
  {
    CodedOrder(a, b);
    LessIffBefore(a, b);
    LessIffBefore(b, a);
    Antisymmetric(a, b);
    EqualIffEq(a, b, false);
  }

  // ---------- Families of literals ----------

  /** The comparison is a total order on a family of literals. */
  ghost predicate TotalOrder(family: iset<Literal>) {
    && (forall a, b :: a in family && b in family ==> Cmp(b, a) == Cmp(a, b).Flip())
    && (forall a, b :: a in family && b in family ==> (Cmp(a, b) == Equal <==> Eq(a, b)))
    && (forall a, b, c :: a in family && b in family && c in family ==> Chains(Cmp(a, b), Cmp(b, c), Cmp(a, c)))
  }

  lemma {:induction false} ClashFreeIsOrdered(a: Literal, b: Literal, c: Literal)
    requires !Clash(a, b) && !Clash(b, c) && !Clash(a, c)
    ensures Cmp(b, a) == Cmp(a, b).Flip() && (Cmp(a, b) == Equal <==> Eq(a, b))
    ensures Chains(Cmp(a, b), Cmp(b, c), Cmp(a, c))
  {
    AntisymmetricIff(a, b);
    EqualIffEq(a, b, false);
    CodedOrder(a, b);
    CodedOrder(b, c);
    CodedOrder(a, c);
    Transitive(a, b, c);
  }

  /** Whatever the family, `cmp` is a total order on it if and only if no two of its literals clash. */
  lemma {:induction false} TotalOrderIff(family: iset<Literal>)
    ensures TotalOrder(family) <==> forall a, b :: a in family && b in family ==> !Clash(a, b)
  {
    if a, b :| a in family && b in family && Clash(a, b) {
      AntisymmetricIff(a, b);
    } else {
      forall a, b, c | a in family && b in family && c in family
        ensures Cmp(b, a) == Cmp(a, b).Flip() && (Cmp(a, b) == Equal <==> Eq(a, b))
        ensures Chains(Cmp(a, b), Cmp(b, c), Cmp(a, c))
      {
        ClashFreeIsOrdered(a, b, c);
      }
      forall a, b | a in family && b in family
        ensures Cmp(b, a) == Cmp(a, b).Flip() && (Cmp(a, b) == Equal <==> Eq(a, b))
      {
        ClashFreeIsOrdered(a, b, b);
      }
    }
  }

  /** Literals in which nil occurs only if `nil`, and binaries only if `bin`. */
  predicate Over(l: Literal, nil: bool, bin: bool)
    decreases l, 0
  {
    OverLit(l.value, nil, bin)
  }

  predicate OverLit(l: Lit, nil: bool, bin: bool)
    decreases l, 0
  {
    match l
    case Nil => nil
    case Binary(_) => bin
    case Cons(h, t) => Over(h, nil, bin) && Over(t, nil, bin)
    case Tuple(xs) => OverSeq(xs, nil, bin)
    case Map(xs) => OverEntries(xs, nil, bin)
    case _ => true
  }

  predicate OverSeq(xs: seq<Literal>, nil: bool, bin: bool)
    decreases xs, 1
  {
    xs == [] || (Over(xs[0], nil, bin) && OverSeq(xs[1..], nil, bin))
  }

  predicate OverEntries(xs: seq<Entry>, nil: bool, bin: bool)
    decreases xs, 1
  {
    xs == [] || (OverEntry(xs[0], nil, bin) && OverEntries(xs[1..], nil, bin))
  }

  predicate OverEntry(x: Entry, nil: bool, bin: bool)
    decreases x, 0
  {
    Over(x.key, nil, bin) && Over(x.val, nil, bin)
  }

  lemma {:induction false} OneKindNeverClashes(a: Literal, b: Literal, nil: bool, bin: bool)
    requires !(nil && bin) && Over(a, nil, bin) && Over(b, nil, bin)
    ensures !Clash(a, b)
    decreases a, 1
  {
    match (a.value, b.value)
    case (Cons(h1, t1), Cons(h2, t2)) =>
      OneKindNeverClashes(h1, h2, nil, bin);
      OneKindNeverClashes(t1, t2, nil, bin);
    case (Tuple(xs), Tuple(ys)) => OneKindSeq(xs, ys, nil, bin);
    case (Map(xs), Map(ys)) => OneKindEntries(xs, ys, nil, bin);
    case _ =>
  }

  lemma {:induction false} OneKindSeq(xs: seq<Literal>, ys: seq<Literal>, nil: bool, bin: bool)
    requires !(nil && bin) && OverSeq(xs, nil, bin) && OverSeq(ys, nil, bin)
    ensures !ClashSeq(xs, ys)
    decreases xs, 2
  {
    if xs != [] && ys != [] {
      OneKindNeverClashes(xs[0], ys[0], nil, bin);
      OneKindSeq(xs[1..], ys[1..], nil, bin);
    }
  }

  lemma {:induction false} OneKindEntries(xs: seq<Entry>, ys: seq<Entry>, nil: bool, bin: bool)
    requires !(nil && bin) && OverEntries(xs, nil, bin) && OverEntries(ys, nil, bin)
    ensures !ClashEntries(xs, ys)
    decreases xs, 2
  {
    if xs != [] && ys != [] {
      OneKindEntry(xs[0], ys[0], nil, bin);
      OneKindEntries(xs[1..], ys[1..], nil, bin);
    }
  }

  lemma {:induction false} OneKindEntry(x: Entry, y: Entry, nil: bool, bin: bool)
    requires !(nil && bin) && OverEntry(x, nil, bin) && OverEntry(y, nil, bin)
    ensures !ClashEntry(x, y)
    decreases x, 1
  {
    OneKindNeverClashes(x.key, y.key, nil, bin);
    OneKindNeverClashes(x.val, y.val, nil, bin);
  }

  ghost function Kinds(nil: bool, bin: bool): iset<Literal> {
    iset l: Literal | Over(l, nil, bin)
  }

  /** Of the families given by the kinds they allow, exactly the one with both nil and binaries is not ordered. */
  lemma {:induction false} KindsOrderedIff(nil: bool, bin: bool)
    ensures TotalOrder(Kinds(nil, bin)) <==> !(nil && bin)
  {
    var family := Kinds(nil, bin);
    TotalOrderIff(family);
    if nil && bin {
      var a, b := Literal(0, Nil), Literal(0, Binary([]));
      assert a in family && b in family && Clash(a, b);
    } else {
      forall a, b | a in family && b in family
        ensures !Clash(a, b)
      {
        OneKindNeverClashes(a, b, nil, bin);
      }
    }
  }
}
