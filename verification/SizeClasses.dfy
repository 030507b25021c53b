/**
  Size classes: the search of `liblumen_alloc/src/size_class_alloc.rs` and the
  lookup table generated by `liblumen_alloc_macros/src/size_classes.rs`, two
  implementations of the same index.
 */
module SizeClasses {
  import opened Wrappers

  const WORD: nat := 8

  /** A size class, counted in words. */
  type SizeClass = nat

  function ToBytes(c: SizeClass): nat {
    WORD * c
  }

  // ---------- The search ----------

  /** The comparisons never go down along the slice: it is sorted with respect to the target. */
  ghost predicate Ascending<T>(s: seq<T>, f: T -> Ordering) {
    && (forall i, j :: 0 <= i <= j < |s| && f(s[i]) == Greater ==> f(s[j]) == Greater)
    && (forall i, j :: 0 <= i <= j < |s| && f(s[j]) == Less ==> f(s[i]) == Less)
  }

  /** `k` is the position of a closest element that is not below the target. */
  ghost predicate IsNextLargest<T>(s: seq<T>, f: T -> Ordering, k: nat) {
    && k < |s| && f(s[k]) != Less
    && (f(s[k]) == Greater ==> forall i :: 0 <= i < k ==> f(s[i]) == Less)
  }

  /** Which of several equal elements the search comes upon: the halvings, from `size` elements at `base` on. */
  function Halve<T>(s: seq<T>, f: T -> Ordering, size: nat, base: nat, last: Option<nat>): Option<nat>
    requires 0 < size && base + size <= |s|
  {
    var mid := base + size / 2;
    if size == 1 then if f(s[base]) == Less then last else Some(base)
    else
      match f(s[mid])
      case Equal => Some(mid)
      case Greater => Halve(s, f, size - size / 2, base, Some(mid))
      case Less => Halve(s, f, size - size / 2, mid, last)
  }

  function Search<T>(s: seq<T>, f: T -> Ordering): Option<nat> {
    if s == [] then None else Halve(s, f, |s|, 0, None)
  }

  /** What the search has narrowed down to. */
  ghost predicate Narrowed<T>(s: seq<T>, f: T -> Ordering, size: nat, base: nat, last: Option<nat>) {
    && 0 < size && base + size <= |s| && (base > 0 ==> f(s[base]) == Less)
    && (last.None? ==> base + size == |s|)
    && (last.Some? ==>
          last.value < |s| && f(s[last.value]) == Greater && base + size - 1 <= last.value <= base + size)
  }

  lemma {:induction false} HalveSpec<T>(s: seq<T>, f: T -> Ordering, size: nat, base: nat, last: Option<nat>)
    requires Ascending(s, f) && Narrowed(s, f, size, base, last)
    ensures var r := Halve(s, f, size, base, last);
      && (r.Some? ==> IsNextLargest(s, f, r.value))
      && (r.None? <==> forall i :: 0 <= i < |s| ==> f(s[i]) == Less)
    decreases size
  {
    var mid := base + size / 2;
    if size > 1 {
      match f(s[mid])
      case Equal =>
      case Greater => HalveSpec(s, f, size - size / 2, base, Some(mid));
      case Less => HalveSpec(s, f, size - size / 2, mid, last);
    }
  }

  lemma {:induction false} SearchSpec<T>(s: seq<T>, f: T -> Ordering)
    requires Ascending(s, f)
    ensures var r := Search(s, f);
      && (r.Some? ==> IsNextLargest(s, f, r.value))
      && (r.None? <==> forall i :: 0 <= i < |s| ==> f(s[i]) == Less)
  {
    if s != [] { HalveSpec(s, f, |s|, 0, None); }
  }

  /**
    `binary_search_next_largest`: a closest element at least as large as the
    target, if there is one.
   */
  method BinarySearchNextLargest<T>(s: seq<T>, f: T -> Ordering) returns (r: Option<(nat, T)>)
    requires Ascending(s, f)
    ensures r.Some? ==> IsNextLargest(s, f, r.value.0) && r.value.1 == s[r.value.0]
    ensures r.None? <==> forall i :: 0 <= i < |s| ==> f(s[i]) == Less
    ensures Search(s, f) == if r.Some? then Some(r.value.0) else None
  {
    SearchSpec(s, f);
    var size := |s|;
    if size == 0 {
      return None;
    }
    var base := 0;
    var lastLargest: Option<(nat, T)> := None;
    while size > 1
      invariant 0 < size && base + size <= |s|
      invariant lastLargest.Some? ==> lastLargest.value.0 < |s| && lastLargest.value.1 == s[lastLargest.value.0]
      invariant Halve(s, f, size, base, if lastLargest.Some? then Some(lastLargest.value.0) else None) == Search(s, f)
    {
      var half := size / 2;
      var mid := base + half;
      var elem := s[mid];
      match f(elem) {
        case Equal => return Some((mid, elem));
        case Greater =>
          lastLargest := Some((mid, elem));
          size := size - half;
        case Less =>
          base := mid;
          size := size - half;
      }
    }
    var elem := s[base];
    match f(elem) {
      case Equal => r := Some((base, elem));
      case Less => r := lastLargest;
      case Greater => r := Some((base, elem));
    }
  }

  // ---------- What both indices compute ----------

  predicate Increasing(classes: seq<SizeClass>) {
    forall i, j :: 0 <= i < j < |classes| ==> classes[i] < classes[j]
  }

  /** The position of the first class of at least `words` words. */
  function FirstFit(classes: seq<SizeClass>, words: nat): (k: nat)
    ensures k <= |classes|
    ensures forall i :: 0 <= i < k ==> classes[i] < words
    ensures k < |classes| ==> classes[k] >= words
  {
    if classes == [] || classes[0] >= words then 0 else FirstFit(classes[1..], words) + 1
  }

  /** The least class whose bytes hold the request. */
  function ClassFor(classes: seq<SizeClass>, request: nat): Option<SizeClass> {
    var k := FirstFit(classes, NextFactorOfWord(request));
    if k < |classes| then Some(classes[k]) else None
  }

  function NextFactorOfWord(n: nat): nat {
    if n % WORD == 0 then n / WORD else n / WORD + 1
  }

  /** Rounding a request up to words does not change which classes hold it. */
  lemma RoundingIsHarmless(c: SizeClass, request: nat)
    ensures ToBytes(c) >= request <==> c >= NextFactorOfWord(request)
  {
  }

  /** The least class is determined by being sufficient and minimal. */
  lemma ClassForSpec(classes: seq<SizeClass>, request: nat)
    requires Increasing(classes)
    ensures var r := ClassFor(classes, request);
      && (r.None? <==> forall i :: 0 <= i < |classes| ==> ToBytes(classes[i]) < request)
      && (r.Some? ==> r.value in classes && ToBytes(r.value) >= request
                      && forall i :: 0 <= i < |classes| && ToBytes(classes[i]) >= request ==> r.value <= classes[i])
  {
    var w := NextFactorOfWord(request);
    var k := FirstFit(classes, w);
    forall i | 0 <= i < |classes|
      ensures ToBytes(classes[i]) >= request <==> classes[i] >= w
    {
      RoundingIsHarmless(classes[i], request);
    }
  }

  // ---------- The index by binary search ----------

  predicate Sorted(classes: seq<SizeClass>) {
    forall i, j :: 0 <= i < j < |classes| ==> classes[i] <= classes[j]
  }

  /** How classes compare with a request. */
  function ByBytes(request: nat): SizeClass -> Ordering {
    (c: SizeClass) => Compare(ToBytes(c), request)
  }

  /** The position that the search for a request comes upon. */
  function Position(classes: seq<SizeClass>, request: nat): Option<nat> {
    Search(classes, ByBytes(request))
  }

  /** It is one of the least sufficient class, and the only one unless the class is repeated. */
  lemma {:induction false} PositionSpec(classes: seq<SizeClass>, request: nat)
    requires Sorted(classes)
    ensures var k := Position(classes, request);
      && (k.Some? <==> ClassFor(classes, request).Some?)
      && (k.Some? ==> k.value < |classes| && ClassFor(classes, request) == Some(classes[k.value])
                      && (Increasing(classes) ==> k.value == FirstFit(classes, NextFactorOfWord(request))))
  {
    var f, w := ByBytes(request), NextFactorOfWord(request);
    SearchSpec(classes, f);
    forall i | 0 <= i < |classes|
      ensures f(classes[i]) != Less <==> classes[i] >= w
    {
      RoundingIsHarmless(classes[i], request);
    }
    var k := Search(classes, f);
    if k.Some? { FirstFitValue(classes, w, k.value, f); }
  }

  /**
    `size_class_for` of `SizeClassAlloc`, with the position that was found: one
    of the least sufficient class, and the only one unless the class is repeated.
   */
  method SearchClassFor(classes: seq<SizeClass>, request: nat) returns (r: Option<(nat, SizeClass)>)
    requires Sorted(classes)
    ensures r.Some? <==> ClassFor(classes, request).Some?
    ensures r.Some? ==>
      && r.value.1 == ClassFor(classes, request).value
      && r.value.0 < |classes| && classes[r.value.0] == r.value.1
      && (Increasing(classes) ==> r.value.0 == FirstFit(classes, NextFactorOfWord(request)))
    ensures Position(classes, request) == if r.Some? then Some(r.value.0) else None
  {
    PositionSpec(classes, request);
    r := BinarySearchNextLargest(classes, ByBytes(request));
  }

  /** A closest element has the value of the first fit. */
  lemma FirstFitValue(classes: seq<SizeClass>, w: nat, k: nat, f: SizeClass -> Ordering)
    requires Sorted(classes) && IsNextLargest(classes, f, k)
    requires forall i :: 0 <= i < |classes| ==> (f(classes[i]) != Less <==> classes[i] >= w)
    requires forall i, j :: 0 <= i < |classes| && 0 <= j < |classes| && f(classes[i]) == f(classes[j]) == Equal ==>
      classes[i] == classes[j]
    requires forall i, j :: 0 <= i < j < |classes| && f(classes[j]) == Equal ==> f(classes[i]) != Greater
    ensures FirstFit(classes, w) < |classes| && classes[FirstFit(classes, w)] == classes[k]
    ensures Increasing(classes) ==> FirstFit(classes, w) == k
  {
    var j := FirstFit(classes, w);
    assert f(classes[j]) != Less;
    if j < k {
      assert f(classes[k]) == Equal && f(classes[j]) == Equal;
    }
  }

  function ByWords(class_: SizeClass): SizeClass -> Ordering {
    (c: SizeClass) => Compare(c, class_)
  }

  const USIZE_MAX: nat := 0xFFFF_FFFF_FFFF_FFFF

  /**
    `index_for` of `SizeClassAlloc`: a position of the first fit, the only one
    unless the class is repeated, or `usize::MAX` when all classes are smaller.
   */
  method SearchIndexFor(classes: seq<SizeClass>, class_: SizeClass) returns (k: nat)
    requires Sorted(classes) && |classes| <= USIZE_MAX
    ensures var j := FirstFit(classes, class_);
      if j == |classes| then k == USIZE_MAX
      else k < |classes| && classes[k] == classes[j] && (Increasing(classes) ==> k == j)
  {
    var f := ByWords(class_);
    var r := BinarySearchNextLargest(classes, f);
    if r.Some? { FirstFitValue(classes, class_, r.value.0, f); }
    k := if r.None? then USIZE_MAX else r.value.0;
  }

  // ---------- The generated table ----------

  /** `generate_words_to_class_index`: for each number of words, the position of its class. */
  method GenerateTable(classes: seq<SizeClass>) returns (index: seq<nat>)
    requires Increasing(classes)
    ensures |index| == if classes == [] then 0 else classes[|classes| - 1] + 1
    ensures forall w :: 0 <= w < |index| ==> index[w] == FirstFit(classes, w)
  {
    index := [];
    var numWords := 0;
    for i := 0 to |classes|
      invariant |index| == numWords == if i == 0 then 0 else classes[i - 1] + 1
      invariant forall w :: 0 <= w < |index| ==> index[w] == FirstFit(classes, w)
    {
      while numWords <= classes[i]
        invariant |index| == numWords <= classes[i] + 1
        invariant i > 0 ==> classes[i - 1] < numWords
        invariant forall w :: 0 <= w < |index| ==> index[w] == FirstFit(classes, w)
      {
        assert FirstFit(classes, numWords) == i;
        index := index + [i];
        numWords := NextFactorOfWord((numWords + 1) * 8);
      }
    }
  }

  /** The generated `size_class_for`. */
  method TableClassFor(classes: seq<SizeClass>, index: seq<nat>, request: nat) returns (r: Option<SizeClass>)
    requires Increasing(classes) && classes != []
    requires |index| == classes[|classes| - 1] + 1 && forall w :: 0 <= w < |index| ==> index[w] == FirstFit(classes, w)
    ensures r == ClassFor(classes, request)
  {
    var numWords := NextFactorOfWord(request);
    if numWords > classes[|classes| - 1] {
      return None;
    }
    assert FirstFit(classes, numWords) < |classes|;
    r := Some(classes[index[numWords]]);
  }

  /** The generated `index_for`, or nothing where it indexes past the table and panics. */
  method TableIndexFor(classes: seq<SizeClass>, index: seq<nat>, class_: SizeClass) returns (k: Option<nat>)
    requires Increasing(classes) && classes != []
    requires |index| == classes[|classes| - 1] + 1 && forall w :: 0 <= w < |index| ==> index[w] == FirstFit(classes, w)
    ensures var j := FirstFit(classes, class_); k == if j < |classes| then Some(j) else None
  {
    var numWords := NextFactorOfWord(ToBytes(class_));
    assert numWords == class_;
    if numWords >= |index| {
      return None;
    }
    assert FirstFit(classes, numWords) < |classes|;
    k := Some(index[numWords]);
  }

  /** On its own classes, `index_for` gives the position back: it inverts `size_class_for`. */
  lemma IndexInverts(classes: seq<SizeClass>, k: nat)
    requires Increasing(classes) && k < |classes|
    ensures FirstFit(classes, classes[k]) == k
    ensures NextFactorOfWord(ToBytes(classes[k])) == classes[k]
  {
  }

  /** The two implementations give the same class for every request. */
  method BothIndices(classes: seq<SizeClass>, request: nat) returns (bySearch: Option<SizeClass>,
                     byTable: Option<SizeClass>)
    requires Increasing(classes) && classes != []
    ensures bySearch == byTable == ClassFor(classes, request)
  {
    var found := SearchClassFor(classes, request);
    bySearch := if found.Some? then Some(found.value.1) else None;
    var index := GenerateTable(classes);
    byTable := TableClassFor(classes, index, request);
  }

  /**
    The two implementations give the same position for every class up to the
    largest. Above it they differ: one answers `usize::MAX`, the other panics.
   */
  method BothPositions(classes: seq<SizeClass>, class_: SizeClass) returns (bySearch: nat, byTable: Option<nat>)
    requires Increasing(classes) && classes != [] && |classes| <= USIZE_MAX
    ensures byTable.Some? <==> class_ <= classes[|classes| - 1]
    ensures bySearch == if byTable.Some? then byTable.value else USIZE_MAX
    ensures forall k :: 0 <= k < |classes| && classes[k] == class_ ==> bySearch == k
  {
    bySearch := SearchIndexFor(classes, class_);
    var index := GenerateTable(classes);
    byTable := TableIndexFor(classes, index, class_);
  }
}
