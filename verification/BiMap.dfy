/**
  The substitution map of the kernel pass, `compiler/syntax_kernel/src/bimap.rs`:
  a map together with an inverse index, whose only purpose is to rename every
  reference to a variable without scanning all of them.
 */
module BiMaps {
  import opened Wrappers

  type Symbol = nat

  datatype Name = Var(sym: Symbol) | Fun(sym: Symbol, arity: nat)

  datatype BiMap = BiMap(fwd: map<Name, Name>, inv: map<Name, set<Name>>) {

    /** The keys that map to `value`, by scanning. */
    ghost function Preimage(value: Name): set<Name> {
      set k | k in fwd && fwd[k] == value
    }

    /** The index holds exactly the non-empty preimages. */
    ghost predicate Exact() {
      && (forall v :: v in inv ==> inv[v] == Preimage(v) && inv[v] != {})
      && (forall k :: k in fwd ==> fwd[k] in inv)
    }

    /** The index lists `k` under `v`. */
    predicate Lists(v: Name, k: Name) {
      v in inv && k in inv[v]
    }

    /** The index is exact but for names that map to themselves, which `rename` rewrites in any case. */
    ghost predicate Near() {
      forall v, k :: k != v ==> (Lists(v, k) <==> k in fwd && fwd[k] == v)
    }

    // ---------- Lookups ----------

    function Get(key: Name): Option<Name> {
      if key in fwd then Some(fwd[key]) else None
    }

    function GetVsub(name: Symbol): Symbol {
      var r := Get(Var(name));
      if r.Some? then r.value.sym else name
    }

    function GetFsub(name: Symbol, arity: nat): Symbol {
      var r := Get(Fun(name, arity));
      if r.Some? then r.value.sym else name
    }

    /** Where a name stands after the substitution. */
    function Resolve(name: Name): Name {
      if name in fwd then fwd[name] else name
    }

    // ---------- Updates ----------

    function CleanupInv(key: Name): map<Name, set<Name>> {
      if key !in fwd || fwd[key] !in inv then inv
      else
        var keys := inv[fwd[key]] - {key};
        if keys == {} then inv - {fwd[key]} else inv[fwd[key] := keys]
    }

    function UpdateInv(key: Name, value: Name): map<Name, set<Name>> {
      var cleaned := CleanupInv(key);
      if value in cleaned then cleaned[value := cleaned[value] + {key}] else cleaned[value := {key}]
    }

    function Set(key: Name, value: Name): BiMap {
      BiMap(fwd[key := value], UpdateInv(key, value))
    }

    function SetVsub(name: Symbol, sub: Symbol): BiMap {
      if name == sub then this else Set(Var(name), Var(sub))
    }

    function SetFsub(name: Symbol, arity: nat, value: Name): BiMap {
      if Fun(name, arity) == value then this else Set(Fun(name, arity), value)
    }

    /** `rename`, with the loop over the indexed keys as one update of the map. */
    function Rename(key: Name, value: Name): BiMap {
      if key !in inv then Set(key, value)
      else
        var keys := inv[key];
        BiMap(fwd[key := value] + map k | k in keys :: value,
              (inv - {key})[value := keys + {key}])
    }

    /** `rename` as the source runs it: local copies updated in place, one key at a time. */
    method RenameLoop(key: Name, value: Name) returns (r: BiMap)
      ensures r == Rename(key, value)
    {
      if key !in inv {
        return Set(key, value);
      }
      var keys := inv[key];
      var fwd' := fwd[key := value];
      var todo := keys;
      while todo != {}
        invariant todo <= keys
        invariant fwd' == fwd[key := value] + map k | k in keys - todo :: value
        decreases todo
      {
        var k :| k in todo;
        fwd' := fwd'[k := value];
        todo := todo - {k};
      }
      assert keys - todo == keys;
      keys := keys + {key};
      var inv' := (inv - {key})[value := keys];
      r := BiMap(fwd', inv');
    }
  }

  const Empty: BiMap := BiMap(map[], map[])

  // ---------- The reference: no index, scan everything ----------

  function ScanRename(m: map<Name, Name>, key: Name, value: Name): map<Name, Name> {
    map k | k in m.Keys + {key} :: if k == key || m[k] == key then value else m[k]
  }

  // ---------- One update ----------

  /** `set` keeps the index exact. */
  lemma SetKeepsExact(b: BiMap, key: Name, value: Name)
    requires b.Exact()
    ensures b.Set(key, value).Exact()
  {
    CleanupSpec(b, key);
    var c := BiMap(b.fwd - {key}, b.CleanupInv(key));
    assert c.fwd[key := value] == b.fwd[key := value];
    AddKeepsExact(c, key, value, b.Set(key, value));
  }

  /** Adding an unmapped key to the map and to its value's preimage. */
  lemma AddKeepsExact(c: BiMap, key: Name, value: Name, r: BiMap)
    requires c.Exact() && key !in c.fwd
    requires r.fwd == c.fwd[key := value]
    requires r.inv == if value in c.inv then c.inv[value := c.inv[value] + {key}] else c.inv[value := {key}]
    ensures r.Exact()
  {
    forall v | v in r.inv
      ensures r.inv[v] == r.Preimage(v)
    {
      if v == value {
        assert r.Preimage(v) == c.Preimage(v) + {key};
        assert value !in c.inv ==> c.Preimage(value) == {};
      } else {
        assert r.Preimage(v) == c.Preimage(v);
      }
    }
  }

  /** The cleaned index is exact for the map without `key`. */
  lemma CleanupSpec(b: BiMap, key: Name)
    requires b.Exact()
    ensures BiMap(b.fwd - {key}, b.CleanupInv(key)).Exact()
  {
    var c := BiMap(b.fwd - {key}, b.CleanupInv(key));
    forall v | v in c.inv
      ensures c.inv[v] == c.Preimage(v) && c.inv[v] != {}
    {
      assert v in b.inv;
      assert c.Preimage(v) == b.Preimage(v) - {key};
    }
    forall k | k in c.fwd
      ensures c.fwd[k] in c.inv
    {
      assert k in b.inv[b.fwd[k]];
    }
  }

  /** `rename` produces what scanning every entry would. */
  lemma RenameIsScan(b: BiMap, key: Name, value: Name)
    requires b.Exact()
    ensures b.Rename(key, value).fwd == ScanRename(b.fwd, key, value)
  {
    if key in b.inv {
      assert b.inv[key] == b.Preimage(key);
    }
  }

  /**
    When a rename leaves the index exact: nothing refers to `key`, or the rename
    neither merges with other references to `value` nor strands an old one of `key`.
   */
  predicate SafeRename(b: BiMap, key: Name, value: Name) {
    || key !in b.inv
    || (&& (value == key || value !in b.inv || b.inv[value] == {key})
        && (key !in b.fwd || b.fwd[key] == key || b.fwd[key] == value))
  }

  /** `rename` keeps the index exact if and only if it is safe in this sense. */
  lemma RenameKeepsExact(b: BiMap, key: Name, value: Name)
    requires b.Exact()
    ensures b.Rename(key, value).Exact() <==> SafeRename(b, key, value)
  {
    if key !in b.inv {
      SetKeepsExact(b, key, value);
    } else if SafeRename(b, key, value) {
      SafeIsExact(b, key, value);
    } else {
      UnsafeIsNotExact(b, key, value);
    }
  }

  lemma SafeIsExact(b: BiMap, key: Name, value: Name)
    requires b.Exact() && key in b.inv && SafeRename(b, key, value)
    ensures b.Rename(key, value).Exact()
  {
    var r := b.Rename(key, value);
    RenameIsScan(b, key, value);
    forall v | v in r.inv
      ensures r.inv[v] == r.Preimage(v) && r.inv[v] != {}
    {
      if v == value {
        forall k | k in r.fwd && r.fwd[k] == value
          ensures k in b.inv[key] || k == key
        {
          if k != key && b.fwd[k] == value { assert k in b.Preimage(value); }
        }
        assert r.inv[v] == r.Preimage(v);
      } else {
        assert b.inv[v] == b.Preimage(v);
        assert r.inv[v] == r.Preimage(v);
      }
    }
    forall k | k in r.fwd
      ensures r.fwd[k] in r.inv
    {
    }
  }

  lemma UnsafeIsNotExact(b: BiMap, key: Name, value: Name)
    requires b.Exact() && key in b.inv && !SafeRename(b, key, value)
    ensures !b.Rename(key, value).Exact()
  {
    var r := b.Rename(key, value);
    RenameIsScan(b, key, value);
    if value != key && value in b.inv && b.inv[value] != {key} {
      // another reference to `value` is dropped from the index
      var k :| k in b.inv[value] && k != key;
      assert k in b.Preimage(value);
      assert k in r.Preimage(value) && k !in r.inv[value];
    } else {
      // the old value of `key` still lists it
      var v := b.fwd[key];
      assert key in b.Preimage(v);
      assert key in r.inv[v] && key !in r.Preimage(v);
    }
  }

  // ---------- What a rename must not lose ----------

  /** The next rename, whichever it is, yields the map that scanning yields. */
  ghost predicate Faithful(b: BiMap) {
    forall w, z :: b.Rename(w, z).fwd == ScanRename(b.fwd, w, z)
  }

  lemma ExactIsNear(b: BiMap)
    requires b.Exact()
    ensures b.Near()
  {
    forall v, k | k != v
      ensures b.Lists(v, k) <==> k in b.fwd && b.fwd[k] == v
    {
      if v in b.inv { assert b.inv[v] == b.Preimage(v); }
    }
  }

  lemma NearIsScan(b: BiMap, w: Name, z: Name)
    requires b.Near()
    ensures b.Rename(w, z).fwd == ScanRename(b.fwd, w, z)
  {
    var r, scan := b.Rename(w, z).fwd, ScanRename(b.fwd, w, z);
    forall k
      ensures k in r <==> k in scan
      ensures k in r ==> r[k] == scan[k]
    {
      if k != w { assert b.Lists(w, k) <==> k in b.fwd && b.fwd[k] == w; }
    }
  }

  /** Where the index is wrong, a rename to a name that is not the true value shows it. */
  lemma MismatchShows(b: BiMap, v: Name, k: Name, z: Name)
    requires k != v && z != v && (k in b.fwd ==> z != b.fwd[k])
    requires b.Lists(v, k) != (k in b.fwd && b.fwd[k] == v)
    ensures b.Rename(v, z).fwd != ScanRename(b.fwd, v, z)
  {
    var r, scan := b.Rename(v, z).fwd, ScanRename(b.fwd, v, z);
    if b.Lists(v, k) {
      assert k in r && r[k] == z;
      assert k in scan ==> scan[k] == b.fwd[k];
    } else {
      assert k in scan && scan[k] == z;
      assert k in r ==> r[k] == b.fwd[k];
    }
  }

  /** Some name is neither of two. */
  lemma AnotherName(x: Name, y: Name) returns (z: Name)
    ensures z != x && z != y
  {
    z := Var(x.sym + y.sym + 1);
  }

  /** Renames agree with the scan if and only if the index is exact but for names that map to themselves. */
  lemma FaithfulIff(b: BiMap)
    ensures Faithful(b) <==> b.Near()
  {
    if b.Near() {
      forall w, z
        ensures b.Rename(w, z).fwd == ScanRename(b.fwd, w, z)
      {
        NearIsScan(b, w, z);
      }
    } else {
      var v, k :| k != v && b.Lists(v, k) != (k in b.fwd && b.fwd[k] == v);
      var z := AnotherName(v, if k in b.fwd then b.fwd[k] else v);
      MismatchShows(b, v, k, z);
    }
  }

  /**
    What a rename loses: another reference to the new name, or the fact that the
    old name no longer maps to a third.
   */
  predicate Lost(b: BiMap, key: Name, value: Name) {
    && key in b.inv
    && (|| (value != key && value in b.inv && exists k :: k in b.inv[value] && k != key && k != value)
        || (key in b.fwd && b.fwd[key] != key && b.fwd[key] != value))
  }

  /** Cleaning up takes exactly `key` out of the index. */
  lemma CleanupLists(b: BiMap, key: Name, v: Name, k: Name)
    requires b.Near() && k != v
    ensures BiMap(b.fwd, b.CleanupInv(key)).Lists(v, k) <==> b.Lists(v, k) && k != key
  {
    if k == key {
      assert b.Lists(v, key) <==> key in b.fwd && b.fwd[key] == v;
    } else if b.Lists(v, k) {
      assert k in b.inv[v] - {key};
    }
  }

  lemma SetKeepsNear(b: BiMap, key: Name, value: Name)
    requires b.Near()
    ensures b.Set(key, value).Near()
  {
    var c := b.Set(key, value);
    forall v, k | k != v
      ensures c.Lists(v, k) <==> k in c.fwd && c.fwd[k] == v
    {
      CleanupLists(b, key, v, k);
      assert c.Lists(v, k) <==> BiMap(b.fwd, b.CleanupInv(key)).Lists(v, k) || (v == value && k == key);
      assert b.Lists(v, k) <==> k in b.fwd && b.fwd[k] == v;
    }
  }

  lemma LosslessKeepsNear(b: BiMap, key: Name, value: Name)
    requires b.Near() && key in b.inv && !Lost(b, key, value)
    ensures b.Rename(key, value).Near()
  {
    var c := b.Rename(key, value);
    NearIsScan(b, key, value);
    forall v, k | k != v
      ensures c.Lists(v, k) <==> k in c.fwd && c.fwd[k] == v
    {
      assert k != key ==> (b.Lists(key, k) <==> k in b.fwd && b.fwd[k] == key);
      if v == value {
        assert c.Lists(v, k) <==> k == key || b.Lists(key, k);
        assert b.Lists(value, k) <==> k in b.fwd && b.fwd[k] == value;
        assert value != key && k != key ==> !b.Lists(value, k);
      } else if v != key {
        assert c.Lists(v, k) <==> b.Lists(v, k);
        assert b.Lists(v, k) <==> k in b.fwd && b.fwd[k] == v;
      }
    }
  }

  /** After a rename that loses something, a later rename to any other name differs from the scan. */
  lemma LostShows(b: BiMap, key: Name, value: Name, z: Name) returns (w: Name)
    requires b.Near() && Lost(b, key, value) && z != value
    ensures var c := b.Rename(key, value); c.Rename(w, z).fwd != ScanRename(c.fwd, w, z)
  {
    var c := b.Rename(key, value);
    NearIsScan(b, key, value);
    if value != key && value in b.inv && exists k :: k in b.inv[value] && k != key && k != value {
      var k :| k in b.inv[value] && k != key && k != value;
      assert b.Lists(value, k);
      w := value;
      assert b.Lists(key, k) <==> k in b.fwd && b.fwd[k] == key;
      assert !c.Lists(value, k) && c.fwd[k] == value;
      MismatchShows(c, value, k, z);
    } else {
      // the third name still lists `key`, and may itself be what it is renamed to
      var v := b.fwd[key];
      assert b.Lists(v, key);
      w := v;
      assert c.Lists(v, key) && c.fwd[key] == value;
      StaleShows(c, v, key, z);
    }
  }

  /** A stale entry shows even when its name is renamed to itself. */
  lemma StaleShows(b: BiMap, v: Name, k: Name, z: Name)
    requires k != v && b.Lists(v, k) && k in b.fwd && b.fwd[k] != v && z != b.fwd[k]
    ensures b.Rename(v, z).fwd != ScanRename(b.fwd, v, z)
  {
    var r, scan := b.Rename(v, z).fwd, ScanRename(b.fwd, v, z);
    assert k in r && r[k] == z;
    assert k in scan && scan[k] == b.fwd[k];
  }

  /** On a faithful map, a rename leaves it faithful if and only if it loses nothing. */
  lemma RenameKeepsFaithful(b: BiMap, key: Name, value: Name)
    requires Faithful(b)
    ensures Faithful(b.Rename(key, value)) <==> !Lost(b, key, value)
  {
    FaithfulIff(b);
    FaithfulIff(b.Rename(key, value));
    if Lost(b, key, value) {
      var z := AnotherName(value, value);
      var w := LostShows(b, key, value, z);
    } else if key in b.inv {
      LosslessKeepsNear(b, key, value);
    } else {
      SetKeepsNear(b, key, value);
    }
  }

  /** A rename that keeps the index exact loses nothing; the converse fails. */
  lemma SafeLosesNothing(b: BiMap, key: Name, value: Name)
    requires b.Exact() && SafeRename(b, key, value)
    ensures !Lost(b, key, value)
  {
  }

  /** Nor does a rename of an unmapped name to one that nothing maps to. */
  lemma NewNameLosesNothing(b: BiMap, key: Name, value: Name)
    requires b.Near() && key !in b.fwd && forall k :: k in b.fwd ==> b.fwd[k] != value
    ensures !Lost(b, key, value)
  {
    assert forall k :: k != value ==> !b.Lists(value, k);
    assert value in b.inv ==> forall k :: k in b.inv[value] ==> b.Lists(value, k);
  }

  /** A rename that leaves the index inexact and loses nothing: the reference dropped is of a name to itself. */
  lemma InexactButFaithful()
    ensures var a, x, key := Var(0), Var(1), Var(2);
      var b := Empty.Rename(a, a).Set(x, key);
      b.Exact() && !SafeRename(b, key, a) && !Lost(b, key, a) && Faithful(b.Rename(key, a))
  {
    var a, x, key := Var(0), Var(1), Var(2);
    SetKeepsExact(Empty, a, a);
    var b := Empty.Rename(a, a).Set(x, key);
    SetKeepsExact(Empty.Rename(a, a), x, key);
    assert b.inv[key] == {x} && b.inv[a] == {a};
    ExactIsNear(b);
    FaithfulIff(b);
    RenameKeepsFaithful(b, key, a);
  }

  // ---------- Whole runs ----------

  datatype Op =
    | SetVsub(name: Symbol, sub: Symbol)
    | SetFsub(name: Symbol, arity: nat, value: Name)
    | Subst(key: Name, to: Name)

  function Apply(b: BiMap, op: Op): BiMap {
    match op
    case SetVsub(name, sub) => b.SetVsub(name, sub)
    case SetFsub(name, arity, value) => b.SetFsub(name, arity, value)
    case Subst(key, to) => b.Rename(key, to)
  }

  function Run(b: BiMap, ops: seq<Op>): BiMap {
    if ops == [] then b else Apply(Run(b, ops[..|ops| - 1]), ops[|ops| - 1])
  }

  /** The same operation on a plain map. */
  function ScanApply(m: map<Name, Name>, op: Op): map<Name, Name> {
    match op
    case SetVsub(name, sub) => if name == sub then m else m[Var(name) := Var(sub)]
    case SetFsub(name, arity, value) => if Fun(name, arity) == value then m else m[Fun(name, arity) := value]
    case Subst(key, to) => ScanRename(m, key, to)
  }

  function ScanRun(m: map<Name, Name>, ops: seq<Op>): map<Name, Name> {
    if ops == [] then m else ScanApply(ScanRun(m, ops[..|ops| - 1]), ops[|ops| - 1])
  }

  /** Every substitution is a safe rename where it happens. */
  ghost predicate SafeRun(ops: seq<Op>) {
    forall i :: 0 <= i < |ops| && ops[i].Subst? ==> SafeRename(Run(Empty, ops[..i]), ops[i].key, ops[i].to)
  }

  /** No substitution loses anything where it happens. */
  ghost predicate LosslessRun(ops: seq<Op>) {
    forall i :: 0 <= i < |ops| && ops[i].Subst? ==> !Lost(Run(Empty, ops[..i]), ops[i].key, ops[i].to)
  }

  lemma ApplyKeepsFaithful(b: BiMap, op: Op)
    requires Faithful(b)
    ensures Apply(b, op).fwd == ScanApply(b.fwd, op)
    ensures Faithful(Apply(b, op)) <==> (op.Subst? ==> !Lost(b, op.key, op.to))
  {
    FaithfulIff(b);
    match op
    case SetVsub(name, sub) =>
      SetKeepsNear(b, Var(name), Var(sub));
      FaithfulIff(b.Set(Var(name), Var(sub)));
    case SetFsub(name, arity, value) =>
      SetKeepsNear(b, Fun(name, arity), value);
      FaithfulIff(b.Set(Fun(name, arity), value));
    case Subst(key, to) => RenameKeepsFaithful(b, key, to);
  }

  lemma EmptyIsFaithful()
    ensures Faithful(Empty)
  {
    ExactIsNear(Empty);
    FaithfulIff(Empty);
  }

  /** Over a run that loses nothing, the map equals the scanned one and stays faithful. */
  lemma {:induction false} LosslessRunIsScan(ops: seq<Op>)
    requires LosslessRun(ops)
    ensures Faithful(Run(Empty, ops)) && Run(Empty, ops).fwd == ScanRun(Empty.fwd, ops)
  {
    if ops == [] {
      EmptyIsFaithful();
    } else {
      var n := |ops| - 1;
      var front := ops[..n];
      assert forall i :: 0 <= i <= n ==> front[..i] == ops[..i];
      LosslessRunIsScan(front);
      ApplyKeepsFaithful(Run(Empty, front), ops[n]);
    }
  }

  /** The map is faithful all along a run. */
  ghost predicate FaithfulRun(ops: seq<Op>) {
    forall i :: 0 <= i <= |ops| ==> Faithful(Run(Empty, ops[..i]))
  }

  /** The index does what it is for at every point of a run if and only if no substitution of it loses anything. */
  lemma {:induction false} RunFaithfulIff(ops: seq<Op>)
    ensures FaithfulRun(ops) <==> LosslessRun(ops)
  {
    if LosslessRun(ops) {
      forall i | 0 <= i <= |ops|
        ensures Faithful(Run(Empty, ops[..i]))
      {
        assert forall j :: 0 <= j < i ==> ops[..i][..j] == ops[..j];
        LosslessRunIsScan(ops[..i]);
      }
    } else {
      var i :| 0 <= i < |ops| && ops[i].Subst? && Lost(Run(Empty, ops[..i]), ops[i].key, ops[i].to);
      assert ops[..i + 1][..i] == ops[..i];
      if Faithful(Run(Empty, ops[..i])) {
        ApplyKeepsFaithful(Run(Empty, ops[..i]), ops[i]);
        assert !Faithful(Run(Empty, ops[..i + 1]));
      }
    }
  }

  lemma ApplySpec(b: BiMap, op: Op)
    requires b.Exact()
    ensures Apply(b, op).fwd == ScanApply(b.fwd, op)
    ensures (op.Subst? ==> SafeRename(b, op.key, op.to)) ==> Apply(b, op).Exact()
  {
    match op
    case SetVsub(name, sub) => SetKeepsExact(b, Var(name), Var(sub));
    case SetFsub(name, arity, value) => SetKeepsExact(b, Fun(name, arity), value);
    case Subst(key, to) =>
      RenameIsScan(b, key, to);
      RenameKeepsExact(b, key, to);
  }

  /** The index refines the scan: over every safe run the two maps agree. */
  lemma {:induction false} RunRefinesScan(ops: seq<Op>)
    requires SafeRun(ops)
    ensures Run(Empty, ops).Exact()
    ensures Run(Empty, ops).fwd == ScanRun(Empty.fwd, ops)
  {
    if ops != [] {
      var n := |ops| - 1;
      var front := ops[..n];
      assert forall i :: 0 <= i <= n ==> front[..i] == ops[..i];
      RunRefinesScan(front);
      ApplySpec(Run(Empty, front), ops[n]);
    }
  }

  /** The condition is needed: folding two aliases into one variable can lose a reference. */
  lemma UnsafeRunDiverges()
    ensures var x, y, a, b, c := Var(0), Var(1), Var(2), Var(3), Var(4);
      var m := Empty.Set(x, a).Set(y, b).Rename(a, b).Rename(b, c);
      var scan := ScanRename(ScanRename(map[x := a, y := b], a, b), b, c);
      m.Resolve(y) == b && y in scan && scan[y] == c
  {
  }

  // ---------- Substitutions compose ----------

  /** One substitution applied to one name. */
  function Substitute(name: Name, s: (Name, Name)): Name {
    if name == s.0 then s.1 else name
  }

  function SubstituteAll(name: Name, subs: seq<(Name, Name)>): Name {
    if subs == [] then name else Substitute(SubstituteAll(name, subs[..|subs| - 1]), subs[|subs| - 1])
  }

  function RunSubsts(subs: seq<(Name, Name)>): BiMap {
    if subs == [] then Empty
    else RunSubsts(subs[..|subs| - 1]).Rename(subs[|subs| - 1].0, subs[|subs| - 1].1)
  }

  /** Each key is unmapped when it is substituted, and no substitution loses anything. */
  ghost predicate FreshKeys(subs: seq<(Name, Name)>) {
    forall i :: 0 <= i < |subs| ==>
      var b := RunSubsts(subs[..i]);
      subs[i].0 !in b.fwd && !Lost(b, subs[i].0, subs[i].1)
  }

  lemma RenameComposes(b: BiMap, s: (Name, Name), name: Name)
    requires b.Near() && s.0 !in b.fwd
    ensures b.Rename(s.0, s.1).Resolve(name) == Substitute(b.Resolve(name), s)
  {
    NearIsScan(b, s.0, s.1);
  }

  /** One lookup equals applying all the substitutions one after another, in order. */
  lemma {:induction false} LookupAppliesAll(subs: seq<(Name, Name)>, name: Name)
    requires FreshKeys(subs)
    ensures Faithful(RunSubsts(subs))
    ensures RunSubsts(subs).Resolve(name) == SubstituteAll(name, subs)
    ensures name.Var? ==> RunSubsts(subs).GetVsub(name.sym) == SubstituteAll(name, subs).sym
    ensures name.Fun? ==> RunSubsts(subs).GetFsub(name.sym, name.arity) == SubstituteAll(name, subs).sym
  {
    if subs == [] {
      EmptyIsFaithful();
    } else {
      var n := |subs| - 1;
      var front, last := subs[..n], subs[n];
      assert forall i :: 0 <= i <= n ==> front[..i] == subs[..i];
      assert FreshKeys(front);
      LookupAppliesAll(front, name);
      var b := RunSubsts(front);
      assert subs[..n] == front;
      RenameKeepsFaithful(b, last.0, last.1);
      FaithfulIff(b);
      RenameComposes(b, last, name);
    }
  }

  /** No two substitutions have the same old name, or the same new one. */
  predicate NewNames(subs: seq<(Name, Name)>) {
    forall i, j :: 0 <= i < j < |subs| ==> subs[i].0 != subs[j].0 && subs[i].1 != subs[j].1
  }

  predicate Replaced(subs: seq<(Name, Name)>, k: Name) {
    exists i :: 0 <= i < |subs| && subs[i].0 == k
  }

  predicate Introduced(subs: seq<(Name, Name)>, v: Name) {
    exists i :: 0 <= i < |subs| && subs[i].1 == v
  }

  /** Only names that were replaced are mapped, and only to names that were introduced. */
  ghost predicate Made(b: BiMap, subs: seq<(Name, Name)>) {
    b.Near() && forall k :: k in b.fwd ==> Replaced(subs, k) && Introduced(subs, b.fwd[k])
  }

  lemma {:induction false} NewNameNext(b: BiMap, front: seq<(Name, Name)>, s: (Name, Name))
    requires Made(b, front) && !Replaced(front, s.0) && !Introduced(front, s.1)
    ensures s.0 !in b.fwd && !Lost(b, s.0, s.1) && Made(b.Rename(s.0, s.1), front + [s])
  {
    NewNameLosesNothing(b, s.0, s.1);
    FaithfulIff(b);
    RenameKeepsFaithful(b, s.0, s.1);
    FaithfulIff(b.Rename(s.0, s.1));
    NearIsScan(b, s.0, s.1);
    forall k | k in ScanRename(b.fwd, s.0, s.1)
      ensures Replaced(front + [s], k) && Introduced(front + [s], ScanRename(b.fwd, s.0, s.1)[k])
    {
      OneMore(front, s, k, ScanRename(b.fwd, s.0, s.1)[k]);
    }
  }

  lemma {:induction false} OneMore(front: seq<(Name, Name)>, s: (Name, Name), k: Name, v: Name)
    ensures Replaced(front, k) || k == s.0 ==> Replaced(front + [s], k)
    ensures Introduced(front, v) || v == s.1 ==> Introduced(front + [s], v)
  {
    assert (front + [s])[|front|] == s;
    assert forall i :: 0 <= i < |front| ==> (front + [s])[i] == front[i];
  }

  lemma {:induction false} FreshKeysNext(front: seq<(Name, Name)>, s: (Name, Name))
    requires FreshKeys(front) && s.0 !in RunSubsts(front).fwd && !Lost(RunSubsts(front), s.0, s.1)
    ensures FreshKeys(front + [s]) && RunSubsts(front + [s]) == RunSubsts(front).Rename(s.0, s.1)
  {
    var subs := front + [s];
    assert subs[..|front|] == front && forall i :: 0 <= i < |front| ==> subs[..i] == front[..i] && subs[i] == front[i];
  }

  /** If so, nothing is lost, so one lookup applies them all. */
  lemma {:induction false} NewNamesAreFresh(subs: seq<(Name, Name)>)
    requires NewNames(subs)
    ensures FreshKeys(subs) && Made(RunSubsts(subs), subs)
  {
    if subs == [] {
      ExactIsNear(Empty);
    } else {
      var n := |subs| - 1;
      var front, last := subs[..n], subs[n];
      NewNamesAreFresh(front);
      NewNameNext(RunSubsts(front), front, last);
      FreshKeysNext(front, last);
      assert subs == front + [last];
    }
  }

  /** Each substitution keeps the index exact. */
  ghost predicate SafeSubsts(subs: seq<(Name, Name)>) {
    forall i :: 0 <= i < |subs| ==> SafeRename(RunSubsts(subs[..i]), subs[i].0, subs[i].1)
  }

  lemma {:induction false} SafeSubstsAreExact(subs: seq<(Name, Name)>)
    requires SafeSubsts(subs)
    ensures RunSubsts(subs).Exact()
  {
    if subs != [] {
      var n := |subs| - 1;
      assert forall i :: 0 <= i <= n ==> subs[..n][..i] == subs[..i];
      SafeSubstsAreExact(subs[..n]);
      RenameKeepsExact(RunSubsts(subs[..n]), subs[n].0, subs[n].1);
    }
  }
}
