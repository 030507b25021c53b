/**
  The tables of the string interner of `compiler/intern/src/symbol.rs`, as
  values. Normal symbols are numbered upward from 0, gensyms downward from
  `MAX`; a gensym stands for the symbol it was made from.
 */
module SymbolTables {
  import opened Bits

  const MAX: nat := 0xFFFF_FF00

  /** The text of a symbol, as the bytes of a string. */
  type Text = seq<Byte>
  type Symbol = nat

  datatype Table = Table(strings: seq<Text>, gensyms: seq<Symbol>) {

    /** The two index ranges have not met. */
    predicate Apart() {
      |strings| + |gensyms| <= MAX + 1
    }

    predicate IsNormal(s: Symbol) {
      s < |strings|
    }

    predicate IsGensym(s: Symbol) {
      s <= MAX && MAX - s < |gensyms|
    }

    predicate Issued(s: Symbol) {
      IsNormal(s) || IsGensym(s)
    }

    /** No string is entered twice, and a gensym points only to a symbol issued before it. */
    ghost predicate WellFormed() {
      && (forall i, j :: 0 <= i < j < |strings| ==> strings[i] != strings[j])
      && (forall j :: 0 <= j < |gensyms| ==> gensyms[j] < |strings| || MAX - j < gensyms[j] <= MAX)
    }

    /** How many gensyms stand before the normal symbol that `s` leads to: the length bound of a chain. */
    function Rank(s: Symbol): nat {
      if IsNormal(s) || s > MAX then 0 else MAX - s + 1
    }

    /** `get`: the text of an issued symbol. */
    function Get(s: Symbol): Text
      requires WellFormed() && Issued(s)
      decreases Rank(s)
    {
      if IsNormal(s) then strings[s] else Get(gensyms[MAX - s])
    }

    /** `interned`: the normal symbol that an issued symbol stands for. */
    function Interned(s: Symbol): (r: Symbol)
      requires WellFormed() && Issued(s)
      ensures IsNormal(r) && strings[r] == Get(s)
      decreases Rank(s)
    {
      if IsNormal(s) then s else Interned(gensyms[MAX - s])
    }

    /** The table after entering `text`. */
    function Enter(text: Text): Table {
      if text in strings then this else Table(strings + [text], gensyms)
    }

    /** The symbol of a string in the table. */
    function Find(text: Text): (r: Symbol)
      requires text in strings
      ensures IsNormal(r) && strings[r] == text
    {
      FindIn(strings, text)
    }

    /** `gensymed`: a new symbol that stands for `s`. */
    function AddGensym(s: Symbol): Table {
      Table(strings, gensyms + [s])
    }

    /** The number `gensymed` returns: `MAX - len + 1` after the push. */
    function NextGensym(): Symbol
      requires |gensyms| <= MAX
    {
      MAX - |gensyms|
    }
  }

  function FindIn(strings: seq<Text>, text: Text): (r: nat)
    requires text in strings
    ensures r < |strings| && strings[r] == text
  {
    if strings[0] == text then 0 else FindIn(strings[1..], text) + 1
  }

  // ---------- Every step keeps the tables well formed ----------

  lemma EnterKeeps(t: Table, text: Text)
    requires t.WellFormed()
    ensures t.Enter(text).WellFormed() && text in t.Enter(text).strings
  {
    var u := t.Enter(text);
    if text !in t.strings {
      assert u.strings[|t.strings|] == text;
    }
  }

  lemma AddGensymKeeps(t: Table, s: Symbol)
    requires t.WellFormed() && t.Issued(s)
    ensures t.AddGensym(s).WellFormed()
  {
  }

  // ---------- Later steps change no answer ----------

  /** `u` is a later state of `t`. */
  predicate Extends(t: Table, u: Table) {
    t.strings <= u.strings && t.gensyms <= u.gensyms
  }

  /** While the ranges stay apart, the answers about issued symbols never change. */
  lemma {:induction false} AnswersAreStable(t: Table, u: Table, s: Symbol)
    requires t.WellFormed() && u.WellFormed() && Extends(t, u) && u.Apart() && t.Issued(s)
    ensures u.Issued(s) && u.Get(s) == t.Get(s) && u.Interned(s) == t.Interned(s)
    decreases t.Rank(s)
  {
    if !t.IsNormal(s) {
      assert !u.IsNormal(s);
      AnswersAreStable(t, u, t.gensyms[MAX - s]);
    }
  }

  /** `intern(get(s)) == interned(s)`: entering the text of a symbol finds what it stands for. */
  lemma {:induction false} InternOfGet(t: Table, s: Symbol)
    requires t.WellFormed() && t.Issued(s)
    ensures t.Get(s) in t.strings && t.Enter(t.Get(s)) == t
    ensures t.Find(t.Get(s)) == t.Interned(s)
  {
    var r := t.Interned(s);
    assert t.strings[r] in t.strings;
  }

  /** The number of the next gensym is new exactly when the ranges stay apart. */
  lemma NextGensymIsNew(t: Table)
    requires t.WellFormed() && t.Apart() && |t.gensyms| <= MAX
    ensures !t.Issued(t.NextGensym()) <==> |t.strings| + |t.gensyms| + 1 <= MAX + 1
  {
  }

  /** A gensym answers like the symbol it was made from. */
  lemma {:induction false} GensymStandsFor(t: Table, s: Symbol)
    requires t.WellFormed() && t.Issued(s) && t.AddGensym(s).Apart()
    ensures t.AddGensym(s).WellFormed() && t.AddGensym(s).Issued(t.NextGensym())
    ensures t.AddGensym(s).Get(t.NextGensym()) == t.Get(s)
    ensures t.AddGensym(s).Interned(t.NextGensym()) == t.Interned(s)
  {
    var u, g := t.AddGensym(s), t.NextGensym();
    AddGensymKeeps(t, s);
    AnswersAreStable(t, u, s);
    assert u.gensyms[MAX - g] == s && !u.IsNormal(g);
  }

  /**
    The bound on the ranges is exact: entering a new string keeps every answer
    if and only if the ranges stay apart.
   */
  lemma {:induction false} EnterIsStable(t: Table, text: Text)
    requires t.WellFormed() && t.Apart() && text !in t.strings && |t.strings| <= MAX
    ensures t.Enter(text).WellFormed()
    ensures (forall s: Symbol :: t.Issued(s) ==> t.Enter(text).Issued(s) && t.Enter(text).Get(s) == t.Get(s))
            <==> t.Enter(text).Apart()
  {
    var u := t.Enter(text);
    EnterKeeps(t, text);
    if u.Apart() {
      forall s: Symbol | t.Issued(s)
        ensures u.Issued(s) && u.Get(s) == t.Get(s)
      {
        AnswersAreStable(t, u, s);
      }
    } else {
      // the newest gensym now reads as the new string
      var s := |t.strings|;
      assert t.IsGensym(s) && u.IsNormal(s);
      var r := t.Interned(s);
      assert t.Get(s) in t.strings;
      assert u.Get(s) == text;
    }
  }

  // ---------- Whole runs ----------

  datatype Op = Intern(text: Text) | Gensym(text: Text) | Gensymed(sym: Symbol)

  /** Symbols are only ever used after they were issued. */
  predicate Allowed(t: Table, op: Op) {
    op.Gensymed? ==> t.Issued(op.sym)
  }

  function Step(t: Table, op: Op): Table {
    match op
    case Intern(text) => t.Enter(text)
    case Gensym(text) => t.Enter(text).AddGensym(FindIn(t.Enter(text).strings, text))
    case Gensymed(s) => t.AddGensym(s)
  }

  function Run(t: Table, ops: seq<Op>): Table {
    if ops == [] then t else Step(Run(t, ops[..|ops| - 1]), ops[|ops| - 1])
  }

  ghost predicate AllowedRun(t: Table, ops: seq<Op>) {
    forall i :: 0 <= i < |ops| ==> Allowed(Run(t, ops[..i]), ops[i])
  }

  lemma {:induction false} StepKeeps(t: Table, op: Op)
    requires t.WellFormed() && Allowed(t, op)
    ensures Step(t, op).WellFormed() && Extends(t, Step(t, op))
  {
    match op
    case Intern(text) => EnterKeeps(t, text);
    case Gensym(text) =>
      EnterKeeps(t, text);
      AddGensymKeeps(t.Enter(text), FindIn(t.Enter(text).strings, text));
    case Gensymed(s) => AddGensymKeeps(t, s);
  }

  lemma {:induction false} RunKeeps(t: Table, ops: seq<Op>)
    requires t.WellFormed() && AllowedRun(t, ops)
    ensures Run(t, ops).WellFormed() && Extends(t, Run(t, ops))
  {
    if ops != [] {
      var n := |ops| - 1;
      assert forall i :: 0 <= i <= n ==> ops[..n][..i] == ops[..i];
      RunKeeps(t, ops[..n]);
      StepKeeps(Run(t, ops[..n]), ops[n]);
    }
  }

  /**
    From any state on, over every run at whose end the ranges are still apart:
    what `get` and `interned` answer about a symbol never changes.
   */
  lemma {:induction false} RunIsStable(t: Table, ops: seq<Op>, s: Symbol)
    requires t.WellFormed() && AllowedRun(t, ops) && t.Issued(s) && Run(t, ops).Apart()
    ensures var u := Run(t, ops);
      u.WellFormed() && u.Issued(s) && u.Get(s) == t.Get(s) && u.Interned(s) == t.Interned(s)
  {
    RunKeeps(t, ops);
    AnswersAreStable(t, Run(t, ops), s);
  }

  /** Every gensym of such a run is a symbol that was never issued before it. */
  lemma {:induction false} RunIssuesNewGensyms(t: Table, ops: seq<Op>, i: nat)
    requires t.WellFormed() && AllowedRun(t, ops) && Run(t, ops).Apart()
    requires i < |ops| && !ops[i].Intern?
    ensures var before, after := Run(t, ops[..i]), Run(t, ops[..i + 1]);
      var g := MAX - |before.gensyms|;
      g >= 0 && !before.Issued(g) && after.Issued(g)
  {
    var before, after := Run(t, ops[..i]), Run(t, ops[..i + 1]);
    assert ops[..i + 1][..i] == ops[..i];
    RunExtends(t, ops, i + 1);
    assert after == Step(before, ops[i]);
  }

  lemma {:induction false} RunExtends(t: Table, ops: seq<Op>, i: nat)
    requires i <= |ops|
    ensures Extends(Run(t, ops[..i]), Run(t, ops))
  {
    if i == |ops| {
      assert ops[..i] == ops;
    } else {
      var n := |ops| - 1;
      RunExtends(t, ops[..n], i);
      assert ops[..n][..i] == ops[..i];
      GrowsByPrefix(Run(t, ops[..n]), ops[n]);
    }
  }

  lemma GrowsByPrefix(t: Table, op: Op)
    ensures Extends(t, Step(t, op))
  {
  }
}
