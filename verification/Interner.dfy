/**
  The interner of `compiler/intern/src/symbol.rs` over its byte arena: the
  strings it hands out are references into memory, whose text is what the arena
  keeps there.
 */
module Interners {
  import opened Bits
  import opened Wrappers
  import opened ArenaGrowth
  import opened DroplessArenas
  import opened SymbolTables

  /** A `&'static str`: into the program's own data, or into the arena. */
  datatype StrRef = Static(text: Text) | InArena(addr: nat, len: nat)

  /** `names` is the inverse of the list of strings. */
  ghost predicate Inverse(names: map<Text, Symbol>, texts: seq<Text>) {
    && (forall x :: x in names <==> x in texts)
    && (forall i :: 0 <= i < |texts| ==> texts[i] in names && names[texts[i]] == i)
  }

  lemma InverseGrows(names: map<Text, Symbol>, texts: seq<Text>, text: Text)
    requires Inverse(names, texts) && text !in texts
    ensures Inverse(names[text := |texts|], texts + [text])
  {
    var longer := texts + [text];
    assert longer[|texts|] == text;
    assert forall i :: 0 <= i < |texts| ==> longer[i] == texts[i];
  }

  /** The tables and the shape of the arena: all that decides how calls are answered. */
  datatype State = State(table: Table, shape: Shape)

  /** `intern`: a known string has its symbol; a new one gets the next index, if one and memory are left. */
  function InternStep(s: State, text: Text, grant: Grant): (State, Option<Symbol>)
    requires s.shape.Fine()
  {
    if text in s.table.strings then (s, Some(s.table.Find(text)))
    else if |s.table.strings| > MAX then (s, None)
    else
      var (after, p) := Taken(s.shape, |text|, 0, grant);
      if p.None? then (s.(shape := after), None)
      else (State(s.table.Enter(text), after), Some(|s.table.strings|))
  }

  /** `gensymed`: the symbol is recorded before the range of gensyms turns out to be used up. */
  function GensymedStep(s: State, y: Symbol): (State, Option<Symbol>) {
    (s.(table := s.table.AddGensym(y)), if |s.table.gensyms| < MAX then Some(MAX - |s.table.gensyms|) else None)
  }

  function GensymStep(s: State, text: Text, grant: Grant): (State, Option<Symbol>)
    requires s.shape.Fine()
  {
    var (after, r) := InternStep(s, text, grant);
    if r.None? then (after, None) else GensymedStep(after, r.value)
  }

  /**
    Whether `intern` succeeds: the string is known, or an index and memory are
    left for it. Alignment and emptiness are never the reason.
   */
  predicate CanIntern(s: State, text: Text, grant: Grant)
    requires s.shape.Fine()
  {
    || text in s.table.strings
    || (&& |s.table.strings| <= MAX
        && (s.shape.ptr + |text| < s.shape.End() || Room(s.shape.chunks, s.shape.ptr, |text|, grant)))
  }

  /** The empty string is known, and the arena has not been left past its end. */
  ghost predicate Sane(s: State) {
    s.shape.Fine() && s.shape.ptr <= s.shape.End() && s.table.WellFormed() && [] in s.table.strings
  }

  lemma {:induction false} InternStepSpec(s: State, text: Text, grant: Grant)
    requires Sane(s)
    ensures var (after, r) := InternStep(s, text, grant);
      && (r.Some? <==> CanIntern(s, text, grant))
      && (r.None? ==> after.table == s.table)
      && (r.Some? ==> after.table == s.table.Enter(text) && text in after.table.strings
                      && r.value == after.table.Find(text))
  {
    TakenSpec(s.shape, |text|, 0, grant);
    EnterKeeps(s.table, text);
  }

  lemma {:induction false} GensymStepSpec(s: State, text: Text, grant: Grant)
    requires Sane(s)
    ensures var (after, r) := GensymStep(s, text, grant);
      && (!CanIntern(s, text, grant) ==> r.None? && after.table == s.table)
      && (CanIntern(s, text, grant) ==>
            var t := s.table.Enter(text);
            && text in t.strings && after.table == t.AddGensym(t.Find(text))
            && r == if |t.gensyms| < MAX then Some(t.NextGensym()) else None)
  {
    InternStepSpec(s, text, grant);
  }

  class Interner {
    const arena: DroplessArena
    var names: map<Text, Symbol>
    var strings: seq<StrRef>
    var gensyms: seq<Symbol>

    /** The text of each string when it was entered, and the arena region that holds it. */
    ghost var texts: seq<Text>
    ghost var at: seq<int>

    ghost function View(): Table
      reads this
    {
      Table(texts, gensyms)
    }

    ghost function StateOf(): State
      reads this, arena
    {
      State(View(), arena.ShapeOf())
    }

    /** String `i` refers to memory that holds `texts[i]`. */
    ghost predicate Refers(i: nat)
      reads this, arena
      requires i < |strings| == |texts| == |at|
    {
      match strings[i]
      case Static(text) => text == texts[i]
      case InArena(addr, len) =>
        && 0 <= at[i] < |arena.regions|
        && arena.regions[at[i]].span == Span(addr, len)
        && arena.regions[at[i]].data == texts[i]
    }

    ghost predicate Valid()
      reads this, arena
    {
      && arena.Valid() && arena.ptr <= arena.end
      && |strings| == |texts| == |at| <= MAX + 1
      && (forall i :: 0 <= i < |strings| ==> Refers(i))
      && View().WellFormed()
      && [] in texts
      && Inverse(names, texts)
    }

    /** The bytes that a reference points to, as they are in memory now. */
    function Deref(r: StrRef): Text
      reads arena
      requires r.InArena? ==> forall k :: r.addr <= k < r.addr + r.len ==> k in arena.mem
    {
      match r
      case Static(text) => text
      case InArena(addr, len) => seq(len, k requires 0 <= k < len reads arena
                                            requires addr + k in arena.mem => arena.mem[addr + k])
    }

    lemma DerefString(i: nat)
      requires Valid() && i < |strings|
      ensures strings[i].InArena? ==>
        forall k :: strings[i].addr <= k < strings[i].addr + strings[i].len ==> k in arena.mem
      ensures Deref(strings[i]) == texts[i]
    {
      assert Refers(i);
      if strings[i].InArena? {
        var region := arena.regions[at[i]];
        assert Reads(arena.mem, region.span, region.data);
        assert |Deref(strings[i])| == |texts[i]|;
        forall k | 0 <= k < |texts[i]|
          ensures Deref(strings[i])[k] == texts[i][k]
        {
          assert arena.mem[strings[i].addr + k] == region.data[k];
        }
      }
    }

    /** `fresh`: the built-in symbols, whose table lists symbol `i` at position `i`. */
    constructor (table: seq<(Symbol, Text)>)
      requires |table| <= MAX + 1
      requires forall i :: 0 <= i < |table| ==> table[i].0 == i
      requires forall i, j :: 0 <= i < j < |table| ==> table[i].1 != table[j].1
      requires exists i :: 0 <= i < |table| && table[i].1 == []
      ensures Valid() && fresh(arena) && arena.ShapeOf() == Shape([], 0)
      ensures |texts| == |table| && gensyms == []
      ensures forall i :: 0 <= i < |table| ==> texts[i] == table[i].1
    {
      arena := new DroplessArena();
      gensyms := [];
      var names', strings' := BuildTables(table);
      names, strings := names', strings';
      texts := seq(|table|, i requires 0 <= i < |table| => table[i].1);
      at := seq(|table|, _ => -1);
      new;
      var i :| 0 <= i < |table| && table[i].1 == [];
      assert texts[i] == [];
      forall x | x in names
        ensures x in texts
      {
        var j :| 0 <= j < |table| && table[j].1 == x;
        assert texts[j] == x;
      }
    }

    static method BuildTables(table: seq<(Symbol, Text)>) returns (names: map<Text, Symbol>, strings: seq<StrRef>)
      requires forall i :: 0 <= i < |table| ==> table[i].0 == i
      requires forall i, j :: 0 <= i < j < |table| ==> table[i].1 != table[j].1
      ensures |strings| == |table|
      ensures forall i :: 0 <= i < |table| ==> strings[i] == Static(table[i].1)
      ensures forall i :: 0 <= i < |table| ==> table[i].1 in names && names[table[i].1] == i
      ensures forall x :: x in names ==> exists i :: 0 <= i < |table| && table[i].1 == x
    {
      names, strings := map[], [];
      for n := 0 to |table|
        invariant |strings| == n
        invariant forall i :: 0 <= i < n ==> strings[i] == Static(table[i].1)
        invariant forall i :: 0 <= i < n ==> table[i].1 in names && names[table[i].1] == i
        invariant forall x :: x in names ==> exists i :: 0 <= i < n && table[i].1 == x
      {
        var (sym, s) := table[n];
        names := names[s := sym];
        strings := strings + [Static(s)];
      }
    }

    /** `get`: the text of a symbol, read from memory. */
    function Get(s: Symbol): (r: Text)
      reads this, arena
      requires Valid() && View().Issued(s)
      ensures r == View().Get(s)
      decreases View().Rank(s)
    {
      if s < |strings| then
        DerefString(s);
        Deref(strings[s])
      else Get(gensyms[MAX - s])
    }

    /** `interned`: the normal symbol that a symbol stands for. */
    function Interned(s: Symbol): (r: Symbol)
      reads this, arena
      requires Valid() && View().Issued(s)
      ensures r == View().Interned(s)
      decreases View().Rank(s)
    {
      if s < |strings| then s else Interned(gensyms[MAX - s])
    }

    /** `intern`: the symbol of a string, entering it in the tables when it is new. */
    method Intern(text: Text, grant: Grant) returns (r: Option<Symbol>)
      requires Valid() && |text| <= ISIZE_MAX
      requires text !in names ==> Honest(arena.chunks, arena.ptr, |text|, grant)
      modifies this, arena
      ensures Valid() && (StateOf(), r) == InternStep(old(StateOf()), text, grant)
    {
      if text in names {
        FindIsName(text);
        return Some(names[text]);
      }
      var name := |strings| % TWO_32;
      if name > MAX {
        return None;
      }
      r := EnterNew(text, name, grant);
    }

    /** Copies a new string into the arena and enters it under the next index. */
    method EnterNew(text: Text, name: Symbol, grant: Grant) returns (r: Option<Symbol>)
      requires Valid() && |text| <= ISIZE_MAX && text !in texts && name == |texts| <= MAX
      requires Honest(arena.chunks, arena.ptr, |text|, grant)
      modifies this, arena
      ensures Valid() && (StateOf(), r) == InternStep(old(StateOf()), text, grant)
    {
      assert text != [];
      TakenSpec(arena.ShapeOf(), |text|, 0, grant);
      var p := arena.AllocSlice(text, 0, grant);
      forall i | 0 <= i < |strings| ensures Refers(i) { assert old(Refers(i)); }
      if p.None? {
        return None;
      }
      Record(text, name, p.value);
      r := Some(name);
    }

    /** Enters a new string, already copied into the arena, in both tables. */
    method Record(text: Text, name: Symbol, addr: nat)
      requires Valid() && text !in texts && name == |texts| <= MAX
      requires arena.regions != []
      requires var region := arena.regions[|arena.regions| - 1];
        region.span == Span(addr, |text|) && region.data == text
      modifies `strings, `names, `texts, `at
      ensures Valid() && View() == old(View()).Enter(text)
      ensures text in texts && View().Find(text) == name
    {
      EnterKeeps(View(), text);
      InverseGrows(names, texts, text);
      strings := strings + [InArena(addr, |text|)];
      names := names[text := name];
      texts := texts + [text];
      at := at + [|arena.regions| - 1];
      assert View() == old(View()).Enter(text);
      forall i | 0 <= i < |strings| - 1 ensures Refers(i) { assert old(Refers(i)); }
      FindIsName(text);
    }

    /** The first position of a string is the symbol listed under its name. */
    lemma FindIsName(text: Text)
      requires text in texts && Inverse(names, texts)
      ensures View().Find(text) == names[text]
    {
    }

    /** `gensymed`: a new symbol that stands for `s`. */
    method Gensymed(s: Symbol) returns (r: Option<Symbol>)
      requires Valid() && View().Issued(s)
      modifies `gensyms
      ensures Valid() && (StateOf(), r) == GensymedStep(old(StateOf()), s)
    {
      AddGensymKeeps(View(), s);
      gensyms := gensyms + [s];
      assert View() == old(View()).AddGensym(s);
      forall i | 0 <= i < |strings| ensures Refers(i) { assert old(Refers(i)); }
      // `MAX - len + 1` in 32 bits
      r := if |gensyms| > MAX then None else Some(MAX - |gensyms| + 1);
    }

    /** `gensym`: a new symbol with the given text. */
    method Gensym(text: Text, grant: Grant) returns (r: Option<Symbol>)
      requires Valid() && |text| <= ISIZE_MAX
      requires text !in names ==> Honest(arena.chunks, arena.ptr, |text|, grant)
      modifies this, arena
      ensures Valid() && (StateOf(), r) == GensymStep(old(StateOf()), text, grant)
    {
      InternStepSpec(StateOf(), text, grant);
      r := Intern(text, grant);
      if r.Some? {
        r := Gensymed(r.value);
      }
    }
  }
}
