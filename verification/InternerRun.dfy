/**
  Whole runs of the interner of `compiler/intern/src/symbol.rs`, from its
  built-in table: any calls, with whatever memory the system allocator grants.
 */
module InternerRuns {
  import opened Wrappers
  import opened ArenaGrowth
  import opened DroplessArenas
  import opened SymbolTables
  import opened Interners

  datatype Call = Intern(text: Text, grant: Grant) | Gensym(text: Text, grant: Grant) | Gensymed(sym: Symbol)

  // ---------- What is known of an answer ----------

  /** `s` answers the call: it has the text that was asked for, and is of the right kind. */
  ghost predicate Answers(t: Table, call: Call, s: Symbol)
    requires t.WellFormed()
  {
    && t.Issued(s)
    && match call
       case Intern(text, _) => t.IsNormal(s) && t.Get(s) == text
       case Gensym(text, _) => t.IsGensym(s) && t.Get(s) == text
       case Gensymed(y) => t.IsGensym(s) && t.Issued(y) && t.Get(s) == t.Get(y)
  }

  /** An answer stays right in any later table whose ranges have not met. */
  lemma {:induction false} AnswersStay(t: Table, u: Table, call: Call, s: Symbol)
    requires t.WellFormed() && u.WellFormed() && Extends(t, u) && u.Apart() && Answers(t, call, s)
    ensures Answers(u, call, s)
  {
    AnswersAreStable(t, u, s);
    if call.Gensymed? { AnswersAreStable(t, u, call.sym); }
  }

  /** All answers are right, and no gensym equals another answer. */
  ghost predicate Facts(t: Table, calls: seq<Call>, answers: seq<Option<Symbol>>)
    requires t.WellFormed() && |answers| <= |calls|
  {
    && (forall i :: 0 <= i < |answers| && answers[i].Some? ==> Answers(t, calls[i], answers[i].value))
    && (forall i, j :: 0 <= i < |answers| && 0 <= j < |answers| && i != j && answers[i].Some? && !calls[i].Intern? ==>
          answers[i] != answers[j])
  }

  lemma {:induction false} FactsNext(t: Table, u: Table, calls: seq<Call>, answers: seq<Option<Symbol>>,
                                     answer: Option<Symbol>)
    requires t.WellFormed() && u.WellFormed() && Extends(t, u) && u.Apart()
    requires |answers| < |calls| && Facts(t, calls, answers)
    requires answer.Some? ==> Answers(u, calls[|answers|], answer.value)
    requires answer.Some? && !calls[|answers|].Intern? ==> !t.Issued(answer.value)
    ensures Facts(u, calls, answers + [answer])
  {
    var n, after := |answers|, answers + [answer];
    forall i | 0 <= i < |after| && after[i].Some?
      ensures Answers(u, calls[i], after[i].value)
    {
      if i < n { AnswersStay(t, u, calls[i], answers[i].value); }
    }
    forall i, j | 0 <= i < |after| && 0 <= j < |after| && i != j && after[i].Some? && !calls[i].Intern?
      ensures after[i] != after[j]
    {
      if i == n && after[j].Some? {
        assert Answers(t, calls[j], answers[j].value);
      } else if j == n && after[j].Some? {
        assert Answers(t, calls[i], answers[i].value);
        NormalIsNoGensym(u, calls[n], answer.value, after[i].value);
      }
    }
  }

  /** A new answer is not an earlier gensym: it is a normal symbol, or was not issued before. */
  lemma {:induction false} NormalIsNoGensym(u: Table, call: Call, s: Symbol, g: Symbol)
    requires u.WellFormed() && u.Apart() && Answers(u, call, s)
    ensures call.Intern? && u.IsGensym(g) ==> s != g
  {
  }

  // ---------- One call ----------

  /** What a call adds to the tables. */
  ghost predicate Served(t: Table, u: Table, call: Call, answer: Option<Symbol>)
    requires u.WellFormed()
  {
    && Extends(t, u) && |u.strings| + |u.gensyms| <= |t.strings| + |t.gensyms| + 2
    && (answer.Some? ==> u.Issued(answer.value))
    && (answer.Some? && u.Apart() ==> Answers(u, call, answer.value) && (call.Intern? || !t.Issued(answer.value)))
    && (call.Intern? && call.text in t.strings ==> answer.Some?)
    && (call.Intern? && answer.Some? ==> call.text in u.strings)
  }

  lemma {:induction false} InternServes(t: Table, text: Text, grant: Grant, s: Symbol)
    requires t.WellFormed() && text in t.Enter(text).strings && s == t.Enter(text).Find(text)
    ensures t.Enter(text).WellFormed() && Served(t, t.Enter(text), Call.Intern(text, grant), Some(s))
  {
    EnterKeeps(t, text);
  }

  lemma {:induction false} GensymedServes(t: Table, y: Symbol, answer: Option<Symbol>)
    requires t.WellFormed() && t.Issued(y)
    requires answer.Some? ==> |t.gensyms| < MAX && answer.value == t.NextGensym()
    ensures t.AddGensym(y).WellFormed() && Served(t, t.AddGensym(y), Call.Gensymed(y), answer)
  {
    var u := t.AddGensym(y);
    AddGensymKeeps(t, y);
    if u.Apart() && answer.Some? {
      GensymStandsFor(t, y);
      NextGensymIsNew(t);
      AnswersAreStable(t, u, y);
    }
  }

  lemma {:induction false} GensymServes(t: Table, text: Text, grant: Grant, answer: Option<Symbol>)
    requires t.WellFormed() && text in t.Enter(text).strings
    requires answer.Some? ==> |t.gensyms| < MAX && answer.value == t.NextGensym()
    ensures var e := t.Enter(text); var u := e.AddGensym(e.Find(text));
      u.WellFormed() && Served(t, u, Call.Gensym(text, grant), answer)
  {
    var e := t.Enter(text);
    EnterKeeps(t, text);
    GensymedServes(e, e.Find(text), answer);
    var u := e.AddGensym(e.Find(text));
    if u.Apart() { AnswersAreStable(e, u, e.Find(text)); }
  }

  /** Calls that a program can make: the grant is possible, or the symbol was issued. */
  predicate Possible(s: State, call: Call)
    requires s.shape.Fine()
  {
    match call
    case Gensymed(y) => s.table.Issued(y)
    case _ =>
      && |call.text| <= ISIZE_MAX
      && (call.text in s.table.strings || Honest(s.shape.chunks, s.shape.ptr, |call.text|, call.grant))
  }

  /** The state after a call, and its answer; a call that no program can make is skipped. */
  function Next(s: State, call: Call): (State, Option<Symbol>)
    requires s.shape.Fine()
  {
    if !Possible(s, call) then (s, None) else
    match call
    case Intern(text, grant) => InternStep(s, text, grant)
    case Gensym(text, grant) => GensymStep(s, text, grant)
    case Gensymed(y) => GensymedStep(s, y)
  }

  lemma {:induction false} InternStepIsSane(s: State, text: Text, grant: Grant)
    requires Sane(s) && |text| <= ISIZE_MAX
    requires text in s.table.strings || Honest(s.shape.chunks, s.shape.ptr, |text|, grant)
    ensures Sane(InternStep(s, text, grant).0)
  {
    InternStepSpec(s, text, grant);
    EnterKeeps(s.table, text);
    if text !in s.table.strings {
      NextIsFine(s.shape, Request(text, 0, grant));
      TakenSpec(s.shape, |text|, 0, grant);
    }
  }

  lemma {:induction false} NextIsSane(s: State, call: Call)
    requires Sane(s)
    ensures Sane(Next(s, call).0)
  {
    if Possible(s, call) {
      match call
      case Intern(text, grant) => InternStepIsSane(s, text, grant);
      case Gensym(text, grant) =>
        InternStepIsSane(s, text, grant);
        InternStepSpec(s, text, grant);
        var (after, y) := InternStep(s, text, grant);
        if y.Some? { AddGensymKeeps(after.table, y.value); }
      case Gensymed(y) => AddGensymKeeps(s.table, y);
    }
  }

  /** Every call that a program can make is answered as it should be. */
  lemma {:induction false} NextServes(s: State, call: Call)
    requires Sane(s) && Possible(s, call)
    ensures var (after, answer) := Next(s, call);
      after.table.WellFormed() && Served(s.table, after.table, call, answer)
  {
    match call
    case Intern(text, grant) =>
      InternStepSpec(s, text, grant);
      var (after, answer) := InternStep(s, text, grant);
      if answer.Some? { InternServes(s.table, text, grant, answer.value); }
    case Gensym(text, grant) =>
      GensymStepSpec(s, text, grant);
      var (after, answer) := GensymStep(s, text, grant);
      if CanIntern(s, text, grant) { GensymServes(s.table, text, grant, answer); }
    case Gensymed(y) => GensymedServes(s.table, y, GensymedStep(s, y).1);
  }

  method Perform(interner: Interner, call: Call) returns (answer: Option<Symbol>)
    requires interner.Valid() && interner.arena.ShapeOf().Fine()
    modifies interner, interner.arena
    ensures interner.Valid() && (interner.StateOf(), answer) == Next(old(interner.StateOf()), call)
  {
    answer := None;
    match call {
      case Intern(text, grant) =>
        if CanPass(interner, text, grant) { answer := interner.Intern(text, grant); }
      case Gensym(text, grant) =>
        if CanPass(interner, text, grant) { answer := interner.Gensym(text, grant); }
      case Gensymed(y) =>
        if y < |interner.strings| || (y <= MAX && MAX - y < |interner.gensyms|) { answer := interner.Gensymed(y); }
    }
  }

  predicate CanPass(interner: Interner, text: Text, grant: Grant)
    reads interner, interner.arena
    requires interner.Valid()
  {
    && |text| <= ISIZE_MAX
    && (text in interner.names || Honest(interner.arena.chunks, interner.arena.ptr, |text|, grant))
  }

  // ---------- Every run ----------

  /** The built-in symbols: symbol `i` at position `i`, no string twice, and the empty string among them. */
  ghost predicate IsTable(table: seq<(Symbol, Text)>) {
    && |table| <= MAX + 1
    && (forall i :: 0 <= i < |table| ==> table[i].0 == i)
    && (forall i, j :: 0 <= i < j < |table| ==> table[i].1 != table[j].1)
    && exists i :: 0 <= i < |table| && table[i].1 == []
  }

  ghost function Initial(table: seq<(Symbol, Text)>): State {
    State(Table(seq(|table|, i requires 0 <= i < |table| => table[i].1), []), Shape([], 0))
  }

  lemma InitialIsSane(table: seq<(Symbol, Text)>)
    requires IsTable(table)
    ensures Sane(Initial(table))
  {
    var i :| 0 <= i < |table| && table[i].1 == [];
    assert Initial(table).table.strings[i] == [];
  }

  ghost function StateAfter(table: seq<(Symbol, Text)>, calls: seq<Call>): (s: State)
    requires IsTable(table)
    ensures Sane(s)
  {
    if calls == [] then
      InitialIsSane(table);
      Initial(table)
    else
      var before := StateAfter(table, calls[..|calls| - 1]);
      NextIsSane(before, calls[|calls| - 1]);
      Next(before, calls[|calls| - 1]).0
  }

  /** How call `i` of a run is answered. */
  ghost function Answer(table: seq<(Symbol, Text)>, calls: seq<Call>, i: nat): Option<Symbol>
    requires IsTable(table) && i < |calls|
  {
    Next(StateAfter(table, calls[..i]), calls[i]).1
  }

  ghost predicate AllAnswered(table: seq<(Symbol, Text)>, calls: seq<Call>, answers: seq<Option<Symbol>>)
    requires IsTable(table)
  {
    |answers| <= |calls| && forall i :: 0 <= i < |answers| ==> answers[i] == Answer(table, calls, i)
  }

  /** The built-in strings keep their positions. */
  ghost predicate Starts(t: Table, table: seq<(Symbol, Text)>) {
    |table| <= |t.strings| && forall i :: 0 <= i < |table| ==> t.strings[i] == table[i].1
  }

  /** Call `i` interns a string that is built in, or that an earlier call interned. */
  ghost predicate Known(table: seq<(Symbol, Text)>, calls: seq<Call>, answers: seq<Option<Symbol>>, i: nat)
    requires i < |calls| && i <= |answers|
  {
    && calls[i].Intern? && |calls[i].text| <= ISIZE_MAX
    && ((exists k :: 0 <= k < |table| && table[k].1 == calls[i].text)
        || (exists j :: 0 <= j < i && calls[j].Intern? && answers[j].Some? && calls[j].text == calls[i].text))
  }

  ghost predicate KnownAnswered(table: seq<(Symbol, Text)>, calls: seq<Call>, answers: seq<Option<Symbol>>)
    requires |answers| <= |calls|
  {
    forall i :: 0 <= i < |answers| && Known(table, calls, answers, i) ==> answers[i].Some?
  }

  /** The strings interned so far are in the table. */
  ghost predicate Entered(t: Table, calls: seq<Call>, answers: seq<Option<Symbol>>)
    requires |answers| <= |calls|
  {
    forall i :: 0 <= i < |answers| && calls[i].Intern? && answers[i].Some? ==> calls[i].text in t.strings
  }

  lemma {:induction false} KnownIsEntered(t: Table, table: seq<(Symbol, Text)>, calls: seq<Call>,
      answers: seq<Option<Symbol>>)
    requires |answers| < |calls| && Starts(t, table) && Entered(t, calls, answers)
    requires Known(table, calls, answers, |answers|)
    ensures calls[|answers|].text in t.strings
  {
    if k :| 0 <= k < |table| && table[k].1 == calls[|answers|].text {
      assert t.strings[k] == calls[|answers|].text;
    }
  }

  lemma {:induction false} KnownAnsweredNext(table: seq<(Symbol, Text)>, calls: seq<Call>,
      answers: seq<Option<Symbol>>, answer: Option<Symbol>)
    requires |answers| < |calls| && KnownAnswered(table, calls, answers)
    requires Known(table, calls, answers, |answers|) ==> answer.Some?
    ensures KnownAnswered(table, calls, answers + [answer])
  {
    var after := answers + [answer];
    forall i | 0 <= i < |after| && Known(table, calls, after, i)
      ensures after[i].Some?
    {
      assert Known(table, calls, answers, i);
    }
  }

  /** What the texts read at the end, and the symbols returned, have to do with the calls. */
  ghost predicate RunOk(table: seq<(Symbol, Text)>, calls: seq<Call>, answers: seq<Option<Symbol>>, texts: seq<Text>)
    requires |answers| == |calls| == |texts|
  {
    // every symbol still reads as the text it was made from
    && (forall i :: 0 <= i < |calls| && answers[i].Some? && !calls[i].Gensymed? ==> texts[i] == calls[i].text)
    && (forall i, j :: 0 <= i < |calls| && 0 <= j < |calls| && calls[i].Gensymed? && answers[i].Some?
                       && answers[j] == Some(calls[i].sym) ==>
          texts[i] == texts[j])
    && (forall i :: 0 <= i < |calls| && calls[i].Gensymed? && answers[i].Some? && calls[i].sym < |table| ==>
          texts[i] == table[calls[i].sym].1)
    // equal strings have equal symbols and different strings different ones, the built-in ones their position
    && (forall i, j :: 0 <= i < |calls| && 0 <= j < |calls| && calls[i].Intern? && calls[j].Intern?
                       && answers[i].Some? && answers[j].Some? ==>
          (answers[i] == answers[j] <==> calls[i].text == calls[j].text))
    && (forall i, k :: 0 <= i < |calls| && 0 <= k < |table| && calls[i].Intern? && answers[i].Some? ==>
          (answers[i].value == k <==> calls[i].text == table[k].1))
    // a gensym is neither built in nor any other answer
    && (forall i :: 0 <= i < |calls| && answers[i].Some? && !calls[i].Intern? ==> answers[i].value >= |table|)
    && (forall i, j :: 0 <= i < |calls| && 0 <= j < |calls| && i != j && answers[i].Some? && !calls[i].Intern? ==>
          answers[i] != answers[j])
  }

  lemma {:induction false} RunIsOk(t: Table, table: seq<(Symbol, Text)>, calls: seq<Call>,
                                   answers: seq<Option<Symbol>>, texts: seq<Text>)
    requires t.WellFormed() && t.Apart() && Starts(t, table)
    requires |answers| == |calls| == |texts| && Facts(t, calls, answers)
    requires forall i :: 0 <= i < |answers| && answers[i].Some? ==>
      t.Issued(answers[i].value) && texts[i] == t.Get(answers[i].value)
    ensures RunOk(table, calls, answers, texts)
  {
    forall i | 0 <= i < |calls| && answers[i].Some?
      ensures Answers(t, calls[i], answers[i].value)
    {
    }
  }

  ghost predicate AllIssued(t: Table, answers: seq<Option<Symbol>>) {
    forall i :: 0 <= i < |answers| && answers[i].Some? ==> t.Issued(answers[i].value)
  }

  /** What holds after the first calls of a run. */
  ghost predicate Progress(t: Table, table: seq<(Symbol, Text)>, calls: seq<Call>, answers: seq<Option<Symbol>>) {
    && t.WellFormed() && |answers| <= |calls|
    && Starts(t, table) && AllIssued(t, answers) && Entered(t, calls, answers) && KnownAnswered(table, calls, answers)
    && |t.strings| + |t.gensyms| <= |table| + 2 * |answers|
    && (t.Apart() ==> Facts(t, calls, answers))
  }

  lemma {:induction false} ProgressNext(t: Table, u: Table, table: seq<(Symbol, Text)>, calls: seq<Call>,
                                        answers: seq<Option<Symbol>>, answer: Option<Symbol>)
    requires Progress(t, table, calls, answers) && |answers| < |calls|
    requires u.WellFormed() && ((u == t && answer.None?) || Served(t, u, calls[|answers|], answer))
    requires u == t && answer.None? ==> !Known(table, calls, answers, |answers|)
    ensures Progress(u, table, calls, answers + [answer])
  {
    if Known(table, calls, answers, |answers|) { KnownIsEntered(t, table, calls, answers); }
    KnownAnsweredNext(table, calls, answers, answer);
    if u.Apart() { FactsNext(t, u, calls, answers, answer); }
  }

  /** The state that the first calls of a run lead to. */
  ghost predicate Reached(s: State, table: seq<(Symbol, Text)>, calls: seq<Call>, answers: seq<Option<Symbol>>) {
    IsTable(table) && AllAnswered(table, calls, answers) && s == StateAfter(table, calls[..|answers|])
  }

  lemma {:induction false} ReachedNext(s: State, table: seq<(Symbol, Text)>, calls: seq<Call>,
                                       answers: seq<Option<Symbol>>, after: State, answer: Option<Symbol>)
    requires Reached(s, table, calls, answers) && |answers| < |calls| && (after, answer) == Next(s, calls[|answers|])
    ensures Reached(after, table, calls, answers + [answer])
  {
    var n, more := |answers|, answers + [answer];
    assert calls[..n + 1][..n] == calls[..n];
    assert Answer(table, calls, n) == answer;
    forall i | 0 <= i < |more|
      ensures more[i] == Answer(table, calls, i)
    {
      assert i < n ==> more[i] == answers[i];
    }
  }

  lemma {:induction false} ProgressBy(s: State, table: seq<(Symbol, Text)>, calls: seq<Call>,
                                      answers: seq<Option<Symbol>>, after: State, answer: Option<Symbol>)
    requires Sane(s) && Progress(s.table, table, calls, answers) && |answers| < |calls|
    requires (after, answer) == Next(s, calls[|answers|])
    ensures Progress(after.table, table, calls, answers + [answer])
  {
    var call := calls[|answers|];
    if Known(table, calls, answers, |answers|) { KnownIsEntered(s.table, table, calls, answers); }
    if Possible(s, call) { NextServes(s, call); }
    ProgressNext(s.table, after.table, table, calls, answers, answer);
  }

  lemma {:induction false} ReachedFirst(s: State, table: seq<(Symbol, Text)>, calls: seq<Call>)
    requires IsTable(table) && s.shape == Shape([], 0) && s.table.gensyms == []
    requires |s.table.strings| == |table| && forall i :: 0 <= i < |table| ==> s.table.strings[i] == table[i].1
    ensures Reached(s, table, calls, []) && Sane(s) && Progress(s.table, table, calls, [])
  {
    InitialIsSane(table);
    assert s.table.strings == Initial(table).table.strings;
    assert calls[..0] == [];
  }

  /**
    Every run from the built-in table, through any calls: how each is answered is
    a function of the table and the calls. While the ranges have not met, which
    short runs cannot make them do, all that the interner promises holds of the
    symbols returned and of the texts read through the arena at the end.
   */
  method Session(table: seq<(Symbol, Text)>, calls: seq<Call>)
      returns (answers: seq<Option<Symbol>>, texts: seq<Text>, apart: bool)
    requires IsTable(table)
    ensures |answers| == |calls| == |texts| && AllAnswered(table, calls, answers)
    ensures apart <==> StateAfter(table, calls).table.Apart()
    ensures KnownAnswered(table, calls, answers)
    ensures apart ==> RunOk(table, calls, answers, texts)
    ensures |table| + 2 * |calls| <= MAX + 1 ==> apart
  {
    var interner;
    interner, answers := CallAll(table, calls);
    assert calls[..|calls|] == calls;
    apart := |interner.strings| + |interner.gensyms| <= MAX + 1;
    texts := ReadAll(interner, answers);
    if apart { RunIsOk(interner.View(), table, calls, answers, texts); }
  }

  method CallAll(table: seq<(Symbol, Text)>, calls: seq<Call>)
      returns (interner: Interner, answers: seq<Option<Symbol>>)
    requires IsTable(table)
    ensures fresh(interner) && fresh(interner.arena) && interner.Valid()
    ensures |answers| == |calls| && Reached(interner.StateOf(), table, calls, answers)
    ensures Progress(interner.View(), table, calls, answers)
  {
    interner := new Interner(table);
    answers := [];
    ReachedFirst(interner.StateOf(), table, calls);
    for n := 0 to |calls|
      invariant fresh(interner) && fresh(interner.arena) && interner.Valid()
      invariant |answers| == n && Reached(interner.StateOf(), table, calls, answers)
      invariant Progress(interner.View(), table, calls, answers)
    {
      ghost var s := interner.StateOf();
      var answer := Perform(interner, calls[n]);
      ReachedNext(s, table, calls, answers, interner.StateOf(), answer);
      ProgressBy(s, table, calls, answers, interner.StateOf(), answer);
      answers := answers + [answer];
    }
  }

  /** Reads the text of every symbol returned. */
  method ReadAll(interner: Interner, answers: seq<Option<Symbol>>) returns (texts: seq<Text>)
    requires interner.Valid() && AllIssued(interner.View(), answers)
    ensures |texts| == |answers|
    ensures forall i :: 0 <= i < |answers| && answers[i].Some? ==> texts[i] == interner.View().Get(answers[i].value)
  {
    texts := [];
    for n := 0 to |answers|
      invariant |texts| == n
      invariant forall i :: 0 <= i < n && answers[i].Some? ==> texts[i] == interner.View().Get(answers[i].value)
    {
      texts := texts + [if answers[n].Some? then interner.Get(answers[n].value) else []];
    }
  }
}
