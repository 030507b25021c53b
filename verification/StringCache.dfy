/**
  The profiler's string cache, `compiler/profiling/src/lib.rs`: a read-locked
  look, then a write-locked second look and an insertion. Threads interleave
  between the two locks.
 */
module StringCaches {
  import opened Bits

  type Thread = nat

  datatype Pc = Idle | Called(s: string) | Missed(s: string)

  /** `order` lists the cached strings in the order of their insertion, `log` the answers given so far. */
  datatype State = State(cache: map<string, nat>, nextId: nat, pcs: map<Thread, Pc>,
                         order: seq<string>, log: seq<(string, nat)>)

  datatype Step =
    | Call(t: Thread, s: string)
    | ReadLocked(t: Thread)
    | WriteLocked(t: Thread)

  /** The cache set up by `SelfProfiler::new`. */
  const Initial: State :=
    State(map["generic" := 1, "query" := 2, "mlir" := 3, "llvm" := 4], 5, map[],
          ["generic", "query", "mlir", "llvm"], [])

  function PcOf(s: State, t: Thread): Pc {
    if t in s.pcs then s.pcs[t] else Idle
  }

  predicate Enabled(s: State, step: Step) {
    match step
    case Call(t, _) => PcOf(s, t).Idle?
    case ReadLocked(t) => PcOf(s, t).Called?
    case WriteLocked(t) => PcOf(s, t).Missed?
  }

  /** The thread returns `id` for the string it was called with. */
  function Return(s: State, t: Thread, text: string, id: nat): State {
    s.(pcs := s.pcs[t := Idle], log := s.log + [(text, id)])
  }

  function Next(s: State, step: Step): State
    requires Enabled(s, step)
  {
    match step
    case Call(t, text) => s.(pcs := s.pcs[t := Called(text)])
    case ReadLocked(t) =>
      var text := PcOf(s, t).s;
      if text in s.cache then Return(s, t, text, s.cache[text])
      else s.(pcs := s.pcs[t := Missed(text)])
    case WriteLocked(t) =>
      var text := PcOf(s, t).s;
      if text in s.cache then Return(s, t, text, s.cache[text])
      else
        // `fetch_add` on a 32-bit counter
        var inserted := s.(cache := s.cache[text := s.nextId], nextId := (s.nextId + 1) % TWO_32,
                           order := s.order + [text]);
        Return(inserted, t, text, s.nextId)
  }

  ghost predicate IsRun(states: seq<State>, steps: seq<Step>) {
    && |states| == |steps| + 1 && states[0] == Initial
    && forall n :: 0 <= n < |steps| ==> Enabled(states[n], steps[n]) && states[n + 1] == Next(states[n], steps[n])
  }

  /** The id of a string is its place in the order of insertion, modulo the counter's width. */
  ghost predicate Numbered(cache: map<string, nat>, order: seq<string>) {
    && (forall i, j :: 0 <= i < j < |order| ==> order[i] != order[j])
    && (forall x :: x in cache <==> x in order)
    && (forall i :: 0 <= i < |order| ==> order[i] in cache && cache[order[i]] == (i + 1) % TWO_32)
  }

  /** Every answer given is what the cache still says. */
  ghost predicate Answered(cache: map<string, nat>, log: seq<(string, nat)>) {
    forall n :: 0 <= n < |log| ==> log[n].0 in cache && log[n].1 == cache[log[n].0]
  }

  ghost predicate Inv(s: State) {
    Numbered(s.cache, s.order) && Answered(s.cache, s.log) && s.nextId == (|s.order| + 1) % TWO_32
  }

  lemma InsertKeeps(cache: map<string, nat>, order: seq<string>, log: seq<(string, nat)>, text: string)
    requires Numbered(cache, order) && Answered(cache, log) && text !in cache
    ensures var id := (|order| + 1) % TWO_32;
      Numbered(cache[text := id], order + [text]) && Answered(cache[text := id], log)
  {
    var longer := order + [text];
    assert longer[|order|] == text;
    assert forall i :: 0 <= i < |order| ==> longer[i] == order[i];
  }

  lemma CounterWraps(n: nat)
    ensures ((n + 1) % TWO_32 + 1) % TWO_32 == (n + 2) % TWO_32
  {
  }

  lemma StepKeepsInv(s: State, step: Step)
    requires Inv(s) && Enabled(s, step)
    ensures Inv(Next(s, step))
  {
    if step.WriteLocked? && PcOf(s, step.t).s !in s.cache {
      InsertKeeps(s.cache, s.order, s.log, PcOf(s, step.t).s);
      CounterWraps(|s.order|);
    }
  }

  lemma FirstTwo()
    ensures Numbered(map["generic" := 1, "query" := 2], ["generic", "query"])
  {
    InsertKeeps(map[], [], [], "generic");
    InsertKeeps(map["generic" := 1], ["generic"], [], "query");
  }

  lemma FirstThree()
    ensures Numbered(map["generic" := 1, "query" := 2, "mlir" := 3], ["generic", "query", "mlir"])
  {
    FirstTwo();
    InsertKeeps(map["generic" := 1, "query" := 2], ["generic", "query"], [], "mlir");
  }

  lemma InitialInv()
    ensures Inv(Initial)
  {
    FirstThree();
    InsertKeeps(map["generic" := 1, "query" := 2, "mlir" := 3], ["generic", "query", "mlir"], [], "llvm");
  }

  lemma {:induction false} RunKeepsInv(states: seq<State>, steps: seq<Step>, n: nat)
    requires IsRun(states, steps) && n < |states|
    ensures Inv(states[n])
  {
    if n > 0 {
      RunKeepsInv(states, steps, n - 1);
      StepKeepsInv(states[n - 1], steps[n - 1]);
    } else {
      InitialInv();
    }
  }

  // ---------- Each answer belongs to a call ----------

  /** Step `m` is the last call of the thread before step `n`, with this string. */
  ghost predicate LastCall(steps: seq<Step>, t: Thread, n: nat, m: nat, text: string) {
    && m < n <= |steps| && steps[m] == Call(t, text)
    && forall j :: m < j < n ==> !(steps[j].Call? && steps[j].t == t)
  }

  /** A thread that is not idle works on the string of its last call. */
  lemma {:induction false} WorksOnLastCall(states: seq<State>, steps: seq<Step>, n: nat, t: Thread) returns (m: nat)
    requires IsRun(states, steps) && n < |states| && !PcOf(states[n], t).Idle?
    ensures LastCall(steps, t, n, m, PcOf(states[n], t).s)
  {
    if steps[n - 1].Call? && steps[n - 1].t == t {
      m := n - 1;
    } else {
      m := WorksOnLastCall(states, steps, n - 1, t);
    }
  }

  /** Under every interleaving, an answer is for the string that its thread last called with. */
  lemma {:induction false} AnswersLastCall(states: seq<State>, steps: seq<Step>, n: nat, text: string, id: nat)
      returns (m: nat)
    requires IsRun(states, steps) && n < |steps| && states[n + 1].log == states[n].log + [(text, id)]
    ensures LastCall(steps, steps[n].t, n, m, text)
    ensures text in states[n + 1].cache && states[n + 1].cache[text] == id
  {
    m := WorksOnLastCall(states, steps, n, steps[n].t);
    assert states[n + 1].log[|states[n].log|] == (text, id);
    RunKeepsInv(states, steps, n + 1);
  }

  lemma {:induction false} LastCallIsUnique(steps: seq<Step>, t: Thread, n: nat, m: nat, text: string, m': nat,
                                            text': string)
    requires LastCall(steps, t, n, m, text) && LastCall(steps, t, n, m', text')
    ensures m == m' && text == text'
  {
  }

  /**
    What a thread does about its last call: a cached string is answered at once
    with its id, any other when the write lock is held, and only then inserted,
    with the next id.
   */
  lemma {:induction false} CallIsAnswered(states: seq<State>, steps: seq<Step>, n: nat, m: nat, text: string)
    requires IsRun(states, steps) && n < |steps| && !steps[n].Call? && LastCall(steps, steps[n].t, n, m, text)
    ensures var s, s' := states[n], states[n + 1];
      if text in s.cache then
        s'.cache == s.cache && s'.nextId == s.nextId && s'.log == s.log + [(text, s.cache[text])]
      else if steps[n].ReadLocked? then
        s'.cache == s.cache && s'.nextId == s.nextId && s'.log == s.log
      else
        && s'.cache == s.cache[text := s.nextId] && s'.nextId == (s.nextId + 1) % TWO_32
        && s'.log == s.log + [(text, s.nextId)]
    ensures PcOf(states[n + 1], steps[n].t).Idle? <==> text in states[n].cache || steps[n].WriteLocked?
  {
    var k := WorksOnLastCall(states, steps, n, steps[n].t);
    LastCallIsUnique(steps, steps[n].t, n, m, text, k, PcOf(states[n], steps[n].t).s);
  }

  /** Under every interleaving, all calls with the same string return the same id. */
  lemma SameStringSameId(states: seq<State>, steps: seq<Step>, n: nat, i: nat, j: nat)
    requires IsRun(states, steps) && n < |states| && i < |states[n].log| && j < |states[n].log|
    ensures states[n].log[i].0 == states[n].log[j].0 ==> states[n].log[i].1 == states[n].log[j].1
  {
    RunKeepsInv(states, steps, n);
  }

  /** Different cached strings have different ids exactly as long as the counter has not gone round. */
  lemma {:induction false} IdsDistinctIff(s: State)
    requires Inv(s)
    ensures (forall x, y :: x in s.cache && y in s.cache && x != y ==> s.cache[x] != s.cache[y])
            <==> |s.order| <= TWO_32
  {
    if |s.order| <= TWO_32 {
      forall x, y | x in s.cache && y in s.cache && x != y
        ensures s.cache[x] != s.cache[y]
      {
        var i :| 0 <= i < |s.order| && s.order[i] == x;
        var j :| 0 <= j < |s.order| && s.order[j] == y;
        WrapInjective(i + 1, j + 1);
      }
    } else {
      var x, y := s.order[0], s.order[TWO_32];
      assert x != y && s.cache[x] == s.cache[y];
    }
  }

  lemma WrapInjective(i: nat, j: nat)
    requires 1 <= i <= TWO_32 && 1 <= j <= TWO_32 && i != j
    ensures i % TWO_32 != j % TWO_32
  {
  }

  /** Under every interleaving, different strings get different ids. */
  lemma DifferentStringsDifferentIds(states: seq<State>, steps: seq<Step>, n: nat, i: nat, j: nat)
    requires IsRun(states, steps) && n < |states| && i < |states[n].log| && j < |states[n].log|
    requires |states[n].order| <= TWO_32
    ensures states[n].log[i].0 != states[n].log[j].0 ==> states[n].log[i].1 != states[n].log[j].1
  {
    RunKeepsInv(states, steps, n);
    IdsDistinctIff(states[n]);
  }

  /** The next id exceeds every id in the cache exactly until the counter wraps. */
  lemma {:induction false} NextIdIsFresh(states: seq<State>, steps: seq<Step>, n: nat)
    requires IsRun(states, steps) && n < |states|
    ensures var s := states[n];
      (forall x :: x in s.cache ==> s.cache[x] < s.nextId) <==> |s.order| + 1 < TWO_32
  {
    RunKeepsInv(states, steps, n);
    RunKeepsOrder(states, steps, n);
    var s := states[n];
    if |s.order| + 1 < TWO_32 {
      forall x | x in s.cache
        ensures s.cache[x] < s.nextId
      {
        var i :| 0 <= i < |s.order| && s.order[i] == x;
      }
    } else {
      // a counter value was used that is not below the next one
      var k := if |s.order| + 1 == TWO_32 then 0 else TWO_32 - 2;
      assert s.order[k] in s.cache && s.cache[s.order[k]] == k + 1;
    }
  }

  lemma {:induction false} RunKeepsOrder(states: seq<State>, steps: seq<Step>, n: nat)
    requires IsRun(states, steps) && n < |states|
    ensures |states[n].order| >= 4
  {
    if n > 0 { RunKeepsOrder(states, steps, n - 1); }
  }
}
