/**
  The lock-free bit subset of `liblumen_alloc/src/blocks/block_bit_set.rs`:
  threads scan a shared word for a clear bit, set it with a compare-and-swap,
  and clear it again to free the block. Every interleaving of the single atomic
  accesses is a run of this state machine.
 */
module BlockBits {
  import opened Bits
  import opened Slabs

  type Thread = nat

  /** Where a thread is in `alloc_block`: about to load for bit `i`, or about to swap what it loaded. */
  datatype Pc = Idle | Scanning(i: nat) | Swapping(i: nat, current: nat) | Failed

  /** The shared word, each thread's position, and the thread that holds each block handed out. */
  datatype State = State(word: nat, pcs: map<Thread, Pc>, held: map<nat, Thread>)

  datatype Step =
    | Start(t: Thread)
    | Load(t: Thread)
    | Swap(t: Thread)
    | Free(t: Thread, bit: nat)

  function PcOf(s: State, t: Thread): Pc {
    if t in s.pcs then s.pcs[t] else Idle
  }

  /** The bit after `i`, or failure when all bits were tried. */
  function Advance(i: nat, bitLen: nat): Pc {
    if i + 1 < bitLen then Scanning(i + 1) else Failed
  }

  predicate Enabled(s: State, step: Step) {
    match step
    case Start(t) => !PcOf(s, t).Scanning? && !PcOf(s, t).Swapping?
    case Load(t) => PcOf(s, t).Scanning?
    case Swap(t) => PcOf(s, t).Swapping?
    // any thread may free a block, whichever thread it was handed to
    case Free(t, bit) => bit in s.held && bit < 64
  }

  function Next(s: State, step: Step, bitLen: nat): State
    requires Enabled(s, step)
  {
    match step
    case Start(t) => s.(pcs := s.pcs[t := if bitLen > 0 then Scanning(0) else Failed])
    case Load(t) =>
      var i := PcOf(s, t).i;
      // already allocated: go on; otherwise try to swap
      if And(s.word, Pow2(i)) == Pow2(i) then s.(pcs := s.pcs[t := Advance(i, bitLen)])
      else s.(pcs := s.pcs[t := Swapping(i, s.word)])
    case Swap(t) =>
      var Swapping(i, current) := PcOf(s, t);
      if s.word == current then
        State(Or(current, Pow2(i)), s.pcs[t := Idle], s.held[i := t])
      else
        s.(pcs := s.pcs[t := Advance(i, bitLen)])
    case Free(t, bit) => s.(word := ClearBit(s.word, bit), held := s.held - {bit})
  }

  /** The set bits of the word are exactly the blocks held. */
  ghost predicate Inv(s: State, bitLen: nat) {
    && s.word < TWO_64
    && (forall b :: 0 <= b < 64 ==> (Bit(s.word, b) <==> b in s.held))
    && (forall b :: b in s.held ==> b < bitLen)
    && (forall t :: t in s.pcs ==> PcInv(s.pcs[t], bitLen))
  }

  /** A thread about to swap saw its bit clear in what it loaded. */
  ghost predicate PcInv(pc: Pc, bitLen: nat) {
    match pc
    case Scanning(i) => i < bitLen
    case Swapping(i, current) => i < bitLen && !Bit(current, i)
    case _ => true
  }

  lemma StepKeepsInv(s: State, step: Step, bitLen: nat)
    requires bitLen <= 64 && Inv(s, bitLen) && Enabled(s, step)
    ensures Inv(Next(s, step, bitLen), bitLen)
  {
    match step
    case Start(t) =>
    case Load(t) => AndFlag(s.word, PcOf(s, t).i);
    case Swap(t) =>
      var Swapping(i, current) := PcOf(s, t);
      if s.word == current {
        forall b | 0 <= b < 64
          ensures Or(current, Pow2(i)) < TWO_64 && (Bit(Or(current, Pow2(i)), b) <==> Bit(current, b) || b == i)
        {
          SetBitSpec(current, i, b);
        }
        SetBitSpec(current, i, 0);
      }
    case Free(t, bit) =>
      forall b | 0 <= b < 64
        ensures ClearBit(s.word, bit) < TWO_64 && (Bit(ClearBit(s.word, bit), b) <==> Bit(s.word, b) && b != bit)
      {
        ClearBitSpec(s.word, bit, b);
      }
      ClearBitSpec(s.word, bit, 0);
  }

  /** A successful swap hands out a block that no thread holds. */
  lemma SwapTakesFreeBlock(s: State, t: Thread, bitLen: nat)
    requires bitLen <= 64 && Inv(s, bitLen) && Enabled(s, Swap(t)) && s.word == PcOf(s, t).current
    ensures var i := PcOf(s, t).i;
      i !in s.held && Next(s, Swap(t), bitLen).held == s.held[i := t]
  {
  }

  // ---------- Every interleaving ----------

  const Initial: State := State(0, map[], map[])

  ghost predicate IsRun(states: seq<State>, steps: seq<Step>, bitLen: nat) {
    && |states| == |steps| + 1 && states[0] == Initial
    && forall n :: 0 <= n < |steps| ==>
         Enabled(states[n], steps[n]) && states[n + 1] == Next(states[n], steps[n], bitLen)
  }

  lemma {:induction false} RunKeepsInv(states: seq<State>, steps: seq<Step>, bitLen: nat, n: nat)
    requires bitLen <= 64 && IsRun(states, steps, bitLen) && n < |states|
    ensures Inv(states[n], bitLen)
  {
    if n == 0 {
      forall b | 0 <= b < 64 ensures !Bit(0, b) { BitOfZero(b); }
    } else {
      RunKeepsInv(states, steps, bitLen, n - 1);
      StepKeepsInv(states[n - 1], steps[n - 1], bitLen);
    }
  }

  /** The step hands block `b` to a thread. */
  ghost predicate Takes(s: State, step: Step, b: nat) {
    step.Swap? && Enabled(s, step) && s.word == PcOf(s, step.t).current && PcOf(s, step.t).i == b
  }

  /** Between two hand-outs of the same block, some thread has freed it. */
  lemma {:induction false} NoDoubleAllocation(states: seq<State>, steps: seq<Step>, bitLen: nat, m: nat, n: nat, b: nat)
    requires bitLen <= 64 && IsRun(states, steps, bitLen) && m < n < |steps|
    requires Takes(states[m], steps[m], b) && Takes(states[n], steps[n], b)
    ensures exists k :: m < k < n && steps[k].Free? && steps[k].bit == b
  {
    RunKeepsInv(states, steps, bitLen, n);
    SwapTakesFreeBlock(states[n], steps[n].t, bitLen);
    assert b !in states[n].held;
    var k := HeldUntilFreed(states, steps, bitLen, m + 1, n, b, steps[m].t);
  }

  /** A held block stays with its holder until a thread frees it. */
  lemma {:induction false} HeldUntilFreed(states: seq<State>, steps: seq<Step>, bitLen: nat, m: nat, n: nat, b: nat,
      t: Thread)
      returns (k: nat)
    requires bitLen <= 64 && IsRun(states, steps, bitLen) && m <= n < |states|
    requires b in states[m].held && states[m].held[b] == t
    requires b in states[n].held ==> states[n].held[b] != t
    ensures m <= k < n && steps[k].Free? && steps[k].bit == b
    decreases n - m
  {
    RunKeepsInv(states, steps, bitLen, m);
    if steps[m].Free? && steps[m].bit == b {
      k := m;
    } else {
      assert states[m + 1] == Next(states[m], steps[m], bitLen);
      if steps[m].Swap? && states[m].word == PcOf(states[m], steps[m].t).current {
        SwapTakesFreeBlock(states[m], steps[m].t, bitLen);
      }
      k := HeldUntilFreed(states, steps, bitLen, m + 1, n, b, t);
    }
  }

  // ---------- What a failure means ----------

  /** Between steps `m` and `n` the thread found bit `j` set, or lost a swap on it. */
  ghost predicate Tried(states: seq<State>, steps: seq<Step>, m: nat, n: nat, t: Thread, j: nat)
    requires |states| == |steps| + 1
  {
    exists k :: m < k < n <= |steps| && (Seen(states[k], steps[k], t, j) || Lost(states[k], steps[k], t, j))
  }

  ghost predicate Seen(s: State, step: Step, t: Thread, j: nat) {
    step == Load(t) && PcOf(s, t) == Scanning(j) && Bit(s.word, j)
  }

  ghost predicate Lost(s: State, step: Step, t: Thread, j: nat) {
    step == Swap(t) && PcOf(s, t).Swapping? && PcOf(s, t).i == j && PcOf(s, t).current != s.word
  }

  /** The bits before this one are done with. */
  function Passed(pc: Pc, bitLen: nat): nat {
    match pc
    case Idle => 0
    case Scanning(i) => i
    case Swapping(i, _) => i
    case Failed => bitLen
  }

  /** A thread goes on from a bit only because it found it set, or lost a swap on it. */
  lemma {:induction false} PassedWasTried(states: seq<State>, steps: seq<Step>, bitLen: nat, n: nat, t: Thread)
      returns (m: nat)
    requires bitLen <= 64 && IsRun(states, steps, bitLen) && n < |states| && !PcOf(states[n], t).Idle?
    ensures m < n && steps[m] == Start(t) && forall k :: m < k < n ==> steps[k] != Start(t)
    ensures forall j :: 0 <= j < Passed(PcOf(states[n], t), bitLen) ==> Tried(states, steps, m, n, t, j)
  {
    var s, step := states[n - 1], steps[n - 1];
    if step == Start(t) {
      m := n - 1;
    } else {
      m := PassedWasTried(states, steps, bitLen, n - 1, t);
      RunKeepsInv(states, steps, bitLen, n - 1);
      forall j | 0 <= j < Passed(PcOf(states[n], t), bitLen)
        ensures Tried(states, steps, m, n, t, j)
      {
        if j < Passed(PcOf(s, t), bitLen) {
          assert Tried(states, steps, m, n - 1, t, j);
        } else {
          AndFlag(s.word, j);
          assert Seen(s, step, t, j) || Lost(s, step, t, j);
        }
      }
    }
  }

  /** When a thread fails, it found every bit set or lost a swap on it since it started. */
  lemma {:induction false} FailedTriedAll(states: seq<State>, steps: seq<Step>, bitLen: nat, n: nat, t: Thread)
      returns (m: nat)
    requires bitLen <= 64 && IsRun(states, steps, bitLen) && n < |states| && PcOf(states[n], t) == Failed
    ensures m < n && steps[m] == Start(t) && forall k :: m < k < n ==> steps[k] != Start(t)
    ensures forall j :: 0 <= j < bitLen ==> Tried(states, steps, m, n, t, j)
  {
    m := PassedWasTried(states, steps, bitLen, n, t);
  }

  // ---------- No thread waits for another ----------

  /** How many of the steps from `m` up to but not including `n` are loads and swaps of the thread. */
  function OwnSteps(steps: seq<Step>, t: Thread, m: nat, n: nat): nat
    requires n <= |steps|
  {
    if n <= m then 0
    else OwnSteps(steps, t, m, n - 1) + if steps[n - 1] == Load(t) || steps[n - 1] == Swap(t) then 1 else 0
  }

  /** At most one load and one swap for each bit passed, and a load for the one to be swapped. */
  function Spent(pc: Pc, bitLen: nat): nat {
    match pc
    case Idle => 2 * bitLen
    case Swapping(i, _) => 2 * i + 1
    case _ => 2 * Passed(pc, bitLen)
  }

  lemma {:induction false} StepsSpent(states: seq<State>, steps: seq<Step>, bitLen: nat, m: nat, n: nat, t: Thread)
    requires bitLen <= 64 && IsRun(states, steps, bitLen) && m < n < |states| && steps[m] == Start(t)
    requires forall k :: m < k < n ==> steps[k] != Start(t)
    ensures OwnSteps(steps, t, m + 1, n) <= Spent(PcOf(states[n], t), bitLen) <= 2 * bitLen
    decreases n
  {
    RunKeepsInv(states, steps, bitLen, n);
    if m + 1 < n {
      StepsSpent(states, steps, bitLen, m, n - 1, t);
      RunKeepsInv(states, steps, bitLen, n - 1);
      assert states[n] == Next(states[n - 1], steps[n - 1], bitLen);
    }
  }

  /** A call takes at most two steps of its own for each bit, whatever the other threads do. */
  lemma {:induction false} WaitFree(states: seq<State>, steps: seq<Step>, bitLen: nat, m: nat, n: nat, t: Thread)
    requires bitLen <= 64 && IsRun(states, steps, bitLen) && m < n < |states| && steps[m] == Start(t)
    requires forall k :: m < k < n ==> steps[k] != Start(t)
    ensures OwnSteps(steps, t, m + 1, n) <= 2 * bitLen
    ensures OwnSteps(steps, t, m + 1, n) == 2 * bitLen ==> PcOf(states[n], t).Idle? || PcOf(states[n], t).Failed?
  {
    StepsSpent(states, steps, bitLen, m, n, t);
    RunKeepsInv(states, steps, bitLen, n);
  }
}
