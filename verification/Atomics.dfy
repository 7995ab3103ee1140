/**
  swap and fetchAndAdd built from compareAndSwap (mongo/platform/atomic_intrinsics_*.h),
  run by any number of threads on one 64-bit word, in every interleaving. The
  compare-and-swap instruction is one atomic step; a plain read is another, and
  may return anything, since reading a wide word may tear.
 */
module Atomics {
  import opened Bytes

  type Word = uint64

  datatype Request = Swap(newValue: Word) | FetchAndAdd(increment: Word)

  /** What a call wants to put in place of `current`. */
  function Desired(req: Request, current: Word): Word
  {
    match req
    case Swap(newValue) => newValue
    case FetchAndAdd(increment) => (current + increment) % TWO_TO_THE_64
  }

  /** The instruction: the new contents of the cell, and the contents it found. */
  function CompareAndSwap(cell: Word, expected: Word, newValue: Word): (Word, Word)
  {
    (if cell == expected then newValue else cell, cell)
  }

  /** load() of a wide word: compareAndSwap(value, 0, 0) reads the cell and leaves it alone. */
  lemma LoadByCompareAndSwap(cell: Word)
    ensures CompareAndSwap(cell, 0, 0) == (cell, cell)
  {
  }

  /**
    After a failed attempt, gcc_sync and win32 go on with the value the instruction
    returned; gcc_intel reads the cell again.
   */
  datatype Style = Reuse | Reload

  /**
    A call in progress. `seenAt` is history: the number of commits when `expected`
    was what the cell held, None when the read returned something else.
   */
  datatype Thread =
    | Ready(req: Request)
    | Expecting(req: Request, expected: Word, seenAt: Option<nat>)
    | Returned(req: Request, result: Word)

  /** A successful compare-and-swap, for the record. */
  datatype Commit = Commit(thread: nat, req: Request, before: Word, after: Word)

  datatype State = State(cell: Word, threads: seq<Thread>, log: seq<Commit>)

  datatype Step = Read(t: nat, observed: Word) | Cas(t: nat)

  predicate Enabled(s: State, step: Step)
  {
    step.t < |s.threads|
    && if step.Read? then s.threads[step.t].Ready? else s.threads[step.t].Expecting?
  }

  function Next(style: Style, s: State, step: Step): State
    requires Enabled(s, step)
  {
    match step
    case Read(t, observed) =>
      s.(threads := s.threads[t := Expecting(s.threads[t].req, observed,
                                             if observed == s.cell then Some(|s.log|) else None)])
    case Cas(t) =>
      var call := s.threads[t];
      var (cell, result) := CompareAndSwap(s.cell, call.expected, Desired(call.req, call.expected));
      if result == call.expected then
        State(cell, s.threads[t := Returned(call.req, result)],
              s.log + [Commit(t, call.req, result, cell)])
      else
        State(cell,
              s.threads[t := if style.Reuse? then Expecting(call.req, result, Some(|s.log|)) else Ready(call.req)],
              s.log)
  }

  /** Any scheduling: steps that are not enabled are skipped. */
  function Run(style: Style, s: State, steps: seq<Step>): State
    decreases |steps|
  {
    if steps == [] then s
    else Run(style, if Enabled(s, steps[0]) then Next(style, s, steps[0]) else s, steps[1..])
  }

  ghost predicate Initial(init: Word, s: State)
  {
    s.cell == init && s.log == [] && forall t :: 0 <= t < |s.threads| ==> s.threads[t].Ready?
  }

  // ------------------------------------------------------------------ invariant

  /** The cell's contents after the first `n` commits. */
  ghost function ValueAt(init: Word, log: seq<Commit>, n: nat): Word
    requires n <= |log|
  {
    if n == 0 then init else log[n - 1].after
  }

  /** The commits, one after the other, are a sequential execution that ends in the cell. */
  ghost predicate Sequential(init: Word, log: seq<Commit>, cell: Word)
  {
    && (forall k :: 0 <= k < |log| ==>
          log[k].before == ValueAt(init, log, k) && log[k].after == Desired(log[k].req, log[k].before))
    && cell == ValueAt(init, log, |log|)
  }

  ghost predicate CommitOf(c: Commit, t: nat, call: Thread)
  {
    c.thread == t && c.req == call.req && call.Returned? && c.before == call.result
  }

  /** A call that returned committed exactly once, and returned what it replaced; others never did. */
  ghost predicate OneCommitEach(s: State)
  {
    && (forall k :: 0 <= k < |s.log| ==>
          s.log[k].thread < |s.threads| && CommitOf(s.log[k], s.log[k].thread, s.threads[s.log[k].thread]))
    && (forall j, k :: 0 <= j < k < |s.log| ==> s.log[j].thread != s.log[k].thread)
    && (forall t :: 0 <= t < |s.threads| && s.threads[t].Returned? ==> HasCommit(s.log, t))
  }

  ghost predicate HasCommit(log: seq<Commit>, t: nat)
  {
    exists k :: 0 <= k < |log| && log[k].thread == t
  }

  ghost predicate ValidObservations(init: Word, s: State)
  {
    forall t :: 0 <= t < |s.threads| && s.threads[t].Expecting? && s.threads[t].seenAt.Some? ==>
      s.threads[t].seenAt.value <= |s.log|
      && s.threads[t].expected == ValueAt(init, s.log, s.threads[t].seenAt.value)
  }

  ghost predicate Inv(init: Word, s: State)
  {
    Sequential(init, s.log, s.cell) && OneCommitEach(s) && ValidObservations(init, s)
  }

  lemma CommitKeepsOneCommitEach(s: State, t: nat, c: Commit)
    requires OneCommitEach(s)
    requires t < |s.threads| && s.threads[t].Expecting?
    requires c.thread == t && c.req == s.threads[t].req
    ensures OneCommitEach(s.(threads := s.threads[t := Returned(c.req, c.before)], log := s.log + [c]))
  {
    var n := s.(threads := s.threads[t := Returned(c.req, c.before)], log := s.log + [c]);
    assert n.log[|s.log|] == c;
    forall u | 0 <= u < |n.threads| && n.threads[u].Returned?
      ensures HasCommit(n.log, u)
    {
      if u != t {
        assert HasCommit(s.log, u);
        var k :| 0 <= k < |s.log| && s.log[k].thread == u;
        assert n.log[k].thread == u;
      }
    }
  }

  lemma WaitingKeepsOneCommitEach(s: State, t: nat, call: Thread)
    requires OneCommitEach(s)
    requires t < |s.threads| && !s.threads[t].Returned? && !call.Returned?
    ensures OneCommitEach(s.(threads := s.threads[t := call]))
  {
    forall k | 0 <= k < |s.log| ensures s.log[k].thread != t {
      assert CommitOf(s.log[k], s.log[k].thread, s.threads[s.log[k].thread]);
    }
  }

  lemma SequentialSnoc(init: Word, log: seq<Commit>, cell: Word, c: Commit)
    requires Sequential(init, log, cell)
    requires c.before == cell && c.after == Desired(c.req, cell)
    ensures Sequential(init, log + [c], c.after)
  {
    var longer := log + [c];
    forall k | 0 <= k < |longer|
      ensures longer[k].before == ValueAt(init, longer, k) && longer[k].after == Desired(longer[k].req, longer[k].before)
    {
      if k < |log| {
        assert ValueAt(init, longer, k) == ValueAt(init, log, k);
      }
    }
  }

  lemma ObservationsStayValid(init: Word, s: State, t: nat, call: Thread, more: seq<Commit>, cell: Word)
    requires ValidObservations(init, s) && t < |s.threads|
    requires call.Expecting? && call.seenAt.Some? ==>
               call.seenAt.value <= |s.log| && call.expected == ValueAt(init, s.log, call.seenAt.value)
    ensures ValidObservations(init, State(cell, s.threads[t := call], s.log + more))
  {
    var n := State(cell, s.threads[t := call], s.log + more);
    forall u | 0 <= u < |n.threads| && n.threads[u].Expecting? && n.threads[u].seenAt.Some?
      ensures n.threads[u].seenAt.value <= |n.log|
           && n.threads[u].expected == ValueAt(init, n.log, n.threads[u].seenAt.value)
    {
      var m := n.threads[u].seenAt.value;
      assert m <= |s.log|;
      assert ValueAt(init, n.log, m) == ValueAt(init, s.log, m);
    }
  }

  lemma StepKeepsInv(style: Style, init: Word, s: State, step: Step)
    requires Inv(init, s) && Enabled(s, step)
    ensures Inv(init, Next(style, s, step))
  {
    var call := s.threads[step.t];
    if step.Cas? && s.cell == call.expected {
      CommitKeepsInv(style, init, s, step.t);
    } else {
      WaitKeepsInv(init, s, step.t, Next(style, s, step).threads[step.t]);
    }
  }

  lemma CommitKeepsInv(style: Style, init: Word, s: State, t: nat)
    requires Inv(init, s) && Enabled(s, Cas(t)) && s.cell == s.threads[t].expected
    ensures Inv(init, Next(style, s, Cas(t)))
  {
    var call := s.threads[t];
    var after := Desired(call.req, s.cell);
    var c := Commit(t, call.req, s.cell, after);
    SequentialSnoc(init, s.log, s.cell, c);
    CommitKeepsOneCommitEach(s, t, c);
    ObservationsStayValid(init, s, t, Returned(call.req, s.cell), [c], after);
  }

  /** A step that neither writes nor returns. */
  lemma WaitKeepsInv(init: Word, s: State, t: nat, call: Thread)
    requires Inv(init, s) && t < |s.threads| && !s.threads[t].Returned? && !call.Returned?
    requires call.Expecting? && call.seenAt.Some? ==>
               call.seenAt.value <= |s.log| && call.expected == ValueAt(init, s.log, call.seenAt.value)
    ensures Inv(init, s.(threads := s.threads[t := call]))
  {
    assert s.log + [] == s.log;
    WaitingKeepsOneCommitEach(s, t, call);
    ObservationsStayValid(init, s, t, call, [], s.cell);
  }

  /** In every interleaving, from any start, the invariant holds throughout. */
  lemma {:induction false} RunKeepsInv(style: Style, init: Word, s: State, steps: seq<Step>)
    requires Inv(init, s)
    ensures Inv(init, Run(style, s, steps)) && |Run(style, s, steps).threads| == |s.threads|
    decreases |steps|
  {
    if steps != [] {
      if Enabled(s, steps[0]) {
        StepKeepsInv(style, init, s, steps[0]);
        RunKeepsInv(style, init, Next(style, s, steps[0]), steps[1..]);
      } else {
        RunKeepsInv(style, init, s, steps[1..]);
      }
    }
  }

  /**
    Linearizability: whatever the interleaving and whatever the plain reads returned,
    the successful attempts form a sequential execution from the initial value to
    the final one, with exactly one commit for each call that returned, whose
    result is the value just before its commit.
   */
  lemma CallsAreLinearizable(style: Style, init: Word, s: State, steps: seq<Step>)
    requires Initial(init, s)
    ensures var n := Run(style, s, steps);
            Sequential(init, n.log, n.cell) && OneCommitEach(n)
  {
    RunKeepsInv(style, init, s, steps);
  }

  /** Later steps only add to the log, and a call that returned stays as it is. */
  lemma {:induction false} LogOnlyGrows(style: Style, s: State, steps: seq<Step>)
    ensures var n := Run(style, s, steps);
            && s.log <= n.log && |n.threads| == |s.threads|
            && forall t :: 0 <= t < |s.threads| && s.threads[t].Returned? ==> n.threads[t] == s.threads[t]
    decreases |steps|
  {
    if steps != [] {
      LogOnlyGrows(style, if Enabled(s, steps[0]) then Next(style, s, steps[0]) else s, steps[1..]);
    }
  }

  lemma {:induction false} RunInTwo(style: Style, s: State, a: seq<Step>, b: seq<Step>)
    ensures Run(style, s, a + b) == Run(style, Run(style, s, a), b)
    decreases |a|
  {
    if a == [] {
      assert a + b == b;
    } else {
      assert (a + b)[1..] == a[1..] + b;
      RunInTwo(style, if Enabled(s, a[0]) then Next(style, s, a[0]) else s, a[1..], b);
    }
  }

  /**
    Real-time order: a call that returned before another took its first step is also
    before it in the sequential execution.
   */
  lemma CommitsKeepRealTimeOrder(style: Style, init: Word, s: State, a: seq<Step>, b: seq<Step>, early: nat, late: nat)
    requires Initial(init, s)
    requires var mid := Run(style, s, a);
             early < |mid.threads| && late < |mid.threads| && mid.threads[early].Returned? && mid.threads[late].Ready?
    ensures var log := Run(style, s, a + b).log;
            && HasCommit(log, early)
            && forall j, k :: 0 <= j < |log| && 0 <= k < |log| && log[j].thread == early && log[k].thread == late ==> j < k
  {
    var mid, n := Run(style, s, a), Run(style, s, a + b);
    RunInTwo(style, s, a, b);
    RunKeepsInv(style, init, s, a);
    RunKeepsInv(style, init, s, a + b);
    LogOnlyGrows(style, mid, b);
    LaterInLog(mid, n, early, late);
  }

  lemma LaterInLog(mid: State, n: State, early: nat, late: nat)
    requires OneCommitEach(mid) && OneCommitEach(n) && mid.log <= n.log
    requires early < |mid.threads| && late < |mid.threads| && mid.threads[early].Returned? && mid.threads[late].Ready?
    ensures HasCommit(n.log, early)
    ensures forall j, k :: 0 <= j < |n.log| && 0 <= k < |n.log| && n.log[j].thread == early && n.log[k].thread == late ==> j < k
  {
    ReadyHasNoCommit(mid, late);
    assert HasCommit(mid.log, early);
    var i :| 0 <= i < |mid.log| && mid.log[i].thread == early;
    assert n.log[i] == mid.log[i];
    assert forall k :: 0 <= k < |mid.log| ==> n.log[k] == mid.log[k];
  }

  lemma ReadyHasNoCommit(s: State, t: nat)
    requires OneCommitEach(s) && t < |s.threads| && s.threads[t].Ready?
    ensures forall k :: 0 <= k < |s.log| ==> s.log[k].thread != t
  {
    forall k | 0 <= k < |s.log| ensures s.log[k].thread != t {
      assert CommitOf(s.log[k], s.log[k].thread, s.threads[s.log[k].thread]);
    }
  }

  // --------------------------------------------------------------- conservation

  function Result(call: Thread): multiset<Word>
  {
    if call.Returned? then multiset{call.result} else multiset{}
  }

  /** The values a completed swap wrote. */
  function Written(call: Thread): multiset<Word>
  {
    if call.Returned? && call.req.Swap? then multiset{call.req.newValue} else multiset{}
  }

  function Increment(call: Thread): nat
  {
    if call.Returned? && call.req.FetchAndAdd? then call.req.increment else 0
  }

  function Results(calls: seq<Thread>): multiset<Word>
  {
    if calls == [] then multiset{} else Result(calls[0]) + Results(calls[1..])
  }

  function AllWritten(calls: seq<Thread>): multiset<Word>
  {
    if calls == [] then multiset{} else Written(calls[0]) + AllWritten(calls[1..])
  }

  function Increments(calls: seq<Thread>): nat
  {
    if calls == [] then 0 else Increment(calls[0]) + Increments(calls[1..])
  }

  /** How often `w` was returned. */
  function TimesReturned(calls: seq<Thread>, w: Word): nat
  {
    if calls == [] then 0 else Result(calls[0])[w] + TimesReturned(calls[1..], w)
  }

  /** How often `w` was written. */
  function TimesWritten(calls: seq<Thread>, w: Word): nat
  {
    if calls == [] then 0 else Written(calls[0])[w] + TimesWritten(calls[1..], w)
  }

  lemma {:induction false} TimesAreCounts(calls: seq<Thread>, w: Word)
    ensures Results(calls)[w] == TimesReturned(calls, w)
    ensures AllWritten(calls)[w] == TimesWritten(calls, w)
  {
    if calls != [] {
      TimesAreCounts(calls[1..], w);
    }
  }

  /** Replacing a call that had contributed nothing adds what the new one contributes. */
  lemma {:induction false} Contribute(calls: seq<Thread>, t: nat, call: Thread, w: Word)
    requires t < |calls| && !calls[t].Returned?
    ensures TimesReturned(calls[t := call], w) == TimesReturned(calls, w) + Result(call)[w]
    ensures TimesWritten(calls[t := call], w) == TimesWritten(calls, w) + Written(call)[w]
    decreases |calls|
  {
    var n := calls[t := call];
    if t > 0 {
      Contribute(calls[1..], t - 1, call, w);
      assert n[1..] == calls[1..][t - 1 := call];
    } else {
      assert n[1..] == calls[1..];
    }
  }

  lemma {:induction false} ContributeIncrement(calls: seq<Thread>, t: nat, call: Thread)
    requires t < |calls| && !calls[t].Returned?
    ensures Increments(calls[t := call]) == Increments(calls) + Increment(call)
    decreases |calls|
  {
    var n := calls[t := call];
    if t > 0 {
      ContributeIncrement(calls[1..], t - 1, call);
      assert n[1..] == calls[1..][t - 1 := call];
    } else {
      assert n[1..] == calls[1..];
    }
  }

  predicate AllSwaps(calls: seq<Thread>)
  {
    forall t :: 0 <= t < |calls| ==> calls[t].req.Swap?
  }

  predicate AllAdds(calls: seq<Thread>)
  {
    forall t :: 0 <= t < |calls| ==> calls[t].req.FetchAndAdd?
  }

  function Times(w: Word, v: Word): nat
  {
    if w == v then 1 else 0
  }

  /** For each value: the initial one and those written are those returned and the one left. */
  ghost predicate SwapsBalance(init: Word, s: State)
  {
    forall w: Word :: Times(w, init) + TimesWritten(s.threads, w) == TimesReturned(s.threads, w) + Times(w, s.cell)
  }

  ghost predicate AddsBalance(init: Word, s: State)
  {
    s.cell == (init + Increments(s.threads)) % TWO_TO_THE_64
  }

  /** Between two states, call `t` moved on: it returned, having written the cell, or it did not. */
  ghost predicate Moved(s: State, n: State, t: nat, call: Thread)
  {
    && t < |s.threads| && !s.threads[t].Returned?
    && n.threads == s.threads[t := call] && call.req == s.threads[t].req
    && n.cell == (if call.Returned? then Desired(call.req, s.cell) else s.cell)
    && (call.Returned? ==> call.result == s.cell)
  }

  /** Every step is of that kind. */
  lemma StepCases(style: Style, s: State, step: Step)
    requires Enabled(s, step)
    ensures step.t < |Next(style, s, step).threads|
    ensures Moved(s, Next(style, s, step), step.t, Next(style, s, step).threads[step.t])
  {
  }

  lemma SwapsBalanceOn(init: Word, s: State, n: State, t: nat, call: Thread)
    requires Moved(s, n, t, call) && call.req.Swap? && SwapsBalance(init, s)
    ensures SwapsBalance(init, n)
  {
    forall w: Word ensures Times(w, init) + TimesWritten(n.threads, w) == TimesReturned(n.threads, w) + Times(w, n.cell) {
      Contribute(s.threads, t, call, w);
      assert Times(w, init) + TimesWritten(s.threads, w) == TimesReturned(s.threads, w) + Times(w, s.cell);
    }
  }

  lemma AddsBalanceOn(init: Word, s: State, n: State, t: nat, call: Thread)
    requires Moved(s, n, t, call) && call.req.FetchAndAdd? && AddsBalance(init, s)
    ensures AddsBalance(init, n)
  {
    ContributeIncrement(s.threads, t, call);
    if call.Returned? {
      AddOnce(init + Increments(s.threads), init + Increments(n.threads), call.req.increment, s.cell, n.cell);
    }
  }

  lemma StepBalancesSwaps(style: Style, init: Word, s: State, step: Step)
    requires Enabled(s, step) && AllSwaps(s.threads) && SwapsBalance(init, s)
    ensures AllSwaps(Next(style, s, step).threads) && SwapsBalance(init, Next(style, s, step))
  {
    var n := Next(style, s, step);
    StepCases(style, s, step);
    SwapsBalanceOn(init, s, n, step.t, n.threads[step.t]);
  }

  lemma StepBalancesAdds(style: Style, init: Word, s: State, step: Step)
    requires Enabled(s, step) && AllAdds(s.threads) && AddsBalance(init, s)
    ensures AllAdds(Next(style, s, step).threads) && AddsBalance(init, Next(style, s, step))
  {
    var n := Next(style, s, step);
    StepCases(style, s, step);
    AddsBalanceOn(init, s, n, step.t, n.threads[step.t]);
  }

  lemma AddOnce(sum: nat, newSum: nat, increment: Word, before: Word, after: Word)
    requires newSum == sum + increment
    requires before == sum % TWO_TO_THE_64 && after == (before + increment) % TWO_TO_THE_64
    ensures after == newSum % TWO_TO_THE_64
  {
    assert sum == before + TWO_TO_THE_64 * (sum / TWO_TO_THE_64);
    assert newSum == before + increment + TWO_TO_THE_64 * (sum / TWO_TO_THE_64);
  }

  lemma {:induction false} NothingYet(calls: seq<Thread>, w: Word)
    requires forall t :: 0 <= t < |calls| ==> calls[t].Ready?
    ensures TimesReturned(calls, w) == TimesWritten(calls, w) == 0 && Increments(calls) == 0
  {
    if calls != [] {
      NothingYet(calls[1..], w);
    }
  }

  lemma {:induction false} RunBalancesSwaps(style: Style, init: Word, s: State, steps: seq<Step>)
    requires AllSwaps(s.threads) && SwapsBalance(init, s)
    ensures SwapsBalance(init, Run(style, s, steps))
    decreases |steps|
  {
    if steps != [] {
      var n := if Enabled(s, steps[0]) then Next(style, s, steps[0]) else s;
      if Enabled(s, steps[0]) { StepBalancesSwaps(style, init, s, steps[0]); }
      RunBalancesSwaps(style, init, n, steps[1..]);
    }
  }

  lemma {:induction false} RunBalancesAdds(style: Style, init: Word, s: State, steps: seq<Step>)
    requires AllAdds(s.threads) && AddsBalance(init, s)
    ensures AddsBalance(init, Run(style, s, steps))
    decreases |steps|
  {
    if steps != [] {
      var n := if Enabled(s, steps[0]) then Next(style, s, steps[0]) else s;
      if Enabled(s, steps[0]) { StepBalancesAdds(style, init, s, steps[0]); }
      RunBalancesAdds(style, init, n, steps[1..]);
    }
  }

  /** Both balances hold before anything has run. */
  lemma InitiallyBalanced(init: Word, s: State)
    requires Initial(init, s)
    ensures SwapsBalance(init, s) && AddsBalance(init, s)
  {
    NothingYet(s.threads, 0);
    forall w: Word ensures TimesReturned(s.threads, w) == TimesWritten(s.threads, w) == 0 {
      NothingYet(s.threads, w);
    }
  }

  /** No value is lost or made up: initial and written values are those returned and the one left. */
  lemma SwapsConserveValues(style: Style, init: Word, s: State, steps: seq<Step>)
    requires Initial(init, s) && AllSwaps(s.threads)
    ensures var n := Run(style, s, steps);
            multiset{init} + AllWritten(n.threads) == Results(n.threads) + multiset{n.cell}
  {
    InitiallyBalanced(init, s);
    RunBalancesSwaps(style, init, s, steps);
    BalanceAsMultisets(init, Run(style, s, steps));
  }

  lemma BalanceAsMultisets(init: Word, s: State)
    requires SwapsBalance(init, s)
    ensures multiset{init} + AllWritten(s.threads) == Results(s.threads) + multiset{s.cell}
  {
    var given, back := multiset{init} + AllWritten(s.threads), Results(s.threads) + multiset{s.cell};
    forall w: Word ensures given[w] == back[w] {
      TimesAreCounts(s.threads, w);
      OneAndMore(init, AllWritten(s.threads), w);
      OneAndMore(s.cell, Results(s.threads), w);
      assert Times(w, init) + TimesWritten(s.threads, w) == TimesReturned(s.threads, w) + Times(w, s.cell);
    }
  }

  lemma OneAndMore(v: Word, m: multiset<Word>, w: Word)
    ensures (multiset{v} + m)[w] == (m + multiset{v})[w] == Times(w, v) + m[w]
  {
  }

  /** The cell holds the initial value plus all committed increments, modulo 2^64. */
  lemma AddsSumUp(style: Style, init: Word, s: State, steps: seq<Step>)
    requires Initial(init, s) && AllAdds(s.threads)
    ensures var n := Run(style, s, steps);
            n.cell == (init + Increments(n.threads)) % TWO_TO_THE_64
  {
    InitiallyBalanced(init, s);
    RunBalancesAdds(style, init, s, steps);
  }

  // ------------------------------------------------------------------- progress

  /** If the value changed between two points of the log, some commit between them changed it. */
  lemma {:induction false} SomeCommitChanged(init: Word, log: seq<Commit>, n: nat, m: nat) returns (k: nat)
    requires n <= m <= |log| && ValueAt(init, log, n) != ValueAt(init, log, m)
    requires forall k :: 0 <= k < |log| ==> log[k].before == ValueAt(init, log, k)
    ensures n <= k < m && log[k].before != log[k].after
    decreases m
  {
    if log[m - 1].before != log[m - 1].after {
      k := m - 1;
    } else {
      k := SomeCommitChanged(init, log, n, m - 1);
    }
  }

  /**
    A retry is never in vain: if an attempt fails although the expected value had
    really been in the cell, another call changed the cell since it was seen there.
   */
  lemma FailedRetryMeansProgress(style: Style, init: Word, s: State, steps: seq<Step>, t: nat)
    requires Initial(init, s)
    requires var n := Run(style, s, steps);
             t < |n.threads| && n.threads[t].Expecting? && n.threads[t].seenAt.Some? && n.cell != n.threads[t].expected
    ensures var n := Run(style, s, steps);
            exists k :: n.threads[t].seenAt.value <= k < |n.log|
              && n.log[k].thread != t && n.log[k].before != n.log[k].after
  {
    RunKeepsInv(style, init, s, steps);
    var n := Run(style, s, steps);
    var k := SomeCommitChanged(init, n.log, n.threads[t].seenAt.value, |n.log|);
    assert CommitOf(n.log[k], n.log[k].thread, n.threads[n.log[k].thread]);
  }

  /** A call left alone returns after at most one failed attempt. */
  lemma AloneItReturns(style: Style, s: State, t: nat)
    requires t < |s.threads| && s.threads[t].Expecting?
    ensures var n := Run(style, s, [Cas(t), Read(t, s.cell), Cas(t)]);
            && |n.threads| == |s.threads|
            && n.threads[t] == Returned(s.threads[t].req, s.cell)
            && n.cell == Desired(s.threads[t].req, s.cell)
  {
    var steps := [Cas(t), Read(t, s.cell), Cas(t)];
    LogOnlyGrows(style, s, steps);
    assert steps[1..] == [Read(t, s.cell), Cas(t)];
    assert steps[1..][1..] == [Cas(t)];
    assert steps[1..][1..][1..] == [];
    var one := Next(style, s, Cas(t));
    var two := if Enabled(one, Read(t, s.cell)) then Next(style, one, Read(t, s.cell)) else one;
    var three := if Enabled(two, Cas(t)) then Next(style, two, Cas(t)) else two;
    assert Run(style, s, steps) == Run(style, one, steps[1..]);
    assert Run(style, one, steps[1..]) == Run(style, two, steps[1..][1..]);
    assert Run(style, two, steps[1..][1..]) == Run(style, three, []);
  }

  /** What a read leaves: the value to expect, seen now exactly if it was the cell's. */
  lemma ReadLands(style: Style, s: State, t: nat, observed: Word)
    requires t < |s.threads| && s.threads[t].Ready?
    ensures var n := Run(style, s, [Read(t, observed)]);
            && n.cell == s.cell && n.log == s.log
            && |n.threads| == |s.threads|
            && (forall j :: 0 <= j < |s.threads| && j != t ==> n.threads[j] == s.threads[j])
            && n.threads[t].Expecting? && n.threads[t].req == s.threads[t].req && n.threads[t].expected == observed
            && (n.threads[t].seenAt.Some? <==> observed == s.cell)
            && (observed == s.cell ==> n.threads[t].seenAt.value == |s.log|)
  {
    assert [Read(t, observed)][1..] == [];
  }

  /** A failed attempt leaves the cell alone and goes on: with the value it found, or by reading again. */
  lemma FailedAttemptLands(style: Style, s: State, t: nat)
    requires t < |s.threads| && s.threads[t].Expecting? && s.threads[t].expected != s.cell
    ensures var n := Run(style, s, [Cas(t)]);
            && n.cell == s.cell && n.log == s.log && |n.threads| == |s.threads|
            && (forall j :: 0 <= j < |s.threads| && j != t ==> n.threads[j] == s.threads[j])
            && n.threads[t] == match style
                               case Reuse => Expecting(s.threads[t].req, s.cell, Some(|s.log|))
                               case Reload => Ready(s.threads[t].req)
  {
    assert [Cas(t)][1..] == [];
  }

  /** A whole call without company, whatever its first read returned: it commits once, and returns. */
  lemma CallAloneReturns(style: Style, s: State, t: nat, observed: Word)
    requires t < |s.threads| && s.threads[t].Ready?
    ensures var n := Run(style, s, [Read(t, observed)] + [Cas(t), Read(t, s.cell), Cas(t)]);
            && |n.threads| == |s.threads|
            && n.threads[t] == Returned(s.threads[t].req, s.cell)
            && n.cell == Desired(s.threads[t].req, s.cell)
  {
    RunInTwo(style, s, [Read(t, observed)], [Cas(t), Read(t, s.cell), Cas(t)]);
    ReadLands(style, s, t, observed);
    LogOnlyGrows(style, s, [Read(t, observed)]);
    AloneItReturns(style, Run(style, s, [Read(t, observed)]), t);
  }
}
