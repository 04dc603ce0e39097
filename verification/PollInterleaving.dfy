/** Polling as a transition system: any number of threads, one atomic operation per step, in any
    order. Page readings and weak-exchange failures are chosen freely at each step. The growth
    limit and the cached foreground minimum do not change during a run. */
module PollInterleaving {
  import opened Machine
  import Trigger

  /** The next atomic operation of a thread, with the values it has loaded so far. */
  datatype Pc =
    | Idle
    | LoadTarget
    | ReadReserved(base: Usize)
    | LoadPending(base: Usize, reserved: Usize)
    | Compare(base: Usize, desired: Usize, loaded: Usize)
    | Exchange(base: Usize, desired: Usize, loaded: Usize)
    | Withdraw(loaded: Usize)
    | SwitchLoad
    | SwitchGuard(seen: Usize)
    | SwitchExchange(seen: Usize, retried: bool)

  /** How a poll ended: the pages fit under the target, or passed the growth limit and a collection is
      asked for, or were added into the target. */
  datatype Answer = Declined | Asked | Raised

  /** A thread, with counters of the polls and switches it began, the atomic operations it executed,
      and the exchanges that failed because the target had moved (`failures`) or for no reason
      (`spurious`), and the answers of its polls that have ended. */
  datatype Thread = Thread(pc: Pc, calls: nat, steps: nat, failures: nat, spurious: nat, answers: seq<Answer>)

  /** The shared atomics, with totals of the pages registered, of the pages added into the target
      by successful exchanges, and of those exchanges. */
  datatype Shared = Shared(
    target: Usize,
    pending: Usize,
    growthLimit: Usize,
    minForeground: Usize,
    registered: nat,
    absorbed: nat,
    raises: nat)

  datatype State = State(shared: Shared, threads: seq<Thread>)

  datatype Action = BeginPoll | BeginSwitch | Proceed(reserved: Usize, spurious: bool)

  datatype Label = Register(pages: Usize) | Act(i: nat, action: Action)

  datatype Local = Local(shared: Shared, thread: Thread)

  /** One atomic operation of one thread. */
  function Advance(sh: Shared, t: Thread, reserved: Usize, spurious: bool): Local
    requires !t.pc.Idle?
  {
    var t := t.(steps := t.steps + 1);
    match t.pc
    case LoadTarget => Local(sh, t.(pc := ReadReserved(sh.target)))
    case ReadReserved(base) => Local(sh, t.(pc := LoadPending(base, reserved)))
    case LoadPending(base, r) => Local(sh, t.(pc := Compare(base, WrapAdd(r, sh.pending), sh.pending)))
    case Compare(base, desired, loaded) =>
      if desired <= base then Local(sh, t.(pc := Idle, answers := t.answers + [Declined]))
      else if desired > sh.growthLimit then Local(sh, t.(pc := Idle, answers := t.answers + [Asked]))
      else Local(sh, t.(pc := Exchange(base, desired, loaded)))
    case Exchange(base, desired, loaded) =>
      if sh.target != base then
        Local(sh, t.(pc := LoadTarget, failures := t.failures + 1))
      else if spurious then
        Local(sh, t.(pc := LoadTarget, spurious := t.spurious + 1))
      else
        Local(sh.(target := desired, absorbed := sh.absorbed + loaded, raises := sh.raises + 1),
              t.(pc := Withdraw(loaded)))
    case Withdraw(loaded) =>
      Local(sh.(pending := WrapSub(sh.pending, loaded)), t.(pc := Idle, answers := t.answers + [Raised]))
    case SwitchLoad => Local(sh, t.(pc := SwitchGuard(sh.target)))
    case SwitchGuard(seen) =>
      Local(sh, t.(pc := if seen < sh.minForeground then SwitchExchange(seen, false) else Idle))
    case SwitchExchange(seen, _) =>
      if sh.target == seen then Local(sh.(target := sh.minForeground), t.(pc := Idle))
      else Local(sh, t.(pc := SwitchExchange(sh.target, true), failures := t.failures + 1))
  }

  predicate Enabled(s: State, l: Label) {
    l.Act? ==> l.i < |s.threads| && (s.threads[l.i].pc.Idle? <==> !l.action.Proceed?)
  }

  function Take(sh: Shared, t: Thread, action: Action): Local
    requires t.pc.Idle? <==> !action.Proceed?
  {
    match action
    case BeginPoll => Local(sh, t.(pc := LoadTarget, calls := t.calls + 1))
    case BeginSwitch => Local(sh, t.(pc := SwitchLoad, calls := t.calls + 1))
    case Proceed(reserved, spurious) => Advance(sh, t, reserved, spurious)
  }

  function Next(s: State, l: Label): State
    requires Enabled(s, l)
  {
    match l
    case Register(pages) =>
      s.(shared := s.shared.(pending := WrapAdd(s.shared.pending, pages),
                             registered := s.shared.registered + pages))
    case Act(i, action) =>
      var local := Take(s.shared, s.threads[i], action);
      State(local.shared, s.threads[i := local.thread])
  }

  predicate Feasible(s: State, run: seq<Label>)
    decreases |run|
  {
    run != [] ==> Enabled(s, run[0]) && Feasible(Next(s, run[0]), run[1..])
  }

  function Execute(s: State, run: seq<Label>): State
    requires Feasible(s, run)
    decreases |run|
  {
    if run == [] then s else Execute(Next(s, run[0]), run[1..])
  }

  /** No thread has done anything yet, and every registered page is still pending. */
  predicate Fresh(s: State) {
    && (forall i :: 0 <= i < |s.threads| ==> s.threads[i] == Thread(Idle, 0, 0, 0, 0, []))
    && s.shared.registered == s.shared.pending
    && s.shared.absorbed == 0
    && s.shared.raises == 0
  }

  // ---------------------------------------------------------------- Progress of polling

  predicate Polling(pc: Pc) {
    pc.LoadTarget? || pc.ReadReserved? || pc.LoadPending? || pc.Compare? || pc.Exchange? || pc.Withdraw?
  }

  predicate HoldsTarget(pc: Pc) {
    pc.ReadReserved? || pc.LoadPending? || pc.Compare? || pc.Exchange?
  }

  /** Atomic operations left in the current call if its next exchange succeeds. */
  function OperationsLeft(pc: Pc): nat {
    match pc
    case LoadTarget => 6
    case ReadReserved(_) => 5
    case LoadPending(_, _) => 4
    case Compare(_, _, _) => 3
    case Exchange(_, _, _) => 2
    case Withdraw(_) => 1
    case SwitchLoad => 3
    case SwitchGuard(_) => 2
    case SwitchExchange(_, _) => 1
    case Idle => 0
  }

  /** The highest the target can get from `start` by polling. */
  function Ceiling(start: Usize, growthLimit: Usize): Usize {
    Max(start, growthLimit)
  }

  predicate ThreadProgress(start: Usize, sh: Shared, t: Thread) {
    && (t.pc.Idle? || Polling(t.pc))
    && (HoldsTarget(t.pc) ==> start + t.failures <= t.pc.base <= sh.target)
    && start + t.failures <= sh.target
    && (t.pc.Exchange? ==> t.pc.base < t.pc.desired <= sh.growthLimit)
    && t.steps + OperationsLeft(t.pc) <= 6 * (t.calls + t.failures + t.spurious)
  }

  predicate Progress(start: Usize, s: State) {
    && start + s.shared.raises <= s.shared.target <= Ceiling(start, s.shared.growthLimit)
    && forall i :: 0 <= i < |s.threads| ==> ThreadProgress(start, s.shared, s.threads[i])
  }

  predicate OnlyPolls(run: seq<Label>) {
    forall k :: 0 <= k < |run| ==> !(run[k].Act? && run[k].action.BeginSwitch?)
  }

  /** The step is a weak exchange that succeeds. */
  predicate Raises(s: State, l: Label)
    requires Enabled(s, l)
  {
    l.Act? && l.action.Proceed? && !l.action.spurious
    && var pc := s.threads[l.i].pc; pc.Exchange? && pc.base == s.shared.target
  }

  lemma ThreadStepProgress(start: Usize, sh: Shared, t: Thread, action: Action)
    requires ThreadProgress(start, sh, t)
    requires start + sh.raises <= sh.target <= Ceiling(start, sh.growthLimit)
    requires t.pc.Idle? <==> !action.Proceed?
    requires !action.BeginSwitch?
    ensures var local := Take(sh, t, action);
            && ThreadProgress(start, local.shared, local.thread)
            && local.shared.growthLimit == sh.growthLimit
            && start + local.shared.raises <= local.shared.target <= Ceiling(start, sh.growthLimit)
            && sh.target <= local.shared.target
  {
  }

  /** One step keeps `Progress`, never lowers the target, and raises it exactly when it is a
      successful exchange. */
  lemma StepProgress(start: Usize, s: State, l: Label)
    requires Progress(start, s)
    requires Enabled(s, l)
    requires !(l.Act? && l.action.BeginSwitch?)
    ensures Progress(start, Next(s, l))
    ensures Next(s, l).shared.growthLimit == s.shared.growthLimit
    ensures s.shared.target <= Next(s, l).shared.target
    ensures s.shared.target < Next(s, l).shared.target <==> Raises(s, l)
  {
    if l.Act? {
      assert ThreadProgress(start, s.shared, s.threads[l.i]);
      ThreadStepProgress(start, s.shared, s.threads[l.i], l.action);
    }
  }

  lemma {:induction false} RunProgress(start: Usize, s: State, run: seq<Label>)
    requires Progress(start, s)
    requires Feasible(s, run)
    requires OnlyPolls(run)
    ensures Progress(start, Execute(s, run))
    ensures Execute(s, run).shared.growthLimit == s.shared.growthLimit
    ensures s.shared.target <= Execute(s, run).shared.target
    decreases |run|
  {
    if run != [] {
      assert !(run[0].Act? && run[0].action.BeginSwitch?);
      StepProgress(start, s, run[0]);
      RunProgress(start, Next(s, run[0]), run[1..]);
    }
  }

  lemma {:induction false} RunSplits(s: State, before: seq<Label>, after: seq<Label>)
    requires Feasible(s, before + after)
    ensures Feasible(s, before)
    ensures Feasible(Execute(s, before), after)
    ensures Execute(s, before + after) == Execute(Execute(s, before), after)
    decreases |before|
  {
    if before == [] {
      assert before + after == after;
    } else {
      assert (before + after)[0] == before[0];
      assert (before + after)[1..] == before[1..] + after;
      RunSplits(Next(s, before[0]), before[1..], after);
    }
  }

  /** Between any two points of any run of pollers the target does not fall, it never passes the
      growth limit (or its own start, if that was higher), and the exchanges that succeed are no
      more than the pages it rose by. */
  lemma TargetRisesWithinLimit(s: State, before: seq<Label>, after: seq<Label>)
    requires Fresh(s)
    requires Feasible(s, before + after)
    requires OnlyPolls(before + after)
    ensures Feasible(s, before)
    ensures var start, mid, end := s.shared, Execute(s, before).shared, Execute(s, before + after).shared;
            && start.target <= mid.target <= end.target <= Ceiling(start.target, start.growthLimit)
            && end.raises <= end.target - start.target
  {
    assert forall k :: 0 <= k < |before| ==> before[k] == (before + after)[k];
    assert forall k :: 0 <= k < |after| ==> after[k] == (before + after)[|before| + k];
    RunSplits(s, before, after);
    RunProgress(s.shared.target, s, before);
    RunProgress(s.shared.target, Execute(s, before), after);
  }

  /** The polls of thread `i` that the run begins. */
  function PollsBegun(run: seq<Label>, i: nat): nat {
    if run == [] then 0 else (if run[0] == Act(i, BeginPoll) then 1 else 0) + PollsBegun(run[1..], i)
  }

  /** Polls of a thread that have ended with an answer or are still in flight. */
  function PollsKnown(t: Thread): nat {
    |t.answers| + if Polling(t.pc) then 1 else 0
  }

  /** No poll gives up: over every run, each poll a thread began has been answered or is in flight. */
  lemma {:induction false} EveryPollIsAnswered(s: State, run: seq<Label>, i: nat)
    requires Feasible(s, run)
    requires i < |s.threads|
    ensures |Execute(s, run).threads| == |s.threads|
    ensures PollsKnown(Execute(s, run).threads[i]) == PollsKnown(s.threads[i]) + PollsBegun(run, i)
    decreases |run|
  {
    if run != [] {
      EveryPollIsAnswered(Next(s, run[0]), run[1..], i);
    }
  }

  /** Every thread finishes its polls in a bounded number of its own steps, whatever the others
      do: over a whole run its exchanges fail because the target moved at most once per page of
      room under the ceiling, each attempt takes at most six operations, and all its polls but the
      one in flight have been answered. */
  lemma PollersAreWaitFree(s: State, run: seq<Label>, i: nat)
    requires Fresh(s)
    requires Feasible(s, run)
    requires OnlyPolls(run)
    requires i < |s.threads|
    ensures |Execute(s, run).threads| == |s.threads|
    ensures var t := Execute(s, run).threads[i];
            var room := Ceiling(s.shared.target, s.shared.growthLimit) - s.shared.target;
            && t.failures <= room
            && t.steps <= 6 * (t.calls + t.spurious + room)
            && t.calls == PollsBegun(run, i) == |t.answers| + if t.pc.Idle? then 0 else 1
  {
    EveryPollIsAnswered(s, run, i);
    CallsOfPollers(s, run, i);
    ThreadCountIsFixed(s, run);
    RunProgress(s.shared.target, s, run);
    assert ThreadProgress(s.shared.target, Execute(s, run).shared, Execute(s, run).threads[i]);
  }

  lemma {:induction false} CallsOfPollers(s: State, run: seq<Label>, i: nat)
    requires Feasible(s, run)
    requires OnlyPolls(run)
    requires i < |s.threads|
    ensures |Execute(s, run).threads| == |s.threads|
    ensures Execute(s, run).threads[i].calls == s.threads[i].calls + PollsBegun(run, i)
    decreases |run|
  {
    if run != [] {
      assert !(run[0].Act? && run[0].action.BeginSwitch?);
      CallsOfPollers(Next(s, run[0]), run[1..], i);
    }
  }

  lemma {:induction false} ThreadCountIsFixed(s: State, run: seq<Label>)
    requires Feasible(s, run)
    ensures |Execute(s, run).threads| == |s.threads|
    decreases |run|
  {
    if run != [] {
      ThreadCountIsFixed(Next(s, run[0]), run[1..]);
    }
  }

  // ---------------------------------------------------------------- The foreground switch

  /** What threads remember stays true while switches and polls mix. */
  predicate ThreadSane(sh: Shared, t: Thread) {
    && (t.pc.Exchange? ==> t.pc.base < t.pc.desired <= sh.growthLimit)
    && (t.pc.SwitchExchange? && !t.pc.retried ==> t.pc.seen < sh.minForeground)
  }

  predicate Sane(s: State) {
    forall i :: 0 <= i < |s.threads| ==> ThreadSane(s.shared, s.threads[i])
  }

  lemma StepStaysSane(s: State, l: Label)
    requires Sane(s)
    requires Enabled(s, l)
    ensures Sane(Next(s, l))
  {
    if l.Act? {
      assert ThreadSane(s.shared, s.threads[l.i]);
    }
  }

  lemma {:induction false} RunsStaySane(s: State, run: seq<Label>)
    requires Sane(s)
    requires Feasible(s, run)
    ensures Sane(Execute(s, run))
    decreases |run|
  {
    if run != [] {
      StepStaysSane(s, run[0]);
      RunsStaySane(Next(s, run[0]), run[1..]);
    }
  }

  /** The highest the target can get by polls and switches. */
  function SwitchCeiling(start: Usize, sh: Shared): Usize {
    Max(Ceiling(start, sh.growthLimit), sh.minForeground)
  }

  /** Whatever polls and switches do, the target stays at or below its start, the growth limit or
      the cached foreground minimum. */
  lemma {:induction false} TargetStaysBelowCeiling(start: Usize, s: State, run: seq<Label>)
    requires Sane(s)
    requires s.shared.target <= SwitchCeiling(start, s.shared)
    requires Feasible(s, run)
    ensures SwitchCeiling(start, Execute(s, run).shared) == SwitchCeiling(start, s.shared)
    ensures Execute(s, run).shared.target <= SwitchCeiling(start, s.shared)
    decreases |run|
  {
    if run != [] {
      var l := run[0];
      if l.Act? {
        assert ThreadSane(s.shared, s.threads[l.i]);
      }
      StepStaysSane(s, l);
      TargetStaysBelowCeiling(start, Next(s, l), run[1..]);
    }
  }

  /** The step is a switch that replaces a target larger than the cached foreground minimum. */
  predicate LowersBySwitch(s: State, l: Label)
    requires Enabled(s, l)
  {
    l.Act? && l.action.Proceed?
    && var pc := s.threads[l.i].pc;
    pc.SwitchExchange? && pc.seen == s.shared.target && pc.seen > s.shared.minForeground
  }

  /** After any run of pollers and switches, the next step lowers the target exactly when it is a
      switch whose exchange already failed once and then read a target above the minimum: the loop
      does not test its guard again. */
  lemma TargetFallsExactly(s: State, run: seq<Label>, l: Label)
    requires Fresh(s)
    requires Feasible(s, run)
    requires Enabled(Execute(s, run), l)
    ensures var now := Execute(s, run);
            && (Next(now, l).shared.target < now.shared.target <==> LowersBySwitch(now, l))
            && (LowersBySwitch(now, l) ==> now.threads[l.i].pc.retried)
  {
    RunsStaySane(s, run);
    var now := Execute(s, run);
    if l.Act? {
      assert ThreadSane(now.shared, now.threads[l.i]);
    }
  }

  // ---------------------------------------------------------------- Progress of polls and switches

  /** The thread has read the target and it has changed since. */
  predicate Stale(pc: Pc, target: Usize) {
    if HoldsTarget(pc) then pc.base != target
    else (pc.SwitchGuard? || pc.SwitchExchange?) && pc.seen != target
  }

  function Moves(s: State, l: Label): nat
    requires Enabled(s, l)
  {
    if Next(s, l).shared.target != s.shared.target then 1 else 0
  }

  /** The number of steps of a run that change the target. */
  function TargetMoves(s: State, run: seq<Label>): nat
    requires Feasible(s, run)
    decreases |run|
  {
    if run == [] then 0 else Moves(s, run[0]) + TargetMoves(Next(s, run[0]), run[1..])
  }

  /** Every failed exchange is paid for by a move of the target, and every other operation by a call
      begun or a failed exchange. */
  predicate ThreadPays(moves: nat, target: Usize, t: Thread) {
    && t.failures + (if Stale(t.pc, target) then 1 else 0) <= moves
    && t.steps + OperationsLeft(t.pc) <= 6 * (t.calls + t.failures + t.spurious)
  }

  /** Calls of the thread that will not exchange any more. */
  function Settled(t: Thread): int {
    t.calls - (if t.pc.Idle? || t.pc.Withdraw? then 0 else 1)
  }

  function AllSettled(threads: seq<Thread>): int {
    if threads == [] then 0 else Settled(threads[0]) + AllSettled(threads[1..])
  }

  function CallsBegun(threads: seq<Thread>): nat {
    if threads == [] then 0 else threads[0].calls + CallsBegun(threads[1..])
  }

  lemma {:induction false} AllSettledUpdate(threads: seq<Thread>, i: nat, t: Thread)
    requires i < |threads|
    ensures AllSettled(threads[i := t]) == AllSettled(threads) - Settled(threads[i]) + Settled(t)
  {
    if i > 0 {
      assert threads[i := t][1..] == threads[1..][i - 1 := t];
      AllSettledUpdate(threads[1..], i - 1, t);
    } else {
      assert threads[i := t][1..] == threads[1..];
    }
  }

  lemma {:induction false} SettledWereBegun(threads: seq<Thread>)
    ensures AllSettled(threads) <= CallsBegun(threads)
  {
    if threads != [] {
      SettledWereBegun(threads[1..]);
    }
  }

  predicate AllPay(moves: nat, s: State) {
    && moves <= AllSettled(s.threads)
    && forall i :: 0 <= i < |s.threads| ==> ThreadPays(moves, s.shared.target, s.threads[i])
  }

  lemma ThreadStepPays(moves: nat, sh: Shared, t: Thread, action: Action)
    requires t.pc.Idle? <==> !action.Proceed?
    requires ThreadPays(moves, sh.target, t)
    ensures var local := Take(sh, t, action);
            var moved := if local.shared.target != sh.target then 1 else 0;
            && ThreadPays(moves + moved, local.shared.target, local.thread)
            && Settled(t) + moved <= Settled(local.thread)
  {
  }

  lemma StepPays(moves: nat, s: State, l: Label)
    requires Enabled(s, l)
    requires AllPay(moves, s)
    ensures AllPay(moves + Moves(s, l), Next(s, l))
  {
    if l.Act? {
      var local := Take(s.shared, s.threads[l.i], l.action);
      assert ThreadPays(moves, s.shared.target, s.threads[l.i]);
      ThreadStepPays(moves, s.shared, s.threads[l.i], l.action);
      AllSettledUpdate(s.threads, l.i, local.thread);
    }
  }

  lemma {:induction false} RunPays(moves: nat, s: State, run: seq<Label>)
    requires Feasible(s, run)
    requires AllPay(moves, s)
    ensures AllPay(moves + TargetMoves(s, run), Execute(s, run))
    decreases |run|
  {
    if run != [] {
      StepPays(moves, s, run[0]);
      RunPays(moves + Moves(s, run[0]), Next(s, run[0]), run[1..]);
    }
  }

  lemma {:induction false} NothingSettled(threads: seq<Thread>)
    requires forall i :: 0 <= i < |threads| ==> Settled(threads[i]) == 0
    ensures AllSettled(threads) == 0
  {
    if threads != [] {
      assert forall i :: 0 <= i < |threads| - 1 ==> threads[1..][i] == threads[i + 1];
      NothingSettled(threads[1..]);
    }
  }

  /** Polls and switches in any mixture are lock-free: a thread's exchanges fail, other than
      spuriously, at most once for every step that changed the target, of which there are no more
      than calls begun by all threads; and its own operations are at most six per call, spurious
      failure and change of the target. */
  lemma CallsAreLockFree(s: State, run: seq<Label>, i: nat)
    requires Fresh(s)
    requires Feasible(s, run)
    requires i < |s.threads|
    ensures |Execute(s, run).threads| == |s.threads|
    ensures var end := Execute(s, run);
            var t := end.threads[i];
            && t.failures <= TargetMoves(s, run) <= CallsBegun(end.threads)
            && t.steps <= 6 * (t.calls + t.spurious + TargetMoves(s, run))
  {
    NothingSettled(s.threads);
    ThreadCountIsFixed(s, run);
    RunPays(0, s, run);
    SettledWereBegun(Execute(s, run).threads);
    assert ThreadPays(TargetMoves(s, run), Execute(s, run).shared.target, Execute(s, run).threads[i]);
  }

  // ---------------------------------------------------------------- Where registered pages go

  function Claimed(t: Thread): nat {
    if t.pc.Withdraw? then t.pc.loaded else 0
  }

  /** Pages already added into the target but not yet withdrawn from the pending counter. */
  function Outstanding(threads: seq<Thread>): nat {
    if threads == [] then 0 else Claimed(threads[0]) + Outstanding(threads[1..])
  }

  lemma {:induction false} OutstandingUpdate(threads: seq<Thread>, i: nat, t: Thread)
    requires i < |threads|
    ensures Outstanding(threads[i := t]) == Outstanding(threads) - Claimed(threads[i]) + Claimed(t)
  {
    if i > 0 {
      assert threads[i := t][1..] == threads[1..][i - 1 := t];
      OutstandingUpdate(threads[1..], i - 1, t);
    } else {
      assert threads[i := t][1..] == threads[1..];
    }
  }

  lemma {:induction false} NothingOutstanding(threads: seq<Thread>)
    requires forall i :: 0 <= i < |threads| ==> Claimed(threads[i]) == 0
    ensures Outstanding(threads) == 0
  {
    if threads != [] {
      assert forall i :: 0 <= i < |threads| - 1 ==> threads[1..][i] == threads[i + 1];
      NothingOutstanding(threads[1..]);
    }
  }

  /** Pages registered and not yet claimed, counted without wrap-around. */
  function Balance(s: State): int {
    s.shared.registered - s.shared.absorbed + Outstanding(s.threads)
  }

  lemma WrapAddIsModular(x: int, b: Usize)
    ensures WrapAdd(x % USIZE_MODULUS, b) == (x + b) % USIZE_MODULUS
  {
  }

  lemma WrapSubIsModular(x: int, b: Usize)
    ensures WrapSub(x % USIZE_MODULUS, b) == (x - b) % USIZE_MODULUS
  {
  }

  lemma StepBalance(s: State, l: Label)
    requires Enabled(s, l)
    requires s.shared.pending == Balance(s) % USIZE_MODULUS
    ensures Next(s, l).shared.pending == Balance(Next(s, l)) % USIZE_MODULUS
  {
    match l
    case Register(pages) =>
      WrapAddIsModular(Balance(s), pages);
    case Act(i, action) =>
      var t := s.threads[i];
      OutstandingUpdate(s.threads, i, Take(s.shared, t, action).thread);
      if t.pc.Withdraw? {
        WrapSubIsModular(Balance(s), t.pc.loaded);
      }
  }

  /** For any number of pollers, the pending counter is always the registered pages less the
      absorbed ones, plus those still to be withdrawn, modulo the counter's width. */
  lemma {:induction false} PendingCountsBalance(s: State, run: seq<Label>)
    requires Feasible(s, run)
    requires s.shared.pending == Balance(s) % USIZE_MODULUS
    ensures var end := Execute(s, run); end.shared.pending == Balance(end) % USIZE_MODULUS
    decreases |run|
  {
    if run != [] {
      StepBalance(s, run[0]);
      PendingCountsBalance(Next(s, run[0]), run[1..]);
    }
  }

  // ---------------------------------------------------------------- When pages are absorbed twice

  /** What stood when a thread last loaded the pending counter. */
  datatype Note = Note(outstanding: nat, registered: nat, absorbed: nat)

  function NoteDown(s: State, notes: seq<Note>, l: Label): seq<Note>
    requires Enabled(s, l)
    requires |notes| == |s.threads|
  {
    if l.Act? && s.threads[l.i].pc.LoadPending?
    then notes[l.i := Note(Outstanding(s.threads), s.shared.registered, s.shared.absorbed)]
    else notes
  }

  function NoNotes(n: nat): (notes: seq<Note>)
    ensures |notes| == n
  {
    seq(n, _ => Note(0, 0, 0))
  }

  /** If the step is a successful exchange, enough pages were registered since its thread's load to
      cover those that others have absorbed since, and those they had then absorbed and not yet
      withdrawn. */
  predicate ExchangeIsCovered(s: State, notes: seq<Note>, l: Label)
    requires Enabled(s, l)
    requires |notes| == |s.threads|
  {
    Raises(s, l) ==>
      var note := notes[l.i];
      note.outstanding + (s.shared.absorbed - note.absorbed) <= s.shared.registered - note.registered
  }

  predicate ExchangesAreCovered(s: State, notes: seq<Note>, run: seq<Label>)
    requires Feasible(s, run)
    requires |notes| == |s.threads|
    decreases |run|
  {
    run != [] ==>
      && ExchangeIsCovered(s, notes, run[0])
      && ExchangesAreCovered(Next(s, run[0]), NoteDown(s, notes, run[0]), run[1..])
  }

  /** At no point of the run have more pages been absorbed than registered. */
  predicate NeverAbsorbsTwice(s: State, run: seq<Label>)
    requires Feasible(s, run)
    decreases |run|
  {
    && s.shared.absorbed <= s.shared.registered
    && (run != [] ==> NeverAbsorbsTwice(Next(s, run[0]), run[1..]))
  }

  /** No registration of the run overflows the counter. */
  predicate RegistrationsFit(s: State, run: seq<Label>)
    requires Feasible(s, run)
    decreases |run|
  {
    run != [] ==>
      && (run[0].Register? ==> s.shared.pending + run[0].pages < USIZE_MODULUS)
      && RegistrationsFit(Next(s, run[0]), run[1..])
  }

  /** Each note explains what its thread loaded. */
  predicate NotesHold(s: State, notes: seq<Note>) {
    && |notes| == |s.threads|
    && forall i :: 0 <= i < |notes| ==>
         (s.threads[i].pc.Compare? || s.threads[i].pc.Exchange? ==>
            s.threads[i].pc.loaded == notes[i].registered - notes[i].absorbed + notes[i].outstanding)
  }

  /** The counter holds the true balance. */
  predicate CounterIsExact(s: State) {
    s.shared.pending == Balance(s) && Outstanding(s.threads) <= s.shared.absorbed
  }

  lemma StepKeepsNotes(s: State, notes: seq<Note>, l: Label)
    requires NotesHold(s, notes)
    requires CounterIsExact(s)
    requires Enabled(s, l)
    ensures NotesHold(Next(s, l), NoteDown(s, notes, l))
  {
  }

  /** While no more is absorbed than registered, the counter stays exact. */
  lemma StepKeepsCounterExact(s: State, l: Label)
    requires Enabled(s, l)
    requires CounterIsExact(s)
    requires l.Register? ==> s.shared.pending + l.pages < USIZE_MODULUS
    requires Next(s, l).shared.absorbed <= Next(s, l).shared.registered
    ensures CounterIsExact(Next(s, l))
  {
    if l.Act? {
      var t := s.threads[l.i];
      var after := Take(s.shared, t, l.action).thread;
      OutstandingUpdate(s.threads, l.i, after);
      OutstandingUpdate(s.threads, l.i, t.(pc := Idle));
    }
  }

  /** One step brings the pages absorbed above those registered exactly when it is a successful
      exchange that is not covered. */
  lemma StepRepeatsPagesExactly(s: State, notes: seq<Note>, l: Label)
    requires NotesHold(s, notes)
    requires Enabled(s, l)
    requires s.shared.absorbed <= s.shared.registered
    ensures Next(s, l).shared.absorbed > Next(s, l).shared.registered <==> !ExchangeIsCovered(s, notes, l)
  {
  }

  lemma {:induction false} CoveredExchangesAbsorbOnce(s: State, notes: seq<Note>, run: seq<Label>)
    requires NotesHold(s, notes)
    requires CounterIsExact(s)
    requires s.shared.absorbed <= s.shared.registered
    requires Feasible(s, run) && RegistrationsFit(s, run)
    ensures NeverAbsorbsTwice(s, run) <==> ExchangesAreCovered(s, notes, run)
    decreases |run|
  {
    if run != [] {
      var l, next := run[0], Next(s, run[0]);
      StepRepeatsPagesExactly(s, notes, l);
      if next.shared.absorbed <= next.shared.registered {
        StepKeepsNotes(s, notes, l);
        StepKeepsCounterExact(s, l);
        CoveredExchangesAbsorbOnce(next, NoteDown(s, notes, l), run[1..]);
      }
    }
  }

  /** Over every run of polls, switches and registrations: no more pages are ever absorbed than
      registered, if and only if every successful exchange is covered, that is, the pages registered
      between its load of the counter and the exchange are no fewer than those that others absorbed
      in that time together with those they had absorbed and not withdrawn when it loaded. */
  lemma PagesAreAbsorbedOnceExactly(s: State, run: seq<Label>)
    requires Fresh(s)
    requires Feasible(s, run) && RegistrationsFit(s, run)
    ensures NeverAbsorbsTwice(s, run) <==> ExchangesAreCovered(s, NoNotes(|s.threads|), run)
  {
    NothingOutstanding(s.threads);
    CoveredExchangesAbsorbOnce(s, NoNotes(|s.threads|), run);
  }

  function NotesAfter(s: State, notes: seq<Note>, run: seq<Label>): (after: seq<Note>)
    requires Feasible(s, run)
    requires |notes| == |s.threads|
    ensures |after| == |notes|
    decreases |run|
  {
    if run == [] then notes else NotesAfter(Next(s, run[0]), NoteDown(s, notes, run[0]), run[1..])
  }

  lemma {:induction false} RunKeepsNotes(s: State, notes: seq<Note>, run: seq<Label>)
    requires NotesHold(s, notes)
    requires CounterIsExact(s)
    requires Feasible(s, run) && RegistrationsFit(s, run) && NeverAbsorbsTwice(s, run)
    ensures NotesHold(Execute(s, run), NotesAfter(s, notes, run))
    ensures CounterIsExact(Execute(s, run))
    ensures Execute(s, run).shared.absorbed <= Execute(s, run).shared.registered
    decreases |run|
  {
    if run != [] {
      StepKeepsNotes(s, notes, run[0]);
      StepKeepsCounterExact(s, run[0]);
      RunKeepsNotes(Next(s, run[0]), NoteDown(s, notes, run[0]), run[1..]);
    }
  }

  /** After any run in which no page was absorbed twice, the pending counter is exact, and the next
      step absorbs pages twice exactly when it is a successful exchange that is not covered by the
      registrations since its thread's load. */
  lemma ExchangeRepeatsPagesExactly(s: State, run: seq<Label>, l: Label)
    requires Fresh(s)
    requires Feasible(s, run) && RegistrationsFit(s, run) && NeverAbsorbsTwice(s, run)
    requires Enabled(Execute(s, run), l)
    ensures var now := Execute(s, run);
            && now.shared.pending == Balance(now)
            && |NotesAfter(s, NoNotes(|s.threads|), run)| == |now.threads|
            && (Next(now, l).shared.absorbed > Next(now, l).shared.registered
                <==> !ExchangeIsCovered(now, NotesAfter(s, NoNotes(|s.threads|), run), l))
  {
    NothingOutstanding(s.threads);
    RunKeepsNotes(s, NoNotes(|s.threads|), run);
    StepRepeatsPagesExactly(Execute(s, run), NotesAfter(s, NoNotes(|s.threads|), run), l);
  }

  // ---------------------------------------------------------------- While the target does not fall

  /** No step of the run lowers the target. */
  predicate NeverLowers(s: State, run: seq<Label>)
    requires Feasible(s, run)
    decreases |run|
  {
    run != [] ==>
      && s.shared.target <= Next(s, run[0]).shared.target
      && NeverLowers(Next(s, run[0]), run[1..])
  }

  lemma {:induction false} PollersNeverLower(start: Usize, s: State, run: seq<Label>)
    requires Progress(start, s)
    requires Feasible(s, run) && OnlyPolls(run)
    ensures NeverLowers(s, run)
    decreases |run|
  {
    if run != [] {
      assert !(run[0].Act? && run[0].action.BeginSwitch?);
      StepProgress(start, s, run[0]);
      PollersNeverLower(start, Next(s, run[0]), run[1..]);
    }
  }

  /** Every successful exchange finds that the pages others had absorbed and not withdrawn at its load
      are no more than those registered since. */
  predicate OutstandingIsCovered(s: State, notes: seq<Note>, run: seq<Label>)
    requires Feasible(s, run)
    requires |notes| == |s.threads|
    decreases |run|
  {
    run != [] ==>
      && (Raises(s, run[0]) ==>
            notes[run[0].i].outstanding <= s.shared.registered - notes[run[0].i].registered)
      && OutstandingIsCovered(Next(s, run[0]), NoteDown(s, notes, run[0]), run[1..])
  }

  /** Nothing has been absorbed since a note was taken if the target is still what its thread read. */
  predicate NoteIsCurrent(sh: Shared, t: Thread, note: Note) {
    && (HoldsTarget(t.pc) ==> t.pc.base <= sh.target)
    && (t.pc.Compare? || t.pc.Exchange? ==> t.pc.base == sh.target ==> note.absorbed == sh.absorbed)
  }

  predicate NotesAreCurrent(s: State, notes: seq<Note>) {
    |notes| == |s.threads| && forall i :: 0 <= i < |notes| ==> NoteIsCurrent(s.shared, s.threads[i], notes[i])
  }

  lemma StepKeepsNotesCurrent(s: State, notes: seq<Note>, l: Label)
    requires Sane(s)
    requires NotesAreCurrent(s, notes)
    requires Enabled(s, l)
    requires s.shared.target <= Next(s, l).shared.target
    ensures NotesAreCurrent(Next(s, l), NoteDown(s, notes, l))
  {
    if l.Act? {
      assert ThreadSane(s.shared, s.threads[l.i]);
    }
    var next, after := Next(s, l), NoteDown(s, notes, l);
    forall i | 0 <= i < |notes|
      ensures NoteIsCurrent(next.shared, next.threads[i], after[i])
    {
      assert NoteIsCurrent(s.shared, s.threads[i], notes[i]);
    }
  }

  lemma {:induction false} SteadyConditionsAgree(s: State, notes: seq<Note>, run: seq<Label>)
    requires Sane(s)
    requires NotesAreCurrent(s, notes)
    requires Feasible(s, run) && NeverLowers(s, run)
    ensures ExchangesAreCovered(s, notes, run) <==> OutstandingIsCovered(s, notes, run)
    decreases |run|
  {
    if run != [] {
      if run[0].Act? {
        assert NoteIsCurrent(s.shared, s.threads[run[0].i], notes[run[0].i]);
      }
      StepStaysSane(s, run[0]);
      StepKeepsNotesCurrent(s, notes, run[0]);
      SteadyConditionsAgree(Next(s, run[0]), NoteDown(s, notes, run[0]), run[1..]);
    }
  }

  /** As long as no switch lowers the target, as in every run of pollers alone, an exchange can only
      succeed when nothing was absorbed since its load. Pages are then absorbed once exactly when the
      pages outstanding at each load are covered by those registered after it. */
  lemma SteadyTargetAbsorbsOnceExactly(s: State, run: seq<Label>)
    requires Fresh(s)
    requires Feasible(s, run) && RegistrationsFit(s, run)
    requires NeverLowers(s, run) || OnlyPolls(run)
    ensures NeverAbsorbsTwice(s, run) <==> OutstandingIsCovered(s, NoNotes(|s.threads|), run)
  {
    if OnlyPolls(run) {
      PollersNeverLower(s.shared.target, s, run);
    }
    PagesAreAbsorbedOnceExactly(s, run);
    SteadyConditionsAgree(s, NoNotes(|s.threads|), run);
  }

  // ---------------------------------------------------------------- One poll at a time

  /** A poll begins only when no other poll is in flight. */
  predicate OnePollAtATime(s: State, run: seq<Label>)
    requires Feasible(s, run)
    decreases |run|
  {
    run != [] ==>
      && (run[0].Act? && run[0].action.BeginPoll? ==> forall t <- s.threads :: !Polling(t.pc))
      && OnePollAtATime(Next(s, run[0]), run[1..])
  }

  function PagesRegistered(run: seq<Label>): nat {
    if run == [] then 0
    else (if run[0].Register? then run[0].pages else 0) + PagesRegistered(run[1..])
  }

  predicate HoldsPending(pc: Pc) {
    pc.Compare? || pc.Exchange? || pc.Withdraw?
  }

  /** At most one poll is in flight, what it loaded is still pending, and every registered page is
      pending or absorbed (or both, between the exchange and the withdrawal). */
  predicate Accounted(s: State) {
    && (forall i, j :: 0 <= i < |s.threads| && 0 <= j < |s.threads| ==>
          Polling(s.threads[i].pc) && Polling(s.threads[j].pc) ==> i == j)
    && (forall i :: 0 <= i < |s.threads| ==>
          HoldsPending(s.threads[i].pc) ==> s.threads[i].pc.loaded <= s.shared.pending)
    && s.shared.pending == Balance(s)
  }

  /** What one thread's step does to the pages in flight. */
  lemma ThreadStepAccounts(sh: Shared, t: Thread, action: Action)
    requires t.pc.Idle? <==> !action.Proceed?
    requires HoldsPending(t.pc) ==> t.pc.loaded <= sh.pending
    ensures var local := Take(sh, t, action);
            && (HoldsPending(local.thread.pc) ==> local.thread.pc.loaded <= local.shared.pending)
            && local.shared.registered == sh.registered
            && local.shared.pending + local.shared.absorbed - Claimed(local.thread)
               == sh.pending + sh.absorbed - Claimed(t)
            && Claimed(local.thread) - local.shared.absorbed <= Claimed(t) - sh.absorbed
            && (local.shared.pending != sh.pending ==> Polling(t.pc))
            && (Polling(local.thread.pc) ==> Polling(t.pc) || action.BeginPoll?)
  {
  }

  lemma StepAccounts(s: State, l: Label)
    requires Accounted(s)
    requires Enabled(s, l)
    requires l.Register? ==> s.shared.pending + l.pages < USIZE_MODULUS
    requires Outstanding(s.threads) <= s.shared.absorbed
    requires l.Act? && l.action.BeginPoll? ==> forall t <- s.threads :: !Polling(t.pc)
    ensures Accounted(Next(s, l))
    ensures Outstanding(Next(s, l).threads) <= Next(s, l).shared.absorbed
  {
    match l
    case Register(_) =>
    case Act(i, action) =>
      var t := s.threads[i];
      var local := Take(s.shared, t, action);
      ThreadStepAccounts(s.shared, t, action);
      OutstandingUpdate(s.threads, i, local.thread);
      ThreadUpdateAccounts(s, i, local);
  }

  lemma ThreadUpdateAccounts(s: State, i: nat, local: Local)
    requires Accounted(s)
    requires i < |s.threads|
    requires HoldsPending(local.thread.pc) ==> local.thread.pc.loaded <= local.shared.pending
    requires local.shared.pending != s.shared.pending ==> Polling(s.threads[i].pc)
    requires Polling(local.thread.pc) ==> Polling(s.threads[i].pc) || forall t <- s.threads :: !Polling(t.pc)
    requires var after := State(local.shared, s.threads[i := local.thread]); after.shared.pending == Balance(after)
    ensures Accounted(State(local.shared, s.threads[i := local.thread]))
  {
  }

  lemma {:induction false} RunAccounts(s: State, run: seq<Label>)
    requires Accounted(s)
    requires Outstanding(s.threads) <= s.shared.absorbed
    requires Feasible(s, run) && RegistrationsFit(s, run)
    requires OnePollAtATime(s, run)
    ensures Accounted(Execute(s, run))
    ensures Execute(s, run).shared.registered == s.shared.registered + PagesRegistered(run)
    decreases |run|
  {
    if run != [] {
      StepAccounts(s, run[0]);
      RunAccounts(Next(s, run[0]), run[1..]);
    }
  }

  /** With one poll in flight at a time, but registrations and switches landing between its atomic
      operations and any number of spurious failures, each registered page ends up either pending
      or absorbed, once, and the counter never wraps: it holds the true balance at every point. */
  lemma RegisteredPagesAreAbsorbedOnce(s: State, run: seq<Label>)
    requires Fresh(s)
    requires Feasible(s, run) && RegistrationsFit(s, run)
    requires OnePollAtATime(s, run)
    ensures var end := Execute(s, run);
            && end.shared.registered == s.shared.registered + PagesRegistered(run)
            && end.shared.registered + Outstanding(end.threads) == end.shared.pending + end.shared.absorbed
            && Outstanding(end.threads) <= end.shared.pending
            && end.shared.absorbed <= end.shared.registered
  {
    NothingOutstanding(s.threads);
    RunAccounts(s, run);
    ClaimFitsPending(Execute(s, run));
  }

  lemma {:induction false} ClaimFitsPending(s: State)
    requires Accounted(s)
    ensures Outstanding(s.threads) <= s.shared.pending
  {
    if i :| 0 <= i < |s.threads| && s.threads[i].pc.Withdraw? {
      var rest := s.threads[i := s.threads[i].(pc := Idle)];
      assert forall j :: 0 <= j < |rest| ==> Claimed(rest[j]) == 0;
      NothingOutstanding(rest);
      OutstandingUpdate(s.threads, i, rest[i]);
    } else {
      NothingOutstanding(s.threads);
    }
  }

  // ---------------------------------------------------------------- A run that goes wrong

  /** Target 10, limit 100, five pages pending, and two idle pollers. */
  function TwoPollers(): State {
    State(Shared(10, 5, 100, 0, 5, 0, 0), [Thread(Idle, 0, 0, 0, 0, []), Thread(Idle, 0, 0, 0, 0, [])])
  }

  /** What an undisturbed attempt that raises the target leaves behind. */
  function AfterAttempt(s: State, i: nat, reserved: Usize): State
    requires i < |s.threads|
  {
    var sh, t := s.shared, s.threads[i];
    State(sh.(target := WrapAdd(reserved, sh.pending), absorbed := sh.absorbed + sh.pending, raises := sh.raises + 1),
          s.threads[i := t.(pc := Withdraw(sh.pending), calls := t.calls + 1, steps := t.steps + 5)])
  }

  /** Two attempts that both raise the target, one after the other. */
  lemma AttemptsFollow(s: State, i: nat, first: Usize, j: nat, second: Usize)
    requires i < |s.threads| && j < |s.threads| && i != j
    requires s.threads[i].pc.Idle? && s.threads[j].pc.Idle?
    requires s.shared.target < WrapAdd(first, s.shared.pending) < WrapAdd(second, s.shared.pending)
    requires WrapAdd(second, s.shared.pending) <= s.shared.growthLimit
    ensures Leads(s, Attempt(i, first) + Attempt(j, second), AfterAttempt(AfterAttempt(s, i, first), j, second))
  {
    var one := AfterAttempt(s, i, first);
    AttemptRaises(s, i, first);
    AttemptRaises(one, j, second);
    LeadsOn(s, Attempt(i, first), one, Attempt(j, second), AfterAttempt(one, j, second));
  }

  /** The run of two polls in which both exchange before either withdraws. */
  lemma BothPollsClaim(s: State, end: State) returns (run: seq<Label>)
    requires s == TwoPollers()
    requires end == State(Shared(17, 5, 100, 0, 5, 10, 2),
                          [Thread(Withdraw(5), 1, 5, 0, 0, []), Thread(Withdraw(5), 1, 5, 0, 0, [])])
    ensures Leads(s, run, end)
  {
    run := Attempt(0, 10) + Attempt(1, 12);
    AttemptsFollow(s, 0, 10, 1, 12);
    assert AfterAttempt(AfterAttempt(s, 0, 10), 1, 12) == end;
  }

  lemma BothPollsWithdraw(s: State, run: seq<Label>, mid: State, end: State) returns (longer: seq<Label>)
    requires Leads(s, run, mid)
    requires mid.threads == [Thread(Withdraw(5), 1, 5, 0, 0, []), Thread(Withdraw(5), 1, 5, 0, 0, [])]
    requires mid.shared.pending == 5
    requires end == State(mid.shared.(pending := USIZE_MODULUS - 5),
                          [Thread(Idle, 1, 6, 0, 0, [Raised]), Thread(Idle, 1, 6, 0, 0, [Raised])])
    ensures Leads(s, longer, end)
  {
    var first, second := Act(0, Proceed(0, false)), Act(1, Proceed(0, false));
    assert [] + [Raised] == [Raised];
    LeadsStep(s, run, mid, first, Next(mid, first));
    LeadsStep(s, run + [first], Next(mid, first), second, end);
    longer := run + [first] + [second];
  }

  /** Two pollers absorb the same five pages: the second loads the pending counter before the
      first withdraws, and the two withdrawals wrap the counter. */
  lemma TwoPollersAbsorbTwice() returns (run: seq<Label>, end: State)
    ensures Fresh(TwoPollers())
    ensures Leads(TwoPollers(), run, end)
    ensures end.shared.absorbed == 10 > end.shared.registered == 5
    ensures end.shared.pending == USIZE_MODULUS - 5
    ensures forall t <- end.threads :: t.pc.Idle? && t.answers == [Raised]
  {
    var claimed := State(Shared(17, 5, 100, 0, 5, 10, 2),
                         [Thread(Withdraw(5), 1, 5, 0, 0, []), Thread(Withdraw(5), 1, 5, 0, 0, [])]);
    end := State(claimed.shared.(pending := USIZE_MODULUS - 5),
                 [Thread(Idle, 1, 6, 0, 0, [Raised]), Thread(Idle, 1, 6, 0, 0, [Raised])]);
    var s := TwoPollers();
    run := BothPollsClaim(s, claimed);
    run := BothPollsWithdraw(s, run, claimed, end);
  }

  /** A poll by thread `i` up to and including its exchange. */
  function Attempt(i: nat, reserved: Usize): seq<Label> {
    ToCompare(i, reserved) + [Act(i, Proceed(reserved, false))]
  }

  /** A poll by thread `i` up to the load of the pending counter. */
  function Prelude(i: nat, reserved: Usize): seq<Label> {
    [Act(i, BeginPoll)] + [Act(i, Proceed(reserved, false))] + [Act(i, Proceed(reserved, false))]
  }

  /** A poll by thread `i` up to its comparison, where it ends if it declines. */
  function ToCompare(i: nat, reserved: Usize): seq<Label> {
    Prelude(i, reserved) + [Act(i, Proceed(reserved, false))] + [Act(i, Proceed(reserved, false))]
  }

  lemma PreludeLoadsTarget(s: State, i: nat, reserved: Usize)
    requires i < |s.threads| && s.threads[i].pc.Idle?
    ensures Feasible(s, Prelude(i, reserved))
    ensures var t := s.threads[i];
            Execute(s, Prelude(i, reserved))
            == State(s.shared, s.threads[i := t.(pc := LoadPending(s.shared.target, reserved),
                                                 calls := t.calls + 1, steps := t.steps + 2)])
  {
    var go := Act(i, Proceed(reserved, false));
    var run := [Act(i, BeginPoll)];
    assert Feasible(s, []) && Execute(s, []) == s;
    Extend(s, [], run[0]);
    assert [] + run == run;
    Extend(s, run, go);
    Extend(s, run + [go], go);
  }

  /** An undisturbed poll reaches its comparison with the current target and pending pages. */
  lemma ReachesCompare(s: State, i: nat, reserved: Usize)
    requires i < |s.threads| && s.threads[i].pc.Idle?
    ensures Feasible(s, ToCompare(i, reserved))
    ensures var sh, t := s.shared, s.threads[i];
            var desired := WrapAdd(reserved, sh.pending);
            var pc := if sh.target < desired <= sh.growthLimit then Exchange(sh.target, desired, sh.pending) else Idle;
            var answer := if desired <= sh.target then Declined else Asked;
            Execute(s, ToCompare(i, reserved))
            == State(sh, s.threads[i := t.(pc := pc, calls := t.calls + 1, steps := t.steps + 4,
                                           answers := if pc.Exchange? then t.answers else t.answers + [answer])])
  {
    var go := Act(i, Proceed(reserved, false));
    PreludeLoadsTarget(s, i, reserved);
    Extend(s, Prelude(i, reserved), go);
    Extend(s, Prelude(i, reserved) + [go], go);
  }

  /** An undisturbed poll whose pages fit under the growth limit gets as far as its exchange. */
  lemma ReachesExchange(s: State, i: nat, reserved: Usize, ready: State)
    requires i < |s.threads| && s.threads[i].pc.Idle?
    requires s.shared.target < WrapAdd(reserved, s.shared.pending) <= s.shared.growthLimit
    requires var sh, t := s.shared, s.threads[i];
             var pc := Exchange(sh.target, WrapAdd(reserved, sh.pending), sh.pending);
             ready == State(sh, s.threads[i := t.(pc := pc, calls := t.calls + 1, steps := t.steps + 4)])
    ensures Leads(s, ToCompare(i, reserved), ready)
  {
    ReachesCompare(s, i, reserved);
  }

  /** An undisturbed poll whose pages fit under the growth limit raises the target to them. */
  lemma AttemptRaises(s: State, i: nat, reserved: Usize)
    requires i < |s.threads| && s.threads[i].pc.Idle?
    requires s.shared.target < WrapAdd(reserved, s.shared.pending) <= s.shared.growthLimit
    ensures Feasible(s, Attempt(i, reserved))
    ensures Execute(s, Attempt(i, reserved)) == AfterAttempt(s, i, reserved)
  {
    ReachesCompare(s, i, reserved);
    Extend(s, ToCompare(i, reserved), Act(i, Proceed(reserved, false)));
  }

  /** The labels of one poll run with nothing in between. */
  function WholePoll(sh: Shared, i: nat, reserved: Usize): seq<Label> {
    if sh.target < WrapAdd(reserved, sh.pending) <= sh.growthLimit
    then Attempt(i, reserved) + [Act(i, Proceed(reserved, false))]
    else ToCompare(i, reserved)
  }

  /** The two models agree: the atomic operations of an undisturbed poll change the shared fields
      as the trigger's whole-step poll does, give its answer, and leave the thread idle. */
  lemma UndisturbedPollIsOneStep(c: Trigger.Config, whole: Trigger.State, s: State, i: nat, reserved: Usize)
    requires i < |s.threads| && s.threads[i].pc.Idle?
    requires whole.target == s.shared.target && whole.pending == s.shared.pending
    requires whole.growthLimit == s.shared.growthLimit
    ensures Feasible(s, WholePoll(s.shared, i, reserved))
    ensures var end := Execute(s, WholePoll(s.shared, i, reserved));
            var after := Trigger.Step(c, whole, Trigger.Poll(reserved));
            && end.shared.target == after.target
            && end.shared.pending == after.pending
            && |end.threads| == |s.threads|
            && end.threads[i].pc.Idle?
            && (exists answer :: end.threads[i].answers == s.threads[i].answers + [answer]
                                 && (answer == Asked <==> Trigger.PollRequests(whole, reserved)))
            && forall j :: 0 <= j < |s.threads| && j != i ==> end.threads[j] == s.threads[j]
  {
    ReachesCompare(s, i, reserved);
    if s.shared.target < WrapAdd(reserved, s.shared.pending) <= s.shared.growthLimit {
      AttemptRaises(s, i, reserved);
      Extend(s, Attempt(i, reserved), Act(i, Proceed(reserved, false)));
    }
  }

  /** The labels of one foreground switch run with nothing in between. */
  function WholeSwitch(sh: Shared, i: nat): seq<Label> {
    var go := Act(i, Proceed(0, false));
    var guarded := [Act(i, BeginSwitch)] + [go] + [go];
    if sh.target < sh.minForeground then guarded + [go] else guarded
  }

  /** The atomic operations of an undisturbed switch change the target as the whole-step switch
      does, so it never lowers it. */
  lemma UndisturbedSwitchIsOneStep(c: Trigger.Config, whole: Trigger.State, s: State, i: nat)
    requires i < |s.threads| && s.threads[i].pc.Idle?
    requires whole.target == s.shared.target && whole.minForegroundTarget == s.shared.minForeground
    ensures Feasible(s, WholeSwitch(s.shared, i))
    ensures var end := Execute(s, WholeSwitch(s.shared, i));
            && end.shared == s.shared.(target := Trigger.Step(c, whole, Trigger.JankSwitch).target)
            && |end.threads| == |s.threads|
            && end.threads[i].pc.Idle?
            && forall j :: 0 <= j < |s.threads| && j != i ==> end.threads[j] == s.threads[j]
  {
    var go := Act(i, Proceed(0, false));
    var run := [Act(i, BeginSwitch)];
    assert Feasible(s, []) && Execute(s, []) == s;
    Extend(s, [], run[0]);
    assert [] + run == run;
    Extend(s, run, go);
    Extend(s, run + [go], go);
    if s.shared.target < s.shared.minForeground {
      Extend(s, run + [go] + [go], go);
    }
  }

  /** Target 10, cached minimum 20, and 20 pages pending. */
  function SwitchAndPoller(): State {
    State(Shared(10, 20, 100, 20, 20, 0, 0), [Thread(Idle, 0, 0, 0, 0, []), Thread(Idle, 0, 0, 0, 0, [])])
  }

  function SwitchPassesGuard(): seq<Label> {
    var go := Act(0, Proceed(0, false));
    [Act(0, BeginSwitch), go, go]
  }

  function SwitchLoses(): seq<Label> {
    SwitchPassesGuard() + Attempt(1, 10) + [Act(0, Proceed(0, false))]
  }

  lemma SwitchPasses(s: State, guarded: State)
    requires |s.threads| > 0 && s.threads[0] == Thread(Idle, 0, 0, 0, 0, [])
    requires s.shared.target < s.shared.minForeground
    requires guarded == s.(threads := s.threads[0 := Thread(SwitchExchange(s.shared.target, false), 1, 2, 0, 0, [])])
    ensures Leads(s, SwitchPassesGuard(), guarded)
  {
    var go := Act(0, Proceed(0, false));
    assert SwitchPassesGuard()[1..] == [go, go] && [go, go][1..] == [go] && [go][1..] == [];
  }

  /** A switch passes its guard at target 10, a poller raises the target to 30, and the retried
      exchange lowers it to 20. */
  lemma SwitchLowersTarget() returns (high: State, low: State)
    ensures Fresh(SwitchAndPoller())
    ensures Leads(SwitchAndPoller(), SwitchLoses(), high) && high.shared.target == 30
    ensures Leads(SwitchAndPoller(), SwitchLoses() + [Act(0, Proceed(0, false))], low) && low.shared.target == 20
  {
    high, low := SwitchLosesRace(SwitchAndPoller());
  }

  lemma SwitchLosesRace(s: State) returns (high: State, low: State)
    requires s == SwitchAndPoller()
    ensures Leads(s, SwitchLoses(), high) && high.shared.target == 30
    ensures Leads(s, SwitchLoses() + [Act(0, Proceed(0, false))], low) && low.shared.target == 20
  {
    var go := Act(0, Proceed(0, false));
    var guarded := s.(threads := s.threads[0 := Thread(SwitchExchange(10, false), 1, 2, 0, 0, [])]);
    SwitchPasses(s, guarded);
    AttemptRaises(guarded, 1, 10);
    var raised := Execute(guarded, Attempt(1, 10));
    high := Next(raised, go);
    low := Next(high, go);
    LeadsOn(s, SwitchPassesGuard(), guarded, Attempt(1, 10), raised);
    LeadsStep(s, SwitchPassesGuard() + Attempt(1, 10), raised, go, high);
    LeadsStep(s, SwitchLoses(), high, go, low);
  }

  // ---------------------------------------------------------------- A switch that brings a target back

  /** Target 10, cached minimum 20, ten pages pending; thread 0 will switch and the others poll. */
  function SwitchAndTwoPollers(): State {
    State(Shared(10, 10, 100, 20, 10, 0, 0),
          [Thread(Idle, 0, 0, 0, 0, []), Thread(Idle, 0, 0, 0, 0, []), Thread(Idle, 0, 0, 0, 0, [])])
  }

  function AttemptAndWithdraw(i: nat, reserved: Usize): seq<Label> {
    Attempt(i, reserved) + [Act(i, Proceed(reserved, false))]
  }

  function AfterWholeAttempt(s: State, i: nat, reserved: Usize): State
    requires i < |s.threads|
  {
    var sh, t := s.shared, s.threads[i];
    State(sh.(target := WrapAdd(reserved, sh.pending), absorbed := sh.absorbed + sh.pending,
              pending := 0, raises := sh.raises + 1),
          s.threads[i := t.(calls := t.calls + 1, steps := t.steps + 6, answers := t.answers + [Raised])])
  }

  lemma WholeAttempt(s: State, i: nat, reserved: Usize)
    requires i < |s.threads| && s.threads[i].pc.Idle?
    requires s.shared.target < WrapAdd(reserved, s.shared.pending) <= s.shared.growthLimit
    ensures Feasible(s, AttemptAndWithdraw(i, reserved))
    ensures Execute(s, AttemptAndWithdraw(i, reserved)) == AfterWholeAttempt(s, i, reserved)
  {
    AttemptRaises(s, i, reserved);
    Extend(s, Attempt(i, reserved), Act(i, Proceed(reserved, false)));
  }

  /** `run` can be taken from `s` and ends in `end`. */
  ghost predicate Leads(s: State, run: seq<Label>, end: State) {
    Feasible(s, run) && Execute(s, run) == end
  }

  lemma LeadsStep(s: State, run: seq<Label>, mid: State, l: Label, end: State)
    requires Leads(s, run, mid)
    requires Enabled(mid, l) && Next(mid, l) == end
    ensures Leads(s, run + [l], end)
  {
    Extend(s, run, l);
  }

  lemma LeadsOn(s: State, before: seq<Label>, mid: State, after: seq<Label>, end: State)
    requires Leads(s, before, mid) && Leads(mid, after, end)
    ensures Leads(s, before + after, end)
  {
    RunsJoin(s, before, after);
  }

  /** The three threads of the run below, between its stages. */
  function Stage(sh: Shared, switching: Thread, stale: Thread, other: Thread): State {
    State(sh, [switching, stale, other])
  }

  function AtStaleLoad(): State {
    Stage(Shared(20, 5, 100, 20, 15, 10, 1), Thread(SwitchExchange(20, true), 1, 3, 1, 0, []),
          Thread(Idle, 0, 0, 0, 0, []), Thread(Idle, 1, 6, 0, 0, [Raised]))
  }

  /** The switch passes its guard and thread 2 absorbs the ten pages. */
  lemma SwitchIsOvertaken(s: State, raised: State) returns (run: seq<Label>)
    requires s == SwitchAndTwoPollers()
    requires raised == Stage(Shared(20, 0, 100, 20, 10, 10, 1), Thread(SwitchExchange(10, false), 1, 2, 0, 0, []),
                             Thread(Idle, 0, 0, 0, 0, []), Thread(Idle, 1, 6, 0, 0, [Raised]))
    ensures Leads(s, run, raised)
  {
    var guarded := s.(threads := s.threads[0 := raised.threads[0]]);
    SwitchThenAttempt(s, guarded, 2, 10);
    assert [] + [Raised] == [Raised];
    assert AfterWholeAttempt(guarded, 2, 10) == raised;
    run := SwitchPassesGuard() + AttemptAndWithdraw(2, 10);
  }

  lemma SwitchThenAttempt(s: State, guarded: State, i: nat, reserved: Usize)
    requires 0 < i < |s.threads| && s.threads[0] == Thread(Idle, 0, 0, 0, 0, []) && s.threads[i].pc.Idle?
    requires s.shared.target < s.shared.minForeground
    requires s.shared.target < WrapAdd(reserved, s.shared.pending) <= s.shared.growthLimit
    requires guarded == s.(threads := s.threads[0 := Thread(SwitchExchange(s.shared.target, false), 1, 2, 0, 0, [])])
    ensures Leads(s, SwitchPassesGuard() + AttemptAndWithdraw(i, reserved), AfterWholeAttempt(guarded, i, reserved))
  {
    SwitchPasses(s, guarded);
    WholeAttempt(guarded, i, reserved);
    LeadsOn(s, SwitchPassesGuard(), guarded, AttemptAndWithdraw(i, reserved), AfterWholeAttempt(guarded, i, reserved));
  }

  /** Then the switch fails and reads 20, and five more pages are registered. */
  lemma ReachesStaleLoad(s: State, end: State) returns (run: seq<Label>)
    requires s == SwitchAndTwoPollers() && end == AtStaleLoad()
    ensures Leads(s, run, end)
  {
    var go := Act(0, Proceed(0, false));
    var raised := Stage(Shared(20, 0, 100, 20, 10, 10, 1), Thread(SwitchExchange(10, false), 1, 2, 0, 0, []),
                        Thread(Idle, 0, 0, 0, 0, []), Thread(Idle, 1, 6, 0, 0, [Raised]));
    run := SwitchIsOvertaken(s, raised);
    LeadsStep(s, run, raised, go, Next(raised, go));
    LeadsStep(s, run + [go], Next(raised, go), Register(5), end);
    run := run + [go] + [Register(5)];
  }

  function AfterStaleExchange(): State {
    Stage(Shared(25, 0, 100, 20, 15, 20, 3), Thread(Idle, 1, 5, 2, 0, []), Thread(Withdraw(5), 1, 5, 0, 0, []),
          Thread(Idle, 2, 12, 0, 0, [Raised, Raised]))
  }

  function StaleThread(): Thread {
    Thread(Exchange(20, 25, 5), 1, 4, 0, 0, [])
  }

  /** Thread 1 loads the five pages and gets as far as its exchange, and thread 2 absorbs them. */
  lemma PagesAreAbsorbedMeanwhile(s: State, raised: State) returns (run: seq<Label>)
    requires s == AtStaleLoad()
    requires raised == Stage(Shared(25, 0, 100, 20, 15, 15, 2), s.threads[0], StaleThread(),
                             Thread(Idle, 2, 12, 0, 0, [Raised, Raised]))
    ensures Leads(s, run, raised)
  {
    var ready := Stage(s.shared, s.threads[0], StaleThread(), s.threads[2]);
    ReachesExchange(s, 1, 20, ready);
    WholeAttempt(ready, 2, 20);
    assert [Raised] + [Raised] == [Raised, Raised];
    run := ToCompare(1, 20) + AttemptAndWithdraw(2, 20);
    LeadsOn(s, ToCompare(1, 20), ready, AttemptAndWithdraw(2, 20), raised);
  }

  /** Then the switch fails again and lowers the target to what thread 1 read, and thread 1 exchanges. */
  lemma StaleExchangeSucceeds(s: State, end: State) returns (run: seq<Label>)
    requires s == AtStaleLoad() && end == AfterStaleExchange()
    ensures Leads(s, run, end)
  {
    var go, last := Act(0, Proceed(0, false)), Act(1, Proceed(0, false));
    var raised := Stage(Shared(25, 0, 100, 20, 15, 15, 2), s.threads[0], StaleThread(),
                        Thread(Idle, 2, 12, 0, 0, [Raised, Raised]));
    run := PagesAreAbsorbedMeanwhile(s, raised);
    var failed, lowered := Next(raised, go), Next(Next(raised, go), go);
    LeadsStep(s, run, raised, go, failed);
    LeadsStep(s, run + [go], failed, go, lowered);
    LeadsStep(s, run + [go] + [go], lowered, last, end);
    run := run + [go] + [go] + [last];
  }

  /** A switch beside two pollers makes pages be absorbed twice although nothing is outstanding when
      thread 1 loads them and nothing is registered after: the switch brings the target back to what
      thread 1 had read. */
  lemma LoweredTargetAbsorbsTwice() returns (before: seq<Label>, after: seq<Label>)
    ensures Fresh(SwitchAndTwoPollers())
    ensures Leads(SwitchAndTwoPollers(), before, AtStaleLoad())
    ensures Leads(SwitchAndTwoPollers(), before + after, AfterStaleExchange())
    ensures Outstanding(AtStaleLoad().threads) == 0
    ensures AtStaleLoad().shared.registered == AfterStaleExchange().shared.registered == 15
    ensures AfterStaleExchange().shared.absorbed == 20
  {
    var s, mid, end := SwitchAndTwoPollers(), AtStaleLoad(), AfterStaleExchange();
    before := ReachesStaleLoad(s, mid);
    after := StaleExchangeSucceeds(mid, end);
    LeadsOn(s, before, mid, after, end);
    NothingOutstanding(mid.threads);
  }

  lemma Extend(s: State, run: seq<Label>, l: Label)
    requires Feasible(s, run)
    requires Enabled(Execute(s, run), l)
    ensures Feasible(s, run + [l])
    ensures Execute(s, run + [l]) == Next(Execute(s, run), l)
  {
    assert [l][1..] == [];
    RunsJoin(s, run, [l]);
  }

  lemma {:induction false} RunsJoin(s: State, before: seq<Label>, after: seq<Label>)
    requires Feasible(s, before)
    requires Feasible(Execute(s, before), after)
    ensures Feasible(s, before + after)
    ensures Execute(s, before + after) == Execute(Execute(s, before), after)
    decreases |before|
  {
    if before == [] {
      assert before + after == after;
    } else {
      assert (before + after)[1..] == before[1..] + after;
      RunsJoin(Next(s, before[0]), before[1..], after);
    }
  }
}
