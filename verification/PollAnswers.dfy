/** How polls and switches end when threads interleave: which step ends them, what a poll answers,
    and what it had read when it did. The readings are noted beside the transition system, from the
    shared state of the moment, and not taken from what the thread says it remembers. */
module PollAnswers {
  import opened Machine
  import opened PollInterleaving

  // ---------------------------------------------------------------- Steps that end a call

  predicate Switching(pc: Pc) {
    pc.SwitchLoad? || pc.SwitchGuard? || pc.SwitchExchange?
  }

  /** The step takes its thread out of a poll. */
  predicate EndsPoll(s: State, l: Label)
    requires Enabled(s, l)
  {
    l.Act? && Polling(s.threads[l.i].pc) && !Polling(Next(s, l).threads[l.i].pc)
  }

  /** The step takes its thread out of a switch. */
  predicate EndsSwitch(s: State, l: Label)
    requires Enabled(s, l)
  {
    l.Act? && Switching(s.threads[l.i].pc) && !Switching(Next(s, l).threads[l.i].pc)
  }

  /** A poll ends exactly by withdrawing its pages, or at a comparison that finds its sum within the
      target it read or above the growth limit. A failed exchange, spurious or not, changes nothing
      that is shared and starts the poll again from the load of the target. */
  lemma PollEndsExactly(s: State, l: Label)
    requires Enabled(s, l)
    ensures EndsPoll(s, l) <==>
              l.Act? && var pc := s.threads[l.i].pc;
              pc.Withdraw? || (pc.Compare? && (pc.desired <= pc.base || pc.desired > s.shared.growthLimit))
    ensures EndsPoll(s, l) ==> Next(s, l).threads[l.i].pc.Idle?
    ensures l.Act? && s.threads[l.i].pc.Exchange? && !Raises(s, l) ==>
              Next(s, l).threads[l.i].pc == LoadTarget && Next(s, l).shared == s.shared
  {
  }

  /** A switch ends exactly when its guard finds the target at the cached minimum or above, and then
      nothing has changed, or when its exchange finds the target it last saw, and then the target is
      the cached minimum. Every other step of it leaves the shared state alone. */
  lemma SwitchEndsExactly(s: State, l: Label)
    requires Enabled(s, l)
    ensures EndsSwitch(s, l) <==>
              l.Act? && var pc := s.threads[l.i].pc;
              (pc.SwitchGuard? && pc.seen >= s.shared.minForeground)
              || (pc.SwitchExchange? && pc.seen == s.shared.target)
    ensures l.Act? && Switching(s.threads[l.i].pc) ==>
              Next(s, l).shared
              == if EndsSwitch(s, l) && s.threads[l.i].pc.SwitchExchange?
                 then s.shared.(target := s.shared.minForeground) else s.shared
    ensures l.Act? && s.threads[l.i].pc.SwitchLoad? ==> Next(s, l).threads[l.i].pc == SwitchGuard(s.shared.target)
    ensures l.Act? && s.threads[l.i].pc.SwitchExchange? && !EndsSwitch(s, l) ==>
              Next(s, l).threads[l.i].pc == SwitchExchange(s.shared.target, true)
  {
  }

  // ---------------------------------------------------------------- What a poll read

  /** The target, reserved pages and pending pages a thread read last. */
  datatype Reading = Reading(target: Usize, reserved: Usize, pending: Usize)

  /** Notes what the step reads from the shared state. */
  function Observe(s: State, readings: seq<Reading>, l: Label): (after: seq<Reading>)
    requires Enabled(s, l)
    requires |readings| == |s.threads|
    ensures |after| == |readings|
  {
    if l.Act? && l.action.Proceed? then
      var reading := readings[l.i];
      match s.threads[l.i].pc
      case LoadTarget => readings[l.i := reading.(target := s.shared.target)]
      case ReadReserved(_) => readings[l.i := reading.(reserved := l.action.reserved)]
      case LoadPending(_, _) => readings[l.i := reading.(pending := s.shared.pending)]
      case _ => readings
    else
      readings
  }

  function NoReadings(n: nat): (readings: seq<Reading>)
    ensures |readings| == n
  {
    seq(n, _ => Reading(0, 0, 0))
  }

  function Wanted(reading: Reading): Usize {
    WrapAdd(reading.reserved, reading.pending)
  }

  /** The answer due to a poll that read this. */
  function Verdict(reading: Reading, growthLimit: Usize): Answer {
    if Wanted(reading) <= reading.target then Declined
    else if Wanted(reading) > growthLimit then Asked
    else Raised
  }

  /** The verdicts on the readings with which the polls of thread `i` end, in order. */
  function Verdicts(s: State, readings: seq<Reading>, run: seq<Label>, i: nat): seq<Answer>
    requires Feasible(s, run)
    requires i < |readings| == |s.threads|
    decreases |run|
  {
    if run == [] then []
    else
      (if EndsPoll(s, run[0]) && run[0].i == i then [Verdict(readings[i], s.shared.growthLimit)] else [])
      + Verdicts(Next(s, run[0]), Observe(s, readings, run[0]), run[1..], i)
  }

  predicate ReadingHolds(growthLimit: Usize, pc: Pc, reading: Reading) {
    match pc
    case ReadReserved(base) => base == reading.target
    case LoadPending(base, reserved) => base == reading.target && reserved == reading.reserved
    case Compare(base, desired, loaded) =>
      base == reading.target && desired == Wanted(reading) && loaded == reading.pending
    case Exchange(base, desired, loaded) =>
      && base == reading.target && desired == Wanted(reading) && loaded == reading.pending
      && Verdict(reading, growthLimit) == Raised
    case Withdraw(loaded) => loaded == reading.pending && Verdict(reading, growthLimit) == Raised
    case _ => true
  }

  /** Threads remember what they read. */
  predicate ReadingsHold(s: State, readings: seq<Reading>) {
    && |readings| == |s.threads|
    && forall i :: 0 <= i < |readings| ==> ReadingHolds(s.shared.growthLimit, s.threads[i].pc, readings[i])
  }

  lemma StepKeepsReadings(s: State, readings: seq<Reading>, l: Label)
    requires ReadingsHold(s, readings)
    requires Enabled(s, l)
    ensures ReadingsHold(Next(s, l), Observe(s, readings, l))
  {
    if l.Act? {
      assert ReadingHolds(s.shared.growthLimit, s.threads[l.i].pc, readings[l.i]);
    }
  }

  /** A step adds an answer to a thread exactly when it ends a poll of that thread, and it is the
      verdict on what that poll read last. */
  lemma StepAnswers(s: State, readings: seq<Reading>, l: Label, i: nat)
    requires ReadingsHold(s, readings)
    requires Enabled(s, l)
    requires i < |s.threads|
    ensures Next(s, l).threads[i].answers
         == s.threads[i].answers
            + if EndsPoll(s, l) && l.i == i then [Verdict(readings[i], s.shared.growthLimit)] else []
  {
    assert ReadingHolds(s.shared.growthLimit, s.threads[i].pc, readings[i]);
    assert s.threads[i].answers + [] == s.threads[i].answers;
  }

  lemma AnswersGrow(before: seq<Answer>, step: seq<Answer>, rest: seq<Answer>)
    ensures (before + step) + rest == before + (step + rest)
  {
  }

  lemma {:induction false} RunAnswers(s: State, readings: seq<Reading>, run: seq<Label>, i: nat)
    requires ReadingsHold(s, readings)
    requires Feasible(s, run)
    requires i < |s.threads|
    ensures |Execute(s, run).threads| == |s.threads|
    ensures Execute(s, run).threads[i].answers == s.threads[i].answers + Verdicts(s, readings, run, i)
    decreases |run|
  {
    if run != [] {
      var next, after := Next(s, run[0]), Observe(s, readings, run[0]);
      StepAnswers(s, readings, run[0], i);
      StepKeepsReadings(s, readings, run[0]);
      RunAnswers(next, after, run[1..], i);
      var step := if EndsPoll(s, run[0]) && run[0].i == i then [Verdict(readings[i], s.shared.growthLimit)] else [];
      assert Verdicts(s, readings, run, i) == step + Verdicts(next, after, run[1..], i);
      AnswersGrow(s.threads[i].answers, step, Verdicts(next, after, run[1..], i));
    }
  }

  function CountOf(answers: seq<Answer>, answer: Answer): nat {
    if answers == [] then 0
    else CountOf(answers[..|answers| - 1], answer) + if answers[|answers| - 1] == answer then 1 else 0
  }

  lemma {:induction false} CountsAddUp(answers: seq<Answer>)
    ensures |answers| == CountOf(answers, Declined) + CountOf(answers, Asked) + CountOf(answers, Raised)
  {
    if answers != [] {
      CountsAddUp(answers[..|answers| - 1]);
    }
  }

  /** Over every run of polls, switches and registrations, the polls a thread began are those that
      declined, those that asked for a collection, those that raised the target, and the one in
      flight; and its answers, in order, are the verdicts on what each of its polls read last: it asks
      exactly when reserved plus pending pages were above both the target it read and the limit. */
  lemma PollsAnswerWhatTheyRead(s: State, run: seq<Label>, i: nat)
    requires Fresh(s)
    requires Feasible(s, run)
    requires i < |s.threads|
    ensures |Execute(s, run).threads| == |s.threads|
    ensures var t := Execute(s, run).threads[i];
            && t.answers == Verdicts(s, NoReadings(|s.threads|), run, i)
            && PollsBegun(run, i)
               == CountOf(t.answers, Declined) + CountOf(t.answers, Asked) + CountOf(t.answers, Raised)
                  + if Polling(t.pc) then 1 else 0
  {
    var readings := NoReadings(|s.threads|);
    RunAnswers(s, readings, run, i);
    EveryPollIsAnswered(s, run, i);
    assert [] + Verdicts(s, readings, run, i) == Verdicts(s, readings, run, i);
    CountsAddUp(Execute(s, run).threads[i].answers);
  }

  // ---------------------------------------------------------------- What the readings are used for

  function ReadingsAfter(s: State, readings: seq<Reading>, run: seq<Label>): (after: seq<Reading>)
    requires Feasible(s, run)
    requires |readings| == |s.threads|
    ensures |after| == |readings|
    decreases |run|
  {
    if run == [] then readings else ReadingsAfter(Next(s, run[0]), Observe(s, readings, run[0]), run[1..])
  }

  lemma {:induction false} RunKeepsReadings(s: State, readings: seq<Reading>, run: seq<Label>)
    requires ReadingsHold(s, readings)
    requires Feasible(s, run)
    ensures ReadingsHold(Execute(s, run), ReadingsAfter(s, readings, run))
    decreases |run|
  {
    if run != [] {
      StepKeepsReadings(s, readings, run[0]);
      RunKeepsReadings(Next(s, run[0]), Observe(s, readings, run[0]), run[1..]);
    }
  }

  /** After any run, a step of a poll changes the shared state only by installing in the target the
      reserved plus pending pages it read, when the target is still what it read, or by withdrawing
      from the counter the pending pages it read. */
  lemma PollsInstallWhatTheyRead(s: State, run: seq<Label>, l: Label)
    requires Fresh(s)
    requires Feasible(s, run)
    requires Enabled(Execute(s, run), l)
    requires l.Act? && Polling(Execute(s, run).threads[l.i].pc)
    ensures |ReadingsAfter(s, NoReadings(|s.threads|), run)| == |Execute(s, run).threads|
    ensures var now := Execute(s, run);
            var reading := ReadingsAfter(s, NoReadings(|s.threads|), run)[l.i];
            var sh := now.shared;
            && (Raises(now, l) ==> sh.target == reading.target < Wanted(reading) <= sh.growthLimit)
            && Next(now, l).shared
               == if Raises(now, l) then
                    sh.(target := Wanted(reading), absorbed := sh.absorbed + reading.pending, raises := sh.raises + 1)
                  else if now.threads[l.i].pc.Withdraw? then
                    sh.(pending := WrapSub(sh.pending, reading.pending))
                  else
                    sh
  {
    ThreadCountIsFixed(s, run);
    RunKeepsReadings(s, NoReadings(|s.threads|), run);
    var now, readings := Execute(s, run), ReadingsAfter(s, NoReadings(|s.threads|), run);
    assert ReadingHolds(now.shared.growthLimit, now.threads[l.i].pc, readings[l.i]);
  }

  // ---------------------------------------------------------------- Exchanges and answers

  /** Successful exchanges of a thread: those answered and the one not yet withdrawn. */
  function RaisedBy(t: Thread): nat {
    CountOf(t.answers, Raised) + if t.pc.Withdraw? then 1 else 0
  }

  function AllRaised(threads: seq<Thread>): nat {
    if threads == [] then 0 else RaisedBy(threads[0]) + AllRaised(threads[1..])
  }

  lemma {:induction false} AllRaisedUpdate(threads: seq<Thread>, i: nat, t: Thread)
    requires i < |threads|
    ensures AllRaised(threads[i := t]) == AllRaised(threads) - RaisedBy(threads[i]) + RaisedBy(t)
  {
    if i > 0 {
      assert threads[i := t][1..] == threads[1..][i - 1 := t];
      AllRaisedUpdate(threads[1..], i - 1, t);
    } else {
      assert threads[i := t][1..] == threads[1..];
    }
  }

  lemma CountAppended(answers: seq<Answer>, last: Answer, answer: Answer)
    ensures CountOf(answers + [last], answer) == CountOf(answers, answer) + if last == answer then 1 else 0
  {
    assert (answers + [last])[..|answers|] == answers;
  }

  lemma ThreadStepCountsRaises(sh: Shared, t: Thread, action: Action)
    requires t.pc.Idle? <==> !action.Proceed?
    ensures var local := Take(sh, t, action);
            local.shared.raises - RaisedBy(local.thread) == sh.raises - RaisedBy(t)
  {
    CountAppended(t.answers, Declined, Raised);
    CountAppended(t.answers, Asked, Raised);
    CountAppended(t.answers, Raised, Raised);
  }

  lemma StepCountsRaises(s: State, l: Label)
    requires Enabled(s, l)
    ensures Next(s, l).shared.raises - AllRaised(Next(s, l).threads) == s.shared.raises - AllRaised(s.threads)
  {
    if l.Act? {
      ThreadStepCountsRaises(s.shared, s.threads[l.i], l.action);
      AllRaisedUpdate(s.threads, l.i, Take(s.shared, s.threads[l.i], l.action).thread);
    }
  }

  lemma {:induction false} RunCountsRaises(s: State, run: seq<Label>)
    requires Feasible(s, run)
    ensures var end := Execute(s, run);
            end.shared.raises - AllRaised(end.threads) == s.shared.raises - AllRaised(s.threads)
    decreases |run|
  {
    if run != [] {
      StepCountsRaises(s, run[0]);
      RunCountsRaises(Next(s, run[0]), run[1..]);
    }
  }

  lemma {:induction false} NothingRaised(threads: seq<Thread>)
    requires forall i :: 0 <= i < |threads| ==> RaisedBy(threads[i]) == 0
    ensures AllRaised(threads) == 0
  {
    if threads != [] {
      assert forall i :: 0 <= i < |threads| - 1 ==> threads[1..][i] == threads[i + 1];
      NothingRaised(threads[1..]);
    }
  }

  /** Over every run, the exchanges that succeeded are the polls answered as having raised the target
      together with those that have still to withdraw: each raise is answered once, by one thread. */
  lemma ExchangesAreAnsweredOnce(s: State, run: seq<Label>)
    requires Fresh(s)
    requires Feasible(s, run)
    ensures Execute(s, run).shared.raises == AllRaised(Execute(s, run).threads)
  {
    assert forall i :: 0 <= i < |s.threads| ==> RaisedBy(s.threads[i]) == 0;
    NothingRaised(s.threads);
    RunCountsRaises(s, run);
  }
}
