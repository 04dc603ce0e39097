/** What the whole-step trigger guarantees: the heap limits over every run, what polling decides,
    and how a collection sizes the heap. */
module TriggerProperties {
  import opened Machine
  import opened Trigger

  // ---------------------------------------------------------------- Limits over whole runs

  /** target <= growth limit <= capacity, and the cached foreground minimum is within the limit. */
  predicate WithinLimits(s: State) {
    s.target <= s.growthLimit <= s.capacity && s.minForegroundTarget <= s.growthLimit
  }

  predicate AlwaysWithinLimits(c: Config, s: State, ops: seq<Op>)
    decreases |ops|
  {
    WithinLimits(s) && (ops != [] ==> AlwaysWithinLimits(c, Step(c, s, ops[0]), ops[1..]))
  }

  /** The caller never clamps the heap below the foreground minimum cached at that moment. */
  predicate ClampSpares(s: State, op: Op) {
    op.ClampMaxHeapSize? ==> s.minForegroundTarget <= op.bytes / BYTES_IN_PAGE
  }

  predicate ClampsSpareForeground(c: Config, s: State, ops: seq<Op>)
    decreases |ops|
  {
    ops != [] ==> ClampSpares(s, ops[0]) && ClampsSpareForeground(c, Step(c, s, ops[0]), ops[1..])
  }

  /** Every run stays within the limits exactly when its clamps spare the cached minimum. */
  lemma {:induction false} RunStaysWithinLimits(c: Config, s: State, ops: seq<Op>)
    requires WithinLimits(s)
    ensures AlwaysWithinLimits(c, s, ops) <==> ClampsSpareForeground(c, s, ops)
    decreases |ops|
  {
    if ops != [] {
      var next := Step(c, s, ops[0]);
      assert WithinLimits(next) <==> ClampSpares(s, ops[0]);
      if WithinLimits(next) {
        RunStaysWithinLimits(c, next, ops[1..]);
      }
    }
  }

  /** A fresh trigger starts within its limits whenever its byte sizes are ordered. */
  lemma FreshTriggerStaysWithinLimits(c: Config, initialSize: Usize, capacity: Usize, growthLimit: Usize,
                                      ops: seq<Op>)
    requires initialSize <= growthLimit <= capacity
    ensures var s := InitialState(initialSize, capacity, growthLimit);
            AlwaysWithinLimits(c, s, ops) <==> ClampsSpareForeground(c, s, ops)
  {
    RunStaysWithinLimits(c, InitialState(initialSize, capacity, growthLimit), ops);
  }

  /** The capacity bounds the growth limit over every run, clamped or not. */
  lemma {:induction false} CapacityBoundsGrowthLimit(c: Config, s: State, ops: seq<Op>)
    requires s.growthLimit <= s.capacity
    ensures var end := Run(c, s, ops); end.growthLimit <= end.capacity
    decreases |ops|
  {
    if ops != [] {
      CapacityBoundsGrowthLimit(c, Step(c, s, ops[0]), ops[1..]);
    }
  }

  lemma {:induction false} RunSplits(c: Config, s: State, before: seq<Op>, after: seq<Op>)
    ensures Run(c, s, before + after) == Run(c, Run(c, s, before), after)
    decreases |before|
  {
    if before == [] {
      assert before + after == after;
    } else {
      assert (before + after)[1..] == before[1..] + after;
      RunSplits(c, Step(c, s, before[0]), before[1..], after);
    }
  }

  /** Whatever happened before, the end of a collection brings the trigger back within limits. */
  lemma CollectionRestoresLimits(c: Config, s: State, ops: seq<Op>, gc: Collection)
    requires s.growthLimit <= s.capacity
    ensures WithinLimits(Run(c, s, ops + [GcEnd(gc)]))
  {
    RunSplits(c, s, ops, [GcEnd(gc)]);
    CapacityBoundsGrowthLimit(c, s, ops);
    assert Run(c, Run(c, s, ops), [GcEnd(gc)]) == Step(c, Run(c, s, ops), GcEnd(gc)) by {
      assert [GcEnd(gc)][1..] == [];
    }
  }

  /** Only the switch to the foreground can carry the target past the growth limit, and it does
      so exactly when a clamp left the cached minimum above the limit. */
  lemma TargetPassesLimitExactly(c: Config, s: State, op: Op)
    requires s.target <= s.growthLimit <= s.capacity
    ensures var next := Step(c, s, op);
            next.target > next.growthLimit
            <==> op.JankSwitch? && s.minForegroundTarget > s.growthLimit
  {
  }

  predicate TargetAlwaysWithinLimit(c: Config, s: State, ops: seq<Op>)
    decreases |ops|
  {
    s.target <= s.growthLimit && (ops != [] ==> TargetAlwaysWithinLimit(c, Step(c, s, ops[0]), ops[1..]))
  }

  /** Every switch to the foreground in the run finds a cached minimum within the growth limit. */
  predicate SwitchesFindRoom(c: Config, s: State, ops: seq<Op>)
    decreases |ops|
  {
    ops != [] ==>
      && (ops[0].JankSwitch? ==> s.minForegroundTarget <= s.growthLimit)
      && SwitchesFindRoom(c, Step(c, s, ops[0]), ops[1..])
  }

  /** Over every run, clamped or not, the target never passes the growth limit exactly when every
      switch finds room for the cached minimum. */
  lemma {:induction false} TargetStaysWithinLimitExactly(c: Config, s: State, ops: seq<Op>)
    requires s.target <= s.growthLimit <= s.capacity
    ensures TargetAlwaysWithinLimit(c, s, ops) <==> SwitchesFindRoom(c, s, ops)
    decreases |ops|
  {
    if ops != [] {
      var next := Step(c, s, ops[0]);
      TargetPassesLimitExactly(c, s, ops[0]);
      assert next.growthLimit <= next.capacity;
      if next.target <= next.growthLimit {
        TargetStaysWithinLimitExactly(c, next, ops[1..]);
      }
    }
  }

  /** A run that passes the limit: a background collection caches a minimum of 60 pages, the heap
      is clamped to 50 pages, and the switch to the foreground raises the target to 60. */
  lemma ClampThenSwitchPassesLimit()
    ensures var c := Config(20, 40, 0.5, 2.0);
            var ops := [GcEnd(Collection(20, false, false)), ClampMaxHeapSize(50 * BYTES_IN_PAGE), JankSwitch];
            var s := InitialState(40 * BYTES_IN_PAGE, 100 * BYTES_IN_PAGE, 100 * BYTES_IN_PAGE);
            var end := Run(c, s, ops);
            && WithinLimits(s)
            && end.target == 60
            && end.growthLimit == 50
  {
    var c := Config(20, 40, 0.5, 2.0);
    var gc := Collection(20, false, false);
    var ops := [GcEnd(gc), ClampMaxHeapSize(50 * BYTES_IN_PAGE), JankSwitch];
    var s := InitialState(40 * BYTES_IN_PAGE, 100 * BYTES_IN_PAGE, 100 * BYTES_IN_PAGE);
    assert UtilizationDelta(c, 20) == 20 by {
      assert 20 as real * (1.0 / 0.5 - 1.0) == 20.0;
    }
    var s1 := Step(c, s, ops[0]);
    assert s1.minForegroundTarget == 60;
    var s2 := Step(c, s1, ops[1]);
    var s3 := Step(c, s2, ops[2]);
    assert ops[1..] == [ops[1], ops[2]] && ops[1..][1..] == [ops[2]] && ops[1..][1..][1..] == [];
    assert Run(c, s2, [ops[2]]) == s3;
    assert Run(c, s1, [ops[1], ops[2]]) == s3;
  }

  /** Clearing the growth limit moves it to the capacity and keeps a full heap full and a growable
      heap growable; after the capacity was clamped to the limit, clearing changes nothing. */
  lemma ClearingTheLimit(c: Config, s: State)
    requires WithinLimits(s)
    ensures var cleared := Step(c, s, ClearGrowthLimit);
            && cleared.growthLimit == cleared.capacity == s.capacity
            && s.target <= cleared.target
            && (cleared.target < cleared.growthLimit <==> s.target < s.growthLimit)
    ensures var clamped := Step(c, s, ClampGrowthLimit);
            && clamped.target == s.target && clamped.growthLimit == s.growthLimit
            && Run(c, s, [ClampGrowthLimit, ClearGrowthLimit]) == clamped
  {
    var ops := [ClampGrowthLimit, ClearGrowthLimit];
    assert ops[1..] == [ClearGrowthLimit] && [ClearGrowthLimit][1..] == [];
    assert Run(c, Step(c, s, ClampGrowthLimit), [ClearGrowthLimit]) == Step(c, s, ClampGrowthLimit);
  }

  // ---------------------------------------------------------------- Polling

  /** A poll asks for a collection exactly when the wanted pages exceed both the target and the
      growth limit; when it does not, the wanted pages fit under the target it leaves behind; and
      polling again changes nothing and answers the same. */
  lemma PollDecides(c: Config, s: State, reserved: Usize)
    requires reserved + s.pending < USIZE_MODULUS
    ensures PollRequests(s, reserved) <==> reserved + s.pending > Max(s.target, s.growthLimit)
    ensures var next := Step(c, s, Poll(reserved));
            && (!PollRequests(s, reserved) ==> reserved + next.pending <= next.target)
            && (PollRequests(next, reserved) <==> PollRequests(s, reserved))
            && Step(c, next, Poll(reserved)) == next
            && s.target <= next.target
  {
  }

  function Polls(reserved: Usize, n: nat): seq<Op> {
    seq(n, _ => Poll(reserved))
  }

  /** Any number of polls at the same reserved pages settles in the state the first one leaves,
      and the polls that follow it all give its answer. */
  lemma {:induction false} RepeatedPollsSettle(c: Config, s: State, reserved: Usize, n: nat)
    requires reserved + s.pending < USIZE_MODULUS
    ensures var settled := Run(c, s, Polls(reserved, n + 1));
            && settled == Step(c, s, Poll(reserved))
            && (PollRequests(settled, reserved) <==> PollRequests(s, reserved))
    decreases n
  {
    PollDecides(c, s, reserved);
    var next := Step(c, s, Poll(reserved));
    var ops := Polls(reserved, n + 1);
    assert ops[1..] == Polls(reserved, n);
    if n > 0 {
      RepeatedPollsSettle(c, next, reserved, n - 1);
    }
  }

  // ---------------------------------------------------------------- Sizing after a collection

  /** No sum inside the resize overflows. */
  predicate ResizeFits(c: Config, s: State, reserved: Usize) {
    var most := Max(c.minFree, c.maxFree);
    && reserved + Max(most, Scale(most, c.foregroundMultiplier)) + s.pending < USIZE_MODULUS
    && s.target + s.pending < USIZE_MODULUS
  }

  lemma ToUsizeMonotone(x: real, y: real)
    requires x <= y
    ensures ToUsize(x) <= ToUsize(y)
  {
    assert x.Floor as real <= y;
  }

  lemma ScaleMonotone(a: Usize, b: Usize, m: real)
    requires a <= b
    requires 0.0 <= m
    ensures Scale(a, m) <= Scale(b, m)
  {
    assert a as real * m <= b as real * m;
    ToUsizeMonotone(a as real * m, b as real * m);
  }

  lemma ScaleByOne(a: Usize)
    ensures Scale(a, 1.0) == a
  {
    assert a as real * 1.0 == a as real;
  }

  lemma ScaleGrows(a: Usize, m: real)
    requires 1.0 <= m
    ensures a <= Scale(a, m)
  {
    assert a as real <= a as real * m;
  }

  lemma ScaleOfNothing(m: real)
    ensures Scale(0, m) == 0
  {
    assert 0 as real * m == 0.0;
  }

  lemma ScaleByNegative(a: Usize, m: real)
    requires m < 0.0
    ensures Scale(a, m) == 0
  {
    NegativeProduct(a as real, m);
  }

  lemma NegativeProduct(x: real, y: real)
    requires 0.0 <= x && y < 0.0
    ensures x * y <= 0.0
  {
  }

  lemma ScaledGrowthIsBounded(c: Config, jankPerceptible: bool, growth: Usize)
    requires growth <= Max(c.minFree, c.maxFree)
    ensures var most := Max(c.minFree, c.maxFree);
            Scale(growth, Multiplier(c, jankPerceptible)) <= Max(most, Scale(most, c.foregroundMultiplier))
  {
    if !jankPerceptible {
      ScaleByOne(growth);
    } else if c.foregroundMultiplier < 0.0 {
      ScaleByNegative(growth, c.foregroundMultiplier);
    } else {
      ScaleMonotone(growth, Max(c.minFree, c.maxFree), c.foregroundMultiplier);
    }
  }

  /** Within `ResizeFits`, a resize never goes below the reserved pages, so the subtraction that
      compares free space with pending pages does not underflow. */
  lemma ResizeCoversReserved(c: Config, s: State, gc: Collection)
    requires ResizeFits(c, s, gc.reserved)
    ensures var size := Resize(c, s, gc).size;
            && gc.reserved <= size
            && size + s.pending < USIZE_MODULUS
  {
    ScaledGrowthIsBounded(c, gc.jankPerceptible,
                          if gc.nursery then c.maxFree else FullHeapGrowth(c, gc.reserved));
  }

  /** After a collection with `P` pages pending, the target is the growth limit or leaves room for
      those pages; so registering no more than that again and polling passes without a move. */
  lemma PendingPagesGetRoom(c: Config, s: State, gc: Collection, again: Usize)
    requires ResizeFits(c, s, gc.reserved)
    ensures var after := Step(c, s, GcEnd(gc));
            && (after.target == s.growthLimit || gc.reserved + s.pending <= after.target)
            && after.pending == 0
            && (gc.reserved + s.pending <= s.growthLimit && again <= s.pending ==>
                  var waiting := Step(c, after, PendingAllocation(again));
                  && !PollRequests(waiting, gc.reserved)
                  && Step(c, waiting, Poll(gc.reserved)) == waiting)
  {
    ResizeCoversReserved(c, s, gc);
  }

  function TargetAfter(c: Config, s: State, gc: Collection): Usize {
    Step(c, s, GcEnd(gc)).target
  }

  function TargetAfterSwitch(c: Config, s: State, gc: Collection): Usize {
    Step(c, Step(c, s, GcEnd(gc)), JankSwitch).target
  }

  /** A background full-heap collection followed by the switch to the foreground ends at exactly
      the target a foreground full-heap collection would have set. */
  lemma BackgroundThenSwitchMatchesForeground(c: Config, s: State, reserved: Usize)
    requires s.pending == 0
    requires 1.0 <= c.foregroundMultiplier
    requires ResizeFits(c, s, reserved)
    ensures TargetAfterSwitch(c, s, Collection(reserved, false, false))
            == TargetAfter(c, s, Collection(reserved, true, false))
  {
    var growth := FullHeapGrowth(c, reserved);
    ResizeCoversReserved(c, s, Collection(reserved, false, false));
    ResizeCoversReserved(c, s, Collection(reserved, true, false));
    ScaleByOne(growth);
    ScaleGrows(growth, c.foregroundMultiplier);
    ScaleOfNothing(c.foregroundMultiplier);
    assert reserved + Scale(growth, c.foregroundMultiplier) < USIZE_MODULUS by {
      ScaleMonotone(growth, Max(c.minFree, c.maxFree), c.foregroundMultiplier);
    }
  }

  /** For nursery collections the same sequence reaches at least that target. */
  lemma BackgroundNurseryThenSwitchReachesForeground(c: Config, s: State, reserved: Usize)
    requires s.pending == 0
    requires s.target <= s.growthLimit
    requires 1.0 <= c.foregroundMultiplier
    requires ResizeFits(c, s, reserved)
    ensures TargetAfterSwitch(c, s, Collection(reserved, false, true))
            >= TargetAfter(c, s, Collection(reserved, true, true))
  {
    ScaleByOne(c.maxFree);
    ScaleGrows(c.maxFree, c.foregroundMultiplier);
    ScaleOfNothing(c.foregroundMultiplier);
    ScaleMonotone(c.maxFree, Max(c.minFree, c.maxFree), c.foregroundMultiplier);
  }

  /** With nothing pending and the limit out of the way, the free space after a full-heap
      collection lies between the scaled minimum and the scaled maximum. */
  lemma FreeSpaceIsBounded(c: Config, s: State, gc: Collection)
    requires !gc.nursery && s.pending == 0
    requires 0.0 <= Multiplier(c, gc.jankPerceptible)
    requires ResizeFits(c, s, gc.reserved)
    requires Resize(c, s, gc).size <= s.growthLimit
    ensures var m := Multiplier(c, gc.jankPerceptible);
            Scale(c.minFree, m) <= TargetAfter(c, s, gc) - gc.reserved <= Scale(Max(c.minFree, c.maxFree), m)
  {
    var m := Multiplier(c, gc.jankPerceptible);
    var growth := FullHeapGrowth(c, gc.reserved);
    ResizeCoversReserved(c, s, gc);
    ScaleMonotone(c.minFree, growth, m);
    ScaleMonotone(growth, Max(c.minFree, c.maxFree), m);
    ScaleByOne(Max(c.minFree, c.maxFree));
  }

  /** `target` is the largest heap size of which `reserved` makes up at least the fraction `u`. */
  predicate MeetsUtilization(u: real, reserved: nat, target: nat) {
    u * target as real <= reserved as real < u * (target as real + 1.0)
  }

  /** Left to itself, a background full-heap collection sets the largest target at which the
      reserved pages still make up the wanted fraction of the heap. */
  lemma TargetMeetsUtilization(c: Config, s: State, reserved: Usize)
    requires 0.0 < c.utilization <= 1.0
    requires reserved as real * (1.0 / c.utilization - 1.0) < USIZE_MODULUS as real
    requires c.minFree <= UtilizationDelta(c, reserved) <= c.maxFree
    requires s.pending <= UtilizationDelta(c, reserved)
    requires ResizeFits(c, s, reserved)
    requires reserved + UtilizationDelta(c, reserved) <= s.growthLimit
    ensures MeetsUtilization(c.utilization, reserved, TargetAfter(c, s, Collection(reserved, false, false)))
  {
    TargetIsReservedPlusDelta(c, s, reserved);
    DeltaMeetsUtilization(c, reserved);
  }

  lemma DeltaMeetsUtilization(c: Config, reserved: Usize)
    requires 0.0 < c.utilization <= 1.0
    requires reserved as real * (1.0 / c.utilization - 1.0) < USIZE_MODULUS as real
    ensures MeetsUtilization(c.utilization, reserved, reserved + UtilizationDelta(c, reserved))
  {
    var delta := UtilizationDelta(c, reserved) as real;
    DeltaIsFloor(c.utilization, reserved as real);
    UtilizationIdentity(c.utilization, reserved as real, delta);
    assert (reserved + UtilizationDelta(c, reserved)) as real == reserved as real + delta;
  }

  lemma TargetIsReservedPlusDelta(c: Config, s: State, reserved: Usize)
    requires c.minFree <= UtilizationDelta(c, reserved) <= c.maxFree
    requires s.pending <= UtilizationDelta(c, reserved)
    requires ResizeFits(c, s, reserved)
    requires reserved + UtilizationDelta(c, reserved) <= s.growthLimit
    ensures TargetAfter(c, s, Collection(reserved, false, false)) == reserved + UtilizationDelta(c, reserved)
  {
    ScaleByOne(UtilizationDelta(c, reserved));
  }

  lemma DeltaIsFloor(u: real, r: real)
    requires 0.0 < u <= 1.0
    requires 0.0 <= r
    requires r * (1.0 / u - 1.0) < USIZE_MODULUS as real
    ensures var x := r * (1.0 / u - 1.0); ToUsize(x) as real <= x < ToUsize(x) as real + 1.0
  {
    var inverse := 1.0 / u;
    assert 1.0 <= inverse by {
      assert u * inverse == 1.0;
    }
    assert 0.0 <= r * (inverse - 1.0);
  }

  lemma UtilizationIdentity(u: real, r: real, d: real)
    requires 0.0 < u
    requires d <= r * (1.0 / u - 1.0) < d + 1.0
    ensures u * (r + d) <= r < u * (r + d + 1.0)
  {
    var inverse := 1.0 / u;
    assert u * inverse == 1.0;
    var x := r * (inverse - 1.0);
    calc {
      u * (r + x);
      u * (r * inverse);
      r * (u * inverse);
      r;
    }
    assert u * (r + d) <= u * (r + x);
    assert u * (r + x) < u * (r + d + 1.0);
  }
}
