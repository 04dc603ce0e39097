/** What each whole step of the trigger does, in closed form: how a collection sizes the heap, how
    polls and registrations move the counters, and what the limit operations keep. Sizes are stated
    from the configuration and the readings alone. */
module TriggerLaws {
  import opened Machine
  import opened Trigger
  import opened TriggerProperties

  // ---------------------------------------------------------------- Scaled sizes

  /** A page count times a factor, cut off to a whole number that a `usize` can hold. */
  function Scaled(pages: nat, factor: real): int {
    Max(0, Min(0xFFFF_FFFF_FFFF_FFFF, (pages as real * factor).Floor))
  }

  /** The growth factor of a collection: the configured one in the foreground, else one. */
  function Factor(c: Config, gc: Collection): real {
    if gc.jankPerceptible then c.foregroundMultiplier else 1.0
  }

  lemma ScaleIsScaled(pages: Usize, factor: real)
    ensures Scale(pages, factor) == Scaled(pages, factor)
    ensures Scaled(pages, 1.0) == pages
  {
    ScaleByOne(pages);
    var x := pages as real * factor;
    if x <= 0.0 {
      assert x.Floor <= 0;
    } else if x >= USIZE_MODULUS as real {
      assert x.Floor >= USIZE_MODULUS;
    }
  }

  // ---------------------------------------------------------------- The end of a collection

  /** The heap after a collection that wanted `size` pages and grew by `growth` before scaling: room
      is made for the pending pages if the free ones do not cover them, the limit cuts the target
      off, and in the background a growth is kept, scaled for the foreground, as the cached minimum. */
  predicate SizedTo(c: Config, s: State, gc: Collection, size: nat, growth: nat, after: State) {
    && after.target == Min(s.growthLimit, if size < gc.reserved + s.pending then size + s.pending else size)
    && after.minForegroundTarget
       == (if Factor(c, gc) <= 1.0 && growth > 0
           then Min(s.growthLimit, gc.reserved + Scaled(growth, c.foregroundMultiplier)) else 0)
    && after.capacity == s.capacity && after.growthLimit == s.growthLimit
    && after.pending == 0 && after.reservedBeforeGc == 0
  }

  lemma ScaledGrowthFits(c: Config, s: State, gc: Collection, growth: Usize)
    requires ResizeFits(c, s, gc.reserved)
    requires growth <= Max(c.minFree, c.maxFree)
    ensures Scale(growth, Multiplier(c, gc.jankPerceptible)) == Scaled(growth, Factor(c, gc))
    ensures Scale(growth, c.foregroundMultiplier) == Scaled(growth, c.foregroundMultiplier)
    ensures gc.reserved + Scaled(growth, Factor(c, gc)) + s.pending < USIZE_MODULUS
    ensures gc.reserved + Scaled(growth, c.foregroundMultiplier) < USIZE_MODULUS
  {
    ScaleIsScaled(growth, Factor(c, gc));
    ScaleIsScaled(growth, c.foregroundMultiplier);
    ScaledGrowthIsBounded(c, gc.jankPerceptible, growth);
    ScaledGrowthIsBounded(c, true, growth);
  }

  /** A nursery collection leaves the heap as large as it was, except that it covers the reserved
      pages and leaves no more free than the scaled maximum: the size falls only when more than that
      is free, and then to exactly that. */
  lemma NurserySizing(c: Config, s: State, gc: Collection)
    requires gc.nursery
    requires ResizeFits(c, s, gc.reserved)
    ensures var most := gc.reserved + Scaled(c.maxFree, Factor(c, gc));
            SizedTo(c, s, gc, Max(gc.reserved, Min(s.target, most)), if most < s.target then c.maxFree else 0,
                    Step(c, s, GcEnd(gc)))
    ensures s.pending == 0 ==>
              Step(c, s, GcEnd(gc)).target
              == Min(s.growthLimit, Max(gc.reserved, Min(s.target, gc.reserved + Scaled(c.maxFree, Factor(c, gc)))))
  {
    ScaledGrowthFits(c, s, gc, c.maxFree);
  }

  /** The pages by which the heap would have to grow for `reserved` to be the wanted fraction of it. */
  function WantedGrowth(c: Config, reserved: nat): real
    requires c.utilization != 0.0
  {
    reserved as real * (1.0 / c.utilization - 1.0)
  }

  lemma DeltaIsWanted(c: Config, reserved: Usize)
    requires c.utilization != 0.0
    ensures UtilizationDelta(c, reserved) == Max(0, Min(0xFFFF_FFFF_FFFF_FFFF, WantedGrowth(c, reserved).Floor))
  {
    var x := WantedGrowth(c, reserved);
    if x <= 0.0 {
      assert x.Floor <= 0;
    } else if x >= USIZE_MODULUS as real {
      assert x.Floor >= USIZE_MODULUS;
    }
  }

  /** A full-heap collection grows the heap from the reserved pages by what the utilization asks for
      if that lies between the two bounds on free pages, by the minimum if it is below, and by the
      maximum if it is above; a minimum above the maximum always wins. */
  lemma FullHeapSizing(c: Config, s: State, gc: Collection)
    requires !gc.nursery
    requires c.utilization != 0.0
    requires ResizeFits(c, s, gc.reserved)
    ensures var wanted := WantedGrowth(c, gc.reserved).Floor;
            var after := Step(c, s, GcEnd(gc));
            && (wanted <= c.minFree || c.maxFree <= c.minFree ==>
                  SizedTo(c, s, gc, gc.reserved + Scaled(c.minFree, Factor(c, gc)), c.minFree, after))
            && (c.minFree <= c.maxFree <= wanted ==>
                  SizedTo(c, s, gc, gc.reserved + Scaled(c.maxFree, Factor(c, gc)), c.maxFree, after))
            && (c.minFree <= wanted <= c.maxFree ==>
                  SizedTo(c, s, gc, gc.reserved + Scaled(wanted, Factor(c, gc)), wanted, after))
  {
    GrowthFollowsWanted(c, gc.reserved);
    FullHeapStep(c, s, gc);
  }

  lemma GrowthFollowsWanted(c: Config, reserved: Usize)
    requires c.utilization != 0.0
    ensures var wanted, growth := WantedGrowth(c, reserved).Floor, FullHeapGrowth(c, reserved);
            && (wanted <= c.minFree || c.maxFree <= c.minFree ==> growth == c.minFree)
            && (c.minFree <= c.maxFree <= wanted ==> growth == c.maxFree)
            && (c.minFree <= wanted <= c.maxFree ==> growth == wanted)
  {
    DeltaIsWanted(c, reserved);
  }

  lemma FullHeapStep(c: Config, s: State, gc: Collection)
    requires !gc.nursery
    requires ResizeFits(c, s, gc.reserved)
    ensures var growth := FullHeapGrowth(c, gc.reserved);
            SizedTo(c, s, gc, gc.reserved + Scaled(growth, Factor(c, gc)), growth, Step(c, s, GcEnd(gc)))
  {
    ScaledGrowthFits(c, s, gc, FullHeapGrowth(c, gc.reserved));
  }

  /** With a utilization of zero the heap grows by the larger bound, or by the minimum if it is empty. */
  lemma ZeroUtilizationSizing(c: Config, s: State, gc: Collection)
    requires !gc.nursery
    requires c.utilization == 0.0
    requires ResizeFits(c, s, gc.reserved)
    ensures var growth := if gc.reserved == 0 then c.minFree else Max(c.minFree, c.maxFree);
            SizedTo(c, s, gc, gc.reserved + Scaled(growth, Factor(c, gc)), growth, Step(c, s, GcEnd(gc)))
  {
    FullHeapStep(c, s, gc);
  }

  // ---------------------------------------------------------------- Polls and registrations

  /** A poll that declines leaves the larger of the target and the wanted pages as the target, and
      the counter at zero exactly if it had to raise; one that asks changes nothing. */
  lemma PollMovesExactly(c: Config, s: State, reserved: Usize)
    requires reserved + s.pending < USIZE_MODULUS
    ensures var wanted := reserved + s.pending;
            var next := Step(c, s, Poll(reserved));
            if wanted <= s.target || wanted > s.growthLimit then next == s
            else next == s.(target := wanted, pending := 0)
  {
  }

  /** The attempt that decides a poll is the first that is not a spurious failure: every one before it
      found room to raise the target and failed without cause, and it did not. */
  lemma {:induction false} DecidingIsFirstFairAttempt(s: State, attempts: seq<Attempt>) returns (i: nat)
    requires EndsFairly(attempts)
    ensures i < |attempts| && Deciding(s, attempts) == attempts[i].reserved
    ensures !(attempts[i].spurious && PollRaises(s, attempts[i].reserved))
    ensures forall j :: 0 <= j < i ==> attempts[j].spurious && PollRaises(s, attempts[j].reserved)
    decreases |attempts|
  {
    if attempts[0].spurious && PollRaises(s, attempts[0].reserved) {
      i := DecidingIsFirstFairAttempt(s, attempts[1..]);
      i := i + 1;
    } else {
      i := 0;
    }
  }

  function Registrations(pages: seq<Usize>): seq<Op> {
    seq(|pages|, i requires 0 <= i < |pages| => PendingAllocation(pages[i]))
  }

  function Sum(pages: seq<Usize>): nat {
    if pages == [] then 0 else pages[0] + Sum(pages[1..])
  }

  /** Any number of registrations add up in the counter, whatever it held, modulo its width, and
      change nothing else. */
  lemma {:induction false} RegistrationsAddUp(c: Config, s: State, pages: seq<Usize>)
    ensures Run(c, s, Registrations(pages)) == s.(pending := (s.pending + Sum(pages)) % USIZE_MODULUS)
    decreases |pages|
  {
    if pages != [] {
      var next := Step(c, s, PendingAllocation(pages[0]));
      assert Registrations(pages)[1..] == Registrations(pages[1..]);
      RegistrationsAddUp(c, next, pages[1..]);
      WrappedSum(s.pending, pages[0], Sum(pages[1..]));
    }
  }

  lemma WrappedSum(a: Usize, b: Usize, rest: nat)
    ensures (WrapAdd(a, b) + rest) % USIZE_MODULUS == (a + b + rest) % USIZE_MODULUS
  {
  }

  // ---------------------------------------------------------------- Limits and other events

  /** Clearing the limit moves it to the capacity, and with it a target that stood at the limit; any
      other target is kept. */
  lemma ClearingMovesExactly(c: Config, s: State)
    requires s.growthLimit <= s.capacity
    ensures Step(c, s, ClearGrowthLimit)
         == s.(growthLimit := s.capacity, target := if s.target == s.growthLimit then s.capacity else s.target)
  {
  }

  /** A clamp takes capacity, limit and target to the whole 4 KiB pages of the given size, and leaves
      the cached minimum and the counters. A new trigger holds its sizes in the same pages. */
  lemma SizesAreInPages(c: Config, s: State, bytes: Usize, initialSize: Usize, growthLimit: Usize)
    ensures var clamped := Step(c, s, ClampMaxHeapSize(bytes));
            && clamped == s.(capacity := clamped.capacity, growthLimit := clamped.capacity, target := clamped.capacity)
            && clamped.capacity * 4096 <= bytes < (clamped.capacity + 1) * 4096
    ensures var created := InitialState(initialSize, bytes, growthLimit);
            && created.capacity * 4096 <= bytes < (created.capacity + 1) * 4096
            && created.growthLimit * 4096 <= growthLimit < (created.growthLimit + 1) * 4096
            && created.target * 4096 <= initialSize < (created.target + 1) * 4096
            && created.pending == created.reservedBeforeGc == created.minForegroundTarget == 0
  {
  }

  /** A switch to the foreground never lowers the target, reaches the cached minimum, goes no further
      than it has to, and changes nothing else. */
  lemma SwitchReachesMinimum(c: Config, s: State)
    ensures var next := Step(c, s, JankSwitch);
            && s.target <= next.target && s.minForegroundTarget <= next.target
            && (next.target == s.target || next.target == s.minForegroundTarget)
            && next == s.(target := next.target)
  {
  }

  /** The reserved pages read by the last start of a collection that has not ended since. */
  function LastStart(before: Usize, ops: seq<Op>): Usize {
    if ops == [] then before
    else
      match ops[|ops| - 1]
      case GcStart(reserved) => reserved
      case GcEnd(_) => 0
      case _ => LastStart(before, ops[..|ops| - 1])
  }

  /** Over every run the size before the collection is that of the last start without an end. */
  lemma {:induction false} SizeBeforeCollectionIsKept(c: Config, s: State, ops: seq<Op>)
    ensures Run(c, s, ops).reservedBeforeGc == LastStart(s.reservedBeforeGc, ops)
    decreases |ops|
  {
    if ops != [] {
      var last := |ops| - 1;
      assert ops[..last] + [ops[last]] == ops;
      RunSplits(c, s, ops[..last], [ops[last]]);
      assert [ops[last]][1..] == [];
      assert Run(c, Run(c, s, ops[..last]), [ops[last]]) == Step(c, Run(c, s, ops[..last]), ops[last]);
      SizeBeforeCollectionIsKept(c, s, ops[..last]);
    }
  }
}
