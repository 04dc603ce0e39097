/** The heap-sizing state of the ART GC trigger. Every operation is first given as a function
    from state to state; the class below performs it step by step on mutable fields. */
module Trigger {
  import opened Machine

  const BYTES_IN_PAGE := 4096

  /** Parameters fixed when the trigger is created. Free-space bounds are in pages. */
  datatype Config = Config(
    minFree: Usize,
    maxFree: Usize,
    utilization: real,
    foregroundMultiplier: real)

  /** The atomic fields, in pages. */
  datatype State = State(
    capacity: Usize,
    growthLimit: Usize,
    target: Usize,
    pending: Usize,
    reservedBeforeGc: Usize,
    minForegroundTarget: Usize)

  /** What a finished collection reports to the trigger. */
  datatype Collection = Collection(reserved: Usize, jankPerceptible: bool, nursery: bool)

  function InitialState(initialSize: Usize, capacity: Usize, growthLimit: Usize): State {
    State(capacity / BYTES_IN_PAGE, growthLimit / BYTES_IN_PAGE, initialSize / BYTES_IN_PAGE, 0, 0, 0)
  }

  /** The `as usize` cast of a float: truncation that saturates at both ends. */
  function ToUsize(x: real): Usize {
    if x <= 0.0 then 0
    else if x >= USIZE_MODULUS as real then USIZE_MODULUS - 1
    else x.Floor
  }

  function Scale(pages: Usize, multiplier: real): Usize {
    ToUsize(pages as real * multiplier)
  }

  function Multiplier(c: Config, jankPerceptible: bool): real {
    if jankPerceptible then c.foregroundMultiplier else 1.0
  }

  /** Pages to add so that `reserved` is the wanted fraction of the heap. A zero utilization
      divides to infinity, which the cast saturates; zero times infinity casts to zero. */
  function UtilizationDelta(c: Config, reserved: Usize): Usize {
    if c.utilization == 0.0 then
      if reserved == 0 then 0 else USIZE_MODULUS - 1
    else
      ToUsize(reserved as real * (1.0 / c.utilization - 1.0))
  }

  function FullHeapGrowth(c: Config, reserved: Usize): Usize {
    Max(Min(UtilizationDelta(c, reserved), c.maxFree), c.minFree)
  }

  /** The heap size wanted after a collection, before pending pages and the limit are applied,
      and the growth that the cached foreground minimum is computed from. */
  datatype Sizing = Sizing(size: Usize, growth: Usize)

  function Resize(c: Config, s: State, gc: Collection): Sizing {
    var multiplier := Multiplier(c, gc.jankPerceptible);
    if gc.nursery then
      var shrunk := WrapAdd(gc.reserved, Scale(c.maxFree, multiplier));
      if shrunk < s.target then Sizing(shrunk, c.maxFree)
      else Sizing(Max(gc.reserved, s.target), 0)
    else
      var growth := FullHeapGrowth(c, gc.reserved);
      Sizing(WrapAdd(gc.reserved, Scale(growth, multiplier)), growth)
  }

  function WithPending(s: State, size: Usize, reserved: Usize): Usize {
    if WrapSub(size, reserved) < s.pending then WrapAdd(size, s.pending) else size
  }

  function IdealFootprint(s: State, size: Usize): Usize {
    Min(size, s.growthLimit)
  }

  function ForegroundMinimum(c: Config, s: State, gc: Collection, growth: Usize): Usize {
    if Multiplier(c, gc.jankPerceptible) <= 1.0 && growth > 0 then
      Min(WrapAdd(gc.reserved, Scale(growth, c.foregroundMultiplier)), s.growthLimit)
    else
      0
  }

  function GrowForUtilization(c: Config, s: State, gc: Collection): State {
    var sizing := Resize(c, s, gc);
    s.(target := IdealFootprint(s, WithPending(s, sizing.size, gc.reserved)),
       minForegroundTarget := ForegroundMinimum(c, s, gc, sizing.growth))
  }

  function PollSum(s: State, reserved: Usize): Usize {
    WrapAdd(reserved, s.pending)
  }

  /** The poll loop asks for a collection. */
  predicate PollRequests(s: State, reserved: Usize) {
    PollSum(s, reserved) > s.target && PollSum(s, reserved) > s.growthLimit
  }

  /** The poll loop raises the target instead. */
  predicate PollRaises(s: State, reserved: Usize) {
    s.target < PollSum(s, reserved) <= s.growthLimit
  }

  /** What one attempt of the poll loop meets: the reserved pages it reads, and whether its weak
      exchange fails without cause. */
  datatype Attempt = Attempt(reserved: Usize, spurious: bool)

  /** A weak exchange does not fail without cause for ever. */
  predicate EndsFairly(attempts: seq<Attempt>) {
    attempts != [] && !attempts[|attempts| - 1].spurious
  }

  /** The reserved pages read by the attempt that decides a poll: the first one whose exchange
      does not fail, or that needs none. */
  function Deciding(s: State, attempts: seq<Attempt>): Usize
    requires EndsFairly(attempts)
    decreases |attempts|
  {
    var attempt := attempts[0];
    if attempt.spurious && PollRaises(s, attempt.reserved) then Deciding(s, attempts[1..]) else attempt.reserved
  }

  datatype Op =
    | PendingAllocation(pages: Usize)
    | Poll(reserved: Usize)
    | GcStart(reservedBefore: Usize)
    | GcEnd(gc: Collection)
    | JankSwitch
    | ClampGrowthLimit
    | ClearGrowthLimit
    | ClampMaxHeapSize(bytes: Usize)

  /** One whole operation on the trigger. */
  function Step(c: Config, s: State, op: Op): State {
    match op
    case PendingAllocation(pages) => s.(pending := WrapAdd(s.pending, pages))
    case Poll(reserved) =>
      if PollRaises(s, reserved) then s.(target := PollSum(s, reserved), pending := 0) else s
    case GcStart(reserved) => s.(reservedBeforeGc := reserved)
    case GcEnd(gc) => GrowForUtilization(c, s, gc).(pending := 0, reservedBeforeGc := 0)
    case JankSwitch => s.(target := Max(s.target, s.minForegroundTarget))
    case ClampGrowthLimit => s.(capacity := s.growthLimit)
    case ClearGrowthLimit =>
      s.(target := if s.target == s.growthLimit < s.capacity then s.capacity else s.target,
         growthLimit := s.capacity)
    case ClampMaxHeapSize(bytes) =>
      var pages := bytes / BYTES_IN_PAGE;
      s.(capacity := pages, growthLimit := pages, target := pages)
  }

  function Run(c: Config, s: State, ops: seq<Op>): State
    decreases |ops|
  {
    if ops == [] then s else Run(c, Step(c, s, ops[0]), ops[1..])
  }

  /** The trigger object, with the loads and stores the runtime performs. Each method runs as
      one step; `PollInterleaving` breaks polling into its atomic operations. */
  class ArtTrigger {
    const config: Config
    var capacity: Usize
    var growthLimit: Usize
    var targetFootprint: Usize
    var pendingAllocation: Usize
    var reservedPagesBeforeGc: Usize
    var minForegroundTargetFootprint: Usize

    ghost function Snapshot(): State
      reads this
    {
      State(capacity, growthLimit, targetFootprint, pendingAllocation, reservedPagesBeforeGc,
            minForegroundTargetFootprint)
    }

    constructor (minFree: Usize, maxFree: Usize, initialSize: Usize, capacity: Usize,
                 growthLimit: Usize, utilization: real, foregroundMultiplier: real)
      ensures Snapshot() == InitialState(initialSize, capacity, growthLimit)
      ensures config == Config(minFree / BYTES_IN_PAGE, maxFree / BYTES_IN_PAGE, utilization,
                               foregroundMultiplier)
    {
      config := Config(minFree / BYTES_IN_PAGE, maxFree / BYTES_IN_PAGE, utilization, foregroundMultiplier);
      this.capacity := capacity / BYTES_IN_PAGE;
      this.growthLimit := growthLimit / BYTES_IN_PAGE;
      targetFootprint := initialSize / BYTES_IN_PAGE;
      pendingAllocation := 0;
      reservedPagesBeforeGc := 0;
      minForegroundTargetFootprint := 0;
    }

    /** Compare-and-exchange on the target; `spurious` makes a weak exchange fail without cause. */
    method CompareExchangeTarget(expected: Usize, desired: Usize, spurious: bool)
      returns (ok: bool, current: Usize)
      modifies this`targetFootprint
      ensures current == old(targetFootprint)
      ensures ok == (!spurious && current == expected)
      ensures targetFootprint == if ok then desired else current
    {
      current := targetFootprint;
      ok := !spurious && current == expected;
      if ok {
        targetFootprint := desired;
      }
    }

    method SetIdealFootprint(size: Usize)
      modifies this`targetFootprint
      ensures targetFootprint == IdealFootprint(old(Snapshot()), size)
    {
      var target := size;
      if target > growthLimit {
        target := growthLimit;
      }
      targetFootprint := target;
    }

    method OnPendingAllocation(pages: Usize)
      modifies this
      ensures Snapshot() == Step(config, old(Snapshot()), PendingAllocation(pages))
    {
      pendingAllocation := WrapAdd(pendingAllocation, pages);
    }

    method OnGcStart(reserved: Usize)
      modifies this
      ensures Snapshot() == Step(config, old(Snapshot()), GcStart(reserved))
    {
      reservedPagesBeforeGc := reserved;
    }

    method SetTargetForUtilization(gc: Collection)
      modifies this
      ensures Snapshot() == GrowForUtilization(config, old(Snapshot()), gc)
    {
      var growPages: Usize;
      var targetSize: Usize;
      var multiplier := Multiplier(config, gc.jankPerceptible);
      if gc.nursery {
        var adjustedMaxFree := Scale(config.maxFree, multiplier);
        if WrapAdd(gc.reserved, adjustedMaxFree) < targetFootprint {
          targetSize := WrapAdd(gc.reserved, adjustedMaxFree);
          growPages := config.maxFree;
        } else {
          targetSize := Max(gc.reserved, targetFootprint);
          growPages := 0;
        }
      } else {
        growPages := Min(UtilizationDelta(config, gc.reserved), config.maxFree);
        growPages := Max(growPages, config.minFree);
        targetSize := WrapAdd(gc.reserved, Scale(growPages, multiplier));
      }
      if WrapSub(targetSize, gc.reserved) < pendingAllocation {
        targetSize := WrapAdd(targetSize, pendingAllocation);
      }
      SetIdealFootprint(targetSize);
      if multiplier <= 1.0 && growPages > 0 {
        minForegroundTargetFootprint :=
          Min(WrapAdd(gc.reserved, Scale(growPages, config.foregroundMultiplier)), growthLimit);
      } else {
        minForegroundTargetFootprint := 0;
      }
    }

    method OnGcEnd(gc: Collection)
      modifies this
      ensures Snapshot() == Step(config, old(Snapshot()), GcEnd(gc))
    {
      SetTargetForUtilization(gc);
      pendingAllocation := 0;
      reservedPagesBeforeGc := 0;
    }

    /** The poll loop. Each attempt reads the reserved pages afresh and its weak exchange may fail
        without cause; `planRequires` stands for the plan's own answer. */
    method IsGcRequired(attempts: seq<Attempt>, planRequires: bool) returns (required: bool)
      requires EndsFairly(attempts)
      modifies this
      ensures Snapshot() == Step(config, old(Snapshot()), Poll(Deciding(old(Snapshot()), attempts)))
      ensures required == (PollRequests(old(Snapshot()), Deciding(old(Snapshot()), attempts)) || planRequires)
    {
      var gcRequired := false;
      var i := 0;
      var polling := true;
      while polling
        invariant 0 <= i <= |attempts|
        invariant polling ==> Snapshot() == old(Snapshot()) && !gcRequired && EndsFairly(attempts[i..])
                              && Deciding(old(Snapshot()), attempts[i..]) == Deciding(old(Snapshot()), attempts)
        invariant !polling ==>
                    var reserved := Deciding(old(Snapshot()), attempts);
                    && Snapshot() == Step(config, old(Snapshot()), Poll(reserved))
                    && gcRequired == PollRequests(old(Snapshot()), reserved)
        decreases polling, |attempts| - i
      {
        ghost var rest := attempts[i..];
        var oldTarget := targetFootprint;
        var reserved := attempts[i].reserved;
        var pending := pendingAllocation;
        var newTarget := WrapAdd(reserved, pending);
        if newTarget <= oldTarget {
          polling := false;
        } else if newTarget > growthLimit {
          gcRequired := true;
          polling := false;
        } else {
          var ok, _ := CompareExchangeTarget(oldTarget, newTarget, attempts[i].spurious);
          if ok {
            pendingAllocation := WrapSub(pendingAllocation, pending);
            polling := false;
          }
        }
        assert rest[1..] == attempts[i + 1..];
        i := i + 1;
      }
      required := gcRequired || planRequires;
    }

    method GrowHeapOnJankPerceptibleSwitch()
      modifies this
      ensures Snapshot() == Step(config, old(Snapshot()), JankSwitch)
    {
      var target := targetFootprint;
      if target < minForegroundTargetFootprint {
        var done := false;
        while !done
          invariant !done ==> Snapshot() == old(Snapshot()) && target == targetFootprint
          invariant done ==> Snapshot() == Step(config, old(Snapshot()), JankSwitch)
          decreases !done
        {
          done, target := CompareExchangeTarget(target, minForegroundTargetFootprint, false);
        }
      }
    }

    method ClampCapacityToGrowthLimit()
      modifies this
      ensures Snapshot() == Step(config, old(Snapshot()), ClampGrowthLimit)
    {
      capacity := growthLimit;
    }

    method ClearLimit()
      modifies this
      ensures Snapshot() == Step(config, old(Snapshot()), ClearGrowthLimit)
    {
      var max := capacity;
      var limit := growthLimit;
      if targetFootprint == limit && limit < max {
        targetFootprint := max;
      }
      growthLimit := max;
    }

    method ClampMaxHeap(maxHeapSize: Usize) returns (clamped: bool)
      modifies this
      ensures Snapshot() == Step(config, old(Snapshot()), ClampMaxHeapSize(maxHeapSize))
      ensures clamped
    {
      var pages: Usize := maxHeapSize / BYTES_IN_PAGE;
      capacity := pages;
      growthLimit := pages;
      SetIdealFootprint(pages);
      clamped := true;
    }
  }
}
