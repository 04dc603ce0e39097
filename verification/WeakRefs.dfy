/** Weak-reference processing: a phase that persists across calls, advanced by each call made for a
    full collection. */
module WeakRefs {

  datatype Phase = Phase1 | Phase2 | Phase3

  datatype Upcall = SweepSystemWeaks | ProcessReferences(phase: Phase, clearSoft: bool)

  /** What a call finds out about the collection it runs in. */
  datatype Call = Call(nursery: bool, emergency: bool, zygote: bool)

  function Following(p: Phase): Phase {
    match p
    case Phase1 => Phase2
    case Phase2 => Phase3
    case Phase3 => Phase1
  }

  function PhaseAfter(p: Phase, call: Call): Phase {
    if call.nursery then p else Following(p)
  }

  function UpcallOf(p: Phase, call: Call): Upcall {
    if call.nursery then SweepSystemWeaks else ProcessReferences(p, call.emergency || call.zygote)
  }

  /** The caller has to call again before the collection is over. */
  predicate Again(p: Phase, call: Call) {
    !call.nursery && p != Phase3
  }

  class RefProcessor {
    var phase: Phase
    var upcalls: seq<Upcall>

    constructor ()
      ensures phase == Phase1 && upcalls == []
    {
      phase := Phase1;
      upcalls := [];
    }

    method ProcessWeakRefs(call: Call) returns (again: bool)
      modifies this
      ensures phase == PhaseAfter(old(phase), call)
      ensures upcalls == old(upcalls) + [UpcallOf(old(phase), call)]
      ensures again == Again(old(phase), call)
    {
      if call.nursery {
        upcalls := upcalls + [SweepSystemWeaks];
        again := false;
      } else {
        var clearSoft := call.emergency || call.zygote;
        match phase {
          case Phase1 =>
            upcalls := upcalls + [ProcessReferences(Phase1, clearSoft)];
            phase := Phase2;
            again := true;
          case Phase2 =>
            upcalls := upcalls + [ProcessReferences(Phase2, clearSoft)];
            phase := Phase3;
            again := true;
          case Phase3 =>
            upcalls := upcalls + [ProcessReferences(Phase3, clearSoft)];
            phase := Phase1;
            again := false;
        }
      }
    }

    /** One collection: the caller repeats while it is told to, at most three times. */
    method RunCollection(gc: Collection) returns (calls: nat)
      requires phase == Phase1
      modifies this
      ensures phase == Phase1
      ensures upcalls == old(upcalls) + CollectionUpcalls(gc)
      ensures calls == |CollectionUpcalls(gc)| <= 3
    {
      calls := 1;
      var again := ProcessWeakRefs(CallAt(gc, 0));
      while again
        invariant 1 <= calls <= 3
        invariant again ==> !gc.nursery && calls < 3 && phase == (if calls == 1 then Phase2 else Phase3)
        invariant !again ==> phase == Phase1 && calls == |CollectionUpcalls(gc)|
        invariant upcalls == old(upcalls) + CollectionUpcalls(gc)[..calls]
        decreases 3 - calls
      {
        again := ProcessWeakRefs(CallAt(gc, calls));
        calls := calls + 1;
      }
    }

    /** Any number of collections, one after the other. */
    method RunCollections(gcs: seq<Collection>)
      requires phase == Phase1
      modifies this
      ensures phase == Phase1
      ensures upcalls == old(upcalls) + AllUpcalls(gcs)
    {
      for i := 0 to |gcs|
        invariant phase == Phase1
        invariant upcalls == old(upcalls) + AllUpcalls(gcs[..i])
      {
        var calls := RunCollection(gcs[i]);
        AllUpcallsExtend(gcs, i);
      }
      assert gcs[..|gcs|] == gcs;
    }
  }

  /** A collection has one kind throughout; whether it is an emergency may change between calls. */
  datatype Collection = Collection(nursery: bool, zygote: bool, emergency: (bool, bool, bool))

  function CallAt(gc: Collection, i: nat): Call {
    Call(gc.nursery, if i == 0 then gc.emergency.0 else if i == 1 then gc.emergency.1 else gc.emergency.2, gc.zygote)
  }

  /** What one collection asks of the runtime: a single sweep, or the three phases in order. */
  function CollectionUpcalls(gc: Collection): seq<Upcall> {
    if gc.nursery then [SweepSystemWeaks]
    else
      [ProcessReferences(Phase1, gc.emergency.0 || gc.zygote),
       ProcessReferences(Phase2, gc.emergency.1 || gc.zygote),
       ProcessReferences(Phase3, gc.emergency.2 || gc.zygote)]
  }

  function AllUpcalls(gcs: seq<Collection>): seq<Upcall>
    decreases |gcs|
  {
    if gcs == [] then [] else AllUpcalls(gcs[..|gcs| - 1]) + CollectionUpcalls(gcs[|gcs| - 1])
  }

  lemma AllUpcallsExtend(gcs: seq<Collection>, i: nat)
    requires i < |gcs|
    ensures AllUpcalls(gcs[..i + 1]) == AllUpcalls(gcs[..i]) + CollectionUpcalls(gcs[i])
  {
    assert gcs[..i + 1][..i] == gcs[..i];
  }

  /** Sweeps of system weaks among the upcalls. */
  function Sweeps(upcalls: seq<Upcall>): nat {
    if upcalls == [] then 0 else (if upcalls[0].SweepSystemWeaks? then 1 else 0) + Sweeps(upcalls[1..])
  }

  function Nurseries(gcs: seq<Collection>): nat
    decreases |gcs|
  {
    if gcs == [] then 0 else Nurseries(gcs[..|gcs| - 1]) + if gcs[|gcs| - 1].nursery then 1 else 0
  }

  lemma {:induction false} UpcallsConcat(s: seq<Upcall>, t: seq<Upcall>)
    ensures PhasesProcessed(s + t) == PhasesProcessed(s) + PhasesProcessed(t)
    ensures Sweeps(s + t) == Sweeps(s) + Sweeps(t)
    decreases |s|
  {
    if s == [] {
      assert s + t == t;
    } else {
      assert (s + t)[1..] == s[1..] + t;
      UpcallsConcat(s[1..], t);
    }
  }

  lemma CollectionTrace(gc: Collection)
    ensures PhasesProcessed(CollectionUpcalls(gc)) == if gc.nursery then [] else [Phase1, Phase2, Phase3]
    ensures Sweeps(CollectionUpcalls(gc)) == if gc.nursery then 1 else 0
  {
    var calls := CollectionUpcalls(gc);
    if gc.nursery {
      assert calls[1..] == [];
    } else {
      assert calls[1..] == [calls[1], calls[2]] && calls[1..][1..] == [calls[2]] && calls[1..][1..][1..] == [];
      assert PhasesProcessed([calls[2]]) == [Phase3] && Sweeps([calls[2]]) == 0;
      assert PhasesProcessed([calls[1], calls[2]]) == [Phase2, Phase3];
    }
  }

  function CycleAt(i: nat): Phase {
    if i % 3 == 0 then Phase1 else if i % 3 == 1 then Phase2 else Phase3
  }

  lemma LastCycle(before: seq<Phase>, cycle: seq<Phase>, cycles: nat, i: nat)
    requires |before| == 3 * cycles
    requires cycle == [] || cycle == [Phase1, Phase2, Phase3]
    requires i < |before| ==> before[i] == CycleAt(i)
    ensures i < |before + cycle| ==> (before + cycle)[i] == CycleAt(i)
  {
    if |before| <= i < |before + cycle| {
      assert i == 3 * cycles || i == 3 * cycles + 1 || i == 3 * cycles + 2;
    }
  }

  /** Over any sequence of collections, the phases processed are Phase1, Phase2, Phase3 over and over,
      once for each full collection, and system weaks are swept once for each nursery collection. */
  lemma {:induction false} CollectionsCyclePhases(gcs: seq<Collection>, i: nat)
    ensures var phases := PhasesProcessed(AllUpcalls(gcs));
            && |phases| == 3 * (|gcs| - Nurseries(gcs))
            && (i < |phases| ==> phases[i] == CycleAt(i))
    ensures Sweeps(AllUpcalls(gcs)) == Nurseries(gcs) <= |gcs|
    decreases |gcs|
  {
    if gcs != [] {
      var last := |gcs| - 1;
      CollectionsCyclePhases(gcs[..last], i);
      UpcallsConcat(AllUpcalls(gcs[..last]), CollectionUpcalls(gcs[last]));
      CollectionTrace(gcs[last]);
      LastCycle(PhasesProcessed(AllUpcalls(gcs[..last])), PhasesProcessed(CollectionUpcalls(gcs[last])),
                last - Nurseries(gcs[..last]), i);
    }
  }

  // ---------------------------------------------------------------- Any calls whatever

  function Upcalls(p: Phase, calls: seq<Call>): seq<Upcall>
    decreases |calls|
  {
    if calls == [] then []
    else [UpcallOf(p, calls[0])] + Upcalls(PhaseAfter(p, calls[0]), calls[1..])
  }

  /** The phases for which references were processed, in order. */
  function PhasesProcessed(upcalls: seq<Upcall>): seq<Phase> {
    if upcalls == [] then []
    else (if upcalls[0].ProcessReferences? then [upcalls[0].phase] else []) + PhasesProcessed(upcalls[1..])
  }

  function PhaseNumber(start: Phase, n: nat): Phase {
    if n == 0 then start else Following(PhaseNumber(start, n - 1))
  }

  lemma {:induction false} PhaseNumberFromNext(start: Phase, n: nat)
    ensures PhaseNumber(Following(start), n) == PhaseNumber(start, n + 1)
  {
    if n > 0 {
      PhaseNumberFromNext(start, n - 1);
    }
  }

  /** The number of calls made for full collections. */
  function FullCalls(calls: seq<Call>): nat {
    if calls == [] then 0 else (if calls[0].nursery then 0 else 1) + FullCalls(calls[1..])
  }

  /** Each call makes one upcall: a sweep exactly for the nursery calls, and otherwise the phase
      numbered by the full calls before it, clearing soft references as that call asks. */
  lemma {:induction false} EachCallMakesItsUpcall(p: Phase, calls: seq<Call>, k: nat)
    requires k < |calls|
    ensures |Upcalls(p, calls)| == |calls|
    ensures Upcalls(p, calls)[k]
         == if calls[k].nursery then SweepSystemWeaks
            else ProcessReferences(PhaseNumber(p, FullCalls(calls[..k])), calls[k].emergency || calls[k].zygote)
    decreases |calls|
  {
    var rest, next := calls[1..], PhaseAfter(p, calls[0]);
    if |calls| > 1 {
      EachCallMakesItsUpcall(next, rest, if k == 0 then 0 else k - 1);
    }
    if k > 0 {
      assert calls[..k][1..] == rest[..k - 1];
      if !calls[0].nursery {
        PhaseNumberFromNext(p, FullCalls(rest[..k - 1]));
      }
    }
  }

  /** No phase is lost: as many are processed as there are full calls. */
  lemma {:induction false} EveryFullCallProcessesOnePhase(p: Phase, calls: seq<Call>)
    ensures |PhasesProcessed(Upcalls(p, calls))| == FullCalls(calls)
    decreases |calls|
  {
    if calls != [] {
      var upcalls := Upcalls(p, calls);
      assert upcalls[1..] == Upcalls(PhaseAfter(p, calls[0]), calls[1..]);
      EveryFullCallProcessesOnePhase(PhaseAfter(p, calls[0]), calls[1..]);
    }
  }

  /** Even if calls for nursery and full collections are mixed in any order, the full calls
      process the phases of the cycle Phase1, Phase2, Phase3 in turn, one each. */
  lemma {:induction false} PhasesAlwaysCycle(p: Phase, calls: seq<Call>, i: nat)
    requires i < FullCalls(calls)
    ensures |PhasesProcessed(Upcalls(p, calls))| == FullCalls(calls)
    ensures PhasesProcessed(Upcalls(p, calls))[i] == PhaseNumber(p, i)
    decreases |calls|
  {
    EveryFullCallProcessesOnePhase(p, calls);
    if calls != [] {
      var upcalls := Upcalls(p, calls);
      assert upcalls[1..] == Upcalls(PhaseAfter(p, calls[0]), calls[1..]);
      if calls[0].nursery {
        PhasesAlwaysCycle(p, calls[1..], i);
      } else if i > 0 {
        PhasesAlwaysCycle(Following(p), calls[1..], i - 1);
        PhaseNumberFromNext(p, i - 1);
      }
    }
  }
}
