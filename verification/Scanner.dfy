/** The object scanner: it pushes the slots of an object's references into a visitor. The slots of
    each kind of object are first given as a sequence of addresses; the methods produce them with
    the scanner's own loops. */
module Scanner {
  import opened Machine
  import opened Bitmap
  import opened ClassLayout
  import opened ObjectModel

  // ---------------------------------------------------------------- What is visited

  /** The slot can be read and is not null. */
  predicate HoldsReference(mem: Memory, slot: nat) {
    slot in mem && mem[slot] != 0
  }

  function NonNull(mem: Memory, slots: seq<nat>): seq<nat> {
    if slots == [] then []
    else (if HoldsReference(mem, slots[0]) then [slots[0]] else []) + NonNull(mem, slots[1..])
  }

  /** `n` slots, four bytes apart. */
  function Stride(first: nat, n: nat): (slots: seq<nat>)
    ensures |slots| == n
  {
    if n == 0 then [] else Stride(first, n - 1) + [first + 4 * (n - 1)]
  }

  function InstanceSlots(mem: Memory, obj: nat, k: nat): seq<nat>
    requires ClassHeader(mem, k)
    requires BitmapReadable(mem, k)
  {
    FieldSlots(obj, InstanceBits(mem, k))
  }

  /** The slots of the static references of a resolved class. */
  function StaticSlots(mem: Memory, k: nat, pointerSize: nat): seq<nat>
    requires PointerSize(pointerSize)
    requires ClassHeader(mem, k)
    requires HasEmbeddedVtable(mem, k) ==> k + CLASS_BYTES in mem
  {
    Stride(k + FirstStaticReference(mem, k, pointerSize), StaticReferenceCount(mem, k))
  }

  predicate IsInstanceKind(kind: Kind) {
    kind == Instance || kind == WeakReference || kind == DexCache || kind == ClassLoader
  }

  function KindOfObject(mem: Memory, obj: nat): Kind
    requires ObjectHeader(mem, obj)
    requires ClassHeader(mem, ClassOf(mem, obj))
  {
    KindOf(ClassFlags(mem, ClassOf(mem, obj)))
  }

  /** The slots the scanner looks at besides the class slot. */
  function Candidates(mem: Memory, obj: nat, pointerSize: nat): seq<nat>
    requires PointerSize(pointerSize)
    requires WellFormedObject(mem, obj, pointerSize)
  {
    var k := ClassOf(mem, obj);
    match KindOfObject(mem, obj)
    case NoReferences => []
    case ClassObject =>
      InstanceSlots(mem, obj, k) + (if IsResolved(mem, obj) then StaticSlots(mem, obj, pointerSize) else [])
    case ObjectArray => Stride(obj + 12, mem[obj + 8])
    case Unexpected => []
    case _ => InstanceSlots(mem, obj, k)
  }

  /** What a scan reports: the class slot, then every candidate that is not null. */
  function ReportedSlots(mem: Memory, obj: nat, pointerSize: nat): seq<nat>
    requires PointerSize(pointerSize)
    requires WellFormedObject(mem, obj, pointerSize)
  {
    [obj] + NonNull(mem, Candidates(mem, obj, pointerSize))
  }

  /** How a scan ends: possibly with an upcall that reports more, or with a panic. */
  datatype Outcome = Finished | NativeRoots(kind: Kind) | Referent | UnexpectedFlags

  function OutcomeOf(kind: Kind, visitNativeRoots: bool): Outcome {
    match kind
    case ClassObject => if visitNativeRoots then NativeRoots(ClassObject) else Finished
    case DexCache => if visitNativeRoots then NativeRoots(DexCache) else Finished
    case ClassLoader => if visitNativeRoots then NativeRoots(ClassLoader) else Finished
    case WeakReference => Referent
    case Unexpected => UnexpectedFlags
    case _ => Finished
  }

  // ---------------------------------------------------------------- Where the candidates lie

  /** Distinct aligned slots in ascending order, all within [low, high). */
  predicate Within(slots: seq<nat>, low: nat, high: nat) {
    && Ascending(slots)
    && forall a :: a in slots ==> a % 4 == 0 && low <= a && a + 4 <= high
  }

  lemma {:induction false} StrideIsWithin(first: nat, n: nat)
    requires first % 4 == 0
    ensures Within(Stride(first, n), first, first + 4 * n)
    ensures forall i :: 0 <= i < n ==> Stride(first, n)[i] == first + 4 * i
  {
    if n > 0 {
      StrideIsWithin(first, n - 1);
      AscendingConcat(Stride(first, n - 1), [first + 4 * (n - 1)], first + 4 * (n - 1));
    }
  }

  lemma FieldSlotsAreWithin(obj: nat, words: seq<Word>, size: nat)
    requires obj % 4 == 0
    requires BitsWithin(Bits(words), size)
    ensures Within(FieldSlots(obj, Bits(words)), obj + 8, obj + size)
  {
    BitsAreExact(words);
    FieldSlotsAreExact(obj, Bits(words));
  }

  lemma WithinConcat(s: seq<nat>, t: seq<nat>, low: nat, split: nat, high: nat)
    requires Within(s, low, split) && Within(t, split, high)
    requires low <= split <= high
    ensures Within(s + t, low, high)
  {
    AscendingConcat(s, t, split);
  }

  /** A class object's slots fall into three ranges that do not meet: the class slot, instance
      fields inside the fixed part, and static references between it and the class's own bitmap. */
  lemma ClassObjectRanges(mem: Memory, obj: nat, pointerSize: nat)
    requires PointerSize(pointerSize)
    requires WellFormedObject(mem, obj, pointerSize)
    requires KindOfObject(mem, obj) == ClassObject
    ensures Within(InstanceSlots(mem, obj, ClassOf(mem, obj)), obj + 8, obj + CLASS_BYTES)
    ensures IsResolved(mem, obj) ==>
              && CLASS_BYTES <= SizeOfClass(mem, obj) - 4 * OverflowWordCount(mem, obj)
              && Within(StaticSlots(mem, obj, pointerSize), obj + CLASS_BYTES, OverflowBitmapStart(mem, obj))
    ensures ObjectSize(mem, obj) == SizeOfClass(mem, obj)
  {
    FieldSlotsAreWithin(obj, InstanceBitmap(mem, ClassOf(mem, obj)), CLASS_BYTES);
    if IsResolved(mem, obj) {
      StaticSlotsAreWithin(mem, obj, pointerSize);
    }
  }

  lemma StaticSlotsAreWithin(mem: Memory, k: nat, pointerSize: nat)
    requires PointerSize(pointerSize)
    requires WellFormedClass(mem, k, pointerSize)
    requires IsResolved(mem, k)
    ensures CLASS_BYTES <= SizeOfClass(mem, k) - 4 * OverflowWordCount(mem, k)
    ensures Within(StaticSlots(mem, k, pointerSize), k + CLASS_BYTES, OverflowBitmapStart(mem, k))
  {
    ReferencesStartIsAligned(HasEmbeddedVtable(mem, k), VtableLength(mem, k), pointerSize);
    StrideIsWithin(k + FirstStaticReference(mem, k, pointerSize), StaticReferenceCount(mem, k));
  }

  lemma CandidatesAreWithin(mem: Memory, obj: nat, pointerSize: nat)
    requires PointerSize(pointerSize)
    requires WellFormedObject(mem, obj, pointerSize)
    ensures Within(Candidates(mem, obj, pointerSize), obj + 8, obj + ObjectSize(mem, obj))
  {
    var kind := KindOfObject(mem, obj);
    if kind == ClassObject {
      ClassObjectRanges(mem, obj, pointerSize);
      if IsResolved(mem, obj) {
        WithinConcat(InstanceSlots(mem, obj, ClassOf(mem, obj)), StaticSlots(mem, obj, pointerSize),
                     obj + 8, obj + CLASS_BYTES, OverflowBitmapStart(mem, obj));
      }
    } else if kind == ObjectArray {
      ArrayCandidatesAreWithin(mem, obj, pointerSize);
    } else if IsInstanceKind(kind) {
      FieldSlotsAreWithin(obj, InstanceBitmap(mem, ClassOf(mem, obj)), InstanceSize(mem, ClassOf(mem, obj)));
    }
  }

  lemma ArrayCandidatesAreWithin(mem: Memory, obj: nat, pointerSize: nat)
    requires PointerSize(pointerSize)
    requires WellFormedObject(mem, obj, pointerSize)
    requires KindOfObject(mem, obj) == ObjectArray
    ensures Within(Candidates(mem, obj, pointerSize), obj + 12, obj + ObjectSize(mem, obj))
  {
    StrideIsWithin(obj + 12, mem[obj + 8]);
    var length: nat := mem[obj + 8];
    assert ArraySize(length, 2) == 12 + 4 * length;
  }

  predicate Readable(mem: Memory, slots: seq<nat>) {
    forall a :: a in slots ==> a in mem
  }

  /** A scan never reads outside the object it scans. */
  lemma CandidatesAreReadable(mem: Memory, obj: nat, pointerSize: nat)
    requires PointerSize(pointerSize)
    requires WellFormedObject(mem, obj, pointerSize)
    ensures Readable(mem, Candidates(mem, obj, pointerSize))
  {
    CandidatesAreWithin(mem, obj, pointerSize);
    assert Mapped(mem, obj, CopiedBytes(mem, obj));
  }

  // ---------------------------------------------------------------- Exactness of a scan

  lemma {:induction false} NonNullIsExact(mem: Memory, slots: seq<nat>)
    requires Ascending(slots)
    ensures Ascending(NonNull(mem, slots))
    ensures forall a :: a in NonNull(mem, slots) <==> a in slots && HoldsReference(mem, a)
    decreases |slots|
  {
    if slots != [] {
      var head := if HoldsReference(mem, slots[0]) then [slots[0]] else [];
      var rest := NonNull(mem, slots[1..]);
      NonNullIsExact(mem, slots[1..]);
      forall a
        ensures a in rest ==> slots[0] < a
        ensures a in NonNull(mem, slots) <==> a in slots && HoldsReference(mem, a)
      {
        InTail(slots, a);
        assert a in NonNull(mem, slots) <==> a in head || a in rest;
      }
      AscendingConcat(head, rest, slots[0] + 1);
    }
  }

  /** `reported` are distinct aligned words of the object in ascending order: exactly its class
      slot and the candidates that hold a reference. */
  ghost predicate ExactScan(mem: Memory, obj: nat, size: nat, candidates: seq<nat>, reported: seq<nat>) {
    && Within(reported, obj, obj + size)
    && (forall a :: a in reported <==> a == obj || (a in candidates && HoldsReference(mem, a)))
  }

  lemma FilteredScanIsExact(mem: Memory, obj: nat, size: nat, candidates: seq<nat>)
    requires obj % 4 == 0 && 8 <= size
    requires Within(candidates, obj + 8, obj + size)
    ensures ExactScan(mem, obj, size, candidates, [obj] + NonNull(mem, candidates))
  {
    var found := NonNull(mem, candidates);
    NonNullIsExact(mem, candidates);
    AscendingConcat([obj], found, obj + 1);
    forall a
      ensures a in [obj] + found <==> a == obj || (a in candidates && HoldsReference(mem, a))
    {
      assert a in [obj] + found <==> a == obj || a in found;
    }
  }

  /** For every well-formed object, a scan is exact. */
  lemma ScanIsExact(mem: Memory, obj: nat, pointerSize: nat)
    requires PointerSize(pointerSize)
    requires WellFormedObject(mem, obj, pointerSize)
    ensures ExactScan(mem, obj, ObjectSize(mem, obj), Candidates(mem, obj, pointerSize),
                      ReportedSlots(mem, obj, pointerSize))
  {
    CandidatesAreWithin(mem, obj, pointerSize);
    FilteredScanIsExact(mem, obj, ObjectSize(mem, obj), Candidates(mem, obj, pointerSize));
  }

  /** For an instance, the reported slots are the class slot and the non-null fields at 8 + 4 * b
      for each set bit `b` of its class's bitmap, inline or overflow. */
  lemma InstanceScanFollowsBitmap(mem: Memory, obj: nat, pointerSize: nat, b: nat)
    requires PointerSize(pointerSize)
    requires WellFormedObject(mem, obj, pointerSize)
    requires IsInstanceKind(KindOfObject(mem, obj))
    ensures var bitmap, reported := InstanceBitmap(mem, ClassOf(mem, obj)), ReportedSlots(mem, obj, pointerSize);
            && (FieldSlot(obj, b) in reported <==> BitmapBit(bitmap, b) && HoldsReference(mem, FieldSlot(obj, b)))
            && (forall a :: a in reported ==>
                  a == obj || exists c: nat :: BitmapBit(bitmap, c) && a == FieldSlot(obj, c))
  {
    var bitmap := InstanceBitmap(mem, ClassOf(mem, obj));
    ScanIsExact(mem, obj, pointerSize);
    BitsAreExact(bitmap);
    FieldSlotsAreExact(obj, Bits(bitmap));
  }

  /** Two classes with the same reference bits, one with the inline bitmap and one with overflow
      words (any number, so trailing zero words do not matter), give an object the same slots. */
  lemma InlineAndOverflowClassesAgree(mem: Memory, obj: nat, inline: nat, overflow: nat)
    requires ClassHeader(mem, inline) && ClassHeader(mem, overflow)
    requires !HasOverflowBitmap(mem, inline)
    requires HasOverflowBitmap(mem, overflow) && BitmapReadable(mem, overflow)
    requires forall b: nat :: BitmapBit(InstanceBitmap(mem, overflow), b) <==> Bit(ReferenceOffsets(mem, inline), b)
    ensures InstanceSlots(mem, obj, inline) == InstanceSlots(mem, obj, overflow)
  {
    var word, words := ReferenceOffsets(mem, inline), InstanceBitmap(mem, overflow);
    InlineBits(word);
    WordBitsAreExact(0, word);
    BitsAreExact(words);
    AscendingIsUnique(WordBits(0, word), Bits(words));
  }

  function ExampleWord(a: nat): Word {
    match a
    case 200 => 136          // class size
    case 224 => 16           // instance size
    case 236 => 1            // reference bitmap
    case 240 => 0x7000_0000  // status: resolved
    case 512 => 128          // class of the instance
    case 520 => 640          // its field
    case _ => 0
  }

  /** A class at 128 with one reference field in 16-byte instances, and an instance at 512 that
      refers to address 640. */
  function ExampleMemory(): Memory {
    map a: nat | 0 < a < 1024 && a % 4 == 0 :: ExampleWord(a)
  }

  lemma ExampleClass()
    ensures WellFormedClass(ExampleMemory(), 128, 8)
    ensures InstanceClass(ExampleMemory(), 128, 8)
    ensures InstanceBits(ExampleMemory(), 128) == [0]
  {
    var mem := ExampleMemory();
    assert ClassHeader(mem, 128);
    assert InstanceBitmap(mem, 128) == [1];
    InlineBits(1);
    assert WordBits(0, 1) == [0] + WordBits(1, 0);
  }

  /** Well-formed objects exist, and a scan of this one reports its class slot and its field. */
  lemma ExampleInstanceScans()
    ensures WellFormedObject(ExampleMemory(), 512, 8)
    ensures ReportedSlots(ExampleMemory(), 512, 8) == [512, 520]
  {
    var mem := ExampleMemory();
    ExampleClass();
    assert ClassOf(mem, 512) == 128;
    assert KindOfObject(mem, 512) == Instance;
    assert ObjectSize(mem, 512) == 16;
    assert Candidates(mem, 512, 8) == [520];
    assert NonNull(mem, [520]) == [520] by {
      assert [520][1..] == [];
    }
  }

  function ExampleClassWord(a: nat): Word {
    match a
    case 128 => 128          // java.lang.Class is its own class
    case 196 => 0x10         // its flags: its instances are classes
    case 200 => 136          // its size
    case 236 => 1            // its instances have one reference field, at offset 8
    case 240 => 0x7000_0000  // status: resolved
    case 512 => 128          // class of the class object
    case 520 => 640          // its class loader
    case 584 => 152          // its size
    case 604 => 2            // static references
    case 608 => 152          // size of its own instances
    case 620 => 0x8000_0002  // two overflow bitmap words
    case 624 => 0x7000_0000  // status: resolved
    case 648 => 640          // first static reference; the second is null
    case 660 => 5            // second bitmap word
    case _ => 0
  }

  /** java.lang.Class at 128, and at 512 a class with two static references and an overflow bitmap
      of two words for its own instances. */
  function ExampleClassMemory(): Memory {
    map a: nat | 0 < a < 2048 && a % 4 == 0 :: ExampleClassWord(a)
  }

  lemma ExampleClassOfClasses()
    ensures WellFormedClass(ExampleClassMemory(), 128, 8)
    ensures IsResolved(ExampleClassMemory(), 128) && BitmapReadable(ExampleClassMemory(), 128)
    ensures InstanceBits(ExampleClassMemory(), 128) == [0]
  {
    var mem := ExampleClassMemory();
    assert ClassHeader(mem, 128);
    assert InstanceBitmap(mem, 128) == [1];
    InlineBits(1);
    assert WordBits(0, 1) == [0] + WordBits(1, 0);
  }

  lemma ExampleClassStatics()
    ensures WellFormedClass(ExampleClassMemory(), 512, 8)
    ensures IsResolved(ExampleClassMemory(), 512)
    ensures OverflowWordCount(ExampleClassMemory(), 512) == 2
    ensures StaticSlots(ExampleClassMemory(), 512, 8) == [648, 652]
  {
    var mem := ExampleClassMemory();
    assert ClassHeader(mem, 512);
    assert StaticReferenceCount(mem, 512) == 2;
    assert FirstStaticReference(mem, 512, 8) == 136;
    assert Stride(648, 1) == [648];
  }

  lemma ExampleClassIsWellFormed()
    ensures WellFormedObject(ExampleClassMemory(), 512, 8)
    ensures KindOfObject(ExampleClassMemory(), 512) == ClassObject
    ensures ClassOf(ExampleClassMemory(), 512) == 128
  {
    var mem := ExampleClassMemory();
    ExampleClassOfClasses();
    ExampleClassStatics();
    assert ClassOf(mem, 512) == 128;
    assert ObjectSize(mem, 512) == 152;
  }

  lemma ExampleClassCandidates()
    ensures WellFormedObject(ExampleClassMemory(), 512, 8)
    ensures Candidates(ExampleClassMemory(), 512, 8) == [520, 648, 652]
  {
    ExampleClassOfClasses();
    ExampleClassStatics();
    ExampleClassIsWellFormed();
    assert InstanceSlots(ExampleClassMemory(), 512, 128) == [520];
  }

  lemma ExampleClassNonNull()
    ensures NonNull(ExampleClassMemory(), [520, 648, 652]) == [520, 648]
  {
    var mem := ExampleClassMemory();
    assert [520, 648, 652][1..] == [648, 652] && [648, 652][1..] == [652] && [652][1..] == [];
    assert NonNull(mem, [652]) == [];
    assert NonNull(mem, [648, 652]) == [648];
  }

  /** A class object with static references and an overflow bitmap is well formed, and its scan
      reports its class slot, its class loader and its one static reference that is not null. */
  lemma ExampleClassScans()
    ensures WellFormedObject(ExampleClassMemory(), 512, 8)
    ensures KindOfObject(ExampleClassMemory(), 512) == ClassObject
    ensures OverflowWordCount(ExampleClassMemory(), 512) == 2
    ensures ReportedSlots(ExampleClassMemory(), 512, 8) == [512, 520, 648]
  {
    ExampleClassStatics();
    ExampleClassIsWellFormed();
    ExampleClassCandidates();
    ExampleClassNonNull();
  }

  // ---------------------------------------------------------------- The scanner

  /** The receiver of reported slots. */
  class SlotVisitor {
    var slots: seq<nat>

    constructor ()
      ensures slots == []
    {
      slots := [];
    }

    method Push(slot: nat)
      modifies this
      ensures slots == old(slots) + [slot]
    {
      slots := slots + [slot];
    }
  }

  /** Reports a slot unless it is null. */
  method VisitSlot(mem: Memory, visitor: SlotVisitor, slot: nat)
    requires slot in mem
    modifies visitor
    ensures visitor.slots == old(visitor.slots) + (if HoldsReference(mem, slot) then [slot] else [])
  {
    if mem[slot] != 0 {
      visitor.Push(slot);
    }
  }

  lemma Associative(a: seq<nat>, b: seq<nat>, c: seq<nat>)
    ensures (a + b) + c == a + (b + c)
  {
  }

  lemma {:induction false} NonNullConcat(mem: Memory, s: seq<nat>, t: seq<nat>)
    ensures NonNull(mem, s + t) == NonNull(mem, s) + NonNull(mem, t)
    decreases |s|
  {
    if s == [] {
      assert s + t == t;
    } else {
      assert (s + t)[1..] == s[1..] + t;
      NonNullConcat(mem, s[1..], t);
    }
  }

  /** The references these bits stand for lie in the first `size` bytes of `obj`, which can be read. */
  ghost predicate FieldsReadable(mem: Memory, obj: nat, bits: seq<nat>, size: nat) {
    obj % 4 == 0 && Mapped(mem, obj, size) && BitsWithin(bits, size)
  }

  lemma FirstFieldReadable(mem: Memory, obj: nat, bit: nat, refs: nat, size: nat)
    requires FieldsReadable(mem, obj, WordBits(bit, refs), size)
    requires refs != 0
    ensures refs % 2 == 1 ==> FieldSlot(obj, bit) in mem
    ensures FieldsReadable(mem, obj, WordBits(bit + 1, refs / 2), size)
  {
    var rest := WordBits(bit + 1, refs / 2);
    if refs % 2 == 1 {
      assert bit in WordBits(bit, refs);
    }
    assert forall b :: b in rest ==> b in WordBits(bit, refs);
  }

  lemma {:induction false} WordBitsAmongBits(words: seq<Word>, i: nat, b: nat)
    requires i < |words|
    requires b in WordBits(32 * i, words[i])
    ensures b in Bits(words)
    decreases |words|
  {
    var n := |words| - 1;
    if i < n {
      WordBitsAmongBits(words[..n], i, b);
    }
  }

  /** One bitmap word: shift out the bits, moving one field on each time. */
  method VisitOneWord(mem: Memory, obj: nat, visitor: SlotVisitor, ghost first: nat, startOffset: nat, word: Word,
                      ghost size: nat)
    requires obj + startOffset == FieldSlot(obj, first)
    requires FieldsReadable(mem, obj, WordBits(first, word), size)
    modifies visitor
    ensures visitor.slots == old(visitor.slots) + NonNull(mem, FieldSlots(obj, WordBits(first, word)))
  {
    var fieldOffset: nat, refOffsets: nat := startOffset, word;
    ghost var bit := first;
    while refOffsets != 0
      invariant obj + fieldOffset == FieldSlot(obj, bit)
      invariant FieldsReadable(mem, obj, WordBits(bit, refOffsets), size)
      invariant AfterWord(visitor.slots, mem, obj, bit, refOffsets)
             == AfterWord(old(visitor.slots), mem, obj, first, word)
      decreases refOffsets
    {
      FirstFieldReadable(mem, obj, bit, refOffsets, size);
      if refOffsets % 2 == 1 {
        VisitSlot(mem, visitor, obj + fieldOffset);
      }
      refOffsets := refOffsets / 2;
      fieldOffset := fieldOffset + 4;
      bit := bit + 1;
    }
    AfterWordReports(old(visitor.slots), mem, obj, first, word);
  }

  /** The visitor's slots after the remaining bits of a word, if it holds `slots` before them. */
  ghost function AfterWord(slots: seq<nat>, mem: Memory, obj: nat, bit: nat, refs: nat): seq<nat>
    decreases refs
  {
    if refs == 0 then slots
    else
      var slot := FieldSlot(obj, bit);
      var reported := slots + (if HoldsReference(mem, slot) then [slot] else []);
      AfterWord(if refs % 2 == 1 then reported else slots, mem, obj, bit + 1, refs / 2)
  }

  lemma {:induction false} AfterWordReports(slots: seq<nat>, mem: Memory, obj: nat, bit: nat, refs: nat)
    ensures AfterWord(slots, mem, obj, bit, refs) == slots + NonNull(mem, FieldSlots(obj, WordBits(bit, refs)))
    decreases refs
  {
    if refs != 0 {
      var all, rest := FieldSlots(obj, WordBits(bit, refs)), FieldSlots(obj, WordBits(bit + 1, refs / 2));
      var slot := FieldSlot(obj, bit);
      if refs % 2 == 1 {
        var head := if HoldsReference(mem, slot) then [slot] else [];
        assert all == [slot] + rest;
        assert all[1..] == rest;
        AfterWordReports(slots + head, mem, obj, bit + 1, refs / 2);
        Associative(slots, head, NonNull(mem, rest));
      } else {
        assert all == rest;
        AfterWordReports(slots, mem, obj, bit + 1, refs / 2);
      }
    }
  }

  /** References among the instance fields, from the inline bitmap or the overflow words. */
  method VisitInstanceFields(mem: Memory, obj: nat, k: nat, visitor: SlotVisitor, ghost size: nat)
    requires ClassHeader(mem, k)
    requires BitmapReadable(mem, k)
    requires FieldsReadable(mem, obj, InstanceBits(mem, k), size)
    modifies visitor
    ensures visitor.slots == old(visitor.slots) + NonNull(mem, InstanceSlots(mem, obj, k))
  {
    var refOffsets := ReferenceOffsets(mem, k);
    if refOffsets >= SLOW_PATH_MASK {
      var wordCount := refOffsets - SLOW_PATH_MASK;
      if wordCount > 0 {
        VisitOverflowWords(mem, obj, visitor, k + SizeOfClass(mem, k) - 4 * wordCount, wordCount,
                           size);
      }
    } else {
      InlineBits(refOffsets);
      VisitOneWord(mem, obj, visitor, 0, 8, refOffsets, size);
    }
  }

  lemma InlineBits(word: Word)
    ensures Bits([word]) == WordBits(0, word)
  {
    assert [word][..0] == [];
  }

  method VisitOverflowWords(mem: Memory, obj: nat, visitor: SlotVisitor, bitmap: nat, wordCount: nat,
                            ghost size: nat)
    requires bitmap % 4 == 0
    requires Mapped(mem, bitmap, 4 * wordCount)
    requires FieldsReadable(mem, obj, Bits(WordsAt(mem, bitmap, wordCount)), size)
    modifies visitor
    ensures visitor.slots
         == old(visitor.slots) + NonNull(mem, FieldSlots(obj, Bits(WordsAt(mem, bitmap, wordCount))))
  {
    ghost var words := WordsAt(mem, bitmap, wordCount);
    for i := 0 to wordCount
      invariant visitor.slots == old(visitor.slots) + NonNull(mem, FieldSlots(obj, Bits(words[..i])))
    {
      WordsAtIndex(mem, bitmap, wordCount, i);
      OverflowStep(mem, obj, words, i, old(visitor.slots));
      OneWordReadable(mem, obj, words, i, size);
      VisitOneWord(mem, obj, visitor, 32 * i, 8 + i * 4 * 32, mem[bitmap + 4 * i], size);
    }
    assert words[..wordCount] == words;
  }

  lemma {:induction false} WordsAtIndex(mem: Memory, start: nat, n: nat, i: nat)
    requires start % 4 == 0
    requires Mapped(mem, start, 4 * n)
    requires i < n
    ensures start + 4 * i in mem
    ensures WordsAt(mem, start, n)[i] == mem[start + 4 * i]
  {
    if i < n - 1 {
      WordsAtIndex(mem, start, n - 1, i);
    }
  }

  lemma OneWordReadable(mem: Memory, obj: nat, words: seq<Word>, i: nat, size: nat)
    requires i < |words|
    requires FieldsReadable(mem, obj, Bits(words), size)
    ensures FieldsReadable(mem, obj, WordBits(32 * i, words[i]), size)
  {
    forall b | b in WordBits(32 * i, words[i])
      ensures b in Bits(words)
    {
      WordBitsAmongBits(words, i, b);
    }
  }

  lemma OverflowStep(mem: Memory, obj: nat, words: seq<Word>, i: nat, start: seq<nat>)
    requires i < |words|
    ensures start + NonNull(mem, FieldSlots(obj, Bits(words[..i])))
            + NonNull(mem, FieldSlots(obj, WordBits(32 * i, words[i])))
            == start + NonNull(mem, FieldSlots(obj, Bits(words[..i + 1])))
  {
    assert words[..i + 1][..i] == words[..i];
    var before, found := Bits(words[..i]), WordBits(32 * i, words[i]);
    FieldSlotsConcat(obj, before, found);
    NonNullConcat(mem, FieldSlots(obj, before), FieldSlots(obj, found));
    Associative(start, NonNull(mem, FieldSlots(obj, before)), NonNull(mem, FieldSlots(obj, found)));
  }

  /** `n` slots, four bytes apart: static references, or the elements of an object array. */
  method VisitStride(mem: Memory, visitor: SlotVisitor, first: nat, n: nat)
    requires first % 4 == 0
    requires Mapped(mem, first, 4 * n)
    modifies visitor
    ensures visitor.slots == old(visitor.slots) + NonNull(mem, Stride(first, n))
  {
    var slot := first;
    for i := 0 to n
      invariant slot == first + 4 * i
      invariant visitor.slots == old(visitor.slots) + NonNull(mem, Stride(first, i))
    {
      MappedWord(mem, first, n, i);
      VisitSlot(mem, visitor, slot);
      NonNullConcat(mem, Stride(first, i), [slot]);
      assert [slot][1..] == [];
      slot := slot + 4;
    }
  }

  /** Scans one object, reporting its slots and how the scan ended. */
  method ScanObject(mem: Memory, obj: nat, pointerSize: nat, visitNativeRoots: bool, visitor: SlotVisitor)
    returns (outcome: Outcome)
    requires PointerSize(pointerSize)
    requires WellFormedObject(mem, obj, pointerSize)
    modifies visitor
    ensures visitor.slots == old(visitor.slots) + ReportedSlots(mem, obj, pointerSize)
    ensures outcome == OutcomeOf(KindOfObject(mem, obj), visitNativeRoots)
  {
    visitor.Push(obj);
    outcome := VisitReferences(mem, obj, pointerSize, visitNativeRoots, visitor);
    Associative(old(visitor.slots), [obj], NonNull(mem, Candidates(mem, obj, pointerSize)));
  }

  /** The dispatch on the flags of the object's class. */
  method VisitReferences(mem: Memory, obj: nat, pointerSize: nat, visitNativeRoots: bool, visitor: SlotVisitor)
    returns (outcome: Outcome)
    requires PointerSize(pointerSize)
    requires WellFormedObject(mem, obj, pointerSize)
    modifies visitor
    ensures visitor.slots == old(visitor.slots) + NonNull(mem, Candidates(mem, obj, pointerSize))
    ensures outcome == OutcomeOf(KindOfObject(mem, obj), visitNativeRoots)
  {
    var flags := ClassFlags(mem, ClassOf(mem, obj));
    outcome := Finished;
    if flags == 0 || flags == 0x800 {
      VisitInstance(mem, obj, pointerSize, visitor);
      return;
    }
    if flags / 0x1 % 2 == 1 {
      return;
    }
    if flags == 0x10 {
      VisitClassObject(mem, obj, pointerSize, visitor);
      if visitNativeRoots {
        outcome := NativeRoots(ClassObject);
      }
      return;
    }
    if flags / 0x8 % 2 == 1 {
      VisitObjectArray(mem, obj, pointerSize, visitor);
      return;
    }
    if flags / 0x80 % 16 != 0 {
      VisitInstance(mem, obj, pointerSize, visitor);
      outcome := Referent;
      return;
    }
    if flags / 0x40 % 2 == 1 {
      VisitInstance(mem, obj, pointerSize, visitor);
      if visitNativeRoots {
        outcome := NativeRoots(DexCache);
      }
      return;
    }
    if flags / 0x20 % 2 == 1 {
      VisitInstance(mem, obj, pointerSize, visitor);
      if visitNativeRoots {
        outcome := NativeRoots(ClassLoader);
      }
      return;
    }
    outcome := UnexpectedFlags;
  }

  method VisitInstance(mem: Memory, obj: nat, pointerSize: nat, visitor: SlotVisitor)
    requires PointerSize(pointerSize)
    requires WellFormedObject(mem, obj, pointerSize)
    requires IsInstanceKind(KindOfObject(mem, obj))
    modifies visitor
    ensures visitor.slots == old(visitor.slots) + NonNull(mem, Candidates(mem, obj, pointerSize))
  {
    VisitInstanceFields(mem, obj, ClassOf(mem, obj), visitor, InstanceSize(mem, ClassOf(mem, obj)));
  }

  method VisitObjectArray(mem: Memory, obj: nat, pointerSize: nat, visitor: SlotVisitor)
    requires PointerSize(pointerSize)
    requires WellFormedObject(mem, obj, pointerSize)
    requires KindOfObject(mem, obj) == ObjectArray
    modifies visitor
    ensures visitor.slots == old(visitor.slots) + NonNull(mem, Candidates(mem, obj, pointerSize))
  {
    ghost var length: nat := mem[obj + 8];
    assert ArraySize(length, 2) == 12 + 4 * length;
    VisitStride(mem, visitor, obj + 12, mem[obj + 8]);
  }

  /** Instance fields of a class object, then its static references once it is resolved. */
  method VisitClassObject(mem: Memory, obj: nat, pointerSize: nat, visitor: SlotVisitor)
    requires PointerSize(pointerSize)
    requires WellFormedObject(mem, obj, pointerSize)
    requires KindOfObject(mem, obj) == ClassObject
    modifies visitor
    ensures visitor.slots == old(visitor.slots) + NonNull(mem, Candidates(mem, obj, pointerSize))
  {
    ClassCandidates(mem, obj, pointerSize);
    VisitInstanceFields(mem, obj, ClassOf(mem, obj), visitor, CLASS_BYTES);
    if IsResolved(mem, obj) {
      VisitStaticFields(mem, obj, pointerSize, visitor);
      Associative(old(visitor.slots), NonNull(mem, InstanceSlots(mem, obj, ClassOf(mem, obj))),
                  NonNull(mem, StaticSlots(mem, obj, pointerSize)));
    }
  }

  lemma ClassCandidates(mem: Memory, obj: nat, pointerSize: nat)
    requires PointerSize(pointerSize)
    requires WellFormedObject(mem, obj, pointerSize)
    requires KindOfObject(mem, obj) == ClassObject
    ensures var fields := InstanceSlots(mem, obj, ClassOf(mem, obj));
            var all := NonNull(mem, Candidates(mem, obj, pointerSize));
            && (!IsResolved(mem, obj) ==> all == NonNull(mem, fields))
            && (IsResolved(mem, obj) ==>
                  var statics := StaticSlots(mem, obj, pointerSize);
                  all == NonNull(mem, fields) + NonNull(mem, statics))
  {
    var fields := InstanceSlots(mem, obj, ClassOf(mem, obj));
    if IsResolved(mem, obj) {
      var statics := StaticSlots(mem, obj, pointerSize);
      assert Candidates(mem, obj, pointerSize) == fields + statics;
      NonNullConcat(mem, fields, statics);
    } else {
      assert Candidates(mem, obj, pointerSize) == fields;
    }
  }

  method VisitStaticFields(mem: Memory, k: nat, pointerSize: nat, visitor: SlotVisitor)
    requires PointerSize(pointerSize)
    requires WellFormedClass(mem, k, pointerSize)
    requires IsResolved(mem, k)
    modifies visitor
    ensures visitor.slots == old(visitor.slots) + NonNull(mem, StaticSlots(mem, k, pointerSize))
  {
    var count := StaticReferenceCount(mem, k);
    if count > 0 {
      ReferencesStartIsAligned(HasEmbeddedVtable(mem, k), VtableLength(mem, k), pointerSize);
      var first := FirstReferenceStaticFieldsOffset(HasEmbeddedVtable(mem, k), VtableLength(mem, k), pointerSize);
      VisitStride(mem, visitor, k + first, count);
    }
  }
}
