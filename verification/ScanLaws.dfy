/** What a scan reports, read off the words of memory: the flags, the reference offsets, the size, the
    status and the counts that the runtime stores in classes and arrays. Nothing here is stated
    through the kinds of objects or the sequences of slots that the scanner is defined by. */
module ScanLaws {
  import opened Machine
  import opened Bitmap
  import opened ClassLayout
  import opened ObjectModel
  import opened Scanner

  // ---------------------------------------------------------------- Words and flags

  predicate NotNull(mem: Memory, a: int) {
    a in mem && mem[a] != 0
  }

  predicate NoReferencesFlag(flags: int) { flags % 2 == 1 }

  predicate ObjectArrayFlag(flags: int) { flags / 0x8 % 2 == 1 }

  predicate ClassLoaderFlag(flags: int) { flags / 0x20 % 2 == 1 }

  predicate DexCacheFlag(flags: int) { flags / 0x40 % 2 == 1 }

  /** The object is a soft, weak, finalizer or phantom reference. */
  predicate ReferenceFlags(flags: int) {
    flags / 0x80 % 2 == 1 || flags / 0x100 % 2 == 1 || flags / 0x200 % 2 == 1 || flags / 0x400 % 2 == 1
  }

  /** Neither a normal nor a record class, with reference fields, and not java.lang.Class or an
      object array class: the flags that are tested last decide. */
  predicate LaterFlags(flags: int) {
    flags != 0 && flags != 0x800 && flags != 0x10 && !NoReferencesFlag(flags) && !ObjectArrayFlag(flags)
  }

  /** Instances of the class have the reference fields of its bitmap. */
  predicate FieldFlags(flags: int) {
    || flags == 0 || flags == 0x800 || flags == 0x10
    || (LaterFlags(flags) && (ReferenceFlags(flags) || DexCacheFlag(flags) || ClassLoaderFlag(flags)))
  }

  predicate ObjectArrayFlags(flags: int) {
    flags != 0x800 && !NoReferencesFlag(flags) && ObjectArrayFlag(flags)
  }

  /** The flag word of the object's class. */
  function FlagWord(mem: Memory, obj: nat): int {
    var k: int := if obj in mem then mem[obj] else 0;
    if k + 68 in mem then mem[k + 68] else -1
  }

  /** The class at `k` says that bit `b` is a reference: in the word itself while its top bit is clear,
      and otherwise in the words that end the class, as many as the other bits say. */
  predicate IsReferenceBit(mem: Memory, k: nat, b: nat) {
    && k + 72 in mem && k + 108 in mem
    && var offsets, size := mem[k + 108], mem[k + 72];
    if offsets < 0x8000_0000 then
      Bit(offsets, b)
    else
      var n: int := offsets - 0x8000_0000;
      var word := k + size - 4 * n + 4 * (b / 32);
      b < 32 * n && word in mem && Bit(mem[word], b % 32)
  }

  // ---------------------------------------------------------------- Reading the bitmap

  lemma {:induction false} BitOfWords(words: seq<Word>, b: nat)
    ensures BitmapBit(words, b) <==> b < 32 * |words| && Bit(words[b / 32], b % 32)
    decreases |words|
  {
    if words != [] {
      var last := |words| - 1;
      if b < 32 * last {
        BitOfWords(words[..last], b);
        assert words[..last][b / 32] == words[b / 32];
      } else if b < 32 * last + 32 {
        assert b / 32 == last && b % 32 == b - 32 * last;
      }
    }
  }

  lemma InlineBitmapBit(word: Word, b: nat)
    requires word < 0x8000_0000
    ensures BitmapBit([word], b) <==> Bit(word, b)
  {
    Pow2Values();
    BitOfWords([word], b);
    if Bit(word, b) {
      BitsAreBelowWidth(word, b, 31);
    }
  }

  /** The bitmap the scanner reads is the one the words of the class describe. */
  lemma BitmapIsInClass(mem: Memory, k: nat, b: nat)
    requires ClassHeader(mem, k)
    requires BitmapReadable(mem, k)
    ensures BitmapBit(InstanceBitmap(mem, k), b) <==> IsReferenceBit(mem, k, b)
  {
    var bitmap := InstanceBitmap(mem, k);
    if mem[k + 108] < 0x8000_0000 {
      InlineBitmapBit(mem[k + 108], b);
    } else {
      var n: int := mem[k + 108] - 0x8000_0000;
      BitOfWords(bitmap, b);
      if b < 32 * n {
        WordsAtIndex(mem, k + mem[k + 72] - 4 * n, n, b / 32);
      }
    }
  }

  // ---------------------------------------------------------------- Fields

  lemma LowestOfFour(q: nat)
    ensures q % 16 != 0 <==> q % 2 == 1 || q / 2 % 8 != 0
  {
    var half := q / 2;
    assert q == 16 * (half / 8) + (2 * (half % 8) + q % 2);
  }

  lemma LowestOfThree(q: nat)
    ensures q % 8 != 0 <==> q % 2 == 1 || q / 2 % 4 != 0
  {
    var half := q / 2;
    assert q == 8 * (half / 4) + (2 * (half % 4) + q % 2);
  }

  lemma LowestOfTwo(q: nat)
    ensures q % 4 != 0 <==> q % 2 == 1 || q / 2 % 2 == 1
  {
    var half := q / 2;
    assert q == 4 * (half / 2) + (2 * (half % 2) + q % 2);
  }

  lemma LowFourBits(q: nat)
    ensures q % 16 != 0 <==> q % 2 == 1 || q / 2 % 2 == 1 || q / 2 / 2 % 2 == 1 || q / 2 / 2 / 2 % 2 == 1
  {
    LowestOfFour(q);
    LowestOfThree(q / 2);
    LowestOfTwo(q / 2 / 2);
  }

  lemma HalvedTwice(flags: nat)
    ensures flags / 0x80 / 2 == flags / 0x100
    ensures flags / 0x100 / 2 == flags / 0x200
    ensures flags / 0x200 / 2 == flags / 0x400
  {
  }

  lemma ReferenceMask(flags: nat)
    ensures ReferenceFlags(flags) <==> flags / 0x80 % 16 != 0
  {
    LowFourBits(flags / 0x80);
    HalvedTwice(flags);
  }

  /** What the tests on the flags, in their order, come to. */
  lemma KindFollowsFlags(flags: Word)
    ensures var kind := KindOf(flags);
            && (kind == Instance <==> flags == 0 || flags == 0x800)
            && (kind == ClassObject <==> flags == 0x10)
            && (kind == ObjectArray <==> ObjectArrayFlags(flags))
            && (kind == WeakReference <==> LaterFlags(flags) && ReferenceFlags(flags))
            && (kind == DexCache <==> LaterFlags(flags) && !ReferenceFlags(flags) && DexCacheFlag(flags))
            && (kind == ClassLoader <==>
                  LaterFlags(flags) && !ReferenceFlags(flags) && !DexCacheFlag(flags) && ClassLoaderFlag(flags))
            && (kind == Unexpected <==>
                  LaterFlags(flags) && !ReferenceFlags(flags) && !DexCacheFlag(flags) && !ClassLoaderFlag(flags))
            && (kind == NoReferences <==> NoReferencesFlag(flags))
  {
    ReferenceMask(flags);
  }

  lemma FieldFlagsAreInstances(flags: Word)
    ensures FieldFlags(flags) <==> IsInstanceKind(KindOf(flags)) || KindOf(flags) == ClassObject
    ensures KindOf(flags) == ClassObject <==> flags == 0x10
  {
    KindFollowsFlags(flags);
  }

  lemma SetBitsAreCandidates(mem: Memory, obj: nat, pointerSize: nat, b: nat)
    requires PointerSize(pointerSize)
    requires WellFormedObject(mem, obj, pointerSize)
    requires IsInstanceKind(KindOfObject(mem, obj)) || KindOfObject(mem, obj) == ClassObject
    requires KindOfObject(mem, obj) == ClassObject ==> 8 + 4 * b < CLASS_BYTES
    ensures FieldSlot(obj, b) in Candidates(mem, obj, pointerSize)
            <==> BitmapBit(InstanceBitmap(mem, ClassOf(mem, obj)), b)
  {
    var k := ClassOf(mem, obj);
    BitsAreExact(InstanceBitmap(mem, k));
    FieldSlotsAreExact(obj, InstanceBits(mem, k));
    if KindOfObject(mem, obj) == ClassObject && IsResolved(mem, obj) {
      ClassObjectRanges(mem, obj, pointerSize);
    }
  }

  lemma FieldsAreCandidates(mem: Memory, obj: nat, pointerSize: nat, b: nat)
    requires PointerSize(pointerSize)
    requires WellFormedObject(mem, obj, pointerSize)
    requires FieldFlags(FlagWord(mem, obj))
    requires FlagWord(mem, obj) == 0x10 ==> 8 + 4 * b < 120
    ensures obj + 8 + 4 * b in Candidates(mem, obj, pointerSize) <==> IsReferenceBit(mem, mem[obj], b)
  {
    FieldFlagsAreInstances(FlagWord(mem, obj));
    SetBitsAreCandidates(mem, obj, pointerSize, b);
    BitmapIsInClass(mem, mem[obj], b);
  }

  lemma ReportedExactly(mem: Memory, obj: nat, pointerSize: nat, a: nat)
    requires PointerSize(pointerSize)
    requires WellFormedObject(mem, obj, pointerSize)
    ensures a in ReportedSlots(mem, obj, pointerSize)
            <==> a == obj || (a in Candidates(mem, obj, pointerSize) && NotNull(mem, a))
  {
    ScanIsExact(mem, obj, pointerSize);
  }

  /** An object whose class has field flags: the field at 8 + 4 * b is reported exactly when bit b of
      the bitmap in its class is set and the field is not null. Of a class object these are the fields
      of its fixed part; its statics come after them. */
  lemma FieldsReportedExactly(mem: Memory, obj: nat, pointerSize: nat, b: nat)
    requires PointerSize(pointerSize)
    requires WellFormedObject(mem, obj, pointerSize)
    requires FieldFlags(FlagWord(mem, obj))
    requires FlagWord(mem, obj) == 0x10 ==> 8 + 4 * b < 120
    ensures obj + 8 + 4 * b in ReportedSlots(mem, obj, pointerSize)
            <==> IsReferenceBit(mem, mem[obj], b) && NotNull(mem, obj + 8 + 4 * b)
  {
    FieldsAreCandidates(mem, obj, pointerSize, b);
    ReportedExactly(mem, obj, pointerSize, obj + 8 + 4 * b);
  }

  /** Apart from the class slot, nothing else of an instance is reported. */
  lemma OnlyFieldsReported(mem: Memory, obj: nat, pointerSize: nat, a: nat) returns (b: nat)
    requires PointerSize(pointerSize)
    requires WellFormedObject(mem, obj, pointerSize)
    requires FieldFlags(FlagWord(mem, obj)) && FlagWord(mem, obj) != 0x10
    requires a in ReportedSlots(mem, obj, pointerSize) && a != obj
    ensures a == obj + 8 + 4 * b && IsReferenceBit(mem, mem[obj], b)
  {
    var k := mem[obj];
    FieldFlagsAreInstances(FlagWord(mem, obj));
    ReportedExactly(mem, obj, pointerSize, a);
    BitsAreExact(InstanceBitmap(mem, k));
    FieldSlotsAreExact(obj, InstanceBits(mem, k));
    b :| b in InstanceBits(mem, k) && a == FieldSlot(obj, b);
    BitmapIsInClass(mem, k, b);
  }

  // ---------------------------------------------------------------- Array elements

  /** An object array: the element at 12 + 4 * i is reported exactly when i is below the length and the
      element is not null. */
  lemma ElementsReportedExactly(mem: Memory, obj: nat, pointerSize: nat, i: nat)
    requires PointerSize(pointerSize)
    requires WellFormedObject(mem, obj, pointerSize)
    requires ObjectArrayFlags(FlagWord(mem, obj))
    ensures obj + 8 in mem
    ensures obj + 12 + 4 * i in ReportedSlots(mem, obj, pointerSize)
            <==> i < mem[obj + 8] && NotNull(mem, obj + 12 + 4 * i)
  {
    ElementsAreCandidates(mem, obj, pointerSize);
    InStride(obj + 12, mem[obj + 8], i);
    ReportedExactly(mem, obj, pointerSize, obj + 12 + 4 * i);
  }

  /** Apart from the class slot, nothing else of an object array is reported. */
  lemma OnlyElementsReported(mem: Memory, obj: nat, pointerSize: nat, a: nat) returns (i: nat)
    requires PointerSize(pointerSize)
    requires WellFormedObject(mem, obj, pointerSize)
    requires ObjectArrayFlags(FlagWord(mem, obj))
    requires a in ReportedSlots(mem, obj, pointerSize) && a != obj
    ensures obj + 8 in mem && i < mem[obj + 8] && a == obj + 12 + 4 * i
  {
    ElementsAreCandidates(mem, obj, pointerSize);
    ReportedExactly(mem, obj, pointerSize, a);
    i := StrideIndex(obj + 12, mem[obj + 8], a);
  }

  lemma ElementsAreCandidates(mem: Memory, obj: nat, pointerSize: nat)
    requires PointerSize(pointerSize)
    requires WellFormedObject(mem, obj, pointerSize)
    requires ObjectArrayFlags(FlagWord(mem, obj))
    ensures obj + 8 in mem
    ensures Candidates(mem, obj, pointerSize) == Stride(obj + 12, mem[obj + 8])
  {
    KindFollowsFlags(FlagWord(mem, obj));
  }

  lemma InStride(first: nat, n: nat, i: nat)
    requires first % 4 == 0
    ensures first + 4 * i in Stride(first, n) <==> i < n
  {
    StrideIsWithin(first, n);
    if i < n {
      assert Stride(first, n)[i] == first + 4 * i;
    }
  }

  // ---------------------------------------------------------------- Static references

  /** The status of a class says that it is resolved, possibly with an error found afterwards. */
  predicate ResolvedStatus(status: nat) {
    status >= 0x7000_0000 || 0x2000_0000 <= status < 0x3000_0000
  }

  /** The access flags, primitive type and component type of a class with an embedded vtable: it can be
      instantiated, or is an array class. */
  predicate EmbedsVtable(access: nat, primitive: nat, component: nat) {
    || (primitive % 0x1_0000 == 0 && access / 0x200 % 2 == 0 && access / 0x400 % 2 == 0)
    || (access / 0x400 % 2 == 1 && component != 0)
  }

  /** Where static references start in a class at `k`: after the fixed part, or after the embedded
      vtable, whose length is the word after the fixed part. */
  function FirstStatic(mem: Memory, k: nat, pointerSize: nat): nat
    requires ClassHeader(mem, k)
  {
    if EmbedsVtable(mem[k + 64], mem[k + 104], mem[k + 12]) then
      k + VtableStart(pointerSize) + (if pointerSize == 4 then 4 else 8) * WordOrZero(mem, k + 120)
    else
      k + 120
  }

  lemma StaticsStartAfterVtable(mem: Memory, k: nat, pointerSize: nat)
    requires PointerSize(pointerSize)
    requires WellFormedClass(mem, k, pointerSize)
    requires IsResolved(mem, k)
    ensures FirstStatic(mem, k, pointerSize) == k + FirstStaticReference(mem, k, pointerSize)
  {
    if HasEmbeddedVtable(mem, k) {
      VtableEndsAtReferences(VtableLength(mem, k), pointerSize);
    }
  }

  /** A class object that is resolved: each of its counted static references is reported exactly when
      it is not null. */
  lemma StaticsReportedExactly(mem: Memory, obj: nat, pointerSize: nat, i: nat)
    requires PointerSize(pointerSize)
    requires WellFormedObject(mem, obj, pointerSize)
    requires FlagWord(mem, obj) == 0x10
    ensures ClassHeader(mem, obj)
    ensures ResolvedStatus(mem[obj + 112]) && i < mem[obj + 92] ==>
              var slot := FirstStatic(mem, obj, pointerSize) + 4 * i;
              slot in ReportedSlots(mem, obj, pointerSize) <==> NotNull(mem, slot)
  {
    ClassObjectIsClass(mem, obj, pointerSize);
    if ResolvedStatus(mem[obj + 112]) && i < mem[obj + 92] {
      CountedStaticsAreSlots(mem, obj, pointerSize, i);
      StaticIsReported(mem, obj, pointerSize, FirstStatic(mem, obj, pointerSize) + 4 * i);
    }
  }

  lemma ClassObjectIsClass(mem: Memory, obj: nat, pointerSize: nat)
    requires PointerSize(pointerSize)
    requires WellFormedObject(mem, obj, pointerSize)
    requires FlagWord(mem, obj) == 0x10
    ensures WellFormedClass(mem, obj, pointerSize)
  {
  }

  lemma CountedStaticsAreSlots(mem: Memory, k: nat, pointerSize: nat, i: nat)
    requires PointerSize(pointerSize)
    requires WellFormedClass(mem, k, pointerSize)
    requires ResolvedStatus(mem[k + 112]) && i < mem[k + 92]
    ensures IsResolved(mem, k)
    ensures FirstStatic(mem, k, pointerSize) + 4 * i in StaticSlots(mem, k, pointerSize)
    ensures FirstStatic(mem, k, pointerSize) >= k + 120
  {
    StaticsStartAfterVtable(mem, k, pointerSize);
    CountedStatics(mem, k, pointerSize, i);
  }

  lemma SumIsAligned(a: nat, b: nat)
    requires a % 4 == 0 && b % 4 == 0
    ensures (a + b) % 4 == 0
  {
  }

  lemma StaticsAreAligned(mem: Memory, k: nat, pointerSize: nat)
    requires PointerSize(pointerSize)
    requires ClassHeader(mem, k)
    requires HasEmbeddedVtable(mem, k) ==> k + CLASS_BYTES in mem
    ensures (k + FirstStaticReference(mem, k, pointerSize)) % 4 == 0
  {
    ReferencesStartIsAligned(HasEmbeddedVtable(mem, k), VtableLength(mem, k), pointerSize);
    SumIsAligned(k, FirstStaticReference(mem, k, pointerSize));
  }

  lemma CountedStatics(mem: Memory, k: nat, pointerSize: nat, i: nat)
    requires PointerSize(pointerSize)
    requires WellFormedClass(mem, k, pointerSize) && IsResolved(mem, k)
    requires i < StaticReferenceCount(mem, k)
    ensures k + FirstStaticReference(mem, k, pointerSize) + 4 * i in StaticSlots(mem, k, pointerSize)
  {
    StaticsAreAligned(mem, k, pointerSize);
    InStride(k + FirstStaticReference(mem, k, pointerSize), StaticReferenceCount(mem, k), i);
  }

  lemma StaticsAreCandidates(mem: Memory, obj: nat, pointerSize: nat, a: nat)
    requires PointerSize(pointerSize)
    requires WellFormedObject(mem, obj, pointerSize)
    requires FlagWord(mem, obj) == 0x10
    requires WellFormedClass(mem, obj, pointerSize) && IsResolved(mem, obj)
    requires a in StaticSlots(mem, obj, pointerSize)
    ensures a in Candidates(mem, obj, pointerSize)
  {
  }

  lemma StaticIsReported(mem: Memory, obj: nat, pointerSize: nat, a: nat)
    requires PointerSize(pointerSize)
    requires WellFormedObject(mem, obj, pointerSize)
    requires FlagWord(mem, obj) == 0x10
    requires WellFormedClass(mem, obj, pointerSize) && IsResolved(mem, obj)
    requires a in StaticSlots(mem, obj, pointerSize)
    requires a != obj
    ensures a in ReportedSlots(mem, obj, pointerSize) <==> NotNull(mem, a)
  {
    StaticsAreCandidates(mem, obj, pointerSize, a);
    ReportedExactly(mem, obj, pointerSize, a);
  }

  /** Apart from its class slot and the fields of its fixed part, nothing of a class object is
      reported but its counted static references, and those only when it is resolved. */
  lemma OnlyStaticsReported(mem: Memory, obj: nat, pointerSize: nat, a: nat) returns (i: nat)
    requires PointerSize(pointerSize)
    requires WellFormedObject(mem, obj, pointerSize)
    requires FlagWord(mem, obj) == 0x10
    requires a in ReportedSlots(mem, obj, pointerSize) && a >= obj + 120
    ensures ClassHeader(mem, obj)
    ensures ResolvedStatus(mem[obj + 112]) && i < mem[obj + 92]
    ensures a == FirstStatic(mem, obj, pointerSize) + 4 * i
  {
    ReportedExactly(mem, obj, pointerSize, a);
    LateCandidatesAreStatics(mem, obj, pointerSize, a);
    StaticsStartAfterVtable(mem, obj, pointerSize);
    i := StaticIndex(mem, obj, pointerSize, a);
  }

  lemma LateCandidatesAreStatics(mem: Memory, obj: nat, pointerSize: nat, a: nat)
    requires PointerSize(pointerSize)
    requires WellFormedObject(mem, obj, pointerSize)
    requires FlagWord(mem, obj) == 0x10
    requires a in Candidates(mem, obj, pointerSize) && a >= obj + 120
    ensures WellFormedClass(mem, obj, pointerSize) && IsResolved(mem, obj)
    ensures a in StaticSlots(mem, obj, pointerSize)
  {
    ClassObjectRanges(mem, obj, pointerSize);
    var fields := InstanceSlots(mem, obj, ClassOf(mem, obj));
    assert a !in fields;
  }

  lemma StaticIndex(mem: Memory, k: nat, pointerSize: nat, a: nat) returns (i: nat)
    requires PointerSize(pointerSize)
    requires WellFormedClass(mem, k, pointerSize) && IsResolved(mem, k)
    requires a in StaticSlots(mem, k, pointerSize)
    ensures i < StaticReferenceCount(mem, k) && a == k + FirstStaticReference(mem, k, pointerSize) + 4 * i
  {
    StaticsAreAligned(mem, k, pointerSize);
    i := StrideIndex(k + FirstStaticReference(mem, k, pointerSize), StaticReferenceCount(mem, k), a);
  }

  lemma StrideIndex(first: nat, n: nat, a: nat) returns (i: nat)
    requires first % 4 == 0
    requires a in Stride(first, n)
    ensures i < n && a == first + 4 * i
  {
    StrideIsWithin(first, n);
    i :| 0 <= i < n && Stride(first, n)[i] == a;
  }

  // ---------------------------------------------------------------- Everything else

  /** With any other flags only the class slot is reported. */
  lemma OtherFlagsReportClassOnly(mem: Memory, obj: nat, pointerSize: nat)
    requires PointerSize(pointerSize)
    requires WellFormedObject(mem, obj, pointerSize)
    requires !FieldFlags(FlagWord(mem, obj)) && !ObjectArrayFlags(FlagWord(mem, obj))
    ensures ReportedSlots(mem, obj, pointerSize) == [obj]
  {
    FieldFlagsAreInstances(FlagWord(mem, obj));
    KindFollowsFlags(FlagWord(mem, obj));
  }

  /** The slot is the `i`-th of those that follow one another from offset `first`. */
  predicate IsNth(base: int, first: nat, i: nat, a: int) {
    a == base + first + 4 * i
  }

  /** A field that the bitmap in the object's class makes a reference. */
  ghost predicate IsFieldSlot(mem: Memory, obj: nat, a: nat) {
    && FieldFlags(FlagWord(mem, obj)) && obj in mem
    && exists b: nat :: IsReferenceBit(mem, mem[obj], b) && IsNth(obj, 8, b, a)
  }

  /** A counted static reference of a class object that is resolved. */
  ghost predicate IsStaticSlot(mem: Memory, obj: nat, pointerSize: nat, a: nat) {
    && FlagWord(mem, obj) == 0x10 && ClassHeader(mem, obj) && ResolvedStatus(mem[obj + 112])
    && exists i: nat :: i < mem[obj + 92] && IsNth(FirstStatic(mem, obj, pointerSize), 0, i, a)
  }

  /** An element of an object array, within its length. */
  ghost predicate IsElementSlot(mem: Memory, obj: nat, a: nat) {
    && ObjectArrayFlags(FlagWord(mem, obj)) && obj + 8 in mem
    && exists i: nat :: i < mem[obj + 8] && IsNth(obj, 12, i, a)
  }

  /** The words of memory say that `a` is a reference slot of the object. */
  ghost predicate IsReferenceSlot(mem: Memory, obj: nat, pointerSize: nat, a: nat) {
    IsFieldSlot(mem, obj, a) || IsStaticSlot(mem, obj, pointerSize, a) || IsElementSlot(mem, obj, a)
  }

  lemma ClassBitsAreInFixedPart(mem: Memory, obj: nat, pointerSize: nat, b: nat)
    requires PointerSize(pointerSize)
    requires WellFormedObject(mem, obj, pointerSize)
    requires FlagWord(mem, obj) == 0x10
    requires IsReferenceBit(mem, mem[obj], b)
    ensures 8 + 4 * b < 120
  {
    BitmapIsInClass(mem, mem[obj], b);
    BitsAreExact(InstanceBitmap(mem, mem[obj]));
  }

  lemma ReferenceBitIsReported(mem: Memory, obj: nat, pointerSize: nat, b: nat)
    requires PointerSize(pointerSize)
    requires WellFormedObject(mem, obj, pointerSize)
    requires FieldFlags(FlagWord(mem, obj)) && IsReferenceBit(mem, mem[obj], b)
    requires NotNull(mem, obj + 8 + 4 * b)
    ensures obj + 8 + 4 * b in ReportedSlots(mem, obj, pointerSize)
  {
    if FlagWord(mem, obj) == 0x10 {
      ClassBitsAreInFixedPart(mem, obj, pointerSize, b);
    }
    FieldsReportedExactly(mem, obj, pointerSize, b);
  }

  lemma FieldSlotsAreReported(mem: Memory, obj: nat, pointerSize: nat, a: nat)
    requires PointerSize(pointerSize)
    requires WellFormedObject(mem, obj, pointerSize)
    requires IsFieldSlot(mem, obj, a) && NotNull(mem, a)
    ensures a in ReportedSlots(mem, obj, pointerSize)
  {
    var b: nat :| IsReferenceBit(mem, mem[obj], b) && IsNth(obj, 8, b, a);
    ReferenceBitIsReported(mem, obj, pointerSize, b);
  }

  lemma StaticSlotsAreReported(mem: Memory, obj: nat, pointerSize: nat, a: nat)
    requires PointerSize(pointerSize)
    requires WellFormedObject(mem, obj, pointerSize)
    requires IsStaticSlot(mem, obj, pointerSize, a) && NotNull(mem, a)
    ensures a in ReportedSlots(mem, obj, pointerSize)
  {
    var i: nat :| i < mem[obj + 92] && IsNth(FirstStatic(mem, obj, pointerSize), 0, i, a);
    StaticsReportedExactly(mem, obj, pointerSize, i);
  }

  lemma ElementSlotsAreReported(mem: Memory, obj: nat, pointerSize: nat, a: nat)
    requires PointerSize(pointerSize)
    requires WellFormedObject(mem, obj, pointerSize)
    requires IsElementSlot(mem, obj, a) && NotNull(mem, a)
    ensures a in ReportedSlots(mem, obj, pointerSize)
  {
    var i: nat :| i < mem[obj + 8] && IsNth(obj, 12, i, a);
    ElementsReportedExactly(mem, obj, pointerSize, i);
  }

  lemma ClassFieldsReported(mem: Memory, obj: nat, pointerSize: nat, a: nat) returns (b: nat)
    requires PointerSize(pointerSize)
    requires WellFormedObject(mem, obj, pointerSize)
    requires FlagWord(mem, obj) == 0x10
    requires a in ReportedSlots(mem, obj, pointerSize) && obj < a < obj + 120
    ensures a == obj + 8 + 4 * b && IsReferenceBit(mem, mem[obj], b)
  {
    var k := mem[obj];
    ReportedExactly(mem, obj, pointerSize, a);
    ClassObjectRanges(mem, obj, pointerSize);
    assert a in InstanceSlots(mem, obj, k);
    BitsAreExact(InstanceBitmap(mem, k));
    FieldSlotsAreExact(obj, InstanceBits(mem, k));
    b :| b in InstanceBits(mem, k) && a == FieldSlot(obj, b);
    BitmapIsInClass(mem, k, b);
  }

  lemma ReportedAreReferenceSlots(mem: Memory, obj: nat, pointerSize: nat, a: nat)
    requires PointerSize(pointerSize)
    requires WellFormedObject(mem, obj, pointerSize)
    requires a in ReportedSlots(mem, obj, pointerSize) && a != obj
    ensures IsReferenceSlot(mem, obj, pointerSize, a)
  {
    var flags := FlagWord(mem, obj);
    if flags == 0x10 && a < obj + 120 {
      ScanIsExact(mem, obj, pointerSize);
      var b := ClassFieldsReported(mem, obj, pointerSize, a);
      assert IsNth(obj, 8, b, a);
    } else if flags == 0x10 {
      var i := OnlyStaticsReported(mem, obj, pointerSize, a);
      assert IsNth(FirstStatic(mem, obj, pointerSize), 0, i, a);
    } else if FieldFlags(flags) {
      var b := OnlyFieldsReported(mem, obj, pointerSize, a);
      assert IsNth(obj, 8, b, a);
    } else if ObjectArrayFlags(flags) {
      var i := OnlyElementsReported(mem, obj, pointerSize, a);
      assert IsNth(obj, 12, i, a);
    } else {
      OtherFlagsReportClassOnly(mem, obj, pointerSize);
    }
  }

  /** For every well-formed object, a scan reports the class slot and exactly those slots that the words
      of memory make references and that are not null. */
  lemma ScanFollowsMemory(mem: Memory, obj: nat, pointerSize: nat, a: nat)
    requires PointerSize(pointerSize)
    requires WellFormedObject(mem, obj, pointerSize)
    ensures a in ReportedSlots(mem, obj, pointerSize)
            <==> a == obj || (IsReferenceSlot(mem, obj, pointerSize, a) && NotNull(mem, a))
  {
    ReportedExactly(mem, obj, pointerSize, a);
    if a == obj {
    } else if a in ReportedSlots(mem, obj, pointerSize) {
      ReportedAreReferenceSlots(mem, obj, pointerSize, a);
    } else if NotNull(mem, a) {
      if IsFieldSlot(mem, obj, a) {
        FieldSlotsAreReported(mem, obj, pointerSize, a);
      } else if IsStaticSlot(mem, obj, pointerSize, a) {
        StaticSlotsAreReported(mem, obj, pointerSize, a);
      } else if IsElementSlot(mem, obj, a) {
        ElementSlotsAreReported(mem, obj, pointerSize, a);
      }
    }
  }

  /** Reported slots come in ascending order, without repetition, whatever the flags. */
  lemma ReportedInOrder(mem: Memory, obj: nat, pointerSize: nat)
    requires PointerSize(pointerSize)
    requires WellFormedObject(mem, obj, pointerSize)
    ensures Ascending(ReportedSlots(mem, obj, pointerSize))
    ensures ReportedSlots(mem, obj, pointerSize)[0] == obj
  {
    ScanIsExact(mem, obj, pointerSize);
  }

  /** How a scan ends follows from the flag word: the referent is processed for references, native
      roots are asked for classes, dex caches and class loaders when wanted, and the scan panics when
      no test applies. */
  lemma OutcomeFollowsFlags(mem: Memory, obj: nat, visitNativeRoots: bool)
    requires ObjectHeader(mem, obj) && ClassHeader(mem, mem[obj])
    ensures var flags := FlagWord(mem, obj);
            var outcome := OutcomeOf(KindOfObject(mem, obj), visitNativeRoots);
            && (outcome == Referent <==> LaterFlags(flags) && ReferenceFlags(flags))
            && (outcome == NativeRoots(ClassObject) <==> visitNativeRoots && flags == 0x10)
            && (outcome == NativeRoots(DexCache)
                <==> visitNativeRoots && LaterFlags(flags) && !ReferenceFlags(flags) && DexCacheFlag(flags))
            && (outcome == NativeRoots(ClassLoader)
                <==> visitNativeRoots && LaterFlags(flags) && !ReferenceFlags(flags)
                     && !DexCacheFlag(flags) && ClassLoaderFlag(flags))
            && (outcome == UnexpectedFlags
                <==> LaterFlags(flags) && !ReferenceFlags(flags) && !DexCacheFlag(flags) && !ClassLoaderFlag(flags))
            && (outcome == Finished
                || outcome == Referent || outcome == UnexpectedFlags
                || (outcome.NativeRoots? && outcome.kind in {ClassObject, DexCache, ClassLoader}))
  {
    KindFollowsFlags(FlagWord(mem, obj));
  }

  // ---------------------------------------------------------------- An overflow bitmap at work

  function ExampleOverflowWord(a: nat): Word {
    match a
    case 196 => 0x800        // class flags: a record
    case 200 => 144          // class size
    case 224 => 144          // instance size
    case 236 => 0x8000_0002  // two overflow bitmap words
    case 240 => 0x7000_0000  // status: resolved
    case 268 => 1            // second bitmap word
    case 512 => 128          // class of the instance
    case 648 => 640          // its field, bit 32
    case _ => 0
  }

  /** A record class at 128 whose bitmap does not fit in one word, and an instance at 512. */
  function ExampleOverflowMemory(): Memory {
    map a: nat | 0 < a < 1024 && a % 4 == 0 :: ExampleOverflowWord(a)
  }

  lemma ExampleOverflowBitmap()
    ensures ClassHeader(ExampleOverflowMemory(), 128) && BitmapReadable(ExampleOverflowMemory(), 128)
    ensures InstanceBitmap(ExampleOverflowMemory(), 128) == [0, 1]
  {
    var mem := ExampleOverflowMemory();
    assert ClassHeader(mem, 128);
    assert OverflowBitmapStart(mem, 128) == 264;
    assert WordsAt(mem, 264, 0) == [];
    assert WordsAt(mem, 264, 1) == [0];
    assert WordsAt(mem, 264, 2) == [0, 1];
  }

  lemma ExampleOverflowBits()
    ensures Bits([0, 1]) == [32]
  {
    assert [0, 1][..1] == [0] && [0][..0] == [];
    assert Bits([0]) == [];
    assert WordBits(32, 1) == [32] + WordBits(33, 0);
  }

  lemma ExampleOverflowClass()
    ensures WellFormedClass(ExampleOverflowMemory(), 128, 8)
    ensures InstanceClass(ExampleOverflowMemory(), 128, 8)
    ensures InstanceBits(ExampleOverflowMemory(), 128) == [32]
  {
    ExampleOverflowBitmap();
    ExampleOverflowBits();
  }

  /** A record instance whose reference is in the last overflow word: the scan reports it. */
  lemma ExampleOverflowScans()
    ensures WellFormedObject(ExampleOverflowMemory(), 512, 8)
    ensures ReportedSlots(ExampleOverflowMemory(), 512, 8) == [512, 648]
  {
    var mem := ExampleOverflowMemory();
    ExampleOverflowClass();
    assert ClassOf(mem, 512) == 128;
    assert KindOfObject(mem, 512) == Instance;
    assert ObjectSize(mem, 512) == 144;
    assert Candidates(mem, 512, 8) == [648];
    assert NonNull(mem, [648]) == [648] by {
      assert [648][1..] == [];
    }
  }
}
