/** Moving an object: its words are copied to a new place, and a scan of the copy sees what a scan
    of the original saw. */
module Copying {
  import opened Machine
  import opened Bitmap
  import opened ClassLayout
  import opened ObjectModel
  import opened Scanner

  // ---------------------------------------------------------------- Images of memory

  /** The word at an offset, or -1 where nothing is mapped. */
  function At(mem: Memory, base: nat, offset: nat): int {
    if base + offset in mem then mem[base + offset] else -1
  }

  /** `size` bytes at `base'` hold the same words as at `base`. */
  ghost predicate SameImage(mem: Memory, base: nat, mem': Memory, base': nat, size: nat) {
    forall o {:trigger At(mem, base, o)} {:trigger At(mem', base', o)} ::
      0 <= o < size && o % 4 == 0 ==> At(mem, base, o) == At(mem', base', o)
  }

  ghost predicate Disjoint(a: nat, sizeA: nat, b: nat, sizeB: nat) {
    a + sizeA <= b || b + sizeB <= a
  }

  lemma CopyMakesImage(mem: Memory, src: nat, dst: nat, bytes: nat)
    requires WordAligned(mem)
    requires src % 4 == 0 && dst % 4 == 0
    requires Mapped(mem, src, bytes) && Mapped(mem, dst, bytes)
    ensures SameImage(mem, src, CopyWords(mem, src, dst, bytes), dst, bytes)
  {
    var mem' := CopyWords(mem, src, dst, bytes);
    forall o | 0 <= o < bytes && o % 4 == 0
      ensures At(mem, src, o) == At(mem', dst, o)
    {
      CopiedWord(mem, src, dst, bytes, o);
    }
  }

  lemma CopyLeavesRest(mem: Memory, src: nat, dst: nat, bytes: nat, base: nat, size: nat)
    requires WordAligned(mem)
    requires src % 4 == 0 && dst % 4 == 0
    requires Mapped(mem, src, bytes)
    requires Disjoint(dst, bytes, base, size)
    ensures SameImage(mem, base, CopyWords(mem, src, dst, bytes), base, size)
  {
  }

  /** A class header and its image have the same fields. */
  lemma SameHeader(mem: Memory, k: nat, mem': Memory, k': nat)
    requires ClassHeader(mem, k)
    requires SameImage(mem, k, mem', k', CLASS_BYTES)
    requires k' > 0 && k' % 4 == 0
    ensures ClassHeader(mem', k')
    ensures ComponentType(mem', k') == ComponentType(mem, k)
    ensures AccessFlags(mem', k') == AccessFlags(mem, k)
    ensures ClassFlags(mem', k') == ClassFlags(mem, k)
    ensures SizeOfClass(mem', k') == SizeOfClass(mem, k)
    ensures StaticReferenceCount(mem', k') == StaticReferenceCount(mem, k)
    ensures InstanceSize(mem', k') == InstanceSize(mem, k)
    ensures PrimitiveType(mem', k') == PrimitiveType(mem, k)
    ensures ReferenceOffsets(mem', k') == ReferenceOffsets(mem, k)
    ensures Status(mem', k') == Status(mem, k)
    ensures mem'[k'] == mem[k]
  {
    ImageIsMapped(mem, k, mem', k', CLASS_BYTES);
    assert At(mem, k, 0) == At(mem', k', 0);
    assert At(mem, k, 12) == At(mem', k', 12);
    assert At(mem, k, 64) == At(mem', k', 64);
    assert At(mem, k, 68) == At(mem', k', 68);
    assert At(mem, k, 72) == At(mem', k', 72);
    assert At(mem, k, 92) == At(mem', k', 92);
    assert At(mem, k, 96) == At(mem', k', 96);
    assert At(mem, k, 104) == At(mem', k', 104);
    assert At(mem, k, 108) == At(mem', k', 108);
    assert At(mem, k, 112) == At(mem', k', 112);
  }

  lemma OffsetIsAligned(a: nat, base: nat)
    requires a % 4 == 0 && base % 4 == 0
    ensures (a - base) % 4 == 0
  {
  }

  lemma ImageIsMapped(mem: Memory, base: nat, mem': Memory, base': nat, size: nat)
    requires base % 4 == 0 && base' % 4 == 0
    requires SameImage(mem, base, mem', base', size)
    requires Mapped(mem, base, size)
    ensures Mapped(mem', base', size)
  {
    forall a | base' <= a < base' + size && a % 4 == 0
      ensures a in mem'
    {
      var o := a - base';
      OffsetIsAligned(a, base');
      assert base + o in mem;
      assert At(mem, base, o) == At(mem', base', o);
    }
  }

  /** An image of a well-formed class is a well-formed class with the same static references. */
  lemma ClassImage(mem: Memory, k: nat, mem': Memory, k': nat, pointerSize: nat)
    requires PointerSize(pointerSize)
    requires WellFormedClass(mem, k, pointerSize)
    requires SameImage(mem, k, mem', k', SizeOfClass(mem, k))
    requires k' > 0 && k' % 4 == 0
    ensures WellFormedClass(mem', k', pointerSize)
    ensures IsResolved(mem', k') == IsResolved(mem, k)
    ensures IsResolved(mem, k) ==>
              && FirstStaticReference(mem', k', pointerSize) == FirstStaticReference(mem, k, pointerSize)
              && StaticReferenceCount(mem', k') == StaticReferenceCount(mem, k)
  {
    SameHeader(mem, k, mem', k');
    ImageIsMapped(mem, k, mem', k', SizeOfClass(mem, k));
    if IsResolved(mem, k) && HasEmbeddedVtable(mem, k) {
      ReferencesStartIsAligned(true, VtableLength(mem, k), pointerSize);
      assert At(mem, k, CLASS_BYTES) == At(mem', k', CLASS_BYTES);
    }
  }

  lemma {:induction false} SameWords(mem: Memory, mem': Memory, k: nat, start: nat, n: nat, size: nat)
    requires k <= start && start + 4 * n <= k + size
    requires start % 4 == 0 && k % 4 == 0
    requires Mapped(mem, start, 4 * n) && Mapped(mem', start, 4 * n)
    requires SameImage(mem, k, mem', k, size)
    ensures WordsAt(mem', start, n) == WordsAt(mem, start, n)
  {
    if n > 0 {
      SameWords(mem, mem', k, start, n - 1, size);
      var last := start + 4 * (n - 1);
      MappedWord(mem, start, n, n - 1);
      MappedWord(mem', start, n, n - 1);
      OffsetIsAligned(last, k);
      assert At(mem, k, last - k) == At(mem', k, last - k);
    }
  }

  /** A resolved class that is left in place keeps its bitmap. */
  lemma SameBitmap(mem: Memory, mem': Memory, k: nat, pointerSize: nat)
    requires PointerSize(pointerSize)
    requires WellFormedClass(mem, k, pointerSize)
    requires IsResolved(mem, k)
    requires SameImage(mem, k, mem', k, SizeOfClass(mem, k))
    ensures ClassHeader(mem', k)
    ensures BitmapReadable(mem, k) && BitmapReadable(mem', k)
    ensures InstanceBitmap(mem', k) == InstanceBitmap(mem, k)
  {
    SameHeader(mem, k, mem', k);
    ClassImage(mem, k, mem', k, pointerSize);
    ResolvedBitmapIsReadable(mem, k, pointerSize);
    ResolvedBitmapIsReadable(mem', k, pointerSize);
    if OverflowWordCount(mem, k) > 0 {
      SameWords(mem, mem', k, OverflowBitmapStart(mem, k), OverflowWordCount(mem, k), SizeOfClass(mem, k));
    }
  }

  // ---------------------------------------------------------------- Copies of objects

  /** `mem'` holds a copy of the object at `dst`, and the classes that describe it are unchanged. */
  ghost predicate IsCopy(mem: Memory, obj: nat, mem': Memory, dst: nat, pointerSize: nat)
    requires PointerSize(pointerSize)
  {
    && WellFormedObject(mem, obj, pointerSize)
    && dst > 0 && dst % 4 == 0
    && SameImage(mem, obj, mem', dst, CopiedBytes(mem, obj))
    && var k := ClassOf(mem, obj);
    && SameImage(mem, k, mem', k, SizeOfClass(mem, k))
    && (IsArrayClass(mem, k) ==> SameImage(mem, ComponentType(mem, k), mem', ComponentType(mem, k), CLASS_BYTES))
  }

  lemma CopyHasSameClass(mem: Memory, obj: nat, mem': Memory, dst: nat, pointerSize: nat)
    requires PointerSize(pointerSize)
    requires IsCopy(mem, obj, mem', dst, pointerSize)
    ensures ObjectHeader(mem', dst)
    ensures ClassOf(mem', dst) == ClassOf(mem, obj)
    ensures WellFormedClass(mem', ClassOf(mem, obj), pointerSize)
    ensures KindOfObject(mem', dst) == KindOfObject(mem, obj)
  {
    var k := ClassOf(mem, obj);
    assert At(mem, obj, 0) == At(mem', dst, 0);
    assert At(mem, obj, 4) == At(mem', dst, 4);
    SameHeader(mem, k, mem', k);
    ClassImage(mem, k, mem', k, pointerSize);
  }

  /** The copy has the size of the original. */
  lemma CopyHasSameSize(mem: Memory, obj: nat, mem': Memory, dst: nat, pointerSize: nat)
    requires PointerSize(pointerSize)
    requires IsCopy(mem, obj, mem', dst, pointerSize)
    ensures Sizeable(mem', dst)
    ensures ObjectSize(mem', dst) == ObjectSize(mem, obj)
    ensures Mapped(mem', dst, CopiedBytes(mem', dst))
  {
    var k := ClassOf(mem, obj);
    CopyHasSameClass(mem, obj, mem', dst, pointerSize);
    SameHeader(mem, k, mem', k);
    ImageIsMapped(mem, obj, mem', dst, CopiedBytes(mem, obj));
    if IsArrayClass(mem, k) {
      SameHeader(mem, ComponentType(mem, k), mem', ComponentType(mem, k));
      ArrayHasLength(mem[obj + 8], SizeShift(mem, ComponentType(mem, k)));
      assert At(mem, obj, 8) == At(mem', dst, 8);
    } else if IsClassClass(mem, k) {
      SameImageShrinks(mem, obj, mem', dst, CopiedBytes(mem, obj), CLASS_BYTES);
      SameHeader(mem, obj, mem', dst);
    } else if IsStringClass(mem, k) {
      assert At(mem, obj, 8) == At(mem', dst, 8);
    }
  }

  lemma ArrayHasLength(length: nat, shift: nat)
    requires shift <= 3
    ensures 12 <= ArraySize(length, shift)
  {
  }

  lemma SameImageShrinks(mem: Memory, base: nat, mem': Memory, base': nat, size: nat, smaller: nat)
    requires smaller <= size
    requires SameImage(mem, base, mem', base', size)
    ensures SameImage(mem, base, mem', base', smaller)
  {
  }

  /** The copy is well formed. */
  lemma CopyIsWellFormed(mem: Memory, obj: nat, mem': Memory, dst: nat, pointerSize: nat)
    requires PointerSize(pointerSize)
    requires IsCopy(mem, obj, mem', dst, pointerSize)
    ensures WellFormedObject(mem', dst, pointerSize)
  {
    var k := ClassOf(mem, obj);
    CopyHasSameClass(mem, obj, mem', dst, pointerSize);
    CopyHasSameSize(mem, obj, mem', dst, pointerSize);
    SameHeader(mem, k, mem', k);
    if KindOfObject(mem, obj) == ClassObject {
      SameBitmap(mem, mem', k, pointerSize);
      SameImageShrinks(mem, obj, mem', dst, CopiedBytes(mem, obj), SizeOfClass(mem, obj));
      ClassImage(mem, obj, mem', dst, pointerSize);
    } else if IsInstanceKind(KindOfObject(mem, obj)) {
      SameBitmap(mem, mem', k, pointerSize);
    } else if KindOfObject(mem, obj) == ObjectArray {
      SameHeader(mem, ComponentType(mem, k), mem', ComponentType(mem, k));
    }
  }

  // ---------------------------------------------------------------- Scanning copies

  /** The same offsets from two bases, in the same order. */
  predicate Shifted(s: seq<nat>, base: nat, s': seq<nat>, base': nat) {
    |s| == |s'| && forall i :: 0 <= i < |s| ==> s'[i] - base' == s[i] - base
  }

  lemma ShiftedConcat(s: seq<nat>, t: seq<nat>, base: nat, s': seq<nat>, t': seq<nat>, base': nat)
    requires Shifted(s, base, s', base') && Shifted(t, base, t', base')
    ensures Shifted(s + t, base, s' + t', base')
  {
  }

  lemma {:induction false} StrideShifts(base: nat, base': nat, offset: nat, n: nat)
    ensures Shifted(Stride(base + offset, n), base, Stride(base' + offset, n), base')
  {
    if n > 0 {
      StrideShifts(base, base', offset, n - 1);
    }
  }

  /** The scanner looks at the same offsets of the copy. */
  lemma CandidatesShift(mem: Memory, obj: nat, mem': Memory, dst: nat, pointerSize: nat)
    requires PointerSize(pointerSize)
    requires IsCopy(mem, obj, mem', dst, pointerSize)
    requires WellFormedObject(mem', dst, pointerSize)
    ensures Shifted(Candidates(mem, obj, pointerSize), obj, Candidates(mem', dst, pointerSize), dst)
  {
    CopyHasSameClass(mem, obj, mem', dst, pointerSize);
    if KindOfObject(mem, obj) == ClassObject {
      ClassCandidatesShift(mem, obj, mem', dst, pointerSize);
    } else if IsInstanceKind(KindOfObject(mem, obj)) {
      SameBitmap(mem, mem', ClassOf(mem, obj), pointerSize);
    } else if KindOfObject(mem, obj) == ObjectArray {
      ArrayCandidatesShift(mem, obj, mem', dst, pointerSize);
    }
  }

  lemma ArrayCandidatesShift(mem: Memory, obj: nat, mem': Memory, dst: nat, pointerSize: nat)
    requires PointerSize(pointerSize)
    requires IsCopy(mem, obj, mem', dst, pointerSize)
    requires WellFormedObject(mem', dst, pointerSize)
    requires KindOfObject(mem, obj) == KindOfObject(mem', dst) == ObjectArray
    ensures Shifted(Candidates(mem, obj, pointerSize), obj, Candidates(mem', dst, pointerSize), dst)
  {
    ArrayHasLength(mem[obj + 8], 2);
    assert At(mem, obj, 8) == At(mem', dst, 8);
    StrideShifts(obj, dst, 12, mem[obj + 8]);
  }

  lemma ClassCandidatesShift(mem: Memory, obj: nat, mem': Memory, dst: nat, pointerSize: nat)
    requires PointerSize(pointerSize)
    requires IsCopy(mem, obj, mem', dst, pointerSize)
    requires WellFormedObject(mem', dst, pointerSize)
    requires KindOfObject(mem, obj) == KindOfObject(mem', dst) == ClassObject
    requires ClassOf(mem', dst) == ClassOf(mem, obj)
    ensures Shifted(Candidates(mem, obj, pointerSize), obj, Candidates(mem', dst, pointerSize), dst)
  {
    var k := ClassOf(mem, obj);
    SameBitmap(mem, mem', k, pointerSize);
    SameImageShrinks(mem, obj, mem', dst, CopiedBytes(mem, obj), SizeOfClass(mem, obj));
    ClassImage(mem, obj, mem', dst, pointerSize);
    var fields, fields' := InstanceSlots(mem, obj, k), InstanceSlots(mem', dst, k);
    assert Shifted(fields, obj, fields', dst);
    if IsResolved(mem, obj) {
      StrideShifts(obj, dst, FirstStaticReference(mem, obj, pointerSize), StaticReferenceCount(mem, obj));
      var statics, statics' := StaticSlots(mem, obj, pointerSize), StaticSlots(mem', dst, pointerSize);
      ShiftedConcat(fields, statics, obj, fields', statics', dst);
      assert Candidates(mem, obj, pointerSize) == fields + statics;
      assert Candidates(mem', dst, pointerSize) == fields' + statics';
    }
  }

  /** Corresponding slots hold the same word. */
  ghost predicate SameValues(mem: Memory, s: seq<nat>, mem': Memory, s': seq<nat>) {
    |s| == |s'| && forall i :: 0 <= i < |s| ==> s[i] in mem && s'[i] in mem' && mem[s[i]] == mem'[s'[i]]
  }

  lemma ImageHasSameValues(mem: Memory, obj: nat, s: seq<nat>, mem': Memory, dst: nat, s': seq<nat>, size: nat)
    requires obj % 4 == 0
    requires Within(s, obj, obj + size)
    requires Readable(mem, s)
    requires Shifted(s, obj, s', dst)
    requires SameImage(mem, obj, mem', dst, size)
    ensures SameValues(mem, s, mem', s')
  {
    forall i | 0 <= i < |s|
      ensures s[i] in mem && s'[i] in mem' && mem[s[i]] == mem'[s'[i]]
    {
      var a := s[i];
      assert a in s;
      var o := a - obj;
      OffsetIsAligned(a, obj);
      assert At(mem, obj, o) == At(mem', dst, o);
    }
  }

  lemma {:induction false} NonNullShifts(mem: Memory, s: seq<nat>, base: nat, mem': Memory, s': seq<nat>, base': nat)
    requires Shifted(s, base, s', base')
    requires SameValues(mem, s, mem', s')
    ensures Shifted(NonNull(mem, s), base, NonNull(mem', s'), base')
    ensures SameValues(mem, NonNull(mem, s), mem', NonNull(mem', s'))
    decreases |s|
  {
    if s != [] {
      var rest, rest' := NonNull(mem, s[1..]), NonNull(mem', s'[1..]);
      NonNullShifts(mem, s[1..], base, mem', s'[1..], base');
      if HoldsReference(mem, s[0]) {
        ShiftedConcat([s[0]], rest, base, [s'[0]], rest', base');
        SameValuesConcat(mem, [s[0]], rest, mem', [s'[0]], rest');
        assert NonNull(mem, s) == [s[0]] + rest && NonNull(mem', s') == [s'[0]] + rest';
      } else {
        assert NonNull(mem, s) == rest && NonNull(mem', s') == rest';
      }
    }
  }

  lemma SameValuesConcat(mem: Memory, s: seq<nat>, t: seq<nat>, mem': Memory, s': seq<nat>, t': seq<nat>)
    requires SameValues(mem, s, mem', s') && SameValues(mem, t, mem', t')
    ensures SameValues(mem, s + t, mem', s' + t')
  {
  }

  /** Both are well-formed objects of one size and kind, so their scans end the same way, and the
      scans report the same offsets in the same order with the same values. */
  ghost predicate ScansAlike(mem: Memory, obj: nat, mem': Memory, obj': nat, pointerSize: nat)
    requires PointerSize(pointerSize)
  {
    && WellFormedObject(mem, obj, pointerSize) && WellFormedObject(mem', obj', pointerSize)
    && ObjectSize(mem', obj') == ObjectSize(mem, obj)
    && KindOfObject(mem', obj') == KindOfObject(mem, obj)
    && var slots, slots' := ReportedSlots(mem, obj, pointerSize), ReportedSlots(mem', obj', pointerSize);
    && Shifted(slots, obj, slots', obj')
    && SameValues(mem, slots, mem', slots')
  }

  /** Scanning commutes with copying: wherever memory holds a copy, it scans like the original. */
  lemma ScanCommutesWithImage(mem: Memory, obj: nat, mem': Memory, dst: nat, pointerSize: nat)
    requires PointerSize(pointerSize)
    requires IsCopy(mem, obj, mem', dst, pointerSize)
    ensures ScansAlike(mem, obj, mem', dst, pointerSize)
  {
    CopyIsWellFormed(mem, obj, mem', dst, pointerSize);
    CopyHasSameSize(mem, obj, mem', dst, pointerSize);
    CopyHasSameClass(mem, obj, mem', dst, pointerSize);
    CandidatesShift(mem, obj, mem', dst, pointerSize);
    var s, s' := Candidates(mem, obj, pointerSize), Candidates(mem', dst, pointerSize);
    CandidatesHaveSameValues(mem, obj, mem', dst, pointerSize);
    NonNullShifts(mem, s, obj, mem', s', dst);
    assert At(mem, obj, 0) == At(mem', dst, 0);
  }

  lemma CandidatesHaveSameValues(mem: Memory, obj: nat, mem': Memory, dst: nat, pointerSize: nat)
    requires PointerSize(pointerSize)
    requires IsCopy(mem, obj, mem', dst, pointerSize)
    requires WellFormedObject(mem', dst, pointerSize)
    requires Shifted(Candidates(mem, obj, pointerSize), obj, Candidates(mem', dst, pointerSize), dst)
    ensures SameValues(mem, Candidates(mem, obj, pointerSize), mem', Candidates(mem', dst, pointerSize))
  {
    CandidatesAreWithin(mem, obj, pointerSize);
    CandidatesAreReadable(mem, obj, pointerSize);
    SameImageShrinks(mem, obj, mem', dst, CopiedBytes(mem, obj), ObjectSize(mem, obj));
    ImageHasSameValues(mem, obj, Candidates(mem, obj, pointerSize), mem', dst, Candidates(mem', dst, pointerSize),
                       ObjectSize(mem, obj));
  }

  /** The new place does not meet the object, its class, or the class of its elements. */
  ghost predicate Relocatable(mem: Memory, obj: nat, dst: nat, pointerSize: nat)
    requires PointerSize(pointerSize)
  {
    && WordAligned(mem)
    && WellFormedObject(mem, obj, pointerSize)
    && dst > 0 && dst % 4 == 0
    && var k, bytes := ClassOf(mem, obj), CopiedBytes(mem, obj);
    && Mapped(mem, dst, bytes)
    && Disjoint(dst, bytes, obj, bytes)
    && Disjoint(dst, bytes, k, SizeOfClass(mem, k))
    && (IsArrayClass(mem, k) ==> Disjoint(dst, bytes, ComponentType(mem, k), CLASS_BYTES))
  }

  lemma CopyPlacesCopy(mem: Memory, obj: nat, dst: nat, pointerSize: nat)
    requires PointerSize(pointerSize)
    requires Relocatable(mem, obj, dst, pointerSize)
    ensures IsCopy(mem, obj, CopyWords(mem, obj, dst, CopiedBytes(mem, obj)), dst, pointerSize)
    ensures IsCopy(mem, obj, CopyWords(mem, obj, dst, CopiedBytes(mem, obj)), obj, pointerSize)
  {
    var k, bytes := ClassOf(mem, obj), CopiedBytes(mem, obj);
    CopyMakesImage(mem, obj, dst, bytes);
    CopyLeavesRest(mem, obj, dst, bytes, obj, bytes);
    CopyLeavesRest(mem, obj, dst, bytes, k, SizeOfClass(mem, k));
    if IsArrayClass(mem, k) {
      CopyLeavesRest(mem, obj, dst, bytes, ComponentType(mem, k), CLASS_BYTES);
    }
  }

  /** Copying a well-formed object to a fresh place gives an object that scans alike, and leaves the
      original scanning as before. */
  lemma ScanCommutesWithCopy(mem: Memory, obj: nat, dst: nat, pointerSize: nat)
    requires PointerSize(pointerSize)
    requires Relocatable(mem, obj, dst, pointerSize)
    ensures var mem' := CopyWords(mem, obj, dst, CopiedBytes(mem, obj));
            && ScansAlike(mem, obj, mem', dst, pointerSize)
            && ScansAlike(mem, obj, mem', obj, pointerSize)
            && ReportedSlots(mem', obj, pointerSize) == ReportedSlots(mem, obj, pointerSize)
  {
    var mem' := CopyWords(mem, obj, dst, CopiedBytes(mem, obj));
    CopyPlacesCopy(mem, obj, dst, pointerSize);
    ScanCommutesWithImage(mem, obj, mem', dst, pointerSize);
    ScanCommutesWithImage(mem, obj, mem', obj, pointerSize);
    UnshiftedIsEqual(ReportedSlots(mem, obj, pointerSize), ReportedSlots(mem', obj, pointerSize), obj);
  }

  lemma UnshiftedIsEqual(s: seq<nat>, s': seq<nat>, base: nat)
    requires Shifted(s, base, s', base)
    ensures s' == s
  {
  }

  // ---------------------------------------------------------------- Contents of copies

  /** The byte at an offset from a word boundary; words hold their least significant byte first. */
  function ByteOf(mem: Memory, base: nat, offset: nat): nat {
    var word := WordOrZero(mem, base + offset / 4 * 4);
    match offset % 4
    case 0 => word % 0x100
    case 1 => word / 0x100 % 0x100
    case 2 => word / 0x1_0000 % 0x100
    case 3 => word / 0x100_0000
  }

  ghost predicate SameBytes(mem: Memory, obj: nat, mem': Memory, dst: nat, size: nat) {
    forall o: nat :: o < size ==> ByteOf(mem', dst, o) == ByteOf(mem, obj, o)
  }

  lemma ImageHasSameBytes(mem: Memory, obj: nat, mem': Memory, dst: nat, size: nat)
    requires SameImage(mem, obj, mem', dst, size)
    ensures SameBytes(mem, obj, mem', dst, size)
  {
    forall o: nat | o < size
      ensures ByteOf(mem', dst, o) == ByteOf(mem, obj, o)
    {
      var word := o / 4 * 4;
      assert At(mem, obj, word) == At(mem', dst, word);
    }
  }

  predicate IsString(mem: Memory, obj: nat)
    requires Sizeable(mem, obj)
  {
    var k := ClassOf(mem, obj);
    !IsArrayClass(mem, k) && !IsClassClass(mem, k) && IsStringClass(mem, k)
  }

  function Character(mem: Memory, obj: nat, compressed: bool, i: nat): nat {
    if compressed then ByteOf(mem, obj, 16 + i)
    else ByteOf(mem, obj, 16 + 2 * i) + 0x100 * ByteOf(mem, obj, 16 + 2 * i + 1)
  }

  /** The characters of a string, as its count says. */
  function Characters(mem: Memory, obj: nat): seq<nat>
    requires obj + 8 in mem
  {
    var count := mem[obj + 8];
    var compressed := count % 2 == 0;
    seq<nat>(count / 2, i requires 0 <= i => Character(mem, obj, compressed, i))
  }

  function Element(mem: Memory, obj: nat, first: nat, width: nat): seq<nat> {
    seq<nat>(width, j requires 0 <= j => ByteOf(mem, obj, first + j))
  }

  function ElementsFrom(mem: Memory, obj: nat, data: nat, width: nat, length: nat): seq<seq<nat>> {
    seq(length, i requires 0 <= i => Element(mem, obj, data + i * width, width))
  }

  /** The bytes of each element of an array. */
  function Elements(mem: Memory, obj: nat): seq<seq<nat>>
    requires Sizeable(mem, obj)
    requires IsArrayClass(mem, ClassOf(mem, obj))
  {
    var width := Pow2(SizeShift(mem, ComponentType(mem, ClassOf(mem, obj))));
    ElementsFrom(mem, obj, if width <= 4 then 12 else 16, width, mem[obj + 8])
  }

  /** Both hold the same characters if they are strings, the same elements if they are arrays. */
  ghost predicate SameContents(mem: Memory, obj: nat, mem': Memory, dst: nat) {
    && Sizeable(mem, obj) && Sizeable(mem', dst)
    && (IsString(mem, obj) ==> IsString(mem', dst) && Characters(mem', dst) == Characters(mem, obj))
    && (IsArrayClass(mem, ClassOf(mem, obj)) ==>
          IsArrayClass(mem', ClassOf(mem', dst)) && Elements(mem', dst) == Elements(mem, obj))
  }

  lemma SameCharacters(mem: Memory, obj: nat, mem': Memory, dst: nat, size: nat)
    requires obj + 8 in mem && dst + 8 in mem' && mem'[dst + 8] == mem[obj + 8]
    requires SameBytes(mem, obj, mem', dst, size)
    requires 16 + (if mem[obj + 8] % 2 == 0 then mem[obj + 8] / 2 else mem[obj + 8] - 1) <= size
    ensures Characters(mem', dst) == Characters(mem, obj)
  {
    var count := mem[obj + 8];
    var compressed := count % 2 == 0;
    forall i: nat | i < count / 2
      ensures Character(mem', dst, compressed, i) == Character(mem, obj, compressed, i)
    {
    }
  }

  lemma SameElement(mem: Memory, obj: nat, mem': Memory, dst: nat, size: nat, first: nat, width: nat)
    requires SameBytes(mem, obj, mem', dst, size)
    requires first + width <= size
    ensures Element(mem', dst, first, width) == Element(mem, obj, first, width)
  {
  }

  lemma ElementEnds(i: nat, length: nat, width: nat)
    requires i < length
    ensures i * width + width <= length * width
  {
    assert (i + 1) * width <= length * width;
  }

  lemma SameElementsFrom(mem: Memory, obj: nat, mem': Memory, dst: nat, size: nat, data: nat, width: nat, length: nat)
    requires SameBytes(mem, obj, mem', dst, size)
    requires data + length * width <= size
    ensures ElementsFrom(mem', dst, data, width, length) == ElementsFrom(mem, obj, data, width, length)
  {
    var before, after := ElementsFrom(mem, obj, data, width, length), ElementsFrom(mem', dst, data, width, length);
    forall i | 0 <= i < length
      ensures after[i] == before[i]
    {
      ElementEnds(i, length, width);
      SameElement(mem, obj, mem', dst, size, data + i * width, width);
    }
  }

  lemma SameElements(mem: Memory, obj: nat, mem': Memory, dst: nat)
    requires Sizeable(mem, obj) && Sizeable(mem', dst)
    requires ClassOf(mem', dst) == ClassOf(mem, obj)
    requires var k := ClassOf(mem, obj); IsArrayClass(mem, k) && ComponentType(mem', k) == ComponentType(mem, k)
    requires var c := ComponentType(mem, ClassOf(mem, obj)); SizeShift(mem', c) == SizeShift(mem, c)
    requires mem'[dst + 8] == mem[obj + 8]
    requires SameBytes(mem, obj, mem', dst, ObjectSize(mem, obj))
    ensures Elements(mem', dst) == Elements(mem, obj)
  {
    var shift := SizeShift(mem, ComponentType(mem, ClassOf(mem, obj)));
    ElementsStart(shift);
    ElementsAreAligned(mem[obj + 8], shift);
    SameElementsFrom(mem, obj, mem', dst, ObjectSize(mem, obj), if Pow2(shift) <= 4 then 12 else 16, Pow2(shift),
                     mem[obj + 8]);
  }

  lemma ElementsStart(shift: nat)
    requires shift <= 3
    ensures AlignUp(12, ElementSize(shift)) == if Pow2(shift) <= 4 then 12 else 16
  {
    ElementsAreAligned(1, shift);
    assert Pow2(shift) == ElementSize(shift) by {
      ArrayElementsFill(1, shift, 0);
    }
    FirstAligned(Pow2(shift), AlignUp(12, ElementSize(shift)));
  }

  lemma FirstAligned(width: nat, data: nat)
    requires width == 1 || width == 2 || width == 4 || width == 8
    requires data % width == 0 && 12 <= data < 12 + width
    ensures data == if width <= 4 then 12 else 16
  {
  }

  /** A copy holds every byte of the original, so every character of a string and every element of an
      array, whatever their width. */
  lemma CopyHasSameContents(mem: Memory, obj: nat, mem': Memory, dst: nat, pointerSize: nat)
    requires PointerSize(pointerSize)
    requires IsCopy(mem, obj, mem', dst, pointerSize)
    ensures SameBytes(mem, obj, mem', dst, ObjectSize(mem, obj))
    ensures SameContents(mem, obj, mem', dst)
  {
    var k := ClassOf(mem, obj);
    CopyHasSameClass(mem, obj, mem', dst, pointerSize);
    CopyHasSameSize(mem, obj, mem', dst, pointerSize);
    SameHeader(mem, k, mem', k);
    ImageHasSameBytes(mem, obj, mem', dst, CopiedBytes(mem, obj));
    InstanceOccupies(mem, obj, k);
    if IsArrayClass(mem, k) {
      SameHeader(mem, ComponentType(mem, k), mem', ComponentType(mem, k));
      ArrayHasLength(mem[obj + 8], SizeShift(mem, ComponentType(mem, k)));
      assert At(mem, obj, 8) == At(mem', dst, 8);
      SameElements(mem, obj, mem', dst);
    } else if IsString(mem, obj) {
      StringOccupies(mem, obj, k);
      assert At(mem, obj, 8) == At(mem', dst, 8);
      SameCharacters(mem, obj, mem', dst, ObjectSize(mem, obj));
    }
  }

  // ---------------------------------------------------------------- The copy

  /** Copies an object to `dst`, which the collector has allocated for it: every byte of the object
      arrives. At a place that meets neither the object nor its classes the result scans like the
      original, and a string or array has the same contents. */
  method CopyObject(heap: Heap, from: nat, dst: nat, ghost pointerSize: nat) returns (to: nat)
    requires PointerSize(pointerSize)
    requires WordAligned(heap.words)
    requires Sizeable(heap.words, from)
    requires dst % 4 == 0
    requires Mapped(heap.words, from, CopiedBytes(heap.words, from))
    requires Mapped(heap.words, dst, CopiedBytes(heap.words, from))
    modifies heap
    ensures to == dst
    ensures heap.words == CopyWords(old(heap.words), from, dst, CopiedBytes(old(heap.words), from))
    ensures SameBytes(old(heap.words), from, heap.words, to, ObjectSize(old(heap.words), from))
    ensures old(Relocatable(heap.words, from, dst, pointerSize)) ==>
              && ScansAlike(old(heap.words), from, heap.words, to, pointerSize)
              && ScansAlike(old(heap.words), from, heap.words, from, pointerSize)
              && SameContents(old(heap.words), from, heap.words, to)
  {
    ghost var start := heap.words;
    var bytes := CopiedBytes(heap.words, from);
    MoveWords(heap, from, dst, bytes / 4);
    assert 4 * (bytes / 4) == bytes;
    CopyMakesImage(start, from, dst, bytes);
    ImageHasSameBytes(start, from, heap.words, dst, bytes);
    InstanceOccupies(start, from, start[from]);
    if Relocatable(start, from, dst, pointerSize) {
      ScanCommutesWithCopy(start, from, dst, pointerSize);
      CopyPlacesCopy(start, from, dst, pointerSize);
      CopyHasSameContents(start, from, heap.words, dst, pointerSize);
    }
    to := dst;
  }

  lemma ExampleClassIsRelocatable()
    ensures Relocatable(ExampleClassMemory(), 512, 1024, 8)
    ensures CopiedBytes(ExampleClassMemory(), 512) == 152
  {
    var mem := ExampleClassMemory();
    ExampleClassIsWellFormed();
    assert SizeOfClass(mem, 512) == 152 && SizeOfClass(mem, 128) == 136;
    assert !IsArrayClass(mem, 128);
    assert CopiedBytes(mem, 512) == 152;
  }

  lemma ExampleSlotsShift(slots: seq<nat>)
    requires Shifted([512, 520, 648], 512, slots, 1024)
    ensures slots == [1024, 1032, 1160]
  {
    assert slots[0] == 1024 && slots[1] == 1032 && slots[2] == 1160;
  }

  /** A class object with static references and an overflow bitmap is copied, and the copy scanned. */
  lemma ExampleClassCopies()
    ensures Relocatable(ExampleClassMemory(), 512, 1024, 8)
    ensures ReportedSlots(ExampleClassMemory(), 512, 8) == [512, 520, 648]
    ensures var mem' := CopyWords(ExampleClassMemory(), 512, 1024, CopiedBytes(ExampleClassMemory(), 512));
            && WellFormedObject(mem', 1024, 8)
            && ReportedSlots(mem', 1024, 8) == [1024, 1032, 1160]
  {
    var mem := ExampleClassMemory();
    ExampleClassScans();
    ExampleClassIsRelocatable();
    ScanCommutesWithCopy(mem, 512, 1024, 8);
    ExampleSlotsShift(ReportedSlots(CopyWords(mem, 512, 1024, CopiedBytes(mem, 512)), 1024, 8));
  }
}
