/** How the runtime lays out a class object: header, embedded tables, static references, padding,
    static primitives, reference bitmap. Sizes are in bytes. */
module ClassLayout {
  import opened Machine

  /** Numbers of static fields by width. */
  datatype Statics = Statics(bytes: nat, shorts: nat, ints: nat, longs: nat, refs: nat)

  /** Size of the fixed part of a class. */
  const CLASS_BYTES := 120

  const NO_STATICS := Statics(0, 0, 0, 0, 0)

  predicate PointerSize(p: nat) {
    p == 4 || p == 8
  }

  // ---------------------------------------------------------------- Filling the gap

  /** A choice of small fields that fits in the gap. */
  predicate Fits(gap: nat, st: Statics, ints: nat, shorts: nat, bytes: nat) {
    && ints <= st.ints && shorts <= st.shorts && bytes <= st.bytes
    && 4 * ints + 2 * shorts + bytes <= gap
  }

  /** No choice of small fields leaves fewer padding bytes than `padding`, and one leaves as few. */
  ghost predicate IsLeastPadding(padding: nat, gap: nat, st: Statics) {
    && (forall i: nat, s: nat, b: nat :: Fits(gap, st, i, s, b) ==> padding + 4 * i + 2 * s + b <= gap)
    && (exists i: nat, s: nat, b: nat :: Fits(gap, st, i, s, b) && padding + 4 * i + 2 * s + b == gap)
  }

  /** Padding left by taking the widest fields first. */
  function GreedyPadding(gap: nat, st: Statics): nat
    decreases gap
  {
    if gap >= 4 && st.ints > 0 then GreedyPadding(gap - 4, st.(ints := st.ints - 1))
    else if gap >= 2 && st.shorts > 0 then GreedyPadding(gap - 2, st.(shorts := st.shorts - 1))
    else if gap >= 1 && st.bytes > 0 then GreedyPadding(gap - 1, st.(bytes := st.bytes - 1))
    else gap
  }

  /** Taking the widest fields first is optimal, for a gap of any size: a choice that passes over a
      field that fits can trade narrower fields for it. */
  lemma {:induction false} NoChoiceBeatsGreedy(gap: nat, st: Statics, i: nat, s: nat, b: nat)
    requires Fits(gap, st, i, s, b)
    ensures GreedyPadding(gap, st) + 4 * i + 2 * s + b <= gap
    decreases gap
  {
    if gap >= 4 && st.ints > 0 {
      var next := st.(ints := st.ints - 1);
      if i > 0 {
        NoChoiceBeatsGreedy(gap - 4, next, i - 1, s, b);
      } else if 2 * s + b <= 3 {
        NoChoiceBeatsGreedy(gap - 4, next, 0, 0, 0);
      } else if s >= 2 {
        NoChoiceBeatsGreedy(gap - 4, next, 0, s - 2, b);
      } else {
        NoChoiceBeatsGreedy(gap - 4, next, 0, 0, b + 2 * s - 4);
      }
    } else if gap >= 2 && st.shorts > 0 {
      var next := st.(shorts := st.shorts - 1);
      if s > 0 {
        NoChoiceBeatsGreedy(gap - 2, next, i, s - 1, b);
      } else {
        NoChoiceBeatsGreedy(gap - 2, next, 0, 0, if b >= 2 then b - 2 else 0);
      }
    } else if gap >= 1 && st.bytes > 0 {
      NoChoiceBeatsGreedy(gap - 1, st.(bytes := st.bytes - 1), 0, 0, if b >= 1 then b - 1 else 0);
    }
  }

  lemma {:induction false} GreedyChoice(gap: nat, st: Statics) returns (i: nat, s: nat, b: nat)
    ensures Fits(gap, st, i, s, b)
    ensures GreedyPadding(gap, st) + 4 * i + 2 * s + b == gap
    decreases gap
  {
    if gap >= 4 && st.ints > 0 {
      i, s, b := GreedyChoice(gap - 4, st.(ints := st.ints - 1));
      i := i + 1;
    } else if gap >= 2 && st.shorts > 0 {
      i, s, b := GreedyChoice(gap - 2, st.(shorts := st.shorts - 1));
      s := s + 1;
    } else if gap >= 1 && st.bytes > 0 {
      i, s, b := GreedyChoice(gap - 1, st.(bytes := st.bytes - 1));
      b := b + 1;
    } else {
      i, s, b := 0, 0, 0;
    }
  }

  lemma GreedyPaddingIsLeast(gap: nat, st: Statics)
    ensures IsLeastPadding(GreedyPadding(gap, st), gap, st)
  {
    var i, s, b := GreedyChoice(gap, st);
    forall i: nat, s: nat, b: nat | Fits(gap, st, i, s, b)
      ensures GreedyPadding(gap, st) + 4 * i + 2 * s + b <= gap
    {
      NoChoiceBeatsGreedy(gap, st, i, s, b);
    }
  }

  /** The three loops that shuffle small fields forward into the gap. */
  method FillGap(gap: nat, st: Statics) returns (padding: nat, rest: Statics)
    ensures IsLeastPadding(padding, gap, st)
    ensures padding == GreedyPadding(gap, st)
    ensures rest.longs == st.longs
    ensures padding + SmallBytes(st) == gap + SmallBytes(rest)
  {
    padding, rest := gap, st;
    while padding >= 4 && rest.ints != 0
      invariant rest.longs == st.longs && padding + SmallBytes(st) == gap + SmallBytes(rest)
      invariant GreedyPadding(padding, rest) == GreedyPadding(gap, st)
    {
      rest := rest.(ints := rest.ints - 1);
      padding := padding - 4;
    }
    while padding >= 2 && rest.shorts != 0
      invariant rest.longs == st.longs && padding + SmallBytes(st) == gap + SmallBytes(rest)
      invariant GreedyPadding(padding, rest) == GreedyPadding(gap, st)
      invariant padding < 4 || rest.ints == 0
    {
      rest := rest.(shorts := rest.shorts - 1);
      padding := padding - 2;
    }
    while padding >= 1 && rest.bytes != 0
      invariant rest.longs == st.longs && padding + SmallBytes(st) == gap + SmallBytes(rest)
      invariant GreedyPadding(padding, rest) == GreedyPadding(gap, st)
      invariant padding < 4 || rest.ints == 0
      invariant padding < 2 || rest.shorts == 0
    {
      rest := rest.(bytes := rest.bytes - 1);
      padding := padding - 1;
    }
    GreedyPaddingIsLeast(gap, st);
  }

  // ---------------------------------------------------------------- The whole layout

  function SmallBytes(st: Statics): nat {
    st.bytes + 2 * st.shorts + 4 * st.ints
  }

  function PrimitiveBytes(st: Statics): nat {
    SmallBytes(st) + 8 * st.longs
  }

  /** End of the header and the embedded tables, where static references begin. */
  function ReferencesStart(embedded: bool, vtableLength: nat, pointerSize: nat): nat
    requires PointerSize(pointerSize)
  {
    if !embedded then CLASS_BYTES
    else if pointerSize == 4 then 128 + 4 * vtableLength
    else 136 + 8 * vtableLength
  }

  function ReferencesEnd(embedded: bool, vtableLength: nat, st: Statics, pointerSize: nat): nat
    requires PointerSize(pointerSize)
  {
    ReferencesStart(embedded, vtableLength, pointerSize) + 4 * st.refs
  }

  /** Distance from the end of the references to where 64-bit fields may start. */
  function Gap(referencesEnd: nat, st: Statics): (gap: nat)
    ensures st.longs > 0 ==> (referencesEnd + gap) % 8 == 0
    ensures st.longs == 0 ==> gap == 0
  {
    if st.longs > 0 then AlignUp8(referencesEnd) - referencesEnd else 0
  }

  lemma GapIsDistanceToBoundary(referencesEnd: nat, st: Statics)
    requires st.longs > 0
    ensures Gap(referencesEnd, st) == if referencesEnd % 8 == 0 then 0 else 8 - referencesEnd % 8
  {
  }

  function StaticsEnd(embedded: bool, vtableLength: nat, st: Statics, pointerSize: nat): nat
    requires PointerSize(pointerSize)
  {
    var referencesEnd := ReferencesEnd(embedded, vtableLength, st, pointerSize);
    referencesEnd + GreedyPadding(Gap(referencesEnd, st), st) + PrimitiveBytes(st)
  }

  /** The bitmap, if there is one, follows the static fields at the next word. */
  function BitmapStart(staticsEnd: nat, bitmapWords: nat): (start: nat)
    ensures staticsEnd <= start
    ensures bitmapWords > 0 ==> start % 4 == 0
  {
    if bitmapWords > 0 then AlignUp4(staticsEnd) else staticsEnd
  }

  /** Size of a class object: header and tables, references, primitives and the least padding,
      then the bitmap. */
  function ClassSize(embedded: bool, vtableLength: nat, st: Statics, bitmapWords: nat, pointerSize: nat): nat
    requires PointerSize(pointerSize)
  {
    BitmapStart(StaticsEnd(embedded, vtableLength, st, pointerSize), bitmapWords) + 4 * bitmapWords
  }

  /** Space used by the fixed part and, where there is one, the embedded vtable: its length, the
      interface table pointer, and the entries. */
  method TablesEnd(embedded: bool, vtableLength: nat, pointerSize: nat) returns (size: nat)
    requires PointerSize(pointerSize)
    ensures size == ReferencesStart(embedded, vtableLength, pointerSize)
  {
    size := CLASS_BYTES;
    if embedded {
      size := AlignUp(size + 4, pointerSize);
      size := size + pointerSize;
      size := size + vtableLength * pointerSize;
    }
  }

  /** Space used up to the end of the primitive statics, filling the gap before 64-bit ones. */
  method PrimitivesEnd(referencesEnd: nat, st: Statics) returns (size: nat)
    ensures size == referencesEnd + GreedyPadding(Gap(referencesEnd, st), st) + PrimitiveBytes(st)
  {
    size := referencesEnd;
    var rest := st;
    if st.longs > 0 {
      GapIsDistanceToBoundary(referencesEnd, st);
    }
    if size % 8 != 0 && st.longs > 0 {
      var gap := 8 - size % 8;
      size := size + gap;
      var padding;
      padding, rest := FillGap(gap, st);
    }
    size := size + rest.bytes + rest.shorts * 2 + rest.ints * 4 + rest.longs * 8;
  }

  method ComputeClassSize(embedded: bool, vtableLength: nat, st: Statics, bitmapWords: nat, pointerSize: nat)
    returns (size: nat)
    requires PointerSize(pointerSize)
    ensures size == ClassSize(embedded, vtableLength, st, bitmapWords, pointerSize)
  {
    size := TablesEnd(embedded, vtableLength, pointerSize);
    size := size + st.refs * 4;
    assert size == ReferencesEnd(embedded, vtableLength, st, pointerSize);
    size := PrimitivesEnd(size, st);
    assert size == StaticsEnd(embedded, vtableLength, st, pointerSize);
    if bitmapWords > 0 {
      size := AlignUp4(size);
      size := size + bitmapWords * 4;
    }
  }

  /** Space is conserved and padding is least: for all counts, the bytes of a class without a bitmap are
      the header and tables, four for each reference, the widths of all primitives, and padding that no
      choice of small fields for the gap before 64-bit fields improves on; and 64-bit fields start on an
      8-byte boundary, followed by whatever small fields did not move forward. */
  lemma LayoutConservesSpace(embedded: bool, vtableLength: nat, st: Statics, pointerSize: nat)
    requires PointerSize(pointerSize)
    ensures var referencesEnd := ReferencesStart(embedded, vtableLength, pointerSize) + 4 * st.refs;
            var gap := if st.longs > 0 then (8 - referencesEnd % 8) % 8 else 0;
            var end := ClassSize(embedded, vtableLength, st, 0, pointerSize);
            && (st.longs > 0 ==> (referencesEnd + gap) % 8 == 0)
            && exists padding: nat ::
                 && IsLeastPadding(padding, gap, st)
                 && end == referencesEnd + padding + st.bytes + 2 * st.shorts + 4 * st.ints + 8 * st.longs
                 && end == (referencesEnd + gap) + 8 * st.longs
                           + (st.bytes + 2 * st.shorts + 4 * st.ints - (gap - padding))
  {
    var referencesEnd := ReferencesEnd(embedded, vtableLength, st, pointerSize);
    var gap := Gap(referencesEnd, st);
    if st.longs > 0 {
      GapIsDistanceToBoundary(referencesEnd, st);
    }
    GreedyPaddingIsLeast(gap, st);
    assert IsLeastPadding(GreedyPadding(gap, st), gap, st);
  }

  /** A bitmap adds its words, four bytes each, from the next word boundary after the static fields. */
  lemma BitmapFollowsStatics(embedded: bool, vtableLength: nat, st: Statics, bitmapWords: nat, pointerSize: nat)
    requires PointerSize(pointerSize)
    requires bitmapWords > 0
    ensures var end := ClassSize(embedded, vtableLength, st, 0, pointerSize);
            var start := ClassSize(embedded, vtableLength, st, bitmapWords, pointerSize) - 4 * bitmapWords;
            start % 4 == 0 && end <= start < end + 4
  {
    var end := StaticsEnd(embedded, vtableLength, st, pointerSize);
    assert ClassSize(embedded, vtableLength, st, bitmapWords, pointerSize) - 4 * bitmapWords == AlignUp4(end);
  }

  /** Where the entries of an embedded vtable start: after the vtable's length and the interface table
      pointer, which is at the first offset after the length that is aligned for a pointer. */
  function VtableStart(pointerSize: nat): nat {
    if pointerSize == 4 then 128 else 136
  }

  /** The entries of an embedded vtable follow the length and the interface table pointer, are aligned
      for pointers, and end exactly where static references begin. */
  lemma VtableEndsAtReferences(vtableLength: nat, pointerSize: nat)
    requires PointerSize(pointerSize)
    ensures var table := VtableStart(pointerSize) - pointerSize;
            table % pointerSize == 0 && CLASS_BYTES + 4 <= table < CLASS_BYTES + 4 + pointerSize
    ensures ReferencesStart(true, vtableLength, pointerSize) == VtableStart(pointerSize) + pointerSize * vtableLength
    ensures ReferencesStart(false, vtableLength, pointerSize) == 120
  {
  }

  lemma ReferencesStartIsAligned(embedded: bool, vtableLength: nat, pointerSize: nat)
    requires PointerSize(pointerSize)
    ensures ReferencesStart(embedded, vtableLength, pointerSize) % 4 == 0
    ensures CLASS_BYTES + (if embedded then 8 else 0) <= ReferencesStart(embedded, vtableLength, pointerSize)
  {
  }

  /** The two places that know the layout agree: the first static reference, computed with all
      counts zero, is where references start for any counts, and the bitmap found by counting back
      from the end of the class is word aligned and after every static field. */
  lemma LayoutIsCoherent(embedded: bool, vtableLength: nat, st: Statics, bitmapWords: nat, pointerSize: nat)
    requires PointerSize(pointerSize)
    ensures ClassSize(embedded, vtableLength, NO_STATICS, 0, pointerSize)
            == ReferencesStart(embedded, vtableLength, pointerSize)
    ensures var bitmapStart := ClassSize(embedded, vtableLength, st, bitmapWords, pointerSize) - 4 * bitmapWords;
            && ReferencesEnd(embedded, vtableLength, st, pointerSize)
               <= StaticsEnd(embedded, vtableLength, st, pointerSize)
               <= bitmapStart
            && (bitmapWords > 0 ==> bitmapStart % 4 == 0)
  {
    EmptyStaticsEnd(embedded, vtableLength, pointerSize);
    var bitmapStart := BitmapStart(StaticsEnd(embedded, vtableLength, st, pointerSize), bitmapWords);
    assert ClassSize(embedded, vtableLength, st, bitmapWords, pointerSize) - 4 * bitmapWords == bitmapStart;
  }

  lemma EmptyStaticsEnd(embedded: bool, vtableLength: nat, pointerSize: nat)
    requires PointerSize(pointerSize)
    ensures StaticsEnd(embedded, vtableLength, NO_STATICS, pointerSize)
            == ReferencesStart(embedded, vtableLength, pointerSize)
  {
  }

  /** Static references, wherever they start, end before the bitmap at the end of the class. */
  lemma StaticReferencesPrecedeBitmap(embedded: bool, vtableLength: nat, st: Statics, bitmapWords: nat,
                                      pointerSize: nat, size: nat)
    requires PointerSize(pointerSize)
    requires size == ClassSize(embedded, vtableLength, st, bitmapWords, pointerSize)
    ensures var start := ReferencesStart(embedded, vtableLength, pointerSize);
            && start + 4 * st.refs + 4 * bitmapWords <= size
            && (bitmapWords > 0 ==> size % 4 == 0)
  {
    LayoutIsCoherent(embedded, vtableLength, st, bitmapWords, pointerSize);
    if bitmapWords > 0 {
      AddingWordsKeepsAlignment(size - 4 * bitmapWords, bitmapWords);
    }
  }

  lemma AddingWordsKeepsAlignment(x: int, words: nat)
    requires x % 4 == 0
    ensures (x + 4 * words) % 4 == 0
  {
  }

  /** The offset of the first static reference, computed as the size of a class with the same
      tables and nothing else. */
  method FirstReferenceStaticFieldsOffset(embedded: bool, vtableLength: nat, pointerSize: nat)
    returns (offset: nat)
    requires PointerSize(pointerSize)
    ensures offset == ReferencesStart(embedded, vtableLength, pointerSize)
  {
    if embedded {
      LayoutIsCoherent(true, vtableLength, NO_STATICS, 0, pointerSize);
      offset := ComputeClassSize(true, vtableLength, NO_STATICS, 0, pointerSize);
    } else {
      offset := CLASS_BYTES;
    }
  }
}
