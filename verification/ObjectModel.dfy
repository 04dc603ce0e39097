/** Objects in memory: the fields the collector reads, the size of an object, and what makes an
    object well formed. Addresses, offsets and sizes are in bytes. */
module ObjectModel {
  import opened Machine
  import opened Bitmap
  import opened ClassLayout

  /** The bit of a class's reference offsets that says the bitmap is in overflow words. */
  const SLOW_PATH_MASK := 0x8000_0000

  /** Lengths and counts are signed: words from here on stand for negative ones. */
  const FIRST_NEGATIVE := 0x8000_0000

  /** Mapped 32-bit words by byte address. */
  type Memory = map<nat, Word>

  predicate WordAligned(mem: Memory) {
    forall a :: a in mem ==> a % 4 == 0
  }

  predicate Mapped(mem: Memory, start: nat, bytes: nat) {
    forall a :: start <= a < start + bytes && a % 4 == 0 ==> a in mem
  }

  class Heap {
    var words: Memory

    constructor (words: Memory)
      ensures this.words == words
    {
      this.words := words;
    }
  }

  /** Memory after copying `bytes` bytes from `src` to `dst`. Every word is read before any is
      written, so the two ranges may overlap. */
  function CopyWords(mem: Memory, src: nat, dst: nat, bytes: nat): Memory
    requires WordAligned(mem)
    requires src % 4 == 0 && dst % 4 == 0
    requires Mapped(mem, src, bytes)
  {
    map a | a in mem :: if dst <= a < dst + bytes then mem[src + (a - dst)] else mem[a]
  }

  lemma CopiedWord(mem: Memory, src: nat, dst: nat, bytes: nat, offset: nat)
    requires WordAligned(mem)
    requires src % 4 == 0 && dst % 4 == 0
    requires Mapped(mem, src, bytes) && Mapped(mem, dst, bytes)
    requires offset % 4 == 0 && offset < bytes
    ensures src + offset in mem && dst + offset in mem
    ensures CopyWords(mem, src, dst, bytes)[dst + offset] == mem[src + offset]
  {
  }

  function WordOrZero(mem: Memory, a: int): Word {
    if a in mem then mem[a] else 0
  }

  /** Of `start`, the words in [low, high) have been replaced by those `delta` bytes further on. */
  ghost predicate Moved(start: Memory, delta: int, low: nat, high: nat, mem: Memory) {
    && mem.Keys == start.Keys
    && forall a :: a in start ==> mem[a] == if low <= a < high then WordOrZero(start, a + delta) else start[a]
  }

  lemma OneWord(a: nat, start: nat)
    requires a % 4 == 0 && start % 4 == 0
    ensures start <= a < start + 4 <==> a == start
  {
  }

  /** Moving the word above the range, when its source is not below the word in the range. */
  lemma MoveOneAbove(start: Memory, delta: nat, low: nat, high: nat, mem: Memory)
    requires WordAligned(start) && Moved(start, delta, low, high, mem)
    requires low <= high && high % 4 == 0
    requires high in start && high + delta in start
    ensures Moved(start, delta, low, high + 4, mem[high := mem[high + delta]])
  {
    forall a | a in start
      ensures high <= a < high + 4 <==> a == high
    {
      OneWord(a, high);
    }
  }

  lemma MoveOneBelow(start: Memory, delta: int, low: nat, high: nat, mem: Memory)
    requires WordAligned(start) && Moved(start, delta, low + 4, high, mem)
    requires low + 4 <= high && low % 4 == 0
    requires delta <= 0
    requires low in start && low + delta in start
    ensures Moved(start, delta, low, high, mem[low := mem[low + delta]])
  {
    forall a | a in start
      ensures low <= a < low + 4 <==> a == low
    {
      OneWord(a, low);
    }
  }

  lemma SourceIsAligned(a: nat, src: nat, dst: nat)
    requires a % 4 == 0 && src % 4 == 0 && dst % 4 == 0
    ensures (src + (a - dst)) % 4 == 0
  {
  }

  lemma MappedWord(mem: Memory, start: nat, n: nat, i: nat)
    requires start % 4 == 0
    requires Mapped(mem, start, 4 * n)
    requires i < n
    ensures (start + 4 * i) % 4 == 0 && start + 4 * i in mem
  {
  }

  lemma MovedIsCopied(start: Memory, src: nat, dst: nat, bytes: nat, mem: Memory)
    requires WordAligned(start)
    requires src % 4 == 0 && dst % 4 == 0
    requires Mapped(start, src, bytes)
    requires Moved(start, src - dst, dst, dst + bytes, mem)
    ensures mem == CopyWords(start, src, dst, bytes)
  {
    var copied := CopyWords(start, src, dst, bytes);
    assert copied.Keys == start.Keys;
    forall a | a in start
      ensures mem[a] == copied[a]
    {
      SourceIsAligned(a, src, dst);
    }
  }

  lemma MoveUpwardsStep(start: Memory, src: nat, dst: nat, n: nat, i: nat, mem: Memory)
    requires WordAligned(start)
    requires src % 4 == 0 && dst % 4 == 0
    requires dst <= src && i < n
    requires Mapped(start, src, 4 * n) && Mapped(start, dst, 4 * n)
    requires Moved(start, src - dst, dst, dst + 4 * i, mem)
    ensures src + 4 * i in mem
    ensures Moved(start, src - dst, dst, dst + 4 * (i + 1), mem[dst + 4 * i := mem[src + 4 * i]])
  {
    MappedWord(start, src, n, i);
    MappedWord(start, dst, n, i);
    MoveOneAbove(start, src - dst, dst, dst + 4 * i, mem);
  }

  lemma MoveDownwardsStep(start: Memory, src: nat, dst: nat, n: nat, i: nat, mem: Memory)
    requires WordAligned(start)
    requires src % 4 == 0 && dst % 4 == 0
    requires src <= dst && i < n
    requires Mapped(start, src, 4 * n) && Mapped(start, dst, 4 * n)
    requires Moved(start, src - dst, dst + 4 * (i + 1), dst + 4 * n, mem)
    ensures src + 4 * i in mem
    ensures Moved(start, src - dst, dst + 4 * i, dst + 4 * n, mem[dst + 4 * i := mem[src + 4 * i]])
  {
    MappedWord(start, src, n, i);
    MappedWord(start, dst, n, i);
    MoveOneBelow(start, src - dst, dst + 4 * i, dst + 4 * n, mem);
  }

  /** Copies `n` words upwards, which is safe when the target is at or below the source: the next
      word read has not been written yet. */
  method MoveUpwards(heap: Heap, src: nat, dst: nat, n: nat)
    requires WordAligned(heap.words)
    requires src % 4 == 0 && dst % 4 == 0
    requires dst <= src
    requires Mapped(heap.words, src, 4 * n) && Mapped(heap.words, dst, 4 * n)
    modifies heap
    ensures heap.words == CopyWords(old(heap.words), src, dst, 4 * n)
  {
    ghost var start := heap.words;
    for i := 0 to n
      invariant Moved(start, src - dst, dst, dst + 4 * i, heap.words)
    {
      MoveUpwardsStep(start, src, dst, n, i, heap.words);
      heap.words := heap.words[dst + 4 * i := heap.words[src + 4 * i]];
    }
    MovedIsCopied(start, src, dst, 4 * n, heap.words);
  }

  /** Copies `n` words downwards, which is safe when the target is at or above the source. */
  method MoveDownwards(heap: Heap, src: nat, dst: nat, n: nat)
    requires WordAligned(heap.words)
    requires src % 4 == 0 && dst % 4 == 0
    requires src <= dst
    requires Mapped(heap.words, src, 4 * n) && Mapped(heap.words, dst, 4 * n)
    modifies heap
    ensures heap.words == CopyWords(old(heap.words), src, dst, 4 * n)
  {
    ghost var start := heap.words;
    for i := n downto 0
      invariant Moved(start, src - dst, dst + 4 * i, dst + 4 * n, heap.words)
    {
      MoveDownwardsStep(start, src, dst, n, i, heap.words);
      heap.words := heap.words[dst + 4 * i := heap.words[src + 4 * i]];
    }
    MovedIsCopied(start, src, dst, 4 * n, heap.words);
  }

  /** Copies `n` words to a place they may overlap, in the direction in which no word is overwritten
      before it is read. */
  method MoveWords(heap: Heap, src: nat, dst: nat, n: nat)
    requires WordAligned(heap.words)
    requires src % 4 == 0 && dst % 4 == 0
    requires Mapped(heap.words, src, 4 * n) && Mapped(heap.words, dst, 4 * n)
    modifies heap
    ensures heap.words == CopyWords(old(heap.words), src, dst, 4 * n)
  {
    if dst <= src {
      MoveUpwards(heap, src, dst, n);
    } else {
      MoveDownwards(heap, src, dst, n);
    }
  }

  // ---------------------------------------------------------------- Fields of a class

  predicate ObjectHeader(mem: Memory, obj: nat) {
    obj > 0 && obj % 4 == 0 && obj in mem && obj + 4 in mem
  }

  predicate ClassHeader(mem: Memory, k: nat) {
    k > 0 && k % 4 == 0 && Mapped(mem, k, CLASS_BYTES)
  }

  function ClassOf(mem: Memory, obj: nat): Word
    requires ObjectHeader(mem, obj)
  {
    mem[obj]
  }

  function ComponentType(mem: Memory, k: nat): Word
    requires ClassHeader(mem, k)
  {
    mem[k + 12]
  }

  function AccessFlags(mem: Memory, k: nat): Word
    requires ClassHeader(mem, k)
  {
    mem[k + 64]
  }

  function ClassFlags(mem: Memory, k: nat): Word
    requires ClassHeader(mem, k)
  {
    mem[k + 68]
  }

  function SizeOfClass(mem: Memory, k: nat): Word
    requires ClassHeader(mem, k)
  {
    mem[k + 72]
  }

  function StaticReferenceCount(mem: Memory, k: nat): Word
    requires ClassHeader(mem, k)
  {
    mem[k + 92]
  }

  function InstanceSize(mem: Memory, k: nat): Word
    requires ClassHeader(mem, k)
  {
    mem[k + 96]
  }

  function PrimitiveType(mem: Memory, k: nat): Word
    requires ClassHeader(mem, k)
  {
    mem[k + 104]
  }

  function ReferenceOffsets(mem: Memory, k: nat): Word
    requires ClassHeader(mem, k)
  {
    mem[k + 108]
  }

  function Status(mem: Memory, k: nat): Word
    requires ClassHeader(mem, k)
  {
    mem[k + 112]
  }

  predicate IsArrayClass(mem: Memory, k: nat)
    requires ClassHeader(mem, k)
  {
    ComponentType(mem, k) != 0
  }

  /** Only java.lang.Class is its own class. */
  predicate IsClassClass(mem: Memory, k: nat)
    requires ClassHeader(mem, k)
  {
    mem[k] == k
  }

  predicate IsStringClass(mem: Memory, k: nat)
    requires ClassHeader(mem, k)
  {
    ClassFlags(mem, k) / 0x4 % 2 == 1
  }

  function PrimitiveCode(mem: Memory, k: nat): nat
    requires ClassHeader(mem, k)
  {
    PrimitiveType(mem, k) % 0x1_0000
  }

  function SizeShift(mem: Memory, k: nat): nat
    requires ClassHeader(mem, k)
  {
    PrimitiveType(mem, k) / 0x1_0000
  }

  function StatusCode(mem: Memory, k: nat): nat
    requires ClassHeader(mem, k)
  {
    Status(mem, k) / 0x1000_0000
  }

  predicate IsResolved(mem: Memory, k: nat)
    requires ClassHeader(mem, k)
  {
    StatusCode(mem, k) >= 7 || StatusCode(mem, k) == 2
  }

  predicate HasEmbeddedVtable(mem: Memory, k: nat)
    requires ClassHeader(mem, k)
  {
    var isInterface := AccessFlags(mem, k) / 0x200 % 2 == 1;
    var isAbstract := AccessFlags(mem, k) / 0x400 % 2 == 1;
    || (PrimitiveCode(mem, k) == 0 && !isInterface && !isAbstract)
    || (isAbstract && IsArrayClass(mem, k))
  }

  /** The bitmap does not fit in 31 bits and is stored in words at the end of the class. */
  predicate HasOverflowBitmap(mem: Memory, k: nat)
    requires ClassHeader(mem, k)
  {
    ReferenceOffsets(mem, k) >= SLOW_PATH_MASK
  }

  function OverflowWordCount(mem: Memory, k: nat): nat
    requires ClassHeader(mem, k)
  {
    if HasOverflowBitmap(mem, k) then ReferenceOffsets(mem, k) - SLOW_PATH_MASK else 0
  }

  // ---------------------------------------------------------------- Well-formed classes

  function VtableLength(mem: Memory, k: nat): nat
    requires ClassHeader(mem, k)
    requires HasEmbeddedVtable(mem, k) ==> k + CLASS_BYTES in mem
  {
    if HasEmbeddedVtable(mem, k) then mem[k + CLASS_BYTES] else 0
  }

  function FirstStaticReference(mem: Memory, k: nat, pointerSize: nat): nat
    requires ClassHeader(mem, k)
    requires HasEmbeddedVtable(mem, k) ==> k + CLASS_BYTES in mem
    requires PointerSize(pointerSize)
  {
    ReferencesStart(HasEmbeddedVtable(mem, k), VtableLength(mem, k), pointerSize)
  }

  /** The static references and the bitmap counted by the class fit in the class, in this order. */
  predicate StaticsFit(mem: Memory, k: nat, pointerSize: nat)
    requires ClassHeader(mem, k)
    requires PointerSize(pointerSize)
  {
    && (HasEmbeddedVtable(mem, k) ==> k + CLASS_BYTES in mem)
    && FirstStaticReference(mem, k, pointerSize) + 4 * StaticReferenceCount(mem, k) + 4 * OverflowWordCount(mem, k)
       <= SizeOfClass(mem, k)
    && (OverflowWordCount(mem, k) > 0 ==> SizeOfClass(mem, k) % 4 == 0)
  }

  predicate WellFormedClass(mem: Memory, k: nat, pointerSize: nat)
    requires PointerSize(pointerSize)
  {
    && ClassHeader(mem, k)
    && PrimitiveCode(mem, k) <= 9
    && CLASS_BYTES <= SizeOfClass(mem, k)
    && Mapped(mem, k, SizeOfClass(mem, k))
    && (IsResolved(mem, k) ==> StaticsFit(mem, k, pointerSize))
  }

  /** Any class given the size computed for its contents, whatever its primitive statics, fits. */
  lemma ComputedSizeFits(mem: Memory, k: nat, st: Statics, pointerSize: nat)
    requires PointerSize(pointerSize)
    requires ClassHeader(mem, k)
    requires HasEmbeddedVtable(mem, k) ==> k + CLASS_BYTES in mem
    requires st.refs == StaticReferenceCount(mem, k)
    requires SizeOfClass(mem, k)
          == ClassSize(HasEmbeddedVtable(mem, k), VtableLength(mem, k), st, OverflowWordCount(mem, k), pointerSize)
    ensures StaticsFit(mem, k, pointerSize)
  {
    StaticReferencesPrecedeBitmap(HasEmbeddedVtable(mem, k), VtableLength(mem, k), st, OverflowWordCount(mem, k),
                                  pointerSize, SizeOfClass(mem, k));
  }

  function OverflowBitmapStart(mem: Memory, k: nat): int
    requires ClassHeader(mem, k)
  {
    k + SizeOfClass(mem, k) - 4 * OverflowWordCount(mem, k)
  }

  /** The overflow bitmap can be read. */
  predicate BitmapReadable(mem: Memory, k: nat)
    requires ClassHeader(mem, k)
  {
    OverflowWordCount(mem, k) > 0 ==>
      && k <= OverflowBitmapStart(mem, k)
      && OverflowBitmapStart(mem, k) % 4 == 0
      && Mapped(mem, OverflowBitmapStart(mem, k), 4 * OverflowWordCount(mem, k))
  }

  lemma ResolvedBitmapIsReadable(mem: Memory, k: nat, pointerSize: nat)
    requires PointerSize(pointerSize)
    requires WellFormedClass(mem, k, pointerSize)
    requires IsResolved(mem, k)
    ensures BitmapReadable(mem, k)
  {
  }

  /** `n` consecutive words. */
  function WordsAt(mem: Memory, start: nat, n: nat): (words: seq<Word>)
    requires start % 4 == 0
    requires Mapped(mem, start, 4 * n)
    ensures |words| == n
  {
    if n == 0 then [] else WordsAt(mem, start, n - 1) + [mem[start + 4 * (n - 1)]]
  }

  /** The words holding the reference bits of instances of `k`. */
  function InstanceBitmap(mem: Memory, k: nat): seq<Word>
    requires ClassHeader(mem, k)
    requires BitmapReadable(mem, k)
  {
    if !HasOverflowBitmap(mem, k) then [ReferenceOffsets(mem, k)]
    else if OverflowWordCount(mem, k) == 0 then []
    else WordsAt(mem, OverflowBitmapStart(mem, k), OverflowWordCount(mem, k))
  }

  /** Bits of the reference fields of instances of `k`, in the order they are visited. */
  function InstanceBits(mem: Memory, k: nat): seq<nat>
    requires ClassHeader(mem, k)
    requires BitmapReadable(mem, k)
  {
    Bits(InstanceBitmap(mem, k))
  }

  // ---------------------------------------------------------------- Object sizes

  /** The fields that determine the size of `obj` can be read and are in range. */
  predicate Sizeable(mem: Memory, obj: nat) {
    && ObjectHeader(mem, obj)
    && var k := ClassOf(mem, obj);
    && ClassHeader(mem, k)
    && if IsArrayClass(mem, k) then
         var component := ComponentType(mem, k);
         && ClassHeader(mem, component)
         && SizeShift(mem, component) <= 3
         && obj + 8 in mem
         && mem[obj + 8] < FIRST_NEGATIVE
       else if IsClassClass(mem, k) then
         ClassHeader(mem, obj)
       else if IsStringClass(mem, k) then
         && obj + 8 in mem
         && mem[obj + 8] < FIRST_NEGATIVE
       else
         true
  }

  function ElementSize(shift: nat): (size: nat)
    requires shift <= 3
  {
    match shift case 0 => 1 case 1 => 2 case 2 => 4 case 3 => 8
  }

  function ArraySize(length: nat, shift: nat): nat
    requires shift <= 3
  {
    AlignUp(12, ElementSize(shift)) + length * ElementSize(shift)
  }

  /** An even count is a compressed string of one byte per character. */
  function StringSize(count: nat): nat {
    AlignUp8(16 + (if count % 2 == 0 then 1 else 2) * (count / 2))
  }

  /** Elements start at the first offset after the length that is aligned for them, follow one
      another, and end exactly at the end of the array. */
  lemma ArrayElementsFill(length: nat, shift: nat, i: nat)
    requires shift <= 3
    requires i < length
    ensures var width := ElementSize(shift);
            var data := AlignUp(12, width);
            && width == Pow2(shift)
            && data % width == 0 && 12 <= data < 12 + width
            && data + (i + 1) * width <= ArraySize(length, shift)
            && ArraySize(length, shift) == data + length * width
  {
    match shift
    case 0 =>
    case 1 => assert Pow2(1) == 2;
    case 2 => assert Pow2(2) == 4;
    case 3 => assert Pow2(3) == 8;
  }

  /** Characters follow the 16-byte header, one byte each in a compressed string and two otherwise,
      and the size is the least multiple of 8 that holds them. */
  lemma StringCharactersFit(count: nat)
    ensures var end := 16 + (if count % 2 == 0 then count / 2 else count - 1);
            StringSize(count) % 8 == 0 && end <= StringSize(count) < end + 8
  {
    var half := count / 2;
    if count % 2 == 1 {
      assert count - 1 == 2 * half;
    }
  }

  function ObjectSize(mem: Memory, obj: nat): nat
    requires Sizeable(mem, obj)
  {
    var k := ClassOf(mem, obj);
    if IsArrayClass(mem, k) then
      ArraySize(mem[obj + 8], SizeShift(mem, ComponentType(mem, k)))
    else if IsClassClass(mem, k) then
      SizeOfClass(mem, obj)
    else if IsStringClass(mem, k) then
      StringSize(mem[obj + 8])
    else
      InstanceSize(mem, k)
  }

  /** The bytes the collector reserves and copies for an object. */
  function CopiedBytes(mem: Memory, obj: nat): nat
    requires Sizeable(mem, obj)
  {
    AlignUp8(ObjectSize(mem, obj))
  }

  /** An array of any component: elements are as wide as the component's size shift says, start at the
      first offset after the length that is aligned for them, and the last ends at the object's size. */
  lemma ArrayOccupies(mem: Memory, obj: nat, k: nat, component: nat, i: nat)
    requires Sizeable(mem, obj)
    requires k == mem[obj] && component == mem[k + 12] != 0
    ensures obj + 8 in mem && component + 104 in mem
    ensures var length: nat, shift: nat := mem[obj + 8], mem[component + 104] / 0x1_0000;
            var data := ObjectSize(mem, obj) - length * Pow2(shift);
            && data % Pow2(shift) == 0 && 12 <= data < 12 + Pow2(shift)
            && (i < length ==> data + i * Pow2(shift) + Pow2(shift) <= ObjectSize(mem, obj))
  {
    var length, shift := mem[obj + 8], mem[component + 104] / 0x1_0000;
    ElementsAreAligned(length, shift);
    if i < length {
      ArrayElementsFill(length, shift, i);
    }
  }

  lemma ElementsAreAligned(length: nat, shift: nat)
    requires shift <= 3
    ensures ArraySize(length, shift) - length * Pow2(shift) == AlignUp(12, ElementSize(shift))
    ensures var data := AlignUp(12, ElementSize(shift));
            data % Pow2(shift) == 0 && 12 <= data < 12 + Pow2(shift)
  {
    ArrayElementsFill(length + 1, shift, 0);
  }

  /** A string: the characters follow the 16-byte header, one byte each if the count is even and two
      otherwise, and the object's size is the least multiple of 8 that holds them. */
  lemma StringOccupies(mem: Memory, obj: nat, k: nat)
    requires Sizeable(mem, obj)
    requires k == mem[obj] && mem[k + 12] == 0 && mem[k] != k && mem[k + 68] / 0x4 % 2 == 1
    ensures obj + 8 in mem
    ensures var count: nat := mem[obj + 8];
            var end := 16 + if count % 2 == 0 then count / 2 else count - 1;
            ObjectSize(mem, obj) % 8 == 0 && end <= ObjectSize(mem, obj) < end + 8
  {
    StringCharactersFit(mem[obj + 8]);
  }

  /** A class object has the size it states, any other instance the size its class states; and the
      bytes the collector copies are the least multiple of 8 that holds the object. */
  lemma InstanceOccupies(mem: Memory, obj: nat, k: nat)
    requires Sizeable(mem, obj)
    requires k == mem[obj]
    ensures mem[k + 12] == 0 && mem[k] == k ==> obj + 72 in mem && ObjectSize(mem, obj) == mem[obj + 72]
    ensures mem[k + 12] == 0 && mem[k] != k && mem[k + 68] / 0x4 % 2 == 0 ==> ObjectSize(mem, obj) == mem[k + 96]
    ensures CopiedBytes(mem, obj) % 8 == 0
    ensures ObjectSize(mem, obj) <= CopiedBytes(mem, obj) < ObjectSize(mem, obj) + 8
  {
  }

  // ---------------------------------------------------------------- Kinds of objects

  /** How the scanner treats an object, decided by the flags of its class. */
  datatype Kind =
    | Instance
    | NoReferences
    | ClassObject
    | ObjectArray
    | WeakReference
    | DexCache
    | ClassLoader
    | Unexpected

  function KindOf(flags: Word): Kind {
    if flags == 0 || flags == 0x800 then Instance
    else if flags / 0x1 % 2 == 1 then NoReferences
    else if flags == 0x10 then ClassObject
    else if flags / 0x8 % 2 == 1 then ObjectArray
    else if flags / 0x80 % 16 != 0 then WeakReference
    else if flags / 0x40 % 2 == 1 then DexCache
    else if flags / 0x20 % 2 == 1 then ClassLoader
    else Unexpected
  }

  /** The references these bits stand for lie within the first `size` bytes of an object. */
  predicate BitsWithin(bits: seq<nat>, size: nat) {
    forall b :: b in bits ==> 8 + 4 * b + 4 <= size
  }

  /** The class of a fixed-size instance: its references lie inside the instance. */
  predicate InstanceClass(mem: Memory, k: nat, pointerSize: nat)
    requires PointerSize(pointerSize)
    requires WellFormedClass(mem, k, pointerSize)
  {
    && IsResolved(mem, k)
    && BitmapReadable(mem, k)
    && !IsArrayClass(mem, k) && !IsClassClass(mem, k) && !IsStringClass(mem, k)
    && BitsWithin(InstanceBits(mem, k), InstanceSize(mem, k))
  }

  /** What the class flags say about an object is true of it. */
  predicate FlagsDescribe(mem: Memory, obj: nat, pointerSize: nat)
    requires PointerSize(pointerSize)
    requires Sizeable(mem, obj)
    requires WellFormedClass(mem, ClassOf(mem, obj), pointerSize)
  {
    var k := ClassOf(mem, obj);
    match KindOf(ClassFlags(mem, k))
    case NoReferences => !IsClassClass(mem, k)
    case ClassObject =>
      && IsResolved(mem, k)
      && BitmapReadable(mem, k)
      && !IsArrayClass(mem, k) && IsClassClass(mem, k)
      && BitsWithin(InstanceBits(mem, k), CLASS_BYTES)
      && WellFormedClass(mem, obj, pointerSize)
    case ObjectArray => IsArrayClass(mem, k) && SizeShift(mem, ComponentType(mem, k)) == 2
    case Unexpected => !IsClassClass(mem, k)
    case _ => InstanceClass(mem, k, pointerSize)
  }

  predicate WellFormedObject(mem: Memory, obj: nat, pointerSize: nat)
    requires PointerSize(pointerSize)
  {
    && Sizeable(mem, obj)
    && WellFormedClass(mem, ClassOf(mem, obj), pointerSize)
    && 8 <= ObjectSize(mem, obj)
    && Mapped(mem, obj, CopiedBytes(mem, obj))
    && FlagsDescribe(mem, obj, pointerSize)
  }
}
