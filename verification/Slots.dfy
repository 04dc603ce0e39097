/** Compressed slots: 32-bit references, the heap layout that keeps them lossless, and ranges of
    slots with their iterator and bulk copy. */
module Slots {
  import opened Machine
  import opened ObjectModel
  import Scanner

  datatype Option<T> = None | Some(value: T)

  // ---------------------------------------------------------------- Compression

  /** Truncates an address to 32 bits. */
  function Compress(address: nat): Word {
    address % 0x1_0000_0000
  }

  function Decompress(v: Word): Option<nat> {
    if v == 0 then None else Some(v)
  }

  function LoadSlot(mem: Memory, slot: nat): Option<nat>
    requires slot in mem
  {
    Decompress(mem[slot])
  }

  function StoreSlot(mem: Memory, slot: nat, address: nat): Memory
    requires slot in mem
  {
    mem[slot := Compress(address)]
  }

  /** Storing an address and loading it back is the identity exactly for the non-null addresses
      below 4 GiB; other slots keep what they held. */
  lemma StoreThenLoad(mem: Memory, slot: nat, address: nat, other: nat)
    requires slot in mem && other in mem
    ensures LoadSlot(StoreSlot(mem, slot, address), slot) == Some(address) <==> 0 < address < 0x1_0000_0000
    ensures other != slot ==> LoadSlot(StoreSlot(mem, slot, address), other) == LoadSlot(mem, other)
  {
  }

  // ---------------------------------------------------------------- The heap's place

  const BYTES_IN_CHUNK := 0x40_0000
  const MAX_CAPACITY := 0x8000_0000

  datatype Layout = Layout(heapStart: nat, heapEnd: nat)

  function ChunkAlignDown(x: nat): (r: nat)
    ensures r % BYTES_IN_CHUNK == 0 && r <= x < r + BYTES_IN_CHUNK
  {
    x / BYTES_IN_CHUNK * BYTES_IN_CHUNK
  }

  function ChunkAlignUp(x: nat): (r: nat)
    ensures r % BYTES_IN_CHUNK == 0 && x <= r < x + BYTES_IN_CHUNK
  {
    (x + BYTES_IN_CHUNK - 1) / BYTES_IN_CHUNK * BYTES_IN_CHUNK
  }

  /** The address range reserved for a heap, or nothing where start-up fails. */
  function VmLayout(capacity: nat, wide: bool): Option<Layout> {
    if capacity > MAX_CAPACITY then None
    else
      var start: nat := if wide then 0x40_0000 else 0x2000_0000;
      Some(Layout(ChunkAlignDown(start), ChunkAlignUp(start + capacity + 5 * BYTES_IN_CHUNK)))
  }

  /** Every heap the runtime accepts lies in non-null addresses below 4 GiB and has room for the
      capacity asked for, so every reference into it survives a slot. */
  lemma HeapReferencesSurviveSlots(capacity: nat, wide: bool, address: nat, mem: Memory, slot: nat)
    requires VmLayout(capacity, wide).Some?
    requires var layout := VmLayout(capacity, wide).value; layout.heapStart <= address < layout.heapEnd
    requires slot in mem
    ensures LoadSlot(StoreSlot(mem, slot, address), slot) == Some(address)
    ensures var layout := VmLayout(capacity, wide).value;
            layout.heapEnd - layout.heapStart >= capacity + 5 * BYTES_IN_CHUNK
  {
    StoreThenLoad(mem, slot, address, slot);
  }

  /** The heap starts in the first chunk on 64-bit targets and at 512 MiB on others, and ends at the
      first chunk boundary after the capacity and five chunks of slack. */
  lemma HeapPlace(capacity: nat, wide: bool)
    ensures VmLayout(capacity, wide).Some? <==> capacity <= 0x8000_0000
    ensures VmLayout(capacity, wide).Some? ==>
              var layout := VmLayout(capacity, wide).value;
              && layout.heapStart == (if wide then 0x40_0000 else 0x2000_0000)
              && layout.heapEnd % 0x40_0000 == 0
              && layout.heapStart + capacity + 0x140_0000 <= layout.heapEnd < layout.heapStart + capacity + 0x180_0000
  {
  }

  /** The address at which the boot image wants to be mapped. */
  const BOOT_IMAGE := 0x7000_0000

  /** On a 64-bit target the heap stays below the boot image exactly for capacities up to 1768 MiB: the
      slack takes 20 MiB of the 1788 MiB between the start of the heap and the image. */
  lemma HeapEndsBelowBootImageExactly(capacity: nat)
    requires VmLayout(capacity, true).Some?
    ensures VmLayout(capacity, true).value.heapEnd <= BOOT_IMAGE <==> capacity <= 1768 * 0x10_0000
  {
    HeapPlace(capacity, true);
    var end := VmLayout(capacity, true).value.heapEnd;
    assert end == 0x40_0000 * (end / 0x40_0000);
  }

  /** A capacity of 1788 MiB is accepted and takes the heap 20 MiB into the boot image. */
  lemma LargestNamedHeapMeetsBootImage()
    ensures VmLayout(1788 * 0x10_0000, true).Some?
    ensures VmLayout(1788 * 0x10_0000, true).value.heapEnd == BOOT_IMAGE + 20 * 0x10_0000
  {
  }

  // ---------------------------------------------------------------- Ranges of slots

  class SlotIterator {
    var cursor: nat
    var limit: nat

    constructor (start: nat, end: nat)
      ensures cursor == start && limit == end
    {
      cursor, limit := start, end;
    }

    method Next() returns (slot: Option<nat>)
      modifies this
      ensures limit == old(limit)
      ensures old(cursor) >= limit ==> slot == None && cursor == old(cursor)
      ensures old(cursor) < limit ==> slot == Some(old(cursor)) && cursor == old(cursor) + 4
    {
      if cursor >= limit {
        slot := None;
      } else {
        slot := Some(cursor);
        cursor := cursor + 4;
      }
    }
  }

  /** Drains an iterator over `n` slots from `start`. */
  method CollectSlots(start: nat, n: nat) returns (slots: seq<nat>)
    ensures slots == Scanner.Stride(start, n)
  {
    var it := new SlotIterator(start, start + 4 * n);
    slots := [];
    ghost var count: nat := 0;
    var next := it.Next();
    while next.Some?
      invariant it.limit == start + 4 * n
      invariant 0 <= count <= n && slots == Scanner.Stride(start, count)
      invariant next.Some? ==> count < n && next.value == start + 4 * count && it.cursor == start + 4 * count + 4
      invariant next.None? ==> count == n
      decreases n - count, next
    {
      slots := slots + [next.value];
      count := count + 1;
      next := it.Next();
    }
  }

  /** A range of slots, [start, end). */
  datatype Slice = Slice(start: nat, end: nat)

  /** Copies one slice over another of the same length, which it may overlap. */
  method CopySlice(heap: Heap, src: Slice, tgt: Slice)
    requires WordAligned(heap.words)
    requires src.start % 4 == 0 && tgt.start % 4 == 0
    requires src.start <= src.end && tgt.start <= tgt.end
    requires src.end - src.start == tgt.end - tgt.start
    requires (tgt.end - tgt.start) % 4 == 0
    requires Mapped(heap.words, src.start, src.end - src.start)
    requires Mapped(heap.words, tgt.start, tgt.end - tgt.start)
    modifies heap
    ensures heap.words == CopyWords(old(heap.words), src.start, tgt.start, tgt.end - tgt.start)
  {
    var count := (tgt.end - tgt.start) / 4;
    MoveWords(heap, src.start, tgt.start, count);
  }

  /** Overlapping or not, after a copy of `n` slots the i-th slot iterated over the target loads what
      the i-th slot of the source held before, and nothing outside the target changes. */
  lemma CopiedSlotsLoadSource(mem: Memory, src: nat, tgt: nat, n: nat, i: nat, other: nat)
    requires WordAligned(mem)
    requires src % 4 == 0 && tgt % 4 == 0
    requires Mapped(mem, src, 4 * n) && Mapped(mem, tgt, 4 * n)
    requires i < n
    requires other in mem && !(tgt <= other < tgt + 4 * n)
    ensures var mem' := CopyWords(mem, src, tgt, 4 * n);
            var from, to := Scanner.Stride(src, n)[i], Scanner.Stride(tgt, n)[i];
            && from in mem && to in mem'
            && LoadSlot(mem', to) == LoadSlot(mem, from)
            && LoadSlot(mem', other) == LoadSlot(mem, other)
  {
    Scanner.StrideIsWithin(src, n);
    Scanner.StrideIsWithin(tgt, n);
    CopiedWord(mem, src, tgt, 4 * n, 4 * i);
  }
}
