/** Reference bitmaps: bit `b` stands for the 4-byte reference at offset 8 + 4 * b, after the
    8-byte object header. One 32-bit word covers 128 bytes of fields. */
module Bitmap {
  import opened Machine

  /** Bit `b` of `x`, counted from the least significant. */
  predicate Bit(x: nat, b: nat) {
    if b == 0 then x % 2 == 1 else Bit(x / 2, b - 1)
  }

  /** Bit `b` of the concatenation of the words, 32 bits to a word, least significant word first. */
  predicate BitmapBit(words: seq<Word>, b: nat)
    decreases |words|
  {
    words != []
    && var last := |words| - 1;
    if b < 32 * last then BitmapBit(words[..last], b)
    else b < 32 * last + 32 && Bit(words[last], b - 32 * last)
  }

  /** Bits found by shifting `refs` to the right until it is zero, counted from `first`. */
  function WordBits(first: nat, refs: nat): seq<nat>
    decreases refs
  {
    if refs == 0 then []
    else (if refs % 2 == 1 then [first] else []) + WordBits(first + 1, refs / 2)
  }

  /** Bits found by taking the words one after the other. */
  function Bits(words: seq<Word>): seq<nat>
    decreases |words|
  {
    if words == [] then []
    else
      var last := |words| - 1;
      Bits(words[..last]) + WordBits(32 * last, words[last])
  }

  /** The slot of the reference that bit `b` stands for, in the object at `obj`. */
  function FieldSlot(obj: nat, b: nat): nat {
    obj + 8 + 4 * b
  }

  function FieldSlots(obj: nat, bits: seq<nat>): (slots: seq<nat>)
    ensures |slots| == |bits|
  {
    seq(|bits|, i requires 0 <= i < |bits| => FieldSlot(obj, bits[i]))
  }

  predicate Ascending(s: seq<nat>) {
    forall i, j :: 0 <= i < j < |s| ==> s[i] < s[j]
  }

  // ---------------------------------------------------------------- Exactness

  function Pow2(n: nat): nat {
    if n == 0 then 1 else 2 * Pow2(n - 1)
  }

  lemma Pow2Values()
    ensures Pow2(31) == 0x8000_0000
    ensures Pow2(32) == 0x1_0000_0000
  {
    assert Pow2(8) == 0x100;
    assert Pow2(16) == 0x1_0000;
    assert Pow2(24) == 0x100_0000;
  }

  lemma {:induction false} ZeroHasNoBits(b: nat)
    ensures !Bit(0, b)
  {
    if b > 0 {
      ZeroHasNoBits(b - 1);
    }
  }

  lemma {:induction false} BitsAreBelowWidth(x: nat, b: nat, width: nat)
    requires x < Pow2(width)
    requires Bit(x, b)
    ensures b < width
  {
    if width == 0 {
      ZeroHasNoBits(b);
    } else if b > 0 {
      BitsAreBelowWidth(x / 2, b - 1, width - 1);
    }
  }

  /** The shift loop finds each set bit once, in ascending order. */
  lemma {:induction false} WordBitsAreExact(first: nat, refs: nat)
    ensures Ascending(WordBits(first, refs))
    ensures forall b: nat :: b in WordBits(first, refs) <==> first <= b && Bit(refs, b - first)
    decreases refs
  {
    if refs == 0 {
      forall b: nat ensures !Bit(refs, b) { ZeroHasNoBits(b); }
    } else {
      var head := if refs % 2 == 1 then [first] else [];
      var rest := WordBits(first + 1, refs / 2);
      WordBitsAreExact(first + 1, refs / 2);
      forall b: nat
        ensures b in WordBits(first, refs) <==> first <= b && Bit(refs, b - first)
      {
        assert b in WordBits(first, refs) <==> b in head || b in rest;
        if first < b {
          assert Bit(refs, b - first) == Bit(refs / 2, b - (first + 1));
        }
      }
      AscendingConcat(head, rest, first + 1);
    }
  }

  lemma AscendingConcat(s: seq<nat>, t: seq<nat>, split: nat)
    requires Ascending(s) && Ascending(t)
    requires forall x :: x in s ==> x < split
    requires forall x :: x in t ==> split <= x
    ensures Ascending(s + t)
  {
    forall i, j | 0 <= i < j < |s + t|
      ensures (s + t)[i] < (s + t)[j]
    {
      if i < |s| <= j {
        assert s[i] in s && t[j - |s|] in t;
      }
    }
  }

  /** For a bitmap of any length, the bits found are the set bits of the concatenated words, each
      once, in ascending order. */
  lemma {:induction false} BitsAreExact(words: seq<Word>)
    ensures Ascending(Bits(words))
    ensures forall b: nat :: b in Bits(words) <==> BitmapBit(words, b)
    ensures forall b :: b in Bits(words) ==> b < 32 * |words|
    decreases |words|
  {
    if words != [] {
      var last := |words| - 1;
      var before := Bits(words[..last]);
      var found := WordBits(32 * last, words[last]);
      BitsAreExact(words[..last]);
      WordBitsAreExact(32 * last, words[last]);
      forall b: nat
        ensures b in Bits(words) <==> BitmapBit(words, b)
        ensures b in found ==> 32 * last <= b < 32 * last + 32
      {
        assert b in Bits(words) <==> b in before || b in found;
        if b in found {
          Pow2Values();
          BitsAreBelowWidth(words[last], b - 32 * last, 32);
        }
      }
      AscendingConcat(before, found, 32 * last);
    }
  }

  lemma FieldSlotsAreExact(obj: nat, bits: seq<nat>)
    requires Ascending(bits)
    ensures Ascending(FieldSlots(obj, bits))
    ensures forall b: nat :: b in bits <==> FieldSlot(obj, b) in FieldSlots(obj, bits)
    ensures forall a :: a in FieldSlots(obj, bits) ==> exists b: nat :: b in bits && a == FieldSlot(obj, b)
  {
    forall b: nat | b in bits
      ensures FieldSlot(obj, b) in FieldSlots(obj, bits)
    {
      var i :| 0 <= i < |bits| && bits[i] == b;
      assert FieldSlots(obj, bits)[i] == FieldSlot(obj, b);
    }
    forall a | a in FieldSlots(obj, bits)
      ensures exists b: nat :: b in bits && a == FieldSlot(obj, b)
    {
      var i :| 0 <= i < |bits| && FieldSlots(obj, bits)[i] == a;
      assert bits[i] in bits;
    }
  }

  lemma FieldSlotsConcat(obj: nat, s: seq<nat>, t: seq<nat>)
    ensures FieldSlots(obj, s + t) == FieldSlots(obj, s) + FieldSlots(obj, t)
  {
  }

  // ---------------------------------------------------------------- The two encodings

  /** Strictly ascending sequences with the same members are the same sequence. */
  lemma {:induction false} AscendingIsUnique(s: seq<nat>, t: seq<nat>)
    requires Ascending(s) && Ascending(t)
    requires forall x :: x in s <==> x in t
    ensures s == t
    decreases |s|
  {
    if s == [] {
      assert forall i :: 0 <= i < |t| ==> t[i] in s;
    } else {
      assert s[0] in t && t != [] && t[0] in s;
      assert s[0] == t[0];
      forall x
        ensures x in s[1..] <==> x in t[1..]
      {
        InTail(s, x);
        InTail(t, x);
      }
      AscendingIsUnique(s[1..], t[1..]);
    }
  }

  lemma InTail(s: seq<nat>, x: int)
    requires s != [] && Ascending(s)
    ensures x in s[1..] <==> x in s && x != s[0]
  {
    if x in s && x != s[0] {
      var i :| 0 <= i < |s| && s[i] == x;
      assert s[1..][i - 1] == x;
    }
  }

  /** The word whose bit `b` is set exactly when `first + b` is in `refs`. */
  function EncodeWord(refs: set<nat>, first: nat, count: nat): (word: nat)
    ensures word < Pow2(count)
    decreases count
  {
    if count == 0 then 0
    else (if first in refs then 1 else 0) + 2 * EncodeWord(refs, first + 1, count - 1)
  }

  lemma {:induction false} EncodeWordBits(refs: set<nat>, first: nat, count: nat, b: nat)
    ensures Bit(EncodeWord(refs, first, count), b) <==> b < count && first + b in refs
    decreases count
  {
    if count == 0 {
      ZeroHasNoBits(b);
    } else if b > 0 {
      EncodeWordBits(refs, first + 1, count - 1, b - 1);
    }
  }

  /** `refs` in the 31 bits of a class field. */
  function InlineWord(refs: set<nat>): (word: Word)
    ensures word < 0x8000_0000
  {
    Pow2Values();
    EncodeWord(refs, 0, 31)
  }

  function OverflowWord(refs: set<nat>, first: nat): Word {
    Pow2Values();
    EncodeWord(refs, first, 32)
  }

  /** `refs` in `n` words at the end of the class. */
  function OverflowWords(refs: set<nat>, n: nat): (words: seq<Word>)
    ensures |words| == n
  {
    if n == 0 then [] else OverflowWords(refs, n - 1) + [OverflowWord(refs, 32 * (n - 1))]
  }

  lemma OverflowWordBits(refs: set<nat>, first: nat, b: nat)
    ensures Bit(OverflowWord(refs, first), b) <==> b < 32 && first + b in refs
  {
    EncodeWordBits(refs, first, 32, b);
  }

  lemma {:induction false} OverflowWordsHoldSet(refs: set<nat>, n: nat, b: nat)
    ensures BitmapBit(OverflowWords(refs, n), b) <==> b < 32 * n && b in refs
  {
    if n > 0 {
      var words := OverflowWords(refs, n);
      assert words[..n - 1] == OverflowWords(refs, n - 1);
      if b < 32 * (n - 1) {
        OverflowWordsHoldSet(refs, n - 1, b);
      } else {
        assert words[n - 1] == OverflowWord(refs, 32 * (n - 1));
        OverflowWordBits(refs, 32 * (n - 1), b - 32 * (n - 1));
      }
    }
  }

  /** A set of reference bits written as overflow words and scanned comes back whole. */
  lemma OverflowRoundTrip(refs: set<nat>, n: nat)
    requires forall b :: b in refs ==> b < 32 * n
    ensures Ascending(Bits(OverflowWords(refs, n)))
    ensures forall b: nat :: b in Bits(OverflowWords(refs, n)) <==> b in refs
  {
    BitsAreExact(OverflowWords(refs, n));
    forall b: nat
      ensures b in Bits(OverflowWords(refs, n)) <==> b in refs
    {
      OverflowWordsHoldSet(refs, n, b);
    }
  }

  /** The inline form refines the overflow form: a set that fits in 31 bits gives the same bits in
      the same order, inline or in any number of overflow words. */
  lemma InlineMatchesOverflow(refs: set<nat>, n: nat)
    requires forall b :: b in refs ==> b < 31
    requires n > 0
    ensures WordBits(0, InlineWord(refs)) == Bits(OverflowWords(refs, n))
  {
    OverflowRoundTrip(refs, n);
    WordBitsAreExact(0, InlineWord(refs));
    forall b: nat
      ensures b in WordBits(0, InlineWord(refs)) <==> b in refs
    {
      EncodeWordBits(refs, 0, 31, b);
    }
    AscendingIsUnique(WordBits(0, InlineWord(refs)), Bits(OverflowWords(refs, n)));
  }
}
