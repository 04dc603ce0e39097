/** Machine-level vocabulary shared by the other modules: 64-bit `usize` page counts with
    wrap-around arithmetic, 32-bit words, and alignment. */
module Machine {

  const USIZE_MODULUS := 0x1_0000_0000_0000_0000
  const WORD_MODULUS := 0x1_0000_0000

  /** A 64-bit `usize`. */
  type Usize = x: nat | x < USIZE_MODULUS

  /** A 32-bit memory word. */
  type Word = x: nat | x < WORD_MODULUS

  /** `usize` addition as compiled without overflow checks, and `AtomicUsize::fetch_add`. */
  function WrapAdd(a: Usize, b: Usize): Usize {
    if a + b < USIZE_MODULUS then a + b else a + b - USIZE_MODULUS
  }

  /** `usize` subtraction as compiled without overflow checks, and `AtomicUsize::fetch_sub`. */
  function WrapSub(a: Usize, b: Usize): Usize {
    if b <= a then a - b else a + USIZE_MODULUS - b
  }

  function Min(a: int, b: int): int { if a <= b then a else b }

  function Max(a: int, b: int): int { if a <= b then b else a }

  function AlignUp2(x: nat): (r: nat)
    ensures r % 2 == 0 && x <= r < x + 2
  {
    (x + 1) / 2 * 2
  }

  function AlignUp4(x: nat): (r: nat)
    ensures r % 4 == 0 && x <= r < x + 4
  {
    (x + 3) / 4 * 4
  }

  function AlignUp8(x: nat): (r: nat)
    ensures r % 8 == 0 && x <= r < x + 8
  {
    (x + 7) / 8 * 8
  }

  /** Rounds `x` up to a multiple of a small power of two. */
  function AlignUp(x: nat, align: nat): nat
    requires align == 1 || align == 2 || align == 4 || align == 8
  {
    if align == 1 then x else if align == 2 then AlignUp2(x) else if align == 4 then AlignUp4(x) else AlignUp8(x)
  }
}
