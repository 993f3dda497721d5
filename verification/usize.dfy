/** Rust's machine-word integers, as far as the routine-name parser relies on them.

    Lengths of Rust collections are `usize` values on a 64-bit target, and
    every `String` holds at most `isize::MAX` bytes. The prefix `!` operator on
    an unsigned integer is the bitwise complement, not a boolean negation.
 */
module Usize {

  const USIZE_BITS: nat := 64
  const USIZE_MAX: nat := 0xFFFF_FFFF_FFFF_FFFF
  const ISIZE_MAX: nat := 0x7FFF_FFFF_FFFF_FFFF

  function Pow2(w: nat): (p: nat)
    ensures p >= 1
  {
    if w == 0 then 1 else 2 * Pow2(w - 1)
  }

  /** The bitwise complement of the low `w` bits of `n`, computed bit by bit
      from the least significant bit upwards. */
  function Complement(n: nat, w: nat): (r: nat)
    ensures r < Pow2(w)
  {
    if w == 0 then 0 else (1 - n % 2) + 2 * Complement(n / 2, w - 1)
  }

  /** Flipping every one of `w` bits of a `w`-bit number subtracts it from the
      all-ones word. */
  lemma {:induction false} ComplementIsSubtraction(n: nat, w: nat)
    requires n < Pow2(w)
    ensures Complement(n, w) == Pow2(w) - 1 - n
  {
    if w > 0 {
      ComplementIsSubtraction(n / 2, w - 1);
    }
  }

  lemma {:induction false} Pow2Add(a: nat, b: nat)
    ensures Pow2(a + b) == Pow2(a) * Pow2(b)
  {
    if a > 0 {
      Pow2Add(a - 1, b);
    }
  }

  lemma WordSize()
    ensures Pow2(USIZE_BITS) == USIZE_MAX + 1
  {
    assert Pow2(4) == 16;
    Pow2Add(4, 4);
    Pow2Add(8, 8);
    Pow2Add(16, 16);
    Pow2Add(32, 32);
  }

  /** Rust's `!n` for `n: usize`: the all-ones word minus `n`. */
  function Not(n: nat): (r: nat)
    requires n <= USIZE_MAX
    ensures r <= USIZE_MAX
  {
    USIZE_MAX - n
  }

  /** `Not` flips every one of the 64 bits of its operand. */
  lemma NotIsComplement(n: nat)
    requires n <= USIZE_MAX
    ensures Not(n) == Complement(n, USIZE_BITS)
  {
    WordSize();
    ComplementIsSubtraction(n, USIZE_BITS);
  }
}
