/**
 Rust's `usize` and its two bit operators used by the bit lookups, `>>` and `&`.

 `usize` is an unbounded integer restricted to the 64-bit range. The two
 operators are defined digit by digit on the binary representation (drop the
 lowest digit; combine the lowest digits and recurse), so that the facts
 `idx >> 3 == idx / 8` and `idx & 7 == idx % 8` are proved rather than built in.
 */
module Usize {
  import opened Binary

  type usize = x: int | 0 <= x < 0x1_0000_0000_0000_0000

  /** Logical right shift `x >> k`: `k` times, drop the least significant digit. */
  function Shr(x: usize, k: nat): (r: usize)
    requires k < 64
    ensures r == x / Pow2(k)
    decreases k
  {
    if k == 0 then
      x
    else
      HalveThenDivide(x, Pow2(k - 1));
      Shr(x / 2, k - 1)
  }

  /** Bitwise and `a & b`: digit 0 is the and of both digits 0, the rest is `(a / 2) & (b / 2)`. */
  function And(a: usize, b: usize): (r: usize)
    ensures r <= a && r <= b
    decreases a
  {
    if a == 0 || b == 0 then
      0
    else
      2 * And(a / 2, b / 2) + (if a % 2 == 1 && b % 2 == 1 then 1 else 0)
  }

  /** Shifting right by `k` moves every digit down by `k` places. */
  lemma {:induction false} ShrMovesDigits(x: usize, k: nat, j: nat)
    requires k < 64
    ensures BitAt(Shr(x, k), j) == BitAt(x, j + k)
    decreases k
  {
    if k > 0 {
      ShrMovesDigits(x / 2, k - 1, j);
      BitAtHalf(x, j + k - 1);
    }
  }

  /** Digit `j` of `a & b` is set exactly when digit `j` is set in both. */
  lemma {:induction false} AndIsDigitwise(a: usize, b: usize, j: nat)
    ensures BitAt(And(a, b), j) == (BitAt(a, j) && BitAt(b, j))
    decreases j
  {
    assert And(a, b) / 2 == And(a / 2, b / 2);
    if j == 0 {
      BitAtZero(And(a, b));
      BitAtZero(a);
      BitAtZero(b);
    } else {
      AndIsDigitwise(a / 2, b / 2, j - 1);
      BitAtHalf(And(a, b), j - 1);
      BitAtHalf(a, j - 1);
      BitAtHalf(b, j - 1);
    }
  }

  /** `idx >> 3` is the byte offset `idx / 8`. */
  lemma ShrThreeIsDivEight(x: usize)
    ensures Shr(x, 3) == x / 8
  {
    Pow2Byte(3);
  }

  /** `idx & 7` is the bit offset `idx % 8`, and so always below 8. */
  lemma AndSevenIsModEight(x: usize)
    ensures And(x, 7) == x % 8
    ensures And(x, 7) < 8
  {
    var y := x / 2;
    var z := y / 2;
    assert And(z, 1) == z % 2 by {
      if z != 0 {
        assert And(z, 1) == 2 * And(z / 2, 0) + z % 2;
      }
    }
    assert And(y, 3) == 2 * (z % 2) + y % 2 by {
      if y != 0 {
        assert And(y, 3) == 2 * And(z, 1) + y % 2;
      }
    }
    if x != 0 {
      assert And(x, 7) == 2 * And(y, 3) + x % 2;
    }
  }
}

/**
 Rust's `u8`, as an 8-bit bit-vector, and the single-bit mask test `b & (1 << k) != 0`.
 */
module U8 {
  import opened Binary

  type u8 = bv8

  lemma HalveByte(b: u8)
    ensures (b >> 1) as nat == b as nat / 2
  {}

  lemma MaskOneHigher(b: u8, k: nat)
    requires k < 7
    ensures (b & ((1 as u8) << (k + 1)) != 0) == ((b >> 1) & ((1 as u8) << k) != 0)
  {}

  /** Masking with `1 << k` reads binary digit `k` of the byte. */
  lemma {:induction false} MaskSelectsDigit(b: u8, k: nat)
    requires k < 8
    ensures (b & ((1 as u8) << k) != 0) == BitAt(b as nat, k)
    decreases k
  {
    if k == 0 {
      assert (1 as u8) << k == 1;
      BitAtZero(b as nat);
    } else {
      MaskSelectsDigit(b >> 1, k - 1);
      MaskOneHigher(b, k - 1);
      HalveByte(b);
      BitAtHalf(b as nat, k - 1);
    }
  }
}
