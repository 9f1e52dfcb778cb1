/**
 The binary representation of natural numbers, least-significant digit first.

 This is the reference against which every bit operation of the model is
 judged: digit `j` of `x` is `(x / 2^j) % 2`, so digit 0 has weight 1 and
 digit 7 of a byte has weight 128.
 */
module Binary {

  /** 2 raised to the power `k`. */
  function Pow2(k: nat): (r: nat)
    ensures r >= 1
  {
    if k == 0 then 1 else 2 * Pow2(k - 1)
  }

  /** Binary digit `j` of `x` is 1 (digit 0 is the least significant). */
  predicate BitAt(x: nat, j: nat) {
    (x / Pow2(j)) % 2 == 1
  }

  /** The powers of two that fit in a byte, by position. */
  lemma Pow2Byte(k: nat)
    requires k < 8
    ensures Pow2(k) == [1, 2, 4, 8, 16, 32, 64, 128][k]
  {
    if k > 0 {
      Pow2Byte(k - 1);
    }
  }

  lemma MulAtLeast(d: int, t: int)
    requires d > 0 && t >= 1
    ensures d * t >= d
  {}

  /** Quotients are unique: if `a = d * q + r` with `0 <= r < d` then `a / d = q`. */
  lemma DivUnique(a: int, d: int, q: int, r: int)
    requires d > 0 && 0 <= r < d && a == d * q + r
    ensures a / d == q
  {
    var q' := a / d;
    var r' := a % d;
    assert d * (q' - q) == r - r' by {
      assert a == d * q' + r';
    }
    if q' > q {
      MulAtLeast(d, q' - q);
      assert false;
    } else if q' < q {
      MulAtLeast(d, q - q');
      assert false;
    }
  }

  /** Dropping the lowest digit, then dividing by `p`, is dividing by `2 * p`. */
  lemma HalveThenDivide(x: nat, p: nat)
    requires p >= 1
    ensures x / 2 / p == x / (2 * p)
  {
    var q := x / (2 * p);
    var r := x % (2 * p);
    var pq := p * q;
    assert x == 2 * pq + r by {
      assert x == (2 * p) * q + r;
    }
    assert x / 2 == pq + r / 2;
    DivUnique(x / 2, p, q, r / 2);
  }

  /** Digit `j + 1` of `x` is digit `j` of `x / 2`: halving shifts the digits down by one. */
  lemma BitAtHalf(x: nat, j: nat)
    ensures BitAt(x / 2, j) == BitAt(x, j + 1)
  {
    HalveThenDivide(x, Pow2(j));
  }

  /** Digit 0 is the parity. */
  lemma BitAtZero(x: nat)
    ensures BitAt(x, 0) == (x % 2 == 1)
  {
    assert Pow2(0) == 1;
  }

  /** Two numbers below `2^k` with the same `k` low digits are equal. */
  lemma {:induction false} DigitsDetermine(x: nat, y: nat, k: nat)
    requires x < Pow2(k) && y < Pow2(k)
    requires forall j: nat :: j < k ==> BitAt(x, j) == BitAt(y, j)
    ensures x == y
    decreases k
  {
    if k > 0 {
      forall j: nat | j < k - 1
        ensures BitAt(x / 2, j) == BitAt(y / 2, j)
      {
        BitAtHalf(x, j);
        BitAtHalf(y, j);
      }
      DigitsDetermine(x / 2, y / 2, k - 1);
      BitAtZero(x);
      BitAtZero(y);
    }
  }
}
