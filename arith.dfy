/**
 Facts about Euclidean division on non-negative operands shared by the
 digit arithmetic of radix sort and the halving loop of timsort's run length.
 */
module Arith {

  /** 2 to the power k. */
  function Pow2(k: nat): (r: nat)
    ensures r >= 1
  {
    if k == 0 then 1 else 2 * Pow2(k - 1)
  }

  /** A larger exponent gives a larger power. */
  lemma {:induction false} Pow2Mono(x: nat, y: nat)
    requires x <= y
    ensures Pow2(x) <= Pow2(y)
    decreases y
  {
    if x < y {
      Pow2Mono(x, y - 1);
    }
  }

  lemma MulMono(a: int, b: int, n: int)
    requires a <= b && n >= 0
    ensures a * n <= b * n
  {
  }

  /** One more block of n: (b + 1) * n == b * n + n. */
  lemma MulSucc(b: int, n: int)
    ensures (b + 1) * n == b * n + n
  {
  }

  /** A quotient and remainder are the only ones. */
  lemma DivModUnique(v: int, n: int, q: int, r: int)
    requires n > 0 && v == q * n + r && 0 <= r < n
    ensures v / n == q && v % n == r
  {
    var q0 := v / n;
    if q0 < q {
      MulMono(q0 + 1, q, n);
    } else if q0 > q {
      MulMono(q + 1, q0, n);
    }
  }

  /**
   Splitting v at weight b * e: the quotient is the quotient by e divided by b,
   and the remainder is the digit of weight e (in base b) followed by the part below e.
   */
  lemma DigitSplit(v: int, e: int, b: int)
    requires v >= 0 && e > 0 && b > 0
    ensures v / (b * e) == (v / e) / b
    ensures v % (b * e) == ((v / e) % b) * e + v % e
  {
    var q, r := v / e, v % e;
    var a, d := q / b, q % b;
    assert q * e == (a * b) * e + d * e;
    assert v == a * (b * e) + (d * e + r);
    MulMono(d, b - 1, e);
    DivModUnique(v, b * e, a, d * e + r);
  }

  /** Ordering by digit first and by the part below e second is ordering by the whole. */
  lemma LexCombine(d1: int, r1: int, d2: int, r2: int, e: int)
    requires e > 0 && 0 <= r1 < e && 0 <= r2 < e
    requires d1 < d2 || (d1 == d2 && r1 <= r2)
    ensures d1 * e + r1 <= d2 * e + r2
  {
    if d1 < d2 {
      MulMono(d1 + 1, d2, e);
    }
  }
}
