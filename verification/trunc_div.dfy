/**
 Integer division as C++ and boost::multiprecision perform it: the quotient is
 rounded toward zero, so the remainder takes the sign of the dividend. Dafny's
 own `/` is Euclidean (its remainder is never negative) and differs whenever
 the dividend is negative and the division is inexact.
 */
module TruncDivision {

  function Abs(a: int): nat {
    if a < 0 then -a else a
  }

  /** The quotient of `a` by `b`, rounded toward zero. */
  function TruncDiv(a: int, b: int): (q: int)
    requires b != 0
    ensures Abs(a - q * b) < Abs(b)
    ensures a - q * b == 0 || (a - q * b < 0 <==> a < 0)
  {
    var m := Abs(a) / Abs(b);
    QuotientOfAbs(Abs(a), Abs(b));
    if (a < 0) == (b < 0) then
      assert a - m * b == (if a < 0 then -(Abs(a) - m * Abs(b)) else Abs(a) - m * Abs(b));
      m
    else
      assert a - (-m) * b == (if a < 0 then -(Abs(a) - m * Abs(b)) else Abs(a) - m * Abs(b));
      -m
  }

  lemma QuotientOfAbs(n: nat, d: nat)
    requires d > 0
    ensures 0 <= n - (n / d) * d < d
  {
  }

  /** The two conditions above pin the quotient down: any quotient whose
      remainder is smaller than the divisor and signed like the dividend is
      the truncated one. */
  lemma TruncDivUnique(a: int, b: int, q: int)
    requires b != 0
    requires Abs(a - q * b) < Abs(b)
    requires a - q * b == 0 || (a - q * b < 0 <==> a < 0)
    ensures q == TruncDiv(a, b)
  {
    var t := TruncDiv(a, b);
    var r, s := a - q * b, a - t * b;
    assert r - s == (t - q) * b;
    if q != t {
      // The remainders differ by a non-zero multiple of b, yet both are smaller
      // than |b| and share the dividend's sign.
      AtLeastDivisor(t - q, b);
      assert false;
    }
  }

  lemma AtLeastDivisor(k: int, b: int)
    requires k != 0 && b != 0
    ensures Abs(k * b) >= Abs(b)
  {
    if k > 0 && b > 0 {
      assert k * b >= b;
    } else if k > 0 {
      assert k * b <= b;
    } else if b > 0 {
      assert k * b <= -b;
    } else {
      assert k * b >= -b;
    }
  }

  /** An exact division is exact under either rounding: when `b` divides `a`,
      the truncated quotient times `b` gives `a` back. */
  lemma TruncDivExact(a: int, b: int)
    requires b != 0 && a % b == 0
    ensures TruncDiv(a, b) * b == a
    ensures TruncDiv(a, b) == a / b
  {
    assert a == (a / b) * b;
    TruncDivUnique(a, b, a / b);
  }

  /** A multiple of the divisor divides back to its factor. */
  lemma TruncDivMultiple(m: int, b: int)
    requires b != 0
    ensures TruncDiv(m * b, b) == m
  {
    TruncDivUnique(m * b, b, m);
  }

  /** Truncation and Euclidean division part ways on a negative inexact
      dividend: -7 / 2 is -3 in C++ and -4 in Dafny. */
  lemma TruncDivDiffersFromEuclidean()
    ensures TruncDiv(-7, 2) == -3 && -7 / 2 == -4
    ensures TruncDiv(7, -2) == -3 && 7 / -2 == -3
    ensures TruncDiv(-7, -2) == 3 && -7 / -2 == 4
  {
  }
}
