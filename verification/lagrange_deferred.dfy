/**
 Lagrange interpolation with the division deferred: every contribution is
 brought over the common denominator D, the product of all the per-point
 denominators, the numerators are summed exactly, and only the final sums
 are divided by D. This gives the integer polynomial through the points
 whenever there is one, which dividing each term separately does not (see
 `Lagrange.TruncationMissesLine`); when there is none, the outcome says so
 instead of returning truncated coefficients.
 */
module LagrangeDeferred {
  import opened Poly
  import opened Lagrange
  import opened TruncDivision

  /** The coefficients, or the report that the interpolant's coefficients
      are not all integers. */
  datatype Outcome = Coefficients(c: seq<int>) | InexactDivision

  /** The product of the denominators of the first n points. */
  function CommonDenom(pts: seq<Point>, k: nat, n: nat): int
    requires n <= k <= |pts|
    decreases n
  {
    if n == 0 then 1 else CommonDenom(pts, k, n - 1) * Denom(pts, n - 1, k)
  }

  /** The product of the denominators of the first n points other than
      point i: what point i's numerator is multiplied by. */
  function CoFactor(pts: seq<Point>, k: nat, i: nat, n: nat): int
    requires i < k && n <= k <= |pts|
    decreases n
  {
    if n == 0 then 1
    else if n - 1 == i then CoFactor(pts, k, i, n - 1)
    else CoFactor(pts, k, i, n - 1) * Denom(pts, n - 1, k)
  }

  /** Point i's denominator times its co-factor is the common denominator. */
  lemma {:induction false} CoFactorDenom(pts: seq<Point>, k: nat, i: nat, n: nat)
    requires i < k && n <= k <= |pts|
    ensures i < n ==> CoFactor(pts, k, i, n) * Denom(pts, i, k) == CommonDenom(pts, k, n)
    ensures n <= i ==> CoFactor(pts, k, i, n) == CommonDenom(pts, k, n)
    decreases n
  {
    if n > 0 {
      CoFactorDenom(pts, k, i, n - 1);
      var c, d, dn := CoFactor(pts, k, i, n - 1), Denom(pts, i, k), Denom(pts, n - 1, k);
      if n - 1 == i {
        assert CoFactor(pts, k, i, n) * d == CommonDenom(pts, k, n - 1) * dn;
      } else if i < n - 1 {
        Rearrange(c, d, dn);
      }
    }
  }

  lemma Rearrange(c: int, d: int, e: int)
    ensures (c * e) * d == (c * d) * e
  {
  }

  /** With distinct x-coordinates the common denominator is not zero. */
  lemma {:induction false} CommonDenomNonZero(pts: seq<Point>, k: nat, n: nat)
    requires n <= k <= |pts| && DistinctX(pts, k)
    ensures CommonDenom(pts, k, n) != 0
    decreases n
  {
    if n > 0 {
      CommonDenomNonZero(pts, k, n - 1);
      DenomNonZero(pts, k, n - 1, k);
      NonZeroProduct(CommonDenom(pts, k, n - 1), Denom(pts, n - 1, k));
    }
  }

  /** Point i's numerator over the common denominator:
      y_i * co-factor_i * basis_i, with no division. */
  function Numerators(pts: seq<Point>, k: nat): (ns: seq<seq<int>>)
    requires k <= |pts|
    ensures |ns| == k && forall i :: 0 <= i < k ==> |ns[i]| == k
  {
    seq(k, i requires 0 <= i < k => Scale(Basis(pts, i, k), pts[i].y * CoFactor(pts, k, i, k)))
  }

  /** The sum of the numerators: D times the interpolant. */
  function Numerator(pts: seq<Point>, k: nat): (n: seq<int>)
    requires k <= |pts|
    ensures |n| == k
  {
    Accumulate(Numerators(pts, k), k, k)
  }

  /** Interpolation of the first k points with a single, final division by
      the common denominator; a remainder anywhere means the interpolant has
      a non-integer coefficient. */
  function InterpolateDeferred(pts: seq<Point>, k: nat): (o: Outcome)
    requires k <= |pts| && DistinctX(pts, k)
    ensures o.Coefficients? ==> |o.c| == k
  {
    var n := Numerator(pts, k);
    var d := CommonDenom(pts, k, k);
    CommonDenomNonZero(pts, k, k);
    if forall a :: 0 <= a < k ==> n[a] % d == 0 then
      Coefficients(seq(k, a requires 0 <= a < k => n[a] / d))
    else
      InexactDivision
  }

  /** The summed numerator takes the value y_j * D at node j. */
  lemma NumeratorEval(pts: seq<Point>, k: nat, j: nat)
    requires j < k <= |pts| && DistinctX(pts, k)
    ensures Eval(Numerator(pts, k), pts[j].x) == CommonDenom(pts, k, k) * pts[j].y
  {
    var ns, x, D := Numerators(pts, k), pts[j].x, CommonDenom(pts, k, k);
    forall i | 0 <= i < k
      ensures Eval(ns[i], x) == if i == j then D * pts[j].y else 0
    {
      NumeratorTermEval(pts, k, i, j);
    }
    AccumulateEval(ns, k, k, x, j, D * pts[j].y);
  }

  /** Point i's numerator is y_i * D at its own node and 0 at the others. */
  lemma NumeratorTermEval(pts: seq<Point>, k: nat, i: nat, j: nat)
    requires i < k && j < k <= |pts| && DistinctX(pts, k)
    ensures Eval(Numerators(pts, k)[i], pts[j].x) ==
      if i == j then CommonDenom(pts, k, k) * pts[j].y else 0
  {
    if i == j {
      NumeratorAtOwnNode(pts, k, i);
    } else {
      var b, f := Basis(pts, i, k), pts[i].y * CoFactor(pts, k, i, k);
      assert Numerators(pts, k)[i] == Scale(b, f);
      EvalScale(b, f, pts[j].x);
      BasisVanishes(pts, i, k, j);
    }
  }

  lemma NumeratorAtOwnNode(pts: seq<Point>, k: nat, i: nat)
    requires i < k <= |pts| && DistinctX(pts, k)
    ensures Eval(Numerators(pts, k)[i], pts[i].x) == CommonDenom(pts, k, k) * pts[i].y
  {
    var b, y, c, d := Basis(pts, i, k), pts[i].y, CoFactor(pts, k, i, k), Denom(pts, i, k);
    assert Numerators(pts, k)[i] == Scale(b, y * c);
    EvalScale(b, y * c, pts[i].x);
    BasisAtOwnNode(pts, i, k);
    assert Eval(Numerators(pts, k)[i], pts[i].x) == (y * c) * d;
    CoFactorDenom(pts, k, i, k);
    Regroup(y, c, d);
  }

  lemma Regroup(y: int, c: int, d: int)
    ensures (y * c) * d == (c * d) * y
  {
  }

  /** Soundness: coefficients, when returned, pass through every point. */
  lemma DeferredSound(pts: seq<Point>, k: nat)
    requires k <= |pts| && DistinctX(pts, k)
    requires InterpolateDeferred(pts, k).Coefficients?
    ensures Fits(pts, k, InterpolateDeferred(pts, k).c)
  {
    var c, n, D := InterpolateDeferred(pts, k).c, Numerator(pts, k), CommonDenom(pts, k, k);
    CommonDenomNonZero(pts, k, k);
    assert Scale(c, D) == n by {
      forall a | 0 <= a < k
        ensures Scale(c, D)[a] == n[a]
      {
        ExactDivision(n[a], D);
      }
    }
    forall j | 0 <= j < k
      ensures Eval(c, pts[j].x) == pts[j].y
    {
      var x := pts[j].x;
      EvalScale(c, D, x);
      NumeratorEval(pts, k, j);
      ProductCancel(Eval(c, x), D, pts[j].y);
    }
  }

  lemma ExactDivision(n: int, d: int)
    requires d != 0 && n % d == 0
    ensures d * (n / d) == n
  {
  }

  /** Completeness: when a polynomial with k integer coefficients passes
      through the k points, that polynomial is the outcome. */
  lemma DeferredComplete(pts: seq<Point>, k: nat, p: seq<int>)
    requires k <= |pts| && DistinctX(pts, k)
    requires |p| == k && Fits(pts, k, p)
    ensures InterpolateDeferred(pts, k) == Coefficients(p)
  {
    var n, D := Numerator(pts, k), CommonDenom(pts, k, k);
    CommonDenomNonZero(pts, k, k);
    NumeratorIsScaled(pts, k, p);
    assert forall a :: 0 <= a < k ==> n[a] % D == 0 && n[a] / D == p[a] by {
      forall a | 0 <= a < k
        ensures n[a] % D == 0 && n[a] / D == p[a]
      {
        assert n[a] == D * p[a];
        MultipleDivides(p[a], D);
      }
    }
    var c := seq(k, a requires 0 <= a < k => n[a] / D);
    assert c == p;
  }

  /** The summed numerator of an integer interpolant p is D * p. */
  lemma NumeratorIsScaled(pts: seq<Point>, k: nat, p: seq<int>)
    requires k <= |pts| && DistinctX(pts, k)
    requires |p| == k && Fits(pts, k, p)
    ensures Numerator(pts, k) == Scale(p, CommonDenom(pts, k, k))
  {
    var n, D := Numerator(pts, k), CommonDenom(pts, k, k);
    var q := Scale(p, D);
    var xs := Nodes(pts, k);
    forall t | 0 <= t < k
      ensures Eval(n, xs[t]) == Eval(q, xs[t])
    {
      var x, y := pts[t].x, pts[t].y;
      assert xs[t] == x;
      assert Eval(p, x) == y;
      NumeratorEval(pts, k, t);
      EvalScale(p, D, x);
      assert Eval(q, x) == D * y;
    }
    NodesDistinct(pts, k);
    InterpolantUnique(n, q, xs);
  }

  lemma MultipleDivides(m: int, d: int)
    requires d != 0
    ensures (d * m) % d == 0 && (d * m) / d == m
  {
    var q, r := (d * m) / d, (d * m) % d;
    assert d * m == d * q + r && 0 <= r < Abs(d);
    if m != q {
      assert (m - q) * d == r;
      AtLeastDivisor(m - q, d);
      assert false;
    }
  }

  /** Coefficients are returned exactly when some polynomial with k integer
      coefficients passes through the k points; otherwise the outcome is an
      inexact division. */
  lemma DeferredExactIff(pts: seq<Point>, k: nat)
    requires k <= |pts| && DistinctX(pts, k)
    ensures InterpolateDeferred(pts, k).Coefficients? <==>
      exists p :: |p| == k && Fits(pts, k, p)
  {
    if InterpolateDeferred(pts, k).Coefficients? {
      DeferredSound(pts, k);
      var c := InterpolateDeferred(pts, k).c;
      assert |c| == k && Fits(pts, k, c);
    }
    if p :| |p| == k && Fits(pts, k, p) {
      DeferredComplete(pts, k, p);
    }
  }

  /** Where every per-term division is exact, dividing early and dividing
      late agree. */
  lemma DeferredAgrees(pts: seq<Point>, k: nat)
    requires k <= |pts| && DistinctX(pts, k) && ExactTerms(pts, k)
    ensures InterpolateDeferred(pts, k) == Coefficients(Interpolate(pts, k))
  {
    InterpolatePassesThrough(pts, k);
    DeferredComplete(pts, k, Interpolate(pts, k));
  }

  /** The points (1, t), (2, 2t), (3, 3t) give back the line y = t x for
      every t, including the odd t where the per-term truncation does not. */
  lemma DeferredRecoversLine(t: int)
    ensures InterpolateDeferred(ThreeNodes(t, 2 * t, 3 * t), 3) == Coefficients([0, t, 0])
  {
    var pts, p := ThreeNodes(t, 2 * t, 3 * t), [0, t, 0];
    forall j | 0 <= j < 3
      ensures Eval(p, pts[j].x) == pts[j].y
    {
      EvalThree(p, pts[j].x);
    }
    DeferredComplete(pts, 3, p);
  }

  /** Two points: an integer line through them exists, and is returned,
      exactly when the rise is a multiple of the run. */
  lemma DeferredTwoPoints(pts: seq<Point>)
    requires |pts| >= 2 && DistinctX(pts, 2)
    ensures InterpolateDeferred(pts, 2).Coefficients? <==>
      (pts[1].y - pts[0].y) % (pts[1].x - pts[0].x) == 0
  {
    if InterpolateDeferred(pts, 2).Coefficients? {
      TwoPointsRise(pts);
    } else if (pts[1].y - pts[0].y) % (pts[1].x - pts[0].x) == 0 {
      TwoPointsLine(pts);
    }
  }

  lemma TwoPointsRise(pts: seq<Point>)
    requires |pts| >= 2 && DistinctX(pts, 2)
    requires InterpolateDeferred(pts, 2).Coefficients?
    ensures (pts[1].y - pts[0].y) % (pts[1].x - pts[0].x) == 0
  {
    var c := InterpolateDeferred(pts, 2).c;
    DeferredSound(pts, 2);
    var x0, x1 := pts[0].x, pts[1].x;
    assert Eval(c, x0) == pts[0].y && Eval(c, x1) == pts[1].y;
    EvalTwo(c, x0);
    EvalTwo(c, x1);
    RiseOverRun(c[0], c[1], x0, x1);
  }

  lemma TwoPointsLine(pts: seq<Point>)
    requires |pts| >= 2 && DistinctX(pts, 2)
    requires (pts[1].y - pts[0].y) % (pts[1].x - pts[0].x) == 0
    ensures InterpolateDeferred(pts, 2).Coefficients?
  {
    var x0, y0, x1, y1 := pts[0].x, pts[0].y, pts[1].x, pts[1].y;
    var s := (y1 - y0) / (x1 - x0);
    ExactDivision(y1 - y0, x1 - x0);
    var p := [y0 - x0 * s, s];
    EvalTwo(p, x0);
    EvalTwo(p, x1);
    assert Eval(p, x1) == y0 + (x1 - x0) * s;
    assert Fits(pts, 2, p);
    DeferredComplete(pts, 2, p);
  }

  lemma EvalTwo(c: seq<int>, x: int)
    requires |c| == 2
    ensures Eval(c, x) == c[0] + x * c[1]
  {
    var t := c[1..];
    assert t[1..] == [];
    assert Eval(t, x) == c[1] + x * 0;
  }

  lemma RiseOverRun(c0: int, c1: int, x0: int, x1: int)
    requires x1 != x0
    ensures ((c0 + x1 * c1) - (c0 + x0 * c1)) % (x1 - x0) == 0
  {
    assert (c0 + x1 * c1) - (c0 + x0 * c1) == (x1 - x0) * c1;
    MultipleDivides(c1, x1 - x0);
  }
}
