/**
 `interpolate`: the Lagrange interpolation routine over arbitrary-precision
 integers, as written. For each point i it builds the numerator basis
 polynomial prod_{j != i} (x - x_j) by repeated multiplication with linear
 factors, accumulates the scalar denominator prod_{j != i} (x_i - x_j), and
 adds y_i * basis / denominator into the result coefficient by coefficient,
 each coefficient divided separately with truncation toward zero.

 Only the first k points are read; points past the k-th are ignored.
 */
module Lagrange {
  import opened Poly
  import opened TruncDivision

  /** A sample point (x, y). */
  datatype Point = Point(x: int, y: int)

  /** The x-coordinates of the first k points are pairwise distinct. Without
      this some denominator is zero and the routine divides by zero. */
  ghost predicate DistinctX(pts: seq<Point>, k: nat)
    requires k <= |pts|
  {
    forall i, j :: 0 <= i < j < k ==> pts[i].x != pts[j].x
  }

  /** `p` takes the value y at x for each of the first k points. */
  ghost predicate Fits(pts: seq<Point>, k: nat, p: seq<int>)
    requires k <= |pts|
  {
    forall j :: 0 <= j < k ==> Eval(p, pts[j].x) == pts[j].y
  }

  /** The x-coordinates of the first k points. */
  function Nodes(pts: seq<Point>, k: nat): (xs: seq<int>)
    requires k <= |pts|
    ensures |xs| == k
  {
    seq(k, j requires 0 <= j < k => pts[j].x)
  }

  /** The x-coordinates of the points before index n other than point i,
      in order: the roots of point i's basis polynomial. */
  function OtherNodes(pts: seq<Point>, i: nat, n: nat): (rs: seq<int>)
    requires n <= |pts|
    ensures |rs| == if i < n then n - 1 else n
    decreases n
  {
    if n == 0 then []
    else if n - 1 == i then OtherNodes(pts, i, n - 1)
    else OtherNodes(pts, i, n - 1) + [pts[n - 1].x]
  }

  /** The numerator polynomial for point i after the inner loop has visited
      the points before index n: one factor (x - x_j) per j < n, j != i,
      multiplied in in order of j. */
  function Basis(pts: seq<Point>, i: nat, n: nat): (b: seq<int>)
    requires n <= |pts|
    ensures |b| == (if i < n then n else n + 1) && b[|b| - 1] == 1
  {
    ProdLinear(OtherNodes(pts, i, n))
  }

  /** The scalar denominator for point i after the inner loop has visited the
      points before index n. */
  function Denom(pts: seq<Point>, i: nat, n: nat): (d: int)
    requires i < |pts| && n <= |pts|
    ensures (forall j :: 0 <= j < n && j != i ==> pts[j].x != pts[i].x) ==> d != 0
    decreases n
  {
    if n == 0 then 1
    else if n - 1 == i then Denom(pts, i, n - 1)
    else Denom(pts, i, n - 1) * (pts[i].x - pts[n - 1].x)
  }

  /** One more step of the inner loop at another point j: multiply in
      (x - x_j) and (x_i - x_j). */
  lemma BasisStep(pts: seq<Point>, i: nat, j: nat)
    requires i < |pts| && j < |pts| && j != i
    ensures Basis(pts, i, j + 1) == MulLinear(Basis(pts, i, j), pts[j].x)
    ensures Denom(pts, i, j + 1) == Denom(pts, i, j) * (pts[i].x - pts[j].x)
  {
    OtherNodesStep(pts, i, j);
    ProdLinearSnoc(OtherNodes(pts, i, j), pts[j].x);
  }

  lemma OtherNodesStep(pts: seq<Point>, i: nat, j: nat)
    requires i < |pts| && j < |pts| && j != i
    ensures OtherNodes(pts, i, j + 1) == OtherNodes(pts, i, j) + [pts[j].x]
  {
  }

  /** The inner loop skips the point's own index. */
  lemma BasisSkip(pts: seq<Point>, i: nat, j: nat)
    requires i < |pts| && j < |pts| && j == i
    ensures Basis(pts, i, j + 1) == Basis(pts, i, j)
    ensures Denom(pts, i, j + 1) == Denom(pts, i, j)
  {
  }

  /** Every other node among the first n is a root of the basis, and nothing
      else is. */
  lemma {:induction false} OtherNodesContents(pts: seq<Point>, i: nat, n: nat, x: int)
    requires n <= |pts|
    ensures x in OtherNodes(pts, i, n) <==> exists j :: 0 <= j < n && j != i && pts[j].x == x
    decreases n
  {
    if n > 0 {
      OtherNodesContents(pts, i, n - 1, x);
      if n - 1 != i && pts[n - 1].x == x {
        assert x in OtherNodes(pts, i, n);
      }
    }
  }

  /** The denominator is the basis polynomial's value at the point's own
      node. */
  lemma {:induction false} DenomIsRootProduct(pts: seq<Point>, i: nat, n: nat)
    requires i < |pts| && n <= |pts|
    ensures Denom(pts, i, n) == RootProduct(OtherNodes(pts, i, n), pts[i].x)
    decreases n
  {
    if n > 0 {
      DenomIsRootProduct(pts, i, n - 1);
      if n - 1 != i {
        var rs, r, xi := OtherNodes(pts, i, n - 1), pts[n - 1].x, pts[i].x;
        RootProductSnoc(rs, r, xi);
        SwapFactor(Denom(pts, i, n - 1), RootProduct(rs, xi), xi - r);
      }
    }
  }

  lemma SwapFactor(d: int, p: int, f: int)
    requires d == p
    ensures d * f == f * p
  {
  }

  /** The basis polynomial of point i vanishes at every other node. */
  lemma BasisVanishes(pts: seq<Point>, i: nat, n: nat, j: nat)
    requires j < n <= |pts| && j != i
    ensures Eval(Basis(pts, i, n), pts[j].x) == 0
  {
    EvalProdLinear(OtherNodes(pts, i, n), pts[j].x);
    OtherNodesContents(pts, i, n, pts[j].x);
    RootProductZero(OtherNodes(pts, i, n), pts[j].x);
  }

  /** At its own node the basis polynomial evaluates to the denominator. */
  lemma BasisAtOwnNode(pts: seq<Point>, i: nat, n: nat)
    requires i < |pts| && n <= |pts|
    ensures Eval(Basis(pts, i, n), pts[i].x) == Denom(pts, i, n)
  {
    EvalProdLinear(OtherNodes(pts, i, n), pts[i].x);
    DenomIsRootProduct(pts, i, n);
  }

  /** With distinct x-coordinates no denominator is zero. */
  lemma DenomNonZero(pts: seq<Point>, k: nat, i: nat, n: nat)
    requires i < k <= |pts| && n <= k && DistinctX(pts, k)
    ensures Denom(pts, i, n) != 0
  {
    OtherNodesContents(pts, i, n, pts[i].x);
    RootProductZero(OtherNodes(pts, i, n), pts[i].x);
    DenomIsRootProduct(pts, i, n);
  }

  /** The inner loop's result for point i when k points are read: the basis
      has k coefficients, is monic, vanishes at every other node, and takes
      the value `Denom` at its own node, which is not zero. */
  lemma BasisProperties(pts: seq<Point>, k: nat, i: nat)
    requires i < k <= |pts| && DistinctX(pts, k)
    ensures |Basis(pts, i, k)| == k && Basis(pts, i, k)[k - 1] == 1
    ensures forall j :: 0 <= j < k && j != i ==> Eval(Basis(pts, i, k), pts[j].x) == 0
    ensures Eval(Basis(pts, i, k), pts[i].x) == Denom(pts, i, k) != 0
  {
    forall j | 0 <= j < k && j != i
      ensures Eval(Basis(pts, i, k), pts[j].x) == 0
    {
      BasisVanishes(pts, i, k, j);
    }
    BasisAtOwnNode(pts, i, k);
    DenomNonZero(pts, k, i, k);
  }

  /** The contribution of one point: every coefficient of the basis times y,
      divided by the denominator with truncation toward zero. */
  function ScaleTerm(term: seq<int>, y: int, denom: int): (s: seq<int>)
    requires denom != 0
    ensures |s| == |term|
    ensures forall a :: 0 <= a < |term| ==>
      Abs(term[a] * y - s[a] * denom) < Abs(denom) &&
      (term[a] * y - s[a] * denom == 0 || (term[a] * y - s[a] * denom < 0 <==> term[a] * y < 0))
  {
    seq(|term|, a requires 0 <= a < |term| => TruncDiv(term[a] * y, denom))
  }

  /** What point i adds to the result: its basis polynomial times y_i,
      divided coefficient by coefficient by its denominator. */
  function Contribution(pts: seq<Point>, k: nat, i: nat): (s: seq<int>)
    requires i < k <= |pts| && DistinctX(pts, k)
    ensures |s| == k
  {
    DenomNonZero(pts, k, i, k);
    ScaleTerm(Basis(pts, i, k), pts[i].y, Denom(pts, i, k))
  }

  /** The contributions of the first k points, in order. */
  function Contributions(pts: seq<Point>, k: nat): (cs: seq<seq<int>>)
    requires k <= |pts| && DistinctX(pts, k)
    ensures |cs| == k && forall i :: 0 <= i < k ==> |cs[i]| == k
  {
    seq(k, i requires 0 <= i < k => Contribution(pts, k, i))
  }

  /** The result after the outer loop has added the first n of the
      contributions `cs`, starting from k zeros. */
  function Accumulate(cs: seq<seq<int>>, k: nat, n: nat): (c: seq<int>)
    requires n <= |cs| && forall i :: 0 <= i < |cs| ==> |cs[i]| == k
    ensures |c| == k
    decreases n
  {
    if n == 0 then Zeros(k) else Add(Accumulate(cs, k, n - 1), cs[n - 1])
  }

  /** `interpolate(points, k)`: the k coefficients c0..c(k-1). */
  function Interpolate(pts: seq<Point>, k: nat): (c: seq<int>)
    requires k <= |pts| && DistinctX(pts, k)
    ensures |c| == k
  {
    Accumulate(Contributions(pts, k), k, k)
  }

  /** `d` divides `a` with no remainder. */
  predicate ExactQuotient(a: int, d: int) {
    d != 0 && a % d == 0
  }

  /** Every division in the contribution of point i is exact. */
  ghost predicate ExactTerm(pts: seq<Point>, k: nat, i: nat)
    requires i < k <= |pts|
  {
    forall a :: 0 <= a < k ==>
      ExactQuotient(Basis(pts, i, k)[a] * pts[i].y, Denom(pts, i, k))
  }

  /** Every per-term division the routine performs is exact. */
  ghost predicate ExactTerms(pts: seq<Point>, k: nat)
    requires k <= |pts|
  {
    forall i :: 0 <= i < k ==> ExactTerm(pts, k, i)
  }

  /** Each coefficient of a contribution is the truncated quotient: its
      remainder is smaller than the denominator and signed like the
      numerator, and it is zero when the division is exact. */
  lemma ScaleTermTruncates(term: seq<int>, y: int, denom: int, a: nat)
    requires denom != 0 && a < |term|
    ensures var r := term[a] * y - ScaleTerm(term, y, denom)[a] * denom;
      Abs(r) < Abs(denom) && (r == 0 || (r < 0 <==> term[a] * y < 0))
    ensures ExactQuotient(term[a] * y, denom) ==>
      ScaleTerm(term, y, denom)[a] * denom == term[a] * y
  {
    if ExactQuotient(term[a] * y, denom) {
      TruncDivExact(term[a] * y, denom);
    }
  }

  /** When every division is exact, a contribution is y / denom times the
      basis polynomial at every x. */
  lemma EvalScaleTerm(term: seq<int>, y: int, denom: int, x: int)
    requires denom != 0
    requires forall a :: 0 <= a < |term| ==> ExactQuotient(term[a] * y, denom)
    ensures Eval(ScaleTerm(term, y, denom), x) * denom == y * Eval(term, x)
  {
    var s := ScaleTerm(term, y, denom);
    forall a | 0 <= a < |term|
      ensures s[a] * denom == term[a] * y
    {
      TruncDivExact(term[a] * y, denom);
    }
    assert Scale(s, denom) == Scale(term, y);
    EvalScale(s, denom, x);
    EvalScale(term, y, x);
  }

  lemma ProductCancel(e: int, d: int, v: int)
    requires d != 0 && e * d == v * d
    ensures e == v
  {
    assert (e - v) * d == 0;
  }

  /** The contribution of point i, when its divisions are exact, takes the
      value y_i at x_i and 0 at every other node. */
  lemma ContributionEval(pts: seq<Point>, k: nat, i: nat, j: nat)
    requires i < k <= |pts| && DistinctX(pts, k) && j < k
    requires ExactTerm(pts, k, i)
    ensures Eval(Contribution(pts, k, i), pts[j].x) == if i == j then pts[i].y else 0
  {
    BasisProperties(pts, k, i);
    var b, d, x := Basis(pts, i, k), Denom(pts, i, k), pts[j].x;
    var s := ScaleTerm(b, pts[i].y, d);
    assert s == Contribution(pts, k, i);
    EvalScaleTerm(b, pts[i].y, d, x);
    var e := Eval(s, x);
    if i == j {
      assert e * d == pts[i].y * d;
      ProductCancel(e, d, pts[i].y);
    } else {
      assert e * d == pts[i].y * 0;
      ProductCancel(e, d, 0);
    }
  }

  /** The partial sums of the contributions: if contribution j takes the
      value y at x and every other contribution takes 0 there, the partial
      sum takes y at x once it includes contribution j, and 0 before. */
  lemma {:induction false} AccumulateEval(cs: seq<seq<int>>, k: nat, n: nat, x: int, j: int, y: int)
    requires n <= |cs| && forall i :: 0 <= i < |cs| ==> |cs[i]| == k
    requires forall i :: 0 <= i < n ==> Eval(cs[i], x) == if i == j then y else 0
    ensures Eval(Accumulate(cs, k, n), x) == if 0 <= j < n then y else 0
    decreases n
  {
    if n == 0 {
      EvalZero(Zeros(k), x);
    } else {
      AccumulateEval(cs, k, n - 1, x, j, y);
      EvalAdd(Accumulate(cs, k, n - 1), cs[n - 1], x);
    }
  }

  /** Exact recovery: when every per-term division is exact, the result
      passes through every one of the k points. */
  lemma InterpolatePassesThrough(pts: seq<Point>, k: nat)
    requires k <= |pts| && DistinctX(pts, k) && ExactTerms(pts, k)
    ensures Fits(pts, k, Interpolate(pts, k))
  {
    forall j | 0 <= j < k
      ensures Eval(Interpolate(pts, k), pts[j].x) == pts[j].y
    {
      var cs := Contributions(pts, k);
      forall i | 0 <= i < k
        ensures Eval(cs[i], pts[j].x) == if i == j then pts[j].y else 0
      {
        ContributionEval(pts, k, i, j);
      }
      AccumulateEval(cs, k, k, pts[j].x, j, pts[j].y);
    }
  }

  lemma NodesDistinct(pts: seq<Point>, k: nat)
    requires k <= |pts| && DistinctX(pts, k)
    ensures DistinctValues(Nodes(pts, k))
  {
  }

  /** Exact recovery of a polynomial: sampling a polynomial with k integer
      coefficients at the k nodes and interpolating gives back its
      coefficients, whenever every per-term division is exact. */
  lemma InterpolateRecovers(pts: seq<Point>, k: nat, p: seq<int>)
    requires k <= |pts| && DistinctX(pts, k) && ExactTerms(pts, k)
    requires |p| == k
    requires Fits(pts, k, p)
    ensures Interpolate(pts, k) == p
  {
    InterpolatePassesThrough(pts, k);
    NodesDistinct(pts, k);
    InterpolantUnique(Interpolate(pts, k), p, Nodes(pts, k));
  }

  /** With one point the basis is [1], the denominator 1, and the result is
      the point's own y; with no points the result is empty. */
  lemma InterpolateSmall(pts: seq<Point>)
    requires |pts| >= 1
    ensures Interpolate(pts, 0) == []
    ensures Basis(pts, 0, 1) == [1] && Denom(pts, 0, 1) == 1
    ensures Interpolate(pts, 1) == [pts[0].y]
  {
    assert Basis(pts, 0, 1) == [1];
    var s := ScaleTerm([1], pts[0].y, 1);
    assert s[0] == TruncDiv(pts[0].y, 1);
    TruncDivExact(pts[0].y, 1);
  }

  /** The multiplication loop for one linear factor: a fresh vector one
      longer than `term`, into which -xj * term[a] and term[a] are added at
      positions a and a + 1. */
  method MulLinearLoop(term: seq<int>, xj: int) returns (newTerm: seq<int>)
    ensures newTerm == MulLinear(term, xj)
  {
    newTerm := Zeros(|term| + 1);
    var a := 0;
    while a < |term|
      invariant 0 <= a <= |term|
      invariant |newTerm| == |term| + 1
      invariant newTerm[..a] == MulLinear(term, xj)[..a]
      invariant newTerm[a] == Coef(term, a - 1)
      invariant forall t :: a < t < |newTerm| ==> newTerm[t] == 0
    {
      ghost var m := MulLinear(term, xj);
      var low := newTerm[a] + -xj * term[a];
      assert low == m[a];
      var high := newTerm[a + 1] + term[a];
      newTerm := newTerm[a := low][a + 1 := high];
      assert newTerm[..a + 1] == m[..a + 1];
      a := a + 1;
    }
    assert newTerm == newTerm[..a] + [newTerm[a]];
    assert MulLinear(term, xj) == MulLinear(term, xj)[..a] + [MulLinear(term, xj)[a]];
  }

  /** The inner loop for point i: start from the polynomial 1 and the
      denominator 1, and for every other point j multiply in (x - x_j) and
      (x_i - x_j). */
  method BasisLoop(pts: seq<Point>, k: nat, i: nat) returns (termCoeffs: seq<int>, denom: int)
    requires i < k <= |pts|
    ensures termCoeffs == Basis(pts, i, k) && denom == Denom(pts, i, k)
  {
    var xi := pts[i].x;
    termCoeffs, denom := [1], 1;
    var j := 0;
    while j < k
      invariant 0 <= j <= k
      invariant termCoeffs == Basis(pts, i, j)
      invariant denom == Denom(pts, i, j)
    {
      if i != j {
        var xj := pts[j].x;
        BasisStep(pts, i, j);
        termCoeffs := MulLinearLoop(termCoeffs, xj);
        denom := denom * (xi - xj);
      } else {
        BasisSkip(pts, i, j);
      }
      j := j + 1;
    }
  }

  /** The accumulation loop for one point: add term[a] * y / denom,
      truncated, into coefficient a. */
  method AddScaledLoop(finalCoeffs: seq<int>, termCoeffs: seq<int>, y: int, denom: int)
    returns (r: seq<int>)
    requires |finalCoeffs| == |termCoeffs| && denom != 0
    ensures r == Add(finalCoeffs, ScaleTerm(termCoeffs, y, denom))
  {
    ghost var sum := Add(finalCoeffs, ScaleTerm(termCoeffs, y, denom));
    r := finalCoeffs;
    var a := 0;
    while a < |termCoeffs|
      invariant 0 <= a <= |termCoeffs| == |r|
      invariant r[..a] == sum[..a]
      invariant r[a..] == finalCoeffs[a..]
    {
      r := r[a := r[a] + TruncDiv(termCoeffs[a] * y, denom)];
      assert r[..a + 1] == sum[..a + 1];
      a := a + 1;
    }
    assert r == r[..a] && sum == sum[..a];
  }

  /** The routine as written, loop for loop: for each point the inner loop
      builds the basis and denominator, and the last loop adds the truncated
      quotients into the result. */
  method InterpolateLoop(pts: seq<Point>, k: nat) returns (finalCoeffs: seq<int>)
    requires k <= |pts| && DistinctX(pts, k)
    ensures finalCoeffs == Interpolate(pts, k)
  {
    finalCoeffs := Zeros(k);
    var i := 0;
    while i < k
      invariant 0 <= i <= k
      invariant finalCoeffs == PartialSum(pts, k, i)
    {
      var termCoeffs, denom := BasisLoop(pts, k, i);
      InterpolateStep(pts, k, i);
      finalCoeffs := AddScaledLoop(finalCoeffs, termCoeffs, pts[i].y, denom);
      i := i + 1;
    }
  }

  /** The result after the outer loop has added the contributions of the
      first n points. */
  function PartialSum(pts: seq<Point>, k: nat, n: nat): (c: seq<int>)
    requires n <= k <= |pts| && DistinctX(pts, k)
    ensures |c| == k
  {
    Accumulate(Contributions(pts, k), k, n)
  }

  /** One pass of the outer loop adds the contribution of point i. */
  lemma InterpolateStep(pts: seq<Point>, k: nat, i: nat)
    requires i < k <= |pts| && DistinctX(pts, k)
    ensures Denom(pts, i, k) != 0 && |Basis(pts, i, k)| == k
    ensures PartialSum(pts, k, i + 1) == Add(PartialSum(pts, k, i), ScaleTerm(Basis(pts, i, k), pts[i].y, Denom(pts, i, k)))
  {
    DenomNonZero(pts, k, i, k);
    assert Contributions(pts, k)[i] == Contribution(pts, k, i);
  }

  lemma AddTriple(p: seq<int>, q: seq<int>)
    requires |p| == |q| == 3
    ensures Add(p, q) == [p[0] + q[0], p[1] + q[1], p[2] + q[2]]
  {
    var s := Add(p, q);
    assert s[0] == p[0] + q[0] && s[1] == p[1] + q[1] && s[2] == p[2] + q[2];
  }

  /** With three points the result adds up three contributions per
      coefficient. */
  lemma AccumulateThree(cs: seq<seq<int>>)
    requires |cs| == 3 && forall i :: 0 <= i < 3 ==> |cs[i]| == 3
    ensures Accumulate(cs, 3, 3) == [cs[0][0] + cs[1][0] + cs[2][0], cs[0][1] + cs[1][1] + cs[2][1], cs[0][2] + cs[1][2] + cs[2][2]]
  {
    assert Accumulate(cs, 3, 1) == cs[0] by {
      assert Zeros(3) == [0, 0, 0];
      AddTriple(Zeros(3), cs[0]);
    }
    assert Accumulate(cs, 3, 2) == [cs[0][0] + cs[1][0], cs[0][1] + cs[1][1], cs[0][2] + cs[1][2]] by {
      AddTriple(cs[0], cs[1]);
    }
    AddTriple(Accumulate(cs, 3, 2), cs[2]);
  }

  lemma AccumulateThreeOf(cs: seq<seq<int>>, a: seq<int>, b: seq<int>, c: seq<int>)
    requires cs == [a, b, c] && |a| == |b| == |c| == 3
    ensures Accumulate(cs, 3, 3) == [a[0] + b[0] + c[0], a[1] + b[1] + c[1], a[2] + b[2] + c[2]]
  {
    AccumulateThree(cs);
  }

  /** With three points, the contribution of point i, in terms of its two
      other nodes a and b: the basis is (x - a)(x - b). */
  lemma ContributionThree(pts: seq<Point>, i: nat, a: int, b: int)
    requires |pts| >= 3 && DistinctX(pts, 3) && i < 3
    requires OtherNodes(pts, i, 3) == [a, b]
    ensures var y, d := pts[i].y, Denom(pts, i, 3);
      d != 0 && Contribution(pts, 3, i) == [TruncDiv(a * b * y, d), TruncDiv(-(a + b) * y, d), TruncDiv(1 * y, d)]
  {
    DenomNonZero(pts, 3, i, 3);
    ProdLinearPair(a, b);
    var y, d := pts[i].y, Denom(pts, i, 3);
    var c := Contribution(pts, 3, i);
    assert c[0] == TruncDiv(a * b * y, d);
    assert c[1] == TruncDiv(-(a + b) * y, d);
    assert c[2] == TruncDiv(1 * y, d);
  }

  /** Three points at x = 1, 2, 3, the numbering the command-line driver
      gives its inputs. */
  function ThreeNodes(y0: int, y1: int, y2: int): (pts: seq<Point>)
    ensures |pts| == 3 && DistinctX(pts, 3)
  {
    [Point(1, y0), Point(2, y1), Point(3, y2)]
  }

  lemma ThreeNodesTerm0(y0: int, y1: int, y2: int)
    ensures Contributions(ThreeNodes(y0, y1, y2), 3)[0] == [3 * y0, TruncDiv(-5 * y0, 2), TruncDiv(y0, 2)]
  {
    var pts := ThreeNodes(y0, y1, y2);
    assert OtherNodes(pts, 0, 3) == [2, 3];
    assert Denom(pts, 0, 3) == 2;
    ContributionThree(pts, 0, 2, 3);
    assert 2 * 3 * y0 == (3 * y0) * 2 && -(2 + 3) * y0 == -5 * y0 && 1 * y0 == y0;
    TruncDivMultiple(3 * y0, 2);
  }

  lemma ThreeNodesTerm1(y0: int, y1: int, y2: int)
    ensures Contributions(ThreeNodes(y0, y1, y2), 3)[1] == [-3 * y1, 4 * y1, -y1]
  {
    var pts := ThreeNodes(y0, y1, y2);
    assert OtherNodes(pts, 1, 3) == [1, 3];
    assert Denom(pts, 1, 3) == -1;
    ContributionThree(pts, 1, 1, 3);
    assert 1 * 3 * y1 == (-3 * y1) * -1 && -(1 + 3) * y1 == (4 * y1) * -1 && 1 * y1 == (-y1) * -1;
    TruncDivMultiple(-3 * y1, -1);
    TruncDivMultiple(4 * y1, -1);
    TruncDivMultiple(-y1, -1);
  }

  lemma ThreeNodesTerm2(y0: int, y1: int, y2: int)
    ensures Contributions(ThreeNodes(y0, y1, y2), 3)[2] == [y2, TruncDiv(-3 * y2, 2), TruncDiv(y2, 2)]
  {
    var pts := ThreeNodes(y0, y1, y2);
    assert OtherNodes(pts, 2, 3) == [1, 2];
    assert Denom(pts, 2, 3) == 2;
    ContributionThree(pts, 2, 1, 2);
    assert 1 * 2 * y2 == y2 * 2 && -(1 + 2) * y2 == -3 * y2 && 1 * y2 == y2;
    TruncDivMultiple(y2, 2);
  }

  /** Three points at x = 1, 2, 3: the constant term 3 y0 - 3 y1 + y2 comes
      out of exact divisions whatever the y's are, while the x and x^2
      coefficients each add up truncated halves. */
  lemma ThreeNodesResult(y0: int, y1: int, y2: int)
    ensures var c := Interpolate(ThreeNodes(y0, y1, y2), 3);
      c[0] == 3 * y0 - 3 * y1 + y2 &&
      c[1] == TruncDiv(-5 * y0, 2) + 4 * y1 + TruncDiv(-3 * y2, 2) &&
      c[2] == TruncDiv(y0, 2) - y1 + TruncDiv(y2, 2)
  {
    var cs := Contributions(ThreeNodes(y0, y1, y2), 3);
    ThreeNodesTerm0(y0, y1, y2);
    ThreeNodesTerm1(y0, y1, y2);
    ThreeNodesTerm2(y0, y1, y2);
    AccumulateThreeOf(cs, [3 * y0, TruncDiv(-5 * y0, 2), TruncDiv(y0, 2)], [-3 * y1, 4 * y1, -y1], [y2, TruncDiv(-3 * y2, 2), TruncDiv(y2, 2)]);
  }

  /** With three points, the divisions of point i's contribution are exact
      exactly when d divides ab y, (a + b) y and y. */
  lemma ExactTermThree(pts: seq<Point>, i: nat, a: int, b: int)
    requires |pts| >= 3 && i < 3
    requires OtherNodes(pts, i, 3) == [a, b]
    ensures var y, d := pts[i].y, Denom(pts, i, 3);
      ExactTerm(pts, 3, i) <==>
        ExactQuotient(a * b * y, d) && ExactQuotient(-(a + b) * y, d) && ExactQuotient(1 * y, d)
  {
    var bs, y, d := Basis(pts, i, 3), pts[i].y, Denom(pts, i, 3);
    assert bs == [a * b, -(a + b), 1] by {
      ProdLinearPair(a, b);
    }
    assert ExactTerm(pts, 3, i) <==>
      ExactQuotient(bs[0] * y, d) && ExactQuotient(bs[1] * y, d) && ExactQuotient(bs[2] * y, d);
  }

  lemma EvenShift(t: int, r: int)
    requires 0 <= r < 2
    ensures (2 * t + r) % 2 == r
  {
  }

  lemma Halves(y: int)
    ensures (6 * y) % 2 == 0 && (2 * y) % 2 == 0
    ensures (-5 * y) % 2 == y % 2 && (-3 * y) % 2 == y % 2
  {
    var q, r := y / 2, y % 2;
    assert y == 2 * q + r;
    EvenShift(3 * y, 0);
    EvenShift(y, 0);
    assert -5 * y == 2 * (-5 * q - 3 * r) + r;
    EvenShift(-5 * q - 3 * r, r);
    assert -3 * y == 2 * (-3 * q - 2 * r) + r;
    EvenShift(-3 * q - 2 * r, r);
  }

  /** With x = 1, 2, 3 the middle point always divides exactly (its
      denominator is -1), and the outer two do exactly when their y is
      even. */
  lemma ThreeNodesExact(y0: int, y1: int, y2: int)
    ensures ExactTerms(ThreeNodes(y0, y1, y2), 3) <==> y0 % 2 == 0 && y2 % 2 == 0
  {
    var pts := ThreeNodes(y0, y1, y2);
    Halves(y0);
    Halves(y2);
    assert ExactTerm(pts, 3, 0) <==> y0 % 2 == 0 by {
      assert OtherNodes(pts, 0, 3) == [2, 3];
      assert Denom(pts, 0, 3) == 2;
      ExactTermThree(pts, 0, 2, 3);
    }
    assert ExactTerm(pts, 3, 1) by {
      assert OtherNodes(pts, 1, 3) == [1, 3];
      assert Denom(pts, 1, 3) == -1;
      ExactTermThree(pts, 1, 1, 3);
    }
    assert ExactTerm(pts, 3, 2) <==> y2 % 2 == 0 by {
      assert OtherNodes(pts, 2, 3) == [1, 2];
      assert Denom(pts, 2, 3) == 2;
      ExactTermThree(pts, 2, 1, 2);
    }
  }

  /** The three-point case (1, 4), (2, 7), (3, 12): every per-term division
      is exact and the result is x^2 + 3. */
  lemma ThreePointExample()
    ensures ExactTerms(ThreeNodes(4, 7, 12), 3)
    ensures var c := Interpolate(ThreeNodes(4, 7, 12), 3);
      c[0] == 3 && c[1] == 0 && c[2] == 1
  {
    ThreeNodesExact(4, 7, 12);
    ThreeNodesResult(4, 7, 12);
    assert TruncDiv(-20, 2) == -10 && TruncDiv(4, 2) == 2;
    assert TruncDiv(-36, 2) == -18 && TruncDiv(12, 2) == 6;
  }

  /** Three points on a line y = t x with odd t, which has integer
      coefficients: the outer points' divisions are inexact, and the result
      [0, t + 1, -1] misses the middle point (2, 2t) by 2. */
  lemma TruncationMissesLine(t: int)
    requires t > 0 && t % 2 == 1
    ensures !ExactTerms(ThreeNodes(t, 2 * t, 3 * t), 3)
    ensures var c := Interpolate(ThreeNodes(t, 2 * t, 3 * t), 3);
      c[0] == 0 && c[1] == t + 1 && c[2] == -1 && Eval(c, 2) == 2 * t - 2
  {
    var c := Interpolate(ThreeNodes(t, 2 * t, 3 * t), 3);
    assert !ExactTerms(ThreeNodes(t, 2 * t, 3 * t), 3) by {
      ThreeNodesExact(t, 2 * t, 3 * t);
    }
    assert c[0] == 0 && c[1] == t + 1 && c[2] == -1 by {
      ThreeNodesResult(t, 2 * t, 3 * t);
      OddHalves(t, t / 2);
    }
    EvalThree(c, 2);
  }

  /** The truncated halves that occur for t = 2m + 1. */
  lemma OddHalves(t: int, m: int)
    requires m >= 0 && t == 2 * m + 1
    ensures TruncDiv(-5 * t, 2) == -(5 * m + 2) && TruncDiv(-3 * (3 * t), 2) == -(9 * m + 4)
    ensures TruncDiv(t, 2) == m && TruncDiv(3 * t, 2) == 3 * m + 1
  {
    TruncDivUnique(-5 * t, 2, -(5 * m + 2));
    TruncDivUnique(-3 * (3 * t), 2, -(9 * m + 4));
    TruncDivUnique(t, 2, m);
    TruncDivUnique(3 * t, 2, 3 * m + 1);
  }

  /** The constant term `main` prints: for x = 1, 2, 3 it is the constant
      term of any three-coefficient polynomial through the points, whatever
      the truncation does to the other two coefficients. */
  lemma ThreeNodesConstantTerm(y0: int, y1: int, y2: int, p: seq<int>)
    requires |p| == 3 && Fits(ThreeNodes(y0, y1, y2), 3, p)
    ensures Interpolate(ThreeNodes(y0, y1, y2), 3)[0] == p[0]
  {
    ThreeNodesResult(y0, y1, y2);
    var pts := ThreeNodes(y0, y1, y2);
    assert Eval(p, pts[0].x) == y0 && Eval(p, pts[1].x) == y1 && Eval(p, pts[2].x) == y2;
    EvalThree(p, 1);
    EvalThree(p, 2);
    EvalThree(p, 3);
  }

  lemma EvalThree(c: seq<int>, x: int)
    requires |c| == 3
    ensures Eval(c, x) == c[0] + x * (c[1] + x * c[2])
  {
    var t := c[1..];
    assert t[1..] == [c[2]] && [c[2]][1..] == [];
    assert Eval([c[2]], x) == c[2] + x * 0;
    assert Eval(t, x) == c[1] + x * c[2];
  }
}
