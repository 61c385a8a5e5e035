/**
 Integer polynomials as coefficient sequences, lowest degree first: `p[i]` is
 the coefficient of x^i. This module holds the algebra the interpolation
 routine relies on: evaluation, coefficient-wise sum and scaling, the
 multiplication by a linear factor (x - r) that builds the Lagrange basis, and
 its inverse, synthetic division, which gives the uniqueness of an
 interpolant.
 */
module Poly {

  /** The coefficient of x^i, zero beyond either end. */
  function Coef(p: seq<int>, i: int): int {
    if 0 <= i < |p| then p[i] else 0
  }

  function Max(a: nat, b: nat): nat {
    if a < b then b else a
  }

  /** The value of `p` at `x` (Horner's scheme). */
  function Eval(p: seq<int>, x: int): int
    decreases |p|
  {
    if |p| == 0 then 0 else p[0] + x * Eval(p[1..], x)
  }

  /** Coefficient-wise sum; the shorter operand is padded with zeros. */
  function Add(p: seq<int>, q: seq<int>): (r: seq<int>)
    ensures |r| == Max(|p|, |q|)
  {
    seq(Max(|p|, |q|), i => Coef(p, i) + Coef(q, i))
  }

  /** Every coefficient multiplied by `c`. */
  function Scale(p: seq<int>, c: int): (r: seq<int>)
    ensures |r| == |p|
  {
    seq(|p|, i requires 0 <= i < |p| => c * p[i])
  }

  /** The product of `p` with (x - r): coefficient a receives -r * p[a] and
      p[a - 1]. */
  function MulLinear(p: seq<int>, r: int): (m: seq<int>)
    ensures |m| == |p| + 1
    ensures |p| > 0 ==> m[|p|] == p[|p| - 1]
  {
    seq(|p| + 1, a => -r * Coef(p, a) + Coef(p, a - 1))
  }

  ghost predicate IsZero(p: seq<int>) {
    forall i :: 0 <= i < |p| ==> p[i] == 0
  }

  /** The zero polynomial with k coefficients. */
  function Zeros(k: nat): (z: seq<int>)
    ensures |z| == k && IsZero(z)
  {
    seq(k, _ => 0)
  }

  lemma {:induction false} EvalZero(p: seq<int>, x: int)
    requires IsZero(p)
    ensures Eval(p, x) == 0
    decreases |p|
  {
    if |p| > 0 {
      EvalZero(p[1..], x);
    }
  }

  lemma {:induction false} EvalAdd(p: seq<int>, q: seq<int>, x: int)
    ensures Eval(Add(p, q), x) == Eval(p, x) + Eval(q, x)
    decreases |p| + |q|
  {
    var s := Add(p, q);
    if |p| == 0 {
      assert s == q;
    } else if |q| == 0 {
      assert s == p;
    } else {
      assert s[1..] == Add(p[1..], q[1..]);
      EvalAdd(p[1..], q[1..], x);
      Distribute(x, Eval(p[1..], x), Eval(q[1..], x));
    }
  }

  lemma {:induction false} EvalScale(p: seq<int>, c: int, x: int)
    ensures Eval(Scale(p, c), x) == c * Eval(p, x)
    decreases |p|
  {
    if |p| > 0 {
      var s := Scale(p, c);
      assert s[1..] == Scale(p[1..], c);
      EvalScale(p[1..], c, x);
      var e := Eval(p[1..], x);
      assert Eval(s, x) == c * p[0] + x * (c * e);
      ScaleStep(c, p[0], x, e);
    }
  }

  /** Multiplying by (x - r) multiplies the value at every x by (x - r). */
  lemma EvalMulLinear(p: seq<int>, r: int, x: int)
    ensures Eval(MulLinear(p, r), x) == (x - r) * Eval(p, x)
  {
    MulLinearAsSum(p, r);
    EvalShift(p, x);
    EvalAdd([0] + p, Scale(p, -r), x);
    EvalScale(p, -r, x);
    LinearFactor(x, r, Eval(p, x));
  }

  /** (x - r) p is x p plus -r p. */
  lemma MulLinearAsSum(p: seq<int>, r: int)
    ensures MulLinear(p, r) == Add([0] + p, Scale(p, -r))
  {
    var shifted := [0] + p;
    var m, sum := MulLinear(p, r), Add(shifted, Scale(p, -r));
    forall a | 0 <= a < |m|
      ensures m[a] == sum[a]
    {
      assert Coef(shifted, a) == Coef(p, a - 1);
      assert Coef(Scale(p, -r), a) == -r * Coef(p, a);
    }
  }

  lemma EvalShift(p: seq<int>, x: int)
    ensures Eval([0] + p, x) == x * Eval(p, x)
  {
    assert ([0] + p)[1..] == p;
  }

  lemma LinearFactor(x: int, r: int, e: int)
    ensures x * e + -r * e == (x - r) * e
  {
  }

  lemma Distribute(x: int, a: int, b: int)
    ensures x * (a + b) == x * a + x * b
  {
  }

  lemma ScaleStep(c: int, p0: int, x: int, e: int)
    ensures c * p0 + x * (c * e) == c * (p0 + x * e)
  {
  }

  lemma SynDivStep(x: int, r: int, p0: int, et: int, eq: int)
    ensures (x - r) * (et + x * eq) + (p0 + r * et) == p0 + x * ((x - r) * eq + et)
  {
  }

  /** The product of the linear factors (x - r) for r in `rs`, multiplied in
      from the left in the order of `rs`, starting from the polynomial 1. */
  function ProdLinear(rs: seq<int>): (b: seq<int>)
    ensures |b| == |rs| + 1 && b[|rs|] == 1
    decreases |rs|
  {
    if |rs| == 0 then [1] else MulLinear(ProdLinear(rs[..|rs| - 1]), rs[|rs| - 1])
  }

  /** Reference definition: the value of prod_{r in rs} (x - r). */
  ghost function RootProduct(rs: seq<int>, x: int): int
    decreases |rs|
  {
    if |rs| == 0 then 1 else (x - rs[|rs| - 1]) * RootProduct(rs[..|rs| - 1], x)
  }

  lemma ProdLinearSnoc(rs: seq<int>, r: int)
    ensures ProdLinear(rs + [r]) == MulLinear(ProdLinear(rs), r)
    ensures RootProduct(rs + [r], r) == 0
  {
    assert (rs + [r])[..|rs|] == rs;
  }

  lemma RootProductSnoc(rs: seq<int>, r: int, x: int)
    ensures RootProduct(rs + [r], x) == (x - r) * RootProduct(rs, x)
  {
    assert (rs + [r])[..|rs|] == rs;
  }

  lemma MulLinearSingle(c0: int, r: int)
    ensures MulLinear([c0], r) == [-r * c0, c0]
  {
    var m := MulLinear([c0], r);
    assert m[0] == -r * c0 + 0;
    assert m[1] == -r * 0 + c0;
  }

  lemma MulLinearPair(c0: int, c1: int, r: int)
    ensures MulLinear([c0, c1], r) == [-r * c0, c0 - r * c1, c1]
  {
    var m := MulLinear([c0, c1], r);
    assert m[0] == -r * c0 + 0;
    assert m[1] == -r * c1 + c0;
    assert m[2] == -r * 0 + c1;
  }

  /** Two linear factors: (x - a)(x - b) = ab - (a + b)x + x^2. */
  lemma ProdLinearPair(a: int, b: int)
    ensures ProdLinear([a, b]) == [a * b, -(a + b), 1]
  {
    assert ProdLinear([a]) == [-a, 1] by {
      assert [a][..0] == [];
      MulLinearSingle(1, a);
    }
    assert ProdLinear([a, b]) == MulLinear([-a, 1], b) by {
      assert [a, b][..1] == [a];
    }
    MulLinearPair(-a, 1, b);
  }

  /** The product of linear factors evaluates to the product of their values. */
  lemma {:induction false} EvalProdLinear(rs: seq<int>, x: int)
    ensures Eval(ProdLinear(rs), x) == RootProduct(rs, x)
    decreases |rs|
  {
    if |rs| == 0 {
      assert [1][1..] == [];
    } else {
      var init := rs[..|rs| - 1];
      EvalProdLinear(init, x);
      EvalMulLinear(ProdLinear(init), rs[|rs| - 1], x);
    }
  }

  /** The product vanishes exactly at its roots. */
  lemma {:induction false} RootProductZero(rs: seq<int>, x: int)
    ensures RootProduct(rs, x) == 0 <==> x in rs
    decreases |rs|
  {
    if |rs| > 0 {
      var init := rs[..|rs| - 1];
      RootProductZero(init, x);
      assert rs == init + [rs[|rs| - 1]];
      var f, rest := x - rs[|rs| - 1], RootProduct(init, x);
      if f != 0 && rest != 0 {
        NonZeroProduct(f, rest);
      }
    }
  }

  lemma NonZeroProduct(a: int, b: int)
    requires a != 0 && b != 0
    ensures a * b != 0
  {
  }

  /** The quotient of `p` by (x - r) (synthetic division). */
  function SynDiv(p: seq<int>, r: int): (q: seq<int>)
    ensures |q| == if |p| == 0 then 0 else |p| - 1
    decreases |p|
  {
    if |p| <= 1 then [] else [Eval(p[1..], r)] + SynDiv(p[1..], r)
  }

  /** Division with remainder by (x - r): the remainder is the value at r. */
  lemma {:induction false} EvalSynDiv(p: seq<int>, r: int, x: int)
    ensures Eval(p, x) == (x - r) * Eval(SynDiv(p, r), x) + Eval(p, r)
    decreases |p|
  {
    if |p| == 1 {
      assert p[1..] == [];
    } else if |p| > 1 {
      var t := p[1..];
      var q := SynDiv(p, r);
      var qt := SynDiv(t, r);
      EvalSynDiv(t, r, x);
      assert q[1..] == qt;
      var et, eq := Eval(t, r), Eval(qt, x);
      assert Eval(q, x) == et + x * eq;
      assert Eval(t, x) == (x - r) * eq + et;
      assert Eval(p, r) == p[0] + r * et;
      assert Eval(p, x) == p[0] + x * Eval(t, x);
      SynDivStep(x, r, p[0], et, eq);
    }
  }

  /** A zero quotient and a zero remainder leave nothing of the dividend. */
  lemma {:induction false} SynDivZero(p: seq<int>, r: int)
    requires IsZero(SynDiv(p, r)) && Eval(p, r) == 0
    ensures IsZero(p)
    decreases |p|
  {
    if |p| == 1 {
      assert p[1..] == [];
    } else if |p| > 1 {
      var q := SynDiv(p, r);
      assert q[0] == Eval(p[1..], r);
      assert q[1..] == SynDiv(p[1..], r);
      SynDivZero(p[1..], r);
      assert forall i :: 1 <= i < |p| ==> p[i] == p[1..][i - 1];
    }
  }

  ghost predicate DistinctValues(xs: seq<int>) {
    forall i, j :: 0 <= i < j < |xs| ==> xs[i] != xs[j]
  }

  lemma ProductZero(a: int, b: int)
    requires a * b == 0 && a != 0
    ensures b == 0
  {
  }

  /** A polynomial with fewer coefficients than it has distinct roots is the
      zero polynomial. */
  lemma {:induction false} ManyRootsIsZero(p: seq<int>, xs: seq<int>)
    requires |p| <= |xs|
    requires DistinctValues(xs)
    requires forall t :: 0 <= t < |xs| ==> Eval(p, xs[t]) == 0
    ensures IsZero(p)
    decreases |xs|
  {
    if |p| > 0 {
      var r := xs[0];
      var q := SynDiv(p, r);
      var rest := xs[1..];
      forall t | 0 <= t < |rest|
        ensures Eval(q, rest[t]) == 0
      {
        assert rest[t] == xs[t + 1];
        EvalSynDiv(p, r, rest[t]);
        ProductZero(rest[t] - r, Eval(q, rest[t]));
      }
      ManyRootsIsZero(q, rest);
      SynDivZero(p, r);
    }
  }

  /** Two polynomials with k coefficients each that agree at k distinct points
      are the same polynomial. */
  lemma InterpolantUnique(p: seq<int>, q: seq<int>, xs: seq<int>)
    requires |p| == |q| <= |xs|
    requires DistinctValues(xs)
    requires forall t :: 0 <= t < |xs| ==> Eval(p, xs[t]) == Eval(q, xs[t])
    ensures p == q
  {
    var d := Add(p, Scale(q, -1));
    forall t | 0 <= t < |xs|
      ensures Eval(d, xs[t]) == 0
    {
      EvalAdd(p, Scale(q, -1), xs[t]);
      EvalScale(q, -1, xs[t]);
    }
    ManyRootsIsZero(d, xs);
    assert forall i :: 0 <= i < |p| ==> d[i] == p[i] - q[i];
  }
}
