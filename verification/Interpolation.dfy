/** Lagrange interpolation: the polynomial through given points, and why it is the only one. */
module Interpolation {
  import opened Fields
  import opened Polynomials
  import opened Sequences

  function Xs<T>(points: seq<(T, T)>): seq<T> {
    seq(|points|, i requires 0 <= i < |points| => points[i].0)
  }

  /** (X - xi) / (xj - xi), computed as the monic linear polynomial divided by a scalar. */
  function LinearFactor<T(!new, ==)>(f: Field<T>, xi: T, xj: T): (p: seq<T>)
    requires xi != xj
    requires f.IsField()
    ensures |p| == 2
  {
    f.SubZero(xj, xi);
    LinearFactorLength(f, xi, xj);
    Div(f, [f.neg(xi), f.one], f.Sub(xj, xi)).value
  }

  lemma LinearFactorLength<T(!new)>(f: Field<T>, xi: T, xj: T)
    requires f.IsField()
    requires xi != xj
    ensures Div(f, [f.neg(xi), f.one], f.Sub(xj, xi)).Ok?
    ensures |Div(f, [f.neg(xi), f.one], f.Sub(xj, xi)).value| == 2
  {
    f.SubZero(xj, xi);
    f.InvNonZero(f.Sub(xj, xi));
    f.OneMul(f.inv(f.Sub(xj, xi)));
    var p := ScaleRaw(f, [f.neg(xi), f.one], f.inv(f.Sub(xj, xi)));
    assert p[|p| - 1] == f.inv(f.Sub(xj, xi));
  }

  /** The product of the factors of the first n abscissas other than xs[j]. */
  function BasisUpTo<T(!new, ==)>(f: Field<T>, xs: seq<T>, j: nat, n: nat): (p: seq<T>)
    requires f.IsField()
    requires Distinct(xs) && j < |xs| && n <= |xs|
    ensures |p| == 1 + n - (if j < n then 1 else 0)
  {
    if n == 0 then [f.one]
    else if n - 1 == j then BasisUpTo(f, xs, j, n - 1)
    else Mul(f, BasisUpTo(f, xs, j, n - 1), LinearFactor(f, xs[n - 1], xs[j]))
  }

  function InterpolateUpTo<T(!new, ==)>(f: Field<T>, points: seq<(T, T)>, n: nat): (p: seq<T>)
    requires f.IsField()
    requires Distinct(Xs(points)) && n <= |points|
    ensures |p| <= |points|
    ensures Strip(f, p) == p
  {
    if n == 0 then []
    else
      Add(f, InterpolateUpTo(f, points, n - 1),
          Scale(f, BasisUpTo(f, Xs(points), n - 1, |points|), points[n - 1].1))
  }

  /** The polynomial through the points. The source panics on repeated abscissas: its callers
      exclude them first. */
  function Interpolate<T(!new, ==)>(f: Field<T>, points: seq<(T, T)>): (p: seq<T>)
    requires f.IsField()
    requires Distinct(Xs(points))
    ensures |p| <= |points|
  {
    InterpolateUpTo(f, points, |points|)
  }

  // ----- Lagrange's formula

  /** The value at x of the product over the first n abscissas other than xs[j]. */
  ghost function LagrangeProduct<T(!new)>(f: Field<T>, xs: seq<T>, j: nat, n: nat, x: T): T
    requires j < |xs| && n <= |xs|
  {
    if n == 0 then f.one
    else if n - 1 == j then LagrangeProduct(f, xs, j, n - 1, x)
    else f.mul(LagrangeProduct(f, xs, j, n - 1, x), f.mul(f.Sub(x, xs[n - 1]), f.inv(f.Sub(xs[j], xs[n - 1]))))
  }

  ghost function LagrangeSum<T(!new)>(f: Field<T>, points: seq<(T, T)>, n: nat, x: T): T
    requires n <= |points|
  {
    if n == 0 then f.zero
    else f.add(LagrangeSum(f, points, n - 1, x),
               f.mul(LagrangeProduct(f, Xs(points), n - 1, |points|, x), points[n - 1].1))
  }

  lemma EvalLinearFactor<T(!new)>(f: Field<T>, xi: T, xj: T, x: T)
    requires f.IsField()
    requires xi != xj
    ensures Eval(f, LinearFactor(f, xi, xj), x) == f.mul(f.Sub(x, xi), f.inv(f.Sub(xj, xi)))
  {
    f.SubZero(xj, xi);
    var m := [f.neg(xi), f.one];
    EvalScale(f, m, f.inv(f.Sub(xj, xi)), x);
    calc {
      Eval(f, m, x);
      { assert m[1..] == [f.one]; }
      f.add(f.mul(Eval(f, [f.one], x), x), f.neg(xi));
      { assert [f.one][1..] == []; f.MulZero(x); f.ZeroAdd(f.one); f.OneMul(x); }
      f.Sub(x, xi);
    }
  }

  lemma {:induction false} EvalBasis<T(!new)>(f: Field<T>, xs: seq<T>, j: nat, n: nat, x: T)
    requires f.IsField()
    requires Distinct(xs) && j < |xs| && n <= |xs|
    ensures Eval(f, BasisUpTo(f, xs, j, n), x) == LagrangeProduct(f, xs, j, n, x)
  {
    if n == 0 {
      assert [f.one][1..] == [];
      f.MulZero(x);
      f.ZeroAdd(f.one);
    } else {
      EvalBasis(f, xs, j, n - 1, x);
      if n - 1 != j {
        EvalMul(f, BasisUpTo(f, xs, j, n - 1), LinearFactor(f, xs[n - 1], xs[j]), x);
        EvalLinearFactor(f, xs[n - 1], xs[j], x);
      }
    }
  }

  lemma {:induction false} EvalInterpolateUpTo<T(!new)>(f: Field<T>, points: seq<(T, T)>, n: nat, x: T)
    requires f.IsField()
    requires Distinct(Xs(points)) && n <= |points|
    ensures Eval(f, InterpolateUpTo(f, points, n), x) == LagrangeSum(f, points, n, x)
  {
    if n > 0 {
      var basis := BasisUpTo(f, Xs(points), n - 1, |points|);
      EvalInterpolateUpTo(f, points, n - 1, x);
      EvalAdd(f, InterpolateUpTo(f, points, n - 1), Scale(f, basis, points[n - 1].1), x);
      EvalScale(f, basis, points[n - 1].1, x);
      EvalBasis(f, Xs(points), n - 1, |points|, x);
    }
  }

  /** Each basis polynomial is one at its own abscissa and zero at the others. */
  lemma {:induction false} LagrangeProductAtNode<T(!new)>(f: Field<T>, xs: seq<T>, j: nat, n: nat, k: nat)
    requires f.IsField()
    requires Distinct(xs) && j < |xs| && n <= |xs| && k < |xs|
    ensures j == k ==> LagrangeProduct(f, xs, j, n, xs[k]) == f.one
    ensures j != k && k < n ==> LagrangeProduct(f, xs, j, n, xs[k]) == f.zero
  {
    if n > 0 {
      LagrangeProductAtNode(f, xs, j, n - 1, k);
      if n - 1 != j {
        var i, before := n - 1, LagrangeProduct(f, xs, j, n - 1, xs[k]);
        var factor := f.mul(f.Sub(xs[k], xs[i]), f.inv(f.Sub(xs[j], xs[i])));
        f.SubZero(xs[k], xs[i]);
        if j == k {
          assert f.MulInv(f.Sub(xs[j], xs[i])) && f.MulOne(before);
        } else if i == k {
          f.MulZero(f.inv(f.Sub(xs[j], xs[i])));
          f.MulZero(before);
        } else {
          f.MulZero(factor);
        }
      }
    }
  }

  lemma {:induction false} LagrangeSumAtNode<T(!new)>(f: Field<T>, points: seq<(T, T)>, n: nat, k: nat)
    requires f.IsField()
    requires Distinct(Xs(points)) && n <= |points| && k < |points|
    ensures LagrangeSum(f, points, n, points[k].0) == if k < n then points[k].1 else f.zero
  {
    if n > 0 {
      LagrangeSumAtNode(f, points, n - 1, k);
      LagrangeProductAtNode(f, Xs(points), n - 1, |points|, k);
      var y := points[n - 1].1;
      f.OneMul(y);
      f.ZeroAdd(y);
      f.MulZero(y);
      assert f.AddZero(LagrangeSum(f, points, n - 1, points[k].0));
    }
  }

  /** The interpolated polynomial goes through all the points. */
  lemma InterpolatePassesThrough<T(!new)>(f: Field<T>, points: seq<(T, T)>, k: nat)
    requires f.IsField()
    requires Distinct(Xs(points)) && k < |points|
    ensures Eval(f, Interpolate(f, points), points[k].0) == points[k].1
  {
    EvalInterpolateUpTo(f, points, |points|, points[k].0);
    LagrangeSumAtNode(f, points, |points|, k);
  }

  // ----- A polynomial with more roots than its degree is zero

  ghost predicate AllZero<T(!new)>(f: Field<T>, p: seq<T>) {
    forall i :: 0 <= i < |p| ==> p[i] == f.zero
  }

  lemma {:induction false} EvalAllZero<T(!new)>(f: Field<T>, p: seq<T>, x: T)
    requires f.IsField()
    requires AllZero(f, p)
    ensures Eval(f, p, x) == f.zero
  {
    if |p| > 0 {
      EvalAllZero(f, p[1..], x);
      f.MulZero(x);
      assert f.AddZero(f.zero);
    }
  }

  /** The quotient of p by X - a. */
  ghost function Quotient<T(!new)>(f: Field<T>, p: seq<T>, a: T): (q: seq<T>)
    ensures |q| == if |p| == 0 then 0 else |p| - 1
  {
    if |p| <= 1 then [] else [Eval(f, p[1..], a)] + Quotient(f, p[1..], a)
  }

  lemma {:induction false} FactorTheorem<T(!new)>(f: Field<T>, p: seq<T>, a: T, x: T)
    requires f.IsField()
    ensures f.Sub(Eval(f, p, x), Eval(f, p, a)) == f.mul(f.Sub(x, a), Eval(f, Quotient(f, p, a), x))
  {
    if |p| <= 1 {
      f.MulZero(f.Sub(x, a));
      if |p| == 1 {
        assert p[1..] == [];
        f.MulZero(x);
        f.MulZero(a);
      }
      f.SubZero(Eval(f, p, x), Eval(f, p, a));
    } else {
      var ex, ea, d := Eval(f, p[1..], x), Eval(f, p[1..], a), f.Sub(x, a);
      var q := Eval(f, Quotient(f, p[1..], a), x);
      calc {
        f.Sub(Eval(f, p, x), Eval(f, p, a));
        { f.SubAddSame(f.mul(ex, x), f.mul(ea, a), p[0]); }
        f.Sub(f.mul(ex, x), f.mul(ea, a));
        { f.SubProducts(ex, x, ea, a); }
        f.add(f.mul(f.Sub(ex, ea), x), f.mul(ea, d));
        { FactorTheorem(f, p[1..], a, x); assert f.MulAssoc(d, q, x) && f.MulComm(ea, d); }
        f.add(f.mul(d, f.mul(q, x)), f.mul(d, ea));
        { assert f.Distrib(d, f.mul(q, x), ea); }
        f.mul(d, f.add(f.mul(q, x), ea));
        { assert Quotient(f, p, a)[1..] == Quotient(f, p[1..], a); }
        f.mul(d, Eval(f, Quotient(f, p, a), x));
      }
    }
  }

  lemma {:induction false} ZeroQuotient<T(!new)>(f: Field<T>, p: seq<T>, a: T)
    requires f.IsField()
    requires AllZero(f, Quotient(f, p, a))
    requires Eval(f, p, a) == f.zero
    ensures AllZero(f, p)
  {
    if |p| > 0 {
      if |p| > 1 {
        assert Quotient(f, p, a)[1..] == Quotient(f, p[1..], a);
        assert Quotient(f, p, a)[0] == f.zero;
        ZeroQuotient(f, p[1..], a);
      }
      EvalAllZero(f, p[1..], a);
      f.MulZero(a);
      f.ZeroAdd(p[0]);
      assert p == [p[0]] + p[1..];
    }
  }

  lemma {:induction false} RootsForceZero<T(!new)>(f: Field<T>, p: seq<T>, xs: seq<T>)
    requires f.IsField()
    requires Distinct(xs) && |p| <= |xs|
    requires forall i :: 0 <= i < |xs| ==> Eval(f, p, xs[i]) == f.zero
    ensures AllZero(f, p)
    decreases |p|
  {
    if |p| > 0 {
      var n := |xs| - 1;
      var a := xs[n];
      var q := Quotient(f, p, a);
      forall i | 0 <= i < n ensures Eval(f, q, xs[..n][i]) == f.zero {
        FactorTheorem(f, p, a, xs[i]);
        f.SubZero(f.zero, f.zero);
        f.SubZero(xs[i], a);
        f.MulNonZero(f.Sub(xs[i], a), Eval(f, q, xs[i]));
      }
      RootsForceZero(f, q, xs[..n]);
      ZeroQuotient(f, p, a);
    }
  }

  // ----- Uniqueness

  ghost function Coefficient<T(!new)>(f: Field<T>, p: seq<T>, i: nat): T {
    if i < |p| then p[i] else f.zero
  }

  lemma {:induction false} SameCoefficientsSameStrip<T(!new)>(f: Field<T>, p: seq<T>, q: seq<T>)
    requires forall i: nat :: Coefficient(f, p, i) == Coefficient(f, q, i)
    ensures Strip(f, p) == Strip(f, q)
    decreases |p| + |q|
  {
    if |p| == |q| {
      forall i | 0 <= i < |p| ensures p[i] == q[i] {
        assert Coefficient(f, p, i) == Coefficient(f, q, i);
      }
      assert p == q;
    } else {
      var long, short := if |p| > |q| then p else q, if |p| > |q| then q else p;
      var n := |long| - 1;
      assert Coefficient(f, long, n) == Coefficient(f, short, n) == f.zero;
      forall i: nat ensures Coefficient(f, long[..n], i) == Coefficient(f, short, i) {
        assert Coefficient(f, long, i) == Coefficient(f, short, i);
      }
      SameCoefficientsSameStrip(f, long[..n], short);
    }
  }

  /** Polynomials that agree at more points than their degree are equal up to leading zeros. */
  lemma AgreementIsEquality<T(!new)>(f: Field<T>, p: seq<T>, q: seq<T>, xs: seq<T>)
    requires f.IsField()
    requires Distinct(xs) && |p| <= |xs| && |q| <= |xs|
    requires forall i :: 0 <= i < |xs| ==> Eval(f, p, xs[i]) == Eval(f, q, xs[i])
    ensures forall i: nat :: Coefficient(f, p, i) == Coefficient(f, q, i)
    ensures Strip(f, p) == Strip(f, q)
  {
    var minusOne := f.neg(f.one);
    var q' := ScaleRaw(f, q, minusOne);
    var d := AddRaw(f, p, q');
    forall a ensures f.mul(a, minusOne) == f.neg(a) {
      assert f.MulComm(a, minusOne);
      f.NegMul(f.one, a);
      f.OneMul(a);
    }
    forall i | 0 <= i < |xs| ensures Eval(f, d, xs[i]) == f.zero {
      EvalAddRaw(f, p, q', xs[i]);
      EvalScaleRaw(f, q, minusOne, xs[i]);
      f.SubZero(Eval(f, p, xs[i]), Eval(f, q, xs[i]));
    }
    RootsForceZero(f, d, xs);
    forall i: nat ensures Coefficient(f, p, i) == Coefficient(f, q, i) {
      if i < |p| && i < |q| {
        assert d[i] == f.Sub(p[i], q[i]);
        f.SubZero(p[i], q[i]);
      } else if i < |p| {
        assert d[i] == p[i];
      } else if i < |q| {
        assert d[i] == f.neg(q[i]);
        assert f.AddNeg(q[i]) && f.AddZero(q[i]);
      }
    }
    SameCoefficientsSameStrip(f, p, q);
  }

  lemma AgreementEverywhere<T(!new)>(f: Field<T>, p: seq<T>, q: seq<T>, xs: seq<T>, x: T)
    requires f.IsField()
    requires Distinct(xs) && |p| <= |xs| && |q| <= |xs|
    requires forall i :: 0 <= i < |xs| ==> Eval(f, p, xs[i]) == Eval(f, q, xs[i])
    ensures Eval(f, p, x) == Eval(f, q, x)
  {
    AgreementIsEquality(f, p, q, xs);
    EvalStrip(f, p, x);
    EvalStrip(f, q, x);
  }

  ghost predicate PassesThrough<T(!new)>(f: Field<T>, p: seq<T>, points: seq<(T, T)>) {
    forall i :: 0 <= i < |points| ==> Eval(f, p, points[i].0) == points[i].1
  }

  /** Interpolation gives the only polynomial of its size through the points. */
  lemma InterpolateUnique<T(!new)>(f: Field<T>, points: seq<(T, T)>, p: seq<T>)
    requires f.IsField()
    requires Distinct(Xs(points)) && |p| <= |points|
    ensures PassesThrough(f, p, points) <==> Strip(f, p) == Interpolate(f, points)
  {
    var q := Interpolate(f, points);
    forall i | 0 <= i < |points| ensures Eval(f, q, points[i].0) == points[i].1 {
      InterpolatePassesThrough(f, points, i);
    }
    if PassesThrough(f, p, points) {
      forall i | 0 <= i < |points| ensures Eval(f, p, Xs(points)[i]) == Eval(f, q, Xs(points)[i]) {
      }
      AgreementIsEquality(f, p, q, Xs(points));
    }
    if Strip(f, p) == q {
      forall i | 0 <= i < |points| ensures Eval(f, p, points[i].0) == points[i].1 {
        EvalStrip(f, p, points[i].0);
      }
    }
  }

  /** Points of a polynomial with at most as many coefficients as points give back its values. */
  lemma InterpolateRecovers<T(!new)>(f: Field<T>, points: seq<(T, T)>, p: seq<T>, x: T)
    requires f.IsField()
    requires Distinct(Xs(points)) && |p| <= |points|
    requires PassesThrough(f, p, points)
    ensures Eval(f, Interpolate(f, points), x) == Eval(f, p, x)
  {
    InterpolateUnique(f, points, p);
    EvalStrip(f, p, x);
  }

  lemma {:induction false} EvalPadded<T(!new)>(f: Field<T>, p: seq<T>, n: nat, x: T)
    requires f.IsField()
    ensures Eval(f, p + seq(n, _ => f.zero), x) == Eval(f, p, x)
  {
    if n == 0 {
      assert p + seq(0, _ => f.zero) == p;
    } else {
      EvalPadded(f, p, n - 1, x);
      EvalTrailingZero(f, p + seq(n - 1, _ => f.zero), x);
      assert p + seq(n, _ => f.zero) == p + seq(n - 1, _ => f.zero) + [f.zero];
    }
  }

  /** Through n points with distinct abscissas goes exactly one polynomial with n coefficients. */
  lemma ExactlyOneThrough<T(!new)>(f: Field<T>, points: seq<(T, T)>) returns (p: seq<T>)
    requires f.IsField()
    requires Distinct(Xs(points))
    ensures |p| == |points| && PassesThrough(f, p, points)
    ensures forall q :: |q| == |points| && PassesThrough(f, q, points) ==> q == p
  {
    var r := Interpolate(f, points);
    p := r + seq(|points| - |r|, _ => f.zero);
    forall i | 0 <= i < |points| ensures Eval(f, p, points[i].0) == points[i].1 {
      InterpolatePassesThrough(f, points, i);
      EvalPadded(f, r, |points| - |r|, points[i].0);
    }
    forall q | |q| == |points| && PassesThrough(f, q, points) ensures q == p {
      forall i | 0 <= i < |points| ensures Eval(f, q, Xs(points)[i]) == Eval(f, p, Xs(points)[i]) {
      }
      AgreementIsEquality(f, q, p, Xs(points));
      forall i | 0 <= i < |p| ensures q[i] == p[i] {
        assert Coefficient(f, q, i) == Coefficient(f, p, i);
      }
    }
  }
}
