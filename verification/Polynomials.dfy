/** Polynomials over a field as coefficient sequences, lowest degree first. */
module Polynomials {
  import opened Fields
  import opened Results

  /** Evaluation by Horner's method. */
  function Eval<T(!new)>(f: Field<T>, p: seq<T>, x: T): T {
    if |p| == 0 then f.zero else f.add(f.mul(Eval(f, p[1..], x), x), p[0])
  }

  function Strip<T(!new, ==)>(f: Field<T>, p: seq<T>): (r: seq<T>)
    ensures r <= p
    ensures |r| > 0 ==> r[|r| - 1] != f.zero
  {
    if |p| > 0 && p[|p| - 1] == f.zero then Strip(f, p[..|p| - 1]) else p
  }

  method StripTrailingZeros<T(!new, ==)>(f: Field<T>, p: seq<T>) returns (r: seq<T>)
    ensures r == Strip(f, p)
  {
    r := p;
    while |r| > 0 && r[|r| - 1] == f.zero
      invariant Strip(f, r) == Strip(f, p)
      decreases |r|
    {
      r := r[..|r| - 1];
    }
  }

  /** The coefficientwise sum, the longer polynomial giving the remaining coefficients. */
  function AddRaw<T(!new)>(f: Field<T>, p: seq<T>, q: seq<T>): seq<T> {
    seq(if |p| < |q| then |q| else |p|, i requires 0 <= i < |p| || i < |q| =>
      if 0 <= i < |p| && i < |q| then f.add(p[i], q[i])
      else if 0 <= i < |p| then p[i]
      else if 0 <= i < |q| then q[i] else f.zero)
  }

  function Add<T(!new, ==)>(f: Field<T>, p: seq<T>, q: seq<T>): seq<T> {
    Strip(f, AddRaw(f, p, q))
  }

  function ScaleRaw<T(!new)>(f: Field<T>, p: seq<T>, s: T): seq<T> {
    seq(|p|, i requires 0 <= i < |p| => f.mul(p[i], s))
  }

  function Scale<T(!new, ==)>(f: Field<T>, p: seq<T>, s: T): seq<T> {
    Strip(f, ScaleRaw(f, p, s))
  }

  function Div<T(!new, ==)>(f: Field<T>, p: seq<T>, d: T): Result<seq<T>> {
    if d == f.zero then Err(InvalidInput) else Ok(Scale(f, p, f.inv(d)))
  }

  /** The sum of p[j] * q[i - j] over the j < n for which both coefficients exist. */
  function ConvolutionSum<T(!new)>(f: Field<T>, p: seq<T>, q: seq<T>, i: nat, n: nat): T {
    if n == 0 then f.zero
    else
      var j, sum := n - 1, ConvolutionSum(f, p, q, i, n - 1);
      if j < |p| && j <= i && i - j < |q| then f.add(sum, f.mul(p[j], q[i - j])) else sum
  }

  /** The product; the degrees are computed as length - 1, so neither factor may be empty. */
  function Mul<T(!new)>(f: Field<T>, p: seq<T>, q: seq<T>): (r: seq<T>)
    requires |p| > 0 && |q| > 0
  {
    seq(|p| + |q| - 1, i requires 0 <= i => ConvolutionSum(f, p, q, i, i + 1))
  }

  lemma {:induction false} StripTwice<T(!new)>(f: Field<T>, p: seq<T>)
    ensures Strip(f, Strip(f, p)) == Strip(f, p)
  {
    if |p| > 0 && p[|p| - 1] == f.zero {
      StripTwice(f, p[..|p| - 1]);
    }
  }

  /** Sums, multiples and quotients never end in zero. */
  lemma ResultsAreStripped<T(!new)>(f: Field<T>, p: seq<T>, q: seq<T>, s: T)
    ensures Strip(f, Add(f, p, q)) == Add(f, p, q)
    ensures Strip(f, Scale(f, p, s)) == Scale(f, p, s)
    ensures s != f.zero ==> Div(f, p, s).Ok? && Strip(f, Div(f, p, s).value) == Div(f, p, s).value
  {
    StripTwice(f, AddRaw(f, p, q));
    StripTwice(f, ScaleRaw(f, p, s));
    StripTwice(f, ScaleRaw(f, p, f.inv(s)));
  }

  // ----- Evaluation is a ring homomorphism

  lemma {:induction false} EvalAddRaw<T(!new)>(f: Field<T>, p: seq<T>, q: seq<T>, x: T)
    requires f.IsField()
    ensures Eval(f, AddRaw(f, p, q), x) == f.add(Eval(f, p, x), Eval(f, q, x))
  {
    if |p| == 0 {
      assert AddRaw(f, p, q) == q;
      f.ZeroAdd(Eval(f, q, x));
    } else if |q| == 0 {
      assert AddRaw(f, p, q) == p;
      assert f.AddZero(Eval(f, p, x));
    } else {
      var p', q' := Eval(f, p[1..], x), Eval(f, q[1..], x);
      assert AddRaw(f, p, q)[1..] == AddRaw(f, p[1..], q[1..]);
      EvalAddRaw(f, p[1..], q[1..], x);
      f.DistribRight(p', q', x);
      f.AddSwap(f.mul(p', x), f.mul(q', x), p[0], q[0]);
    }
  }

  lemma {:induction false} EvalScaleRaw<T(!new)>(f: Field<T>, p: seq<T>, s: T, x: T)
    requires f.IsField()
    ensures Eval(f, ScaleRaw(f, p, s), x) == f.mul(Eval(f, p, x), s)
  {
    if |p| == 0 {
      f.MulZero(s);
    } else {
      var p' := Eval(f, p[1..], x);
      assert ScaleRaw(f, p, s)[1..] == ScaleRaw(f, p[1..], s);
      EvalScaleRaw(f, p[1..], s, x);
      assert f.MulAssoc(p', s, x) && f.MulComm(s, x) && f.MulAssoc(p', x, s);
      f.DistribRight(f.mul(p', x), p[0], s);
    }
  }

  lemma {:induction false} EvalTrailingZero<T(!new)>(f: Field<T>, p: seq<T>, x: T)
    requires f.IsField()
    ensures Eval(f, p + [f.zero], x) == Eval(f, p, x)
  {
    if |p| == 0 {
      f.MulZero(x);
      assert f.AddZero(f.zero);
      assert (p + [f.zero])[1..] == [];
    } else {
      EvalTrailingZero(f, p[1..], x);
      assert (p + [f.zero])[1..] == p[1..] + [f.zero];
    }
  }

  lemma {:induction false} EvalStrip<T(!new)>(f: Field<T>, p: seq<T>, x: T)
    requires f.IsField()
    ensures Eval(f, Strip(f, p), x) == Eval(f, p, x)
  {
    if |p| > 0 && p[|p| - 1] == f.zero {
      EvalStrip(f, p[..|p| - 1], x);
      EvalTrailingZero(f, p[..|p| - 1], x);
      assert p[..|p| - 1] + [f.zero] == p;
    }
  }

  lemma EvalAdd<T(!new)>(f: Field<T>, p: seq<T>, q: seq<T>, x: T)
    requires f.IsField()
    ensures Eval(f, Add(f, p, q), x) == f.add(Eval(f, p, x), Eval(f, q, x))
  {
    EvalStrip(f, AddRaw(f, p, q), x);
    EvalAddRaw(f, p, q, x);
  }

  lemma EvalScale<T(!new)>(f: Field<T>, p: seq<T>, s: T, x: T)
    requires f.IsField()
    ensures Eval(f, Scale(f, p, s), x) == f.mul(Eval(f, p, x), s)
  {
    EvalStrip(f, ScaleRaw(f, p, s), x);
    EvalScaleRaw(f, p, s, x);
  }

  /** Division by a scalar fails exactly on zero and otherwise divides the values. */
  lemma EvalDiv<T(!new)>(f: Field<T>, p: seq<T>, d: T, x: T)
    requires f.IsField()
    ensures Div(f, p, d).Ok? <==> d != f.zero
    ensures d != f.zero ==> f.mul(Eval(f, Div(f, p, d).value, x), d) == Eval(f, p, x)
  {
    if d != f.zero {
      var v := Eval(f, p, x);
      EvalScale(f, p, f.inv(d), x);
      assert f.MulAssoc(v, f.inv(d), d) && f.MulComm(f.inv(d), d) && f.MulInv(d) && f.MulOne(v);
    }
  }

  ghost function ConvolutionTerm<T(!new)>(f: Field<T>, p: seq<T>, q: seq<T>, i: nat): T
    requires |p| > 0
  {
    if i < |q| then f.mul(p[0], q[i]) else f.zero
  }

  /** The first term of a convolution sum, and the convolution of the rest. */
  lemma {:induction false} ConvolutionFirst<T(!new)>(f: Field<T>, p: seq<T>, q: seq<T>, i: nat, n: nat)
    requires f.IsField()
    requires |p| > 0 && i > 0
    ensures ConvolutionSum(f, p, q, i, n + 1)
        == f.add(ConvolutionTerm(f, p, q, i), ConvolutionSum(f, p[1..], q, i - 1, n))
  {
    var t := ConvolutionTerm(f, p, q, i);
    if n == 0 {
      assert ConvolutionSum(f, p, q, i, 0) == f.zero;
      f.ZeroAdd(t);
      assert f.AddZero(t);
    } else {
      ConvolutionFirst(f, p, q, i, n - 1);
      if n < |p| && n <= i && i - n < |q| {
        assert f.AddAssoc(t, ConvolutionSum(f, p[1..], q, i - 1, n - 1), f.mul(p[n], q[i - n]));
      }
    }
  }

  lemma MulFirst<T(!new)>(f: Field<T>, p: seq<T>, q: seq<T>)
    requires f.IsField()
    requires |p| > 1 && |q| > 0
    ensures Mul(f, p, q) == AddRaw(f, ScaleRaw(f, q, p[0]), [f.zero] + Mul(f, p[1..], q))
  {
    var l, r := Mul(f, p, q), AddRaw(f, ScaleRaw(f, q, p[0]), [f.zero] + Mul(f, p[1..], q));
    assert |l| == |r|;
    forall i | 0 <= i < |l| ensures l[i] == r[i] {
      if i == 0 {
        assert ConvolutionSum(f, p, q, 0, 0) == f.zero;
        f.ZeroAdd(f.mul(p[0], q[0]));
        assert f.AddZero(f.mul(p[0], q[0])) && f.MulComm(p[0], q[0]);
      } else {
        ConvolutionFirst(f, p, q, i, i);
        if i < |q| {
          assert f.MulComm(p[0], q[i]);
        } else {
          f.ZeroAdd(ConvolutionSum(f, p[1..], q, i - 1, i));
        }
      }
    }
  }

  lemma MulConstant<T(!new)>(f: Field<T>, p: seq<T>, q: seq<T>)
    requires f.IsField()
    requires |p| == 1 && |q| > 0
    ensures Mul(f, p, q) == ScaleRaw(f, q, p[0])
  {
    var l, r := Mul(f, p, q), ScaleRaw(f, q, p[0]);
    forall i | 0 <= i < |l| ensures l[i] == r[i] {
      assert f.MulComm(p[0], q[i]);
      if i == 0 {
        assert ConvolutionSum(f, p, q, 0, 0) == f.zero;
        f.ZeroAdd(f.mul(p[0], q[0]));
      } else {
        ConvolutionFirst(f, p, q, i, i);
        ConvolutionOfEmpty(f, p[1..], q, i - 1, i);
        assert f.AddZero(f.mul(p[0], q[i]));
      }
    }
  }

  lemma {:induction false} ConvolutionOfEmpty<T(!new)>(f: Field<T>, p: seq<T>, q: seq<T>, i: nat, n: nat)
    requires |p| == 0
    ensures ConvolutionSum(f, p, q, i, n) == f.zero
  {
    if n > 0 {
      ConvolutionOfEmpty(f, p, q, i, n - 1);
    }
  }

  /** The convolution evaluates to the product. */
  lemma {:induction false} EvalMul<T(!new)>(f: Field<T>, p: seq<T>, q: seq<T>, x: T)
    requires f.IsField()
    requires |p| > 0 && |q| > 0
    ensures Eval(f, Mul(f, p, q), x) == f.mul(Eval(f, p, x), Eval(f, q, x))
  {
    var q' := Eval(f, q, x);
    EvalScaleRaw(f, q, p[0], x);
    assert f.MulComm(q', p[0]);
    if |p| == 1 {
      MulConstant(f, p, q);
      assert p[1..] == [];
      f.MulZero(x);
      f.ZeroAdd(p[0]);
    } else {
      var p' := Eval(f, p[1..], x);
      var rest := Mul(f, p[1..], q);
      calc {
        Eval(f, Mul(f, p, q), x);
        { MulFirst(f, p, q); EvalAddRaw(f, ScaleRaw(f, q, p[0]), [f.zero] + rest, x); }
        f.add(f.mul(p[0], q'), Eval(f, [f.zero] + rest, x));
        { assert ([f.zero] + rest)[1..] == rest; assert f.AddZero(f.mul(Eval(f, rest, x), x)); }
        f.add(f.mul(p[0], q'), f.mul(Eval(f, rest, x), x));
        { EvalMul(f, p[1..], q, x); assert f.MulAssoc(p', q', x) && f.MulComm(q', x) && f.MulAssoc(p', x, q'); }
        f.add(f.mul(p[0], q'), f.mul(f.mul(p', x), q'));
        { assert f.AddComm(f.mul(p[0], q'), f.mul(f.mul(p', x), q')); f.DistribRight(f.mul(p', x), p[0], q'); }
        f.mul(Eval(f, p, x), q');
      }
    }
  }

  ghost function Power<T(!new)>(f: Field<T>, x: T, n: nat): T {
    if n == 0 then f.one else f.mul(Power(f, x, n - 1), x)
  }

  ghost function PowerSum<T(!new)>(f: Field<T>, p: seq<T>, x: T, n: nat): T
    requires n <= |p|
  {
    if n == 0 then f.zero else f.add(PowerSum(f, p, x, n - 1), f.mul(p[n - 1], Power(f, x, n - 1)))
  }

  lemma {:induction false} PowerSumFirst<T(!new)>(f: Field<T>, p: seq<T>, x: T, n: nat)
    requires f.IsField()
    requires n < |p|
    ensures PowerSum(f, p, x, n + 1) == f.add(f.mul(PowerSum(f, p[1..], x, n), x), p[0])
  {
    if n == 0 {
      assert PowerSum(f, p, x, 0) == f.zero;
      f.MulZero(x);
      assert f.MulOne(p[0]);
    } else {
      PowerSumFirst(f, p, x, n - 1);
      var s, t := PowerSum(f, p[1..], x, n - 1), f.mul(p[n], Power(f, x, n - 1));
      assert f.MulAssoc(p[n], Power(f, x, n - 1), x);
      f.DistribRight(s, t, x);
      assert f.AddAssoc(f.mul(s, x), p[0], f.mul(t, x)) && f.AddComm(p[0], f.mul(t, x))
          && f.AddAssoc(f.mul(s, x), f.mul(t, x), p[0]);
    }
  }

  /** Horner's method computes the sum of the powers. */
  lemma {:induction false} EvalIsPowerSum<T(!new)>(f: Field<T>, p: seq<T>, x: T)
    requires f.IsField()
    ensures Eval(f, p, x) == PowerSum(f, p, x, |p|)
  {
    if |p| > 0 {
      EvalIsPowerSum(f, p[1..], x);
      PowerSumFirst(f, p, x, |p| - 1);
    }
  }

  // ----- Sums of any length

  function Sum<T(!new)>(f: Field<T>, xs: seq<T>): T {
    if |xs| == 0 then f.zero else f.add(Sum(f, xs[..|xs| - 1]), xs[|xs| - 1])
  }

  /** A factor distributes over a sum of any length. */
  lemma {:induction false} SumDistributes<T(!new)>(f: Field<T>, xs: seq<T>, s: T)
    requires f.IsField()
    ensures Sum(f, ScaleRaw(f, xs, s)) == f.mul(Sum(f, xs), s)
  {
    if |xs| == 0 {
      f.MulZero(s);
    } else {
      var n := |xs| - 1;
      SumDistributes(f, xs[..n], s);
      assert ScaleRaw(f, xs, s)[..n] == ScaleRaw(f, xs[..n], s);
      f.DistribRight(Sum(f, xs[..n]), xs[n], s);
    }
  }

  lemma SumOfOne<T(!new)>(f: Field<T>, x: T)
    requires f.IsField()
    ensures Sum(f, []) == f.zero && Sum(f, [x]) == x
  {
    assert [x][..0] == [] && [x][1..] == [];
    f.ZeroAdd(x);
    assert f.AddZero(x);
  }

  /** The sum of two lists in a row is the sum of their sums. */
  lemma {:induction false} SumConcat<T(!new)>(f: Field<T>, a: seq<T>, b: seq<T>)
    requires f.IsField()
    ensures Sum(f, a + b) == f.add(Sum(f, a), Sum(f, b))
  {
    if |b| == 0 {
      assert a + b == a;
      assert f.AddZero(Sum(f, a));
    } else {
      var n := |b| - 1;
      SumConcat(f, a, b[..n]);
      assert (a + b)[..|a + b| - 1] == a + b[..n];
      assert f.AddAssoc(Sum(f, a), Sum(f, b[..n]), b[n]);
    }
  }
}
