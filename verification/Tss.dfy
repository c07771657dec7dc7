/** Shamir's secret sharing, byte by byte. */
module Tss {
  import opened Bytes
  import opened Fields
  import opened Results
  import opened Polynomials
  import opened Interpolation
  import opened Sequences
  import Gf256

  /** A field on bytes in which the byte 0 is the zero: what this module needs of GF256. */
  ghost predicate ByteField(f: Field<Byte>) {
    f.IsField() && f.zero == 0
  }

  // ----- Combining by the fused formula

  function Divide(f: Field<Byte>, a: Byte, b: Byte): Result<Byte> {
    if b == f.zero then Err(InvalidInput) else Ok(f.mul(a, f.inv(b)))
  }

  function ProductUpTo(f: Field<Byte>, xs: seq<Byte>, n: nat): Byte
    requires n <= |xs|
  {
    if n == 0 then f.one else f.mul(ProductUpTo(f, xs, n - 1), xs[n - 1])
  }

  /** The product of x - xi over those of the first n abscissas x that differ from xi. */
  function DifferencesUpTo(f: Field<Byte>, xs: seq<Byte>, xi: Byte, n: nat): Byte
    requires n <= |xs|
  {
    if n == 0 then f.one
    else if xs[n - 1] != xi then f.mul(DifferencesUpTo(f, xs, xi, n - 1), f.Sub(xs[n - 1], xi))
    else DifferencesUpTo(f, xs, xi, n - 1)
  }

  function Denominator(f: Field<Byte>, xs: seq<Byte>, xi: Byte): Byte {
    f.mul(xi, DifferencesUpTo(f, xs, xi, |xs|))
  }

  predicate ValidIndices(f: Field<Byte>, xs: seq<Byte>) {
    |xs| > 0 && Distinct(xs) && f.zero !in xs
  }

  function QuotientsUpTo(f: Field<Byte>, shares: seq<(Byte, Byte)>, n: nat): Byte
    requires f.IsField()
    requires ValidIndices(f, Xs(shares)) && n <= |shares|
  {
    if n == 0 then f.zero
    else
      var xs, xi := Xs(shares), shares[n - 1].0;
      assert xi == xs[n - 1];
      DenominatorNonZero(f, xs, xi);
      f.add(QuotientsUpTo(f, shares, n - 1), Divide(f, shares[n - 1].1, Denominator(f, xs, xi)).value)
  }

  function CombineByte(f: Field<Byte>, shares: seq<(Byte, Byte)>): Result<Byte>
    requires f.IsField()
  {
    var xs := Xs(shares);
    if ValidIndices(f, xs) then
      Ok(f.mul(ProductUpTo(f, xs, |xs|), QuotientsUpTo(f, shares, |shares|)))
    else
      Err(InvalidInput)
  }

  lemma {:induction false} DifferencesNonZero(f: Field<Byte>, xs: seq<Byte>, xi: Byte, n: nat)
    requires f.IsField()
    requires n <= |xs|
    ensures DifferencesUpTo(f, xs, xi, n) != f.zero
  {
    if n > 0 {
      DifferencesNonZero(f, xs, xi, n - 1);
      f.SubZero(xs[n - 1], xi);
      f.MulNonZero(DifferencesUpTo(f, xs, xi, n - 1), f.Sub(xs[n - 1], xi));
    }
  }

  lemma DenominatorNonZero(f: Field<Byte>, xs: seq<Byte>, xi: Byte)
    requires f.IsField()
    requires xi != f.zero
    ensures Denominator(f, xs, xi) != f.zero
  {
    DifferencesNonZero(f, xs, xi, |xs|);
    f.MulNonZero(xi, DifferencesUpTo(f, xs, xi, |xs|));
  }

  ghost function ProductWithout(f: Field<Byte>, xs: seq<Byte>, j: nat, n: nat): Byte
    requires j < |xs| && n <= |xs|
  {
    if n == 0 then f.one
    else if n - 1 == j then ProductWithout(f, xs, j, n - 1)
    else f.mul(ProductWithout(f, xs, j, n - 1), xs[n - 1])
  }

  lemma {:induction false} ProductSplits(f: Field<Byte>, xs: seq<Byte>, j: nat, n: nat)
    requires f.IsField()
    requires j < |xs| && n <= |xs|
    ensures ProductUpTo(f, xs, n) == if j < n then f.mul(ProductWithout(f, xs, j, n), xs[j])
        else ProductWithout(f, xs, j, n)
  {
    if n > 0 {
      ProductSplits(f, xs, j, n - 1);
      if j < n - 1 {
        var w := ProductWithout(f, xs, j, n - 1);
        assert f.MulAssoc(w, xs[j], xs[n - 1]) && f.MulComm(xs[j], xs[n - 1]) && f.MulAssoc(w, xs[n - 1], xs[j]);
      }
    }
  }

  /** Lagrange's product at zero is the product of the other abscissas over that of the differences. */
  lemma {:induction false} LagrangeProductAtZero(f: Field<Byte>, xs: seq<Byte>, j: nat, n: nat)
    requires f.IsField()
    requires Distinct(xs) && j < |xs| && n <= |xs|
    ensures LagrangeProduct(f, xs, j, n, f.zero)
        == f.mul(ProductWithout(f, xs, j, n), f.inv(DifferencesUpTo(f, xs, xs[j], n)))
  {
    if n == 0 {
      assert f.MulOne(f.one);
      f.InvUnique(f.one, f.one);
    } else {
      LagrangeProductAtZero(f, xs, j, n - 1);
      if n - 1 != j {
        var x, w, d := xs[n - 1], ProductWithout(f, xs, j, n - 1), DifferencesUpTo(f, xs, xs[j], n - 1);
        f.FlipFraction(x, xs[j]);
        DifferencesNonZero(f, xs, xs[j], n - 1);
        f.InvMul(d, f.Sub(x, xs[j]));
        f.MulSwap(w, f.inv(d), x, f.inv(f.Sub(x, xs[j])));
      }
    }
  }

  /** One summand of the fused formula is the corresponding summand of Lagrange's formula. */
  lemma FusedTerm(f: Field<Byte>, xs: seq<Byte>, j: nat, y: Byte)
    requires f.IsField()
    requires ValidIndices(f, xs) && j < |xs|
    ensures f.mul(ProductUpTo(f, xs, |xs|), f.mul(y, f.inv(Denominator(f, xs, xs[j]))))
         == f.mul(LagrangeProduct(f, xs, j, |xs|, f.zero), y)
  {
    var n, x := |xs|, xs[j];
    var w, d := ProductWithout(f, xs, j, n), DifferencesUpTo(f, xs, x, n);
    DifferencesNonZero(f, xs, x, n);
    calc {
      f.mul(ProductUpTo(f, xs, n), f.mul(y, f.inv(f.mul(x, d))));
      { ProductSplits(f, xs, j, n); f.InvMul(x, d); }
      f.mul(f.mul(w, x), f.mul(y, f.mul(f.inv(x), f.inv(d))));
      { assert f.MulComm(y, f.mul(f.inv(x), f.inv(d))) && f.MulAssoc(f.inv(x), f.inv(d), y); }
      f.mul(f.mul(w, x), f.mul(f.inv(x), f.mul(f.inv(d), y)));
      { assert f.MulAssoc(w, x, f.mul(f.inv(x), f.mul(f.inv(d), y))) && f.MulAssoc(x, f.inv(x), f.mul(f.inv(d), y)); }
      f.mul(w, f.mul(f.mul(x, f.inv(x)), f.mul(f.inv(d), y)));
      { assert f.MulInv(x); f.OneMul(f.mul(f.inv(d), y)); }
      f.mul(w, f.mul(f.inv(d), y));
      { assert f.MulAssoc(w, f.inv(d), y); LagrangeProductAtZero(f, xs, j, n); }
      f.mul(LagrangeProduct(f, xs, j, n, f.zero), y);
    }
  }

  lemma {:induction false} FusedSum(f: Field<Byte>, shares: seq<(Byte, Byte)>, n: nat)
    requires f.IsField()
    requires ValidIndices(f, Xs(shares)) && n <= |shares|
    ensures f.mul(ProductUpTo(f, Xs(shares), |shares|), QuotientsUpTo(f, shares, n))
        == LagrangeSum(f, shares, n, f.zero)
  {
    var xs := Xs(shares);
    var p := ProductUpTo(f, xs, |shares|);
    if n == 0 {
      f.MulZero(p);
    } else {
      var xi, y := shares[n - 1].0, shares[n - 1].1;
      assert xi == xs[n - 1];
      DenominatorNonZero(f, xs, xi);
      var q, t := QuotientsUpTo(f, shares, n - 1), f.mul(y, f.inv(Denominator(f, xs, xi)));
      calc {
        f.mul(p, QuotientsUpTo(f, shares, n));
        f.mul(p, f.add(q, t));
        { assert f.Distrib(p, q, t); }
        f.add(f.mul(p, q), f.mul(p, t));
        { FusedSum(f, shares, n - 1); FusedTerm(f, xs, n - 1, y); }
        f.add(LagrangeSum(f, shares, n - 1, f.zero), f.mul(LagrangeProduct(f, xs, n - 1, |xs|, f.zero), y));
        LagrangeSum(f, shares, n, f.zero);
      }
    }
  }

  /** The fused formula computes the value at zero of the interpolated polynomial. */
  lemma CombineByteIsInterpolation(f: Field<Byte>, shares: seq<(Byte, Byte)>)
    requires f.IsField()
    ensures CombineByte(f, shares) ==
      if ValidIndices(f, Xs(shares)) then Ok(Eval(f, Interpolate(f, shares), f.zero)) else Err(InvalidInput)
  {
    if ValidIndices(f, Xs(shares)) {
      FusedSum(f, shares, |shares|);
      EvalInterpolateUpTo(f, shares, |shares|, f.zero);
    }
  }

  // ----- Combining shares of several bytes

  ghost predicate OfSize(size: nat, shares: seq<(Byte, seq<Byte>)>) {
    forall k :: 0 <= k < |shares| ==> |shares[k].1| == size
  }

  /** The shares of byte i of the secret. */
  function Column(shares: seq<(Byte, seq<Byte>)>, i: nat): (c: seq<(Byte, Byte)>)
    requires forall k :: 0 <= k < |shares| ==> i < |shares[k].1|
    ensures Xs(c) == Indices(shares)
  {
    seq(|shares|, k requires 0 <= k < |shares| => (shares[k].0, shares[k].1[i]))
  }

  function Indices(shares: seq<(Byte, seq<Byte>)>): seq<Byte> {
    seq(|shares|, k requires 0 <= k < |shares| => shares[k].0)
  }

  function CombineUpTo(f: Field<Byte>, shares: seq<(Byte, seq<Byte>)>, size: nat, n: nat): (r: Result<seq<Byte>>)
    requires f.IsField()
    requires OfSize(size, shares) && n <= size
    ensures r.Ok? ==> |r.value| == n
  {
    if n == 0 then Ok([])
    else
      var bytes :- CombineUpTo(f, shares, size, n - 1);
      var b :- CombineByte(f, Column(shares, n - 1));
      Ok(bytes + [b])
  }

  /** Reconstruct a secret of the given size from shares. */
  function Combine(f: Field<Byte>, size: nat, shares: seq<(Byte, seq<Byte>)>): (r: Result<seq<Byte>>)
    requires f.IsField()
    requires OfSize(size, shares)
    ensures r.Ok? ==> |r.value| == size
  {
    CombineUpTo(f, shares, size, size)
  }

  function PolynomialsUpTo(f: Field<Byte>, shares: seq<(Byte, seq<Byte>)>, size: nat, n: nat): (ps: seq<seq<Byte>>)
    requires f.IsField()
    requires OfSize(size, shares) && Distinct(Indices(shares)) && n <= size
    ensures |ps| == n
    ensures forall i :: 0 <= i < n ==> ps[i] == Interpolate(f, Column(shares, i))
  {
    if n == 0 then [] else PolynomialsUpTo(f, shares, size, n - 1) + [Interpolate(f, Column(shares, n - 1))]
  }

  /** The polynomials through the shares, one for each byte; the closure that the source returns
      evaluates them all at its argument, which is EvalAll. */
  function InterpolateShares(f: Field<Byte>, size: nat, shares: seq<(Byte, seq<Byte>)>): (r: Result<seq<seq<Byte>>>)
    requires f.IsField()
    requires OfSize(size, shares)
    ensures r.Ok? <==> ValidIndices(f, Indices(shares))
    ensures r.Ok? ==> |r.value| == size && forall i :: 0 <= i < size ==> r.value[i] == Interpolate(f, Column(shares, i))
    ensures r.Err? ==> r.error == InvalidInput
  {
    if ValidIndices(f, Indices(shares)) then Ok(PolynomialsUpTo(f, shares, size, size)) else Err(InvalidInput)
  }

  function EvalAll(f: Field<Byte>, ps: seq<seq<Byte>>, x: Byte): seq<Byte> {
    seq(|ps|, i requires 0 <= i < |ps| => Eval(f, ps[i], x))
  }

  ghost function ByteAtZero(f: Field<Byte>, size: nat, shares: seq<(Byte, seq<Byte>)>, i: nat): Byte
    requires f.IsField()
    requires OfSize(size, shares) && i < size && ValidIndices(f, Indices(shares))
  {
    Eval(f, Interpolate(f, Column(shares, i)), f.zero)
  }

  lemma CombineStep(f: Field<Byte>, size: nat, shares: seq<(Byte, seq<Byte>)>, n: nat, bytes: seq<Byte>, b: Byte)
    requires f.IsField()
    requires OfSize(size, shares) && 0 < n <= size
    requires CombineUpTo(f, shares, size, n - 1) == Ok(bytes) && CombineByte(f, Column(shares, n - 1)) == Ok(b)
    ensures CombineUpTo(f, shares, size, n) == Ok(bytes + [b])
  {
  }

  lemma {:induction false} CombineUpToIsInterpolation(f: Field<Byte>, size: nat, shares: seq<(Byte, seq<Byte>)>, n: nat)
    requires f.IsField()
    requires OfSize(size, shares) && n <= size
    requires ValidIndices(f, Indices(shares))
    ensures
      var r := CombineUpTo(f, shares, size, n);
      r.Ok? && |r.value| == n && forall i :: 0 <= i < n ==> r.value[i] == ByteAtZero(f, size, shares, i)
  {
    if n > 0 {
      CombineUpToIsInterpolation(f, size, shares, n - 1);
      CombineByteIsInterpolation(f, Column(shares, n - 1));
      CombineStep(f, size, shares, n, CombineUpTo(f, shares, size, n - 1).value, ByteAtZero(f, size, shares, n - 1));
    }
  }

  lemma {:induction false} CombineUpToFails(f: Field<Byte>, size: nat, shares: seq<(Byte, seq<Byte>)>, n: nat)
    requires f.IsField()
    requires OfSize(size, shares) && 0 < n <= size
    requires !ValidIndices(f, Indices(shares))
    ensures CombineUpTo(f, shares, size, n) == Err(InvalidInput)
  {
    if n > 1 {
      CombineUpToFails(f, size, shares, n - 1);
    }
  }

  /** For secrets of at least one byte, the fused formula and the general one fail on the same shares
      and otherwise give the same bytes. There is nothing to fail on in an empty secret. */
  lemma CombineRefinesInterpolate(f: Field<Byte>, size: nat, shares: seq<(Byte, seq<Byte>)>)
    requires f.IsField()
    requires OfSize(size, shares)
    ensures size == 0 ==> Combine(f, size, shares) == Ok([])
    ensures size > 0 ==>
      (match InterpolateShares(f, size, shares)
       case Ok(ps) => Combine(f, size, shares) == Ok(EvalAll(f, ps, f.zero))
       case Err(e) => Combine(f, size, shares) == Err(e))
  {
    if size == 0 {
    } else if !ValidIndices(f, Indices(shares)) {
      CombineUpToFails(f, size, shares, size);
    } else {
      CombineUpToIsInterpolation(f, size, shares, size);
      var ps := InterpolateShares(f, size, shares).value;
      assert Combine(f, size, shares).value == EvalAll(f, ps, f.zero);
    }
  }

  // ----- Splitting

  /** The shares of one byte: the secret is the constant term and the other coefficients are drawn
      at random, here given as an argument. The number of shares is cast to eight bits. */
  function SplitByte(f: Field<Byte>, secret: Byte, threshold: nat, indices: seq<Byte>,
                     coefficients: seq<Byte>): Result<seq<Byte>> {
    var numberOfShares := |indices| % 256;
    if threshold == 0 || numberOfShares == 0 || threshold > numberOfShares || 0 in indices || !Distinct(indices) then
      Err(InvalidInput)
    else
      Ok(EvalAt(f, [secret] + coefficients, indices))
  }

  /** Splitting a byte fails exactly on a threshold out of range or on zero or repeated indices; share k is
      otherwise the value at index k. */
  lemma SplitByteOutcome(f: Field<Byte>, secret: Byte, threshold: nat, indices: seq<Byte>, coefficients: seq<Byte>)
    requires |indices| < 256
    ensures
      var r := SplitByte(f, secret, threshold, indices, coefficients);
      if 0 < threshold <= |indices| && Distinct(indices) && 0 !in indices then
        && r.Ok? && |r.value| == |indices|
        && forall k :: 0 <= k < |indices| ==> r.value[k] == Eval(f, [secret] + coefficients, indices[k])
      else
        r == Err(InvalidInput)
  {
  }

  function EvalAt(f: Field<Byte>, p: seq<Byte>, xs: seq<Byte>): seq<Byte> {
    seq(|xs|, k requires 0 <= k < |xs| => Eval(f, p, xs[k]))
  }

  /** The bytes from 1 to n. */
  function FirstIndices(n: nat): (xs: seq<Byte>)
    requires n < 256
    ensures |xs| == n && Distinct(xs) && 0 !in xs
    ensures forall k :: 0 <= k < n ==> xs[k] as nat == k + 1
  {
    FirstIndicesDistinct(n);
    FirstIndicesValues(n);
    IndexSeq(n)
  }

  function IndexSeq(n: nat): seq<Byte>
    requires n < 256
  {
    seq(n, i requires 0 <= i < n => (i + 1) as Byte)
  }

  lemma FirstIndicesValues(n: nat)
    requires n < 256
    ensures forall k :: 0 <= k < n ==> IndexSeq(n)[k] as nat == k + 1
  {
    forall k | 0 <= k < n ensures IndexSeq(n)[k] as nat == k + 1 {
      ByteRoundTrip(k + 1);
    }
  }

  lemma FirstIndicesDistinct(n: nat)
    requires n < 256
    ensures Distinct(IndexSeq(n)) && 0 !in IndexSeq(n)
  {
    forall i, j | 0 <= i < j < n ensures IndexSeq(n)[i] != IndexSeq(n)[j] {
      ByteRoundTrip(i + 1);
      ByteRoundTrip(j + 1);
    }
    forall i | 0 <= i < n ensures IndexSeq(n)[i] != 0 {
      ByteRoundTrip(i + 1);
    }
  }

  /** Rows of equal length to columns. */
  function Transpose(size: nat, matrix: seq<seq<Byte>>): (r: Result<seq<seq<Byte>>>)
    ensures r.Ok? <==> |matrix| == size && size > 0 && forall i :: 0 <= i < size ==> |matrix[i]| == |matrix[0]|
    ensures r.Ok? ==> |r.value| == |matrix[0]|
    ensures r.Ok? ==> forall j :: 0 <= j < |r.value| ==> |r.value[j]| == size
    ensures r.Ok? ==> forall i, j :: 0 <= i < size && 0 <= j < |r.value| ==> r.value[j][i] == matrix[i][j]
    ensures r.Err? ==> r.error == InvalidInput
  {
    if |matrix| != size || |matrix| == 0 then Err(InvalidInput)
    else if exists i :: 0 <= i < |matrix| && |matrix[i]| != |matrix[0]| then Err(InvalidInput)
    else
      Ok(seq(|matrix[0]|, j requires 0 <= j < |matrix[0]| =>
        seq(size, i requires 0 <= i < size => matrix[i][j])))
  }

  function SplitBytesUpTo(f: Field<Byte>, secret: seq<Byte>, threshold: nat, indices: seq<Byte>,
                          coefficients: seq<seq<Byte>>, n: nat): Result<seq<seq<Byte>>>
    requires n <= |secret| == |coefficients|
  {
    if n == 0 then Ok([])
    else
      var rows :- SplitBytesUpTo(f, secret, threshold, indices, coefficients, n - 1);
      var row :- SplitByte(f, secret[n - 1], threshold, indices, coefficients[n - 1]);
      Ok(rows + [row])
  }

  datatype SecretSharing = SecretSharing(secret: seq<Byte>, indices: seq<Byte>, shares: seq<seq<Byte>>)

  /** Split a secret into shares, given the coefficients drawn for each of its bytes. */
  function Split(f: Field<Byte>, secret: seq<Byte>, threshold: nat, numberOfShares: nat,
                 coefficients: seq<seq<Byte>>): (r: Result<SecretSharing>)
    requires numberOfShares < 256
    requires |coefficients| == |secret|
    ensures r.Ok? ==> forall k :: 0 <= k < |r.value.shares| ==> |r.value.shares[k]| == |secret|
  {
    if threshold > numberOfShares || threshold == 0 then Err(InvalidInput)
    else
      var indices := FirstIndices(numberOfShares);
      var byteShares :- SplitBytesUpTo(f, secret, threshold, indices, coefficients, |secret|);
      var shares :- Transpose(|secret|, byteShares);
      Ok(SecretSharing(secret, indices, shares))
  }

  lemma {:induction false} SplitBytesValues(f: Field<Byte>, secret: seq<Byte>, threshold: nat, indices: seq<Byte>,
                                            coefficients: seq<seq<Byte>>, n: nat)
    requires n <= |secret| == |coefficients|
    requires 0 < threshold <= |indices| < 256 && 0 !in indices && Distinct(indices)
    ensures
      var r := SplitBytesUpTo(f, secret, threshold, indices, coefficients, n);
      r.Ok? && |r.value| == n && forall i :: 0 <= i < n ==>
        r.value[i] == EvalAt(f, [secret[i]] + coefficients[i], indices)
  {
    if n > 0 {
      SplitBytesValues(f, secret, threshold, indices, coefficients, n - 1);
    }
  }

  /** Splitting fails exactly on a threshold out of range or an empty secret; otherwise byte i of
      share k is the value at index k of the polynomial of byte i. */
  lemma SplitValues(f: Field<Byte>, secret: seq<Byte>, threshold: nat, numberOfShares: nat,
                    coefficients: seq<seq<Byte>>)
    requires numberOfShares < 256
    requires |coefficients| == |secret|
    ensures
      var r := Split(f, secret, threshold, numberOfShares, coefficients);
      if 0 < threshold <= numberOfShares && |secret| > 0 then
        && r.Ok?
        && r.value.secret == secret
        && r.value.indices == FirstIndices(numberOfShares)
        && |r.value.shares| == numberOfShares
        && (forall k :: 0 <= k < numberOfShares ==> |r.value.shares[k]| == |secret|)
        && (forall k, i :: 0 <= k < numberOfShares && 0 <= i < |secret| ==>
              r.value.shares[k][i] == Eval(f, [secret[i]] + coefficients[i], r.value.indices[k]))
      else
        r == Err(InvalidInput)
  {
    if 0 < threshold <= numberOfShares {
      var indices := FirstIndices(numberOfShares);
      SplitBytesValues(f, secret, threshold, indices, coefficients, |secret|);
      var rows := SplitBytesUpTo(f, secret, threshold, indices, coefficients, |secret|).value;
      assert |secret| > 0 ==> forall i :: 0 <= i < |secret| ==> |rows[i]| == |rows[0]| == numberOfShares;
    }
  }

  // ----- Any threshold of shares gives the secret back

  /** The shares at the given positions, in the given order. */
  function Select(sharing: SecretSharing, positions: seq<nat>): seq<(Byte, seq<Byte>)>
    requires |sharing.indices| == |sharing.shares|
    requires forall k :: 0 <= k < |positions| ==> positions[k] < |sharing.shares|
  {
    seq(|positions|, k requires 0 <= k < |positions| => (sharing.indices[positions[k]], sharing.shares[positions[k]]))
  }

  lemma EvalAtZero(f: Field<Byte>, p: seq<Byte>)
    requires f.IsField()
    requires |p| > 0
    ensures Eval(f, p, f.zero) == p[0]
  {
    f.MulZero(Eval(f, p[1..], f.zero));
    f.ZeroAdd(p[0]);
  }

  /** Shares that lie on polynomials with at most as many coefficients as there are shares combine
      to the constant terms. */
  lemma CombineOnPolynomials(f: Field<Byte>, size: nat, shares: seq<(Byte, seq<Byte>)>, ps: seq<seq<Byte>>)
    requires f.IsField()
    requires OfSize(size, shares) && ValidIndices(f, Indices(shares))
    requires |ps| == size
    requires forall i :: 0 <= i < size ==> |ps[i]| <= |shares| && PassesThrough(f, ps[i], Column(shares, i))
    ensures Combine(f, size, shares) == Ok(EvalAll(f, ps, f.zero))
  {
    CombineUpToIsInterpolation(f, size, shares, size);
    var r := Combine(f, size, shares).value;
    forall i | 0 <= i < size ensures r[i] == EvalAll(f, ps, f.zero)[i] {
      InterpolateRecovers(f, Column(shares, i), ps[i], f.zero);
    }
    assert r == EvalAll(f, ps, f.zero);
  }

  /** Any selection of at least threshold distinct shares of a split, in any order, combines to the
      secret, whatever the coefficients were. */
  lemma CombineRecoversSecret(f: Field<Byte>, secret: seq<Byte>, threshold: nat, numberOfShares: nat,
                              coefficients: seq<seq<Byte>>, positions: seq<nat>)
    requires ByteField(f)
    requires 0 < threshold <= numberOfShares < 256 && |secret| > 0
    requires |coefficients| == |secret|
    requires forall i :: 0 <= i < |secret| ==> |coefficients[i]| == threshold - 1
    requires |positions| >= threshold && Distinct(positions)
    requires forall k :: 0 <= k < |positions| ==> positions[k] < numberOfShares
    ensures
      var sharing := Split(f, secret, threshold, numberOfShares, coefficients);
      && sharing.Ok?
      && |sharing.value.indices| == |sharing.value.shares| == numberOfShares
      && OfSize(|secret|, Select(sharing.value, positions))
      && Combine(f, |secret|, Select(sharing.value, positions)) == Ok(secret)
  {
    SplitValues(f, secret, threshold, numberOfShares, coefficients);
    var sharing := Split(f, secret, threshold, numberOfShares, coefficients).value;
    var shares := Select(sharing, positions);
    var ps := seq(|secret|, i requires 0 <= i < |secret| => [secret[i]] + coefficients[i]);
    assert ValidIndices(f, Indices(shares));
    forall i | 0 <= i < |secret|
      ensures PassesThrough(f, ps[i], Column(shares, i)) && Eval(f, ps[i], f.zero) == secret[i] {
      EvalAtZero(f, ps[i]);
    }
    CombineOnPolynomials(f, |secret|, shares, ps);
    assert EvalAll(f, ps, f.zero) == secret;
  }

  // ----- Fewer shares determine nothing

  /** The coefficients give the shares at the given positions these values. */
  ghost predicate Gives(f: Field<Byte>, secret: Byte, threshold: nat, indices: seq<Byte>, coefficients: seq<Byte>,
                        positions: seq<nat>, values: seq<Byte>)
    requires |positions| == |values|
    requires forall k :: 0 <= k < |positions| ==> positions[k] < |indices|
  {
    var r := SplitByte(f, secret, threshold, indices, coefficients);
    r.Ok? && forall k :: 0 <= k < |positions| ==> r.value[positions[k]] == values[k]
  }

  /** The point of the secret at zero and those of the shares at the given positions. */
  ghost function SecretAndShares(f: Field<Byte>, secret: Byte, indices: seq<Byte>, positions: seq<nat>,
                                 values: seq<Byte>): seq<(Byte, Byte)>
    requires |positions| == |values|
    requires forall k :: 0 <= k < |positions| ==> positions[k] < |indices|
  {
    [(f.zero, secret)] + seq(|positions|, k requires 0 <= k < |positions| => (indices[positions[k]], values[k]))
  }

  lemma GivesIsPassing(f: Field<Byte>, secret: Byte, threshold: nat, indices: seq<Byte>, coefficients: seq<Byte>,
                       positions: seq<nat>, values: seq<Byte>)
    requires ByteField(f)
    requires 0 < threshold <= |indices| < 256 && Distinct(indices) && 0 !in indices
    requires |positions| == |values|
    requires forall k :: 0 <= k < |positions| ==> positions[k] < |indices|
    ensures Gives(f, secret, threshold, indices, coefficients, positions, values)
       <==> PassesThrough(f, [secret] + coefficients, SecretAndShares(f, secret, indices, positions, values))
  {
    var p, points := [secret] + coefficients, SecretAndShares(f, secret, indices, positions, values);
    EvalAtZero(f, p);
    forall k | 0 <= k < |positions| ensures points[k + 1] == (indices[positions[k]], values[k]) {
    }
    if PassesThrough(f, p, points) {
      forall k | 0 <= k < |positions| ensures Eval(f, p, indices[positions[k]]) == values[k] {
        assert Eval(f, p, points[k + 1].0) == points[k + 1].1;
      }
    }
  }

  /** For any threshold - 1 shares, any values of them and any secret, exactly one choice of
      coefficients produces those values. */
  lemma BelowThresholdNothingIsDetermined(f: Field<Byte>, secret: Byte, threshold: nat, indices: seq<Byte>,
                                          positions: seq<nat>, values: seq<Byte>) returns (coefficients: seq<Byte>)
    requires ByteField(f)
    requires 0 < threshold <= |indices| < 256 && Distinct(indices) && 0 !in indices
    requires |positions| == |values| == threshold - 1 && Distinct(positions)
    requires forall k :: 0 <= k < |positions| ==> positions[k] < |indices|
    ensures |coefficients| == threshold - 1
    ensures Gives(f, secret, threshold, indices, coefficients, positions, values)
    ensures forall c :: |c| == threshold - 1 && Gives(f, secret, threshold, indices, c, positions, values) ==>
        c == coefficients
  {
    var points := SecretAndShares(f, secret, indices, positions, values);
    assert Distinct(Xs(points));
    var p := ExactlyOneThrough(f, points);
    coefficients := p[1..];
    EvalAtZero(f, p);
    assert points[0] == (f.zero, secret);
    assert p == [secret] + coefficients;
    GivesIsPassing(f, secret, threshold, indices, coefficients, positions, values);
    forall c | |c| == threshold - 1 && Gives(f, secret, threshold, indices, c, positions, values)
      ensures c == coefficients {
      GivesIsPassing(f, secret, threshold, indices, c, positions, values);
      assert ([secret] + c)[1..] == c;
    }
  }

  // ----- Drawing the coefficients

  /** A source of random bytes: a stream, and how much of it has been used. */
  class Rng {
    const stream: nat -> Byte
    var position: nat

    constructor (stream: nat -> Byte)
      ensures this.stream == stream && position == 0
    {
      this.stream := stream;
      position := 0;
    }

    method Draw() returns (b: Byte)
      modifies this`position
      ensures b == stream(old(position)) && position == old(position) + 1
    {
      b := stream(position);
      position := position + 1;
    }
  }

  function Drawn(stream: nat -> Byte, start: nat, n: nat): seq<Byte> {
    seq(n, i requires 0 <= i => stream(start + i))
  }

  function RowStart(start: nat, width: nat, n: nat): nat {
    if n == 0 then start else RowStart(start, width, n - 1) + width
  }

  /** Consecutive rows of the stream, all of the same width. */
  function DrawnRows(stream: nat -> Byte, start: nat, width: nat, n: nat): seq<seq<Byte>> {
    if n == 0 then []
    else DrawnRows(stream, start, width, n - 1) + [Drawn(stream, RowStart(start, width, n - 1), width)]
  }

  method DrawSplitByte(f: Field<Byte>, rng: Rng, secret: Byte, threshold: nat, indices: seq<Byte>)
    returns (r: Result<seq<Byte>>)
    modifies rng`position
    ensures threshold > 0 ==> r == SplitByte(f, secret, threshold, indices,
                                             Drawn(rng.stream, old(rng.position), threshold - 1))
    ensures threshold == 0 ==> r == Err(InvalidInput)
    ensures rng.position == old(rng.position) + (if r.Ok? then threshold - 1 else 0)
  {
    var numberOfShares := |indices| % 256;
    if threshold == 0 || numberOfShares == 0 || threshold > numberOfShares || 0 in indices || !Distinct(indices) {
      return Err(InvalidInput);
    }
    var coefficients := [secret];
    while |coefficients| < threshold
      invariant 1 <= |coefficients| <= threshold
      invariant rng.position == old(rng.position) + |coefficients| - 1
      invariant coefficients == [secret] + Drawn(rng.stream, old(rng.position), |coefficients| - 1)
    {
      var b := rng.Draw();
      coefficients := coefficients + [b];
    }
    return Ok(EvalAt(f, coefficients, indices));
  }

  method DrawSplit(f: Field<Byte>, rng: Rng, secret: seq<Byte>, threshold: nat, numberOfShares: nat)
    returns (r: Result<SecretSharing>)
    requires numberOfShares < 256
    modifies rng`position
    ensures threshold > 0 ==>
      |DrawnRows(rng.stream, old(rng.position), threshold - 1, |secret|)| == |secret|
      && r == Split(f, secret, threshold, numberOfShares,
                    DrawnRows(rng.stream, old(rng.position), threshold - 1, |secret|))
    ensures threshold == 0 ==> r == Err(InvalidInput)
    ensures rng.position ==
      if 0 < threshold <= numberOfShares then RowStart(old(rng.position), threshold - 1, |secret|)
          else old(rng.position)
  {
    if threshold > 0 {
      DrawnRowsShape(rng.stream, rng.position, threshold - 1, |secret|);
    }
    if threshold > numberOfShares || threshold == 0 {
      return Err(InvalidInput);
    }
    var indices := FirstIndices(numberOfShares);
    ghost var width, start := threshold - 1, rng.position;
    ghost var coefficients := DrawnRows(rng.stream, start, width, |secret|);
    var byteShares := [];
    while |byteShares| < |secret|
      invariant |byteShares| <= |secret|
      invariant rng.position == RowStart(start, width, |byteShares|)
      invariant SplitBytesUpTo(f, secret, threshold, indices, coefficients, |byteShares|) == Ok(byteShares)
    {
      var n := |byteShares|;
      var row := DrawSplitByte(f, rng, secret[n], threshold, indices);
      byteShares := byteShares + [row.value];
      assert byteShares[..n] + [row.value] == byteShares;
    }
    var shares := Transpose(|secret|, byteShares);
    if shares.Err? {
      return Err(shares.error);
    }
    return Ok(SecretSharing(secret, indices, shares.value));
  }

  lemma {:induction false} DrawnRowsShape(stream: nat -> Byte, start: nat, width: nat, n: nat)
    ensures |DrawnRows(stream, start, width, n)| == n
    ensures forall i :: 0 <= i < n ==>
      DrawnRows(stream, start, width, n)[i] == Drawn(stream, RowStart(start, width, i), width)
  {
    if n > 0 {
      DrawnRowsShape(stream, start, width, n - 1);
    }
  }

  // ----- The field of the source

  lemma Gf256IsByteField()
    ensures ByteField(Gf256.GF256)
  {
    Gf256.Gf256IsField();
  }

  /** Splitting and combining with the tables of the source. */
  lemma CombineRecoversSecretInGf256(secret: seq<Byte>, threshold: nat, numberOfShares: nat,
                                     coefficients: seq<seq<Byte>>, positions: seq<nat>)
    requires 0 < threshold <= numberOfShares < 256 && |secret| > 0
    requires |coefficients| == |secret|
    requires forall i :: 0 <= i < |secret| ==> |coefficients[i]| == threshold - 1
    requires |positions| >= threshold && Distinct(positions)
    requires forall k :: 0 <= k < |positions| ==> positions[k] < numberOfShares
    ensures
      var sharing := Split(Gf256.GF256, secret, threshold, numberOfShares, coefficients);
      && Gf256.GF256.IsField()
      && sharing.Ok?
      && |sharing.value.indices| == |sharing.value.shares| == numberOfShares
      && OfSize(|secret|, Select(sharing.value, positions))
      && Combine(Gf256.GF256, |secret|, Select(sharing.value, positions)) == Ok(secret)
  {
    Gf256IsByteField();
    CombineRecoversSecret(Gf256.GF256, secret, threshold, numberOfShares, coefficients, positions);
  }
}
