/** How far the consistency check of share combination reaches. The check bounds the degree of the
    sharing by the number of shares used, which may be more than the threshold; smaller subsets are
    covered exactly when the degree is below their size. */
module Consistency {
  import opened Bytes
  import opened Fields
  import opened Results
  import opened Polynomials
  import opened Interpolation
  import opened Sequences
  import opened Ibe
  import opened Seal
  import Dem
  import Tss

  // ----- Selections of points

  predicate Selection(positions: seq<nat>, n: nat) {
    Distinct(positions) && forall k :: 0 <= k < |positions| ==> positions[k] < n
  }

  /** A subset of the first n positions, in order. */
  predicate Increasing(positions: seq<nat>, n: nat) {
    && (forall k :: 0 <= k < |positions| ==> positions[k] < n)
    && forall i, j :: 0 <= i < j < |positions| ==> positions[i] < positions[j]
  }

  function Pick<T>(list: seq<T>, positions: seq<nat>): (r: seq<T>)
    requires forall k :: 0 <= k < |positions| ==> positions[k] < |list|
    ensures |r| == |positions|
  {
    seq(|positions|, k requires 0 <= k < |positions| => list[positions[k]])
  }

  lemma PickedXs<T>(points: seq<(T, T)>, positions: seq<nat>)
    requires Selection(positions, |points|) && Distinct(Xs(points))
    ensures Distinct(Xs(Pick(points, positions)))
  {
    forall i, j | 0 <= i < j < |positions| ensures Xs(Pick(points, positions))[i] != Xs(Pick(points, positions))[j] {
      assert Xs(points)[positions[i]] != Xs(points)[positions[j]];
    }
  }

  /** The value at x that the selected points give is that of all points. */
  ghost predicate SameAt<T(!new)>(f: Field<T>, points: seq<(T, T)>, positions: seq<nat>, x: T)
    requires f.IsField()
    requires Distinct(Xs(points)) && Selection(positions, |points|)
  {
    PickedXs(points, positions);
    Eval(f, Interpolate(f, Pick(points, positions)), x) == Eval(f, Interpolate(f, points), x)
  }

  /** Points of a polynomial of low degree give its values back from every selection. */
  lemma LowDegreeAgrees<T(!new)>(f: Field<T>, points: seq<(T, T)>, positions: seq<nat>, x: T)
    requires f.IsField()
    requires Distinct(Xs(points)) && Selection(positions, |points|)
    requires |Interpolate(f, points)| <= |positions|
    ensures SameAt(f, points, positions, x)
  {
    var p, picked := Interpolate(f, points), Pick(points, positions);
    PickedXs(points, positions);
    forall k | 0 <= k < |picked| ensures Eval(f, p, picked[k].0) == picked[k].1 {
      InterpolatePassesThrough(f, points, positions[k]);
    }
    InterpolateRecovers(f, picked, p, x);
  }

  function UpTo(n: nat): (r: seq<nat>)
    ensures |r| == n && forall k :: 0 <= k < n ==> r[k] == k
  {
    seq(n, k => k)
  }

  /** The abscissa x, then those of the first n points. */
  lemma AnchoredXs<T(!new)>(points: seq<(T, T)>, n: nat, x: T)
    requires Distinct(Xs(points)) && n <= |points| && x !in Xs(points)
    ensures Distinct([x] + Xs(points)[..n])
  {
    var xs := [x] + Xs(points)[..n];
    forall k | 1 <= k <= n ensures xs[k] == Xs(points)[k - 1] {
    }
  }

  /** The polynomial through the first n points and point i, when these agree with all points at x. */
  lemma Selected<T(!new)>(f: Field<T>, points: seq<(T, T)>, n: nat, x: T, i: nat) returns (q: seq<T>)
    requires f.IsField()
    requires Distinct(Xs(points)) && n <= i < |points|
    requires SameAt(f, points, UpTo(n) + [i], x)
    ensures |q| <= n + 1 && Eval(f, q, x) == Eval(f, Interpolate(f, points), x)
    ensures forall k :: 0 <= k < n ==> Eval(f, q, points[k].0) == points[k].1
    ensures Eval(f, q, points[i].0) == points[i].1
  {
    var picked := Pick(points, UpTo(n) + [i]);
    PickedXs(points, UpTo(n) + [i]);
    q := Interpolate(f, picked);
    forall k | 0 <= k < n ensures Eval(f, q, points[k].0) == points[k].1 {
      assert picked[k] == points[k];
      InterpolatePassesThrough(f, picked, k);
    }
    assert picked[n] == points[i];
    InterpolatePassesThrough(f, picked, n);
  }

  /** Small polynomials that agree at x and at the first n points agree everywhere. */
  lemma AgreeFromAnchors<T(!new)>(f: Field<T>, points: seq<(T, T)>, n: nat, x: T, g: seq<T>, q: seq<T>, z: T)
    requires f.IsField()
    requires Distinct(Xs(points)) && n <= |points| && x !in Xs(points)
    requires |g| <= n + 1 && |q| <= n + 1 && Eval(f, g, x) == Eval(f, q, x)
    requires forall k :: 0 <= k < n ==> Eval(f, g, points[k].0) == Eval(f, q, points[k].0)
    ensures Eval(f, g, z) == Eval(f, q, z)
  {
    var xs := [x] + Xs(points)[..n];
    AnchoredXs(points, n, x);
    forall k | 0 <= k < |xs| ensures Eval(f, g, xs[k]) == Eval(f, q, xs[k]) {
      assert k > 0 ==> xs[k] == points[k - 1].0;
    }
    AgreementEverywhere(f, g, q, xs, z);
  }

  /** A small polynomial through the first n points that has the value of all points at x also goes
      through point i, if the first n points together with point i give that value too. */
  lemma AnchoredPasses<T(!new)>(f: Field<T>, points: seq<(T, T)>, n: nat, x: T, g: seq<T>, i: nat)
    requires f.IsField()
    requires Distinct(Xs(points)) && n <= i < |points| && x !in Xs(points)
    requires |g| <= n + 1 && Eval(f, g, x) == Eval(f, Interpolate(f, points), x)
    requires forall k :: 0 <= k < n ==> Eval(f, g, points[k].0) == points[k].1
    requires SameAt(f, points, UpTo(n) + [i], x)
    ensures Eval(f, g, points[i].0) == points[i].1
  {
    var q := Selected(f, points, n, x, i);
    AgreeFromAnchors(f, points, n, x, g, q, points[i].0);
  }

  /** A polynomial of at most n + 1 coefficients through the first n points and a value at x. */
  lemma Anchored<T(!new)>(f: Field<T>, points: seq<(T, T)>, n: nat, x: T, y: T) returns (g: seq<T>)
    requires f.IsField()
    requires Distinct(Xs(points)) && n <= |points| && x !in Xs(points)
    ensures |g| <= n + 1 && Eval(f, g, x) == y
    ensures forall k :: 0 <= k < n ==> Eval(f, g, points[k].0) == points[k].1
  {
    var anchored := [(x, y)] + points[..n];
    AnchoredXs(points, n, x);
    assert Xs(anchored) == [x] + Xs(points)[..n];
    g := Interpolate(f, anchored);
    InterpolatePassesThrough(f, anchored, 0);
    forall k | 0 <= k < n ensures Eval(f, g, points[k].0) == points[k].1 {
      assert anchored[k + 1] == points[k];
      InterpolatePassesThrough(f, anchored, k + 1);
    }
  }

  ghost predicate AllAgree<T(!new)>(f: Field<T>, points: seq<(T, T)>, t: nat, x: T)
    requires f.IsField()
    requires Distinct(Xs(points))
  {
    forall positions :: Increasing(positions, |points|) && |positions| == t ==> SameAt(f, points, positions, x)
  }

  lemma AgreesWith<T(!new)>(f: Field<T>, points: seq<(T, T)>, n: nat, x: T, i: nat)
    requires f.IsField()
    requires Distinct(Xs(points)) && n <= i < |points|
    requires AllAgree(f, points, n + 1, x)
    ensures SameAt(f, points, UpTo(n) + [i], x)
  {
    assert Increasing(UpTo(n) + [i], |points|);
  }

  /** Only low degree makes all subsets of t points agree at a further place x. */
  lemma AgreementIsLowDegree<T(!new)>(f: Field<T>, points: seq<(T, T)>, t: nat, x: T)
    requires f.IsField()
    requires Distinct(Xs(points)) && 0 < t <= |points| && x !in Xs(points)
    requires AllAgree(f, points, t, x)
    ensures |Interpolate(f, points)| <= t
  {
    var g := Anchored(f, points, t - 1, x, Eval(f, Interpolate(f, points), x));
    assert PassesThrough(f, g, points) by {
      forall i | t - 1 <= i < |points| ensures Eval(f, g, points[i].0) == points[i].1 {
        AgreesWith(f, points, t - 1, x, i);
        AnchoredPasses(f, points, t - 1, x, g, i);
      }
    }
    InterpolateUnique(f, points, g);
  }

  // ----- Selections of shares

  ghost predicate CombinesAlike(f: Field<Byte>, size: nat, shares: seq<(Byte, seq<Byte>)>, positions: seq<nat>)
    requires f.IsField()
    requires Tss.OfSize(size, shares) && Selection(positions, |shares|)
  {
    Tss.Combine(f, size, Pick(shares, positions)) == Tss.Combine(f, size, shares)
  }

  lemma PickedColumn(shares: seq<(Byte, seq<Byte>)>, positions: seq<nat>, size: nat, i: nat)
    requires Tss.OfSize(size, shares) && i < size
    requires Selection(positions, |shares|)
    ensures Tss.Column(Pick(shares, positions), i) == Pick(Tss.Column(shares, i), positions)
  {
  }

  lemma PickedIndices(f: Field<Byte>, shares: seq<(Byte, seq<Byte>)>, positions: seq<nat>)
    requires Tss.ValidIndices(f, Tss.Indices(shares))
    requires Selection(positions, |shares|) && |positions| > 0
    ensures Tss.ValidIndices(f, Tss.Indices(Pick(shares, positions)))
  {
    var all, indices := Tss.Indices(shares), Tss.Indices(Pick(shares, positions));
    forall k | 0 <= k < |indices| ensures indices[k] == all[positions[k]] {
    }
  }

  lemma CombinedBytes(f: Field<Byte>, size: nat, shares: seq<(Byte, seq<Byte>)>) returns (bytes: seq<Byte>)
    requires f.IsField()
    requires Tss.OfSize(size, shares) && Tss.ValidIndices(f, Tss.Indices(shares))
    ensures Tss.Combine(f, size, shares) == Ok(bytes) && |bytes| == size
    ensures forall i :: 0 <= i < size ==> bytes[i] == Tss.ByteAtZero(f, size, shares, i)
  {
    Tss.CombineUpToIsInterpolation(f, size, shares, size);
    bytes := Tss.Combine(f, size, shares).value;
  }

  lemma SameByte(f: Field<Byte>, size: nat, shares: seq<(Byte, seq<Byte>)>, positions: seq<nat>, i: nat)
    requires f.IsField()
    requires Tss.OfSize(size, shares) && Tss.ValidIndices(f, Tss.Indices(shares)) && i < size
    requires Selection(positions, |shares|)
    requires Tss.ValidIndices(f, Tss.Indices(Pick(shares, positions)))
    ensures Tss.ByteAtZero(f, size, Pick(shares, positions), i) == Tss.ByteAtZero(f, size, shares, i)
       <==> SameAt(f, Tss.Column(shares, i), positions, f.zero)
  {
    PickedColumn(shares, positions, size, i);
  }

  ghost predicate SameBytes(f: Field<Byte>, size: nat, shares: seq<(Byte, seq<Byte>)>, positions: seq<nat>)
    requires f.IsField()
    requires Tss.OfSize(size, shares) && Tss.ValidIndices(f, Tss.Indices(shares)) && Selection(positions, |shares|)
  {
    forall i :: 0 <= i < size ==> SameAt(f, Tss.Column(shares, i), positions, f.zero)
  }

  /** A selection of shares combines like all shares when it does so byte by byte. */
  lemma CombinesByByte(f: Field<Byte>, size: nat, shares: seq<(Byte, seq<Byte>)>, positions: seq<nat>)
    requires f.IsField()
    requires Tss.OfSize(size, shares) && Tss.ValidIndices(f, Tss.Indices(shares))
    requires Selection(positions, |shares|) && |positions| > 0
    ensures CombinesAlike(f, size, shares, positions) <==> SameBytes(f, size, shares, positions)
  {
    PickedIndices(f, shares, positions);
    var all := CombinedBytes(f, size, shares);
    var some := CombinedBytes(f, size, Pick(shares, positions));
    forall i | 0 <= i < size ensures some[i] == all[i] <==> SameAt(f, Tss.Column(shares, i), positions, f.zero) {
      SameByte(f, size, shares, positions, i);
    }
    assert CombinesAlike(f, size, shares, positions) <==> some == all;
  }

  /** All subsets of t shares combine to what all shares combine to. */
  ghost predicate SubsetsAlike(f: Field<Byte>, size: nat, shares: seq<(Byte, seq<Byte>)>, t: nat)
    requires f.IsField()
    requires Tss.OfSize(size, shares)
  {
    forall positions :: Increasing(positions, |shares|) && |positions| == t ==>
        CombinesAlike(f, size, shares, positions)
  }

  /** If all subsets of t shares combine to what all shares combine to, the polynomials through the
      shares have at most t coefficients. */
  lemma AgreeingSubsetsBound(f: Field<Byte>, size: nat, shares: seq<(Byte, seq<Byte>)>, t: nat, i: nat)
    requires f.IsField()
    requires Tss.OfSize(size, shares) && Tss.ValidIndices(f, Tss.Indices(shares))
    requires 0 < t <= |shares| && i < size
    requires SubsetsAlike(f, size, shares, t)
    ensures |Tss.InterpolateShares(f, size, shares).value[i]| <= t
  {
    var points := Tss.Column(shares, i);
    assert AllAgree(f, points, t, f.zero) by {
      forall positions | Increasing(positions, |points|) && |positions| == t
        ensures SameAt(f, points, positions, f.zero) {
        CombinesByByte(f, size, shares, positions);
      }
    }
    AgreementIsLowDegree(f, points, t, f.zero);
  }

  ghost predicate Bounded(ps: seq<seq<Byte>>, t: nat) {
    forall i :: 0 <= i < |ps| ==> |ps[i]| <= t
  }

  lemma SubsetsBound(f: Field<Byte>, size: nat, shares: seq<(Byte, seq<Byte>)>, t: nat)
    requires f.IsField()
    requires Tss.OfSize(size, shares) && Tss.ValidIndices(f, Tss.Indices(shares))
    requires 0 < t <= |shares| && SubsetsAlike(f, size, shares, t)
    ensures Bounded(Tss.InterpolateShares(f, size, shares).value, t)
  {
    forall i | 0 <= i < size ensures |Tss.InterpolateShares(f, size, shares).value[i]| <= t {
      AgreeingSubsetsBound(f, size, shares, t, i);
    }
  }

  /** Shares on polynomials with at most t coefficients: any t of them, in any order, combine alike. */
  lemma LowDegreeCombines(f: Field<Byte>, size: nat, shares: seq<(Byte, seq<Byte>)>, positions: seq<nat>)
    requires f.IsField()
    requires Tss.OfSize(size, shares) && Tss.ValidIndices(f, Tss.Indices(shares))
    requires Selection(positions, |shares|) && |positions| > 0
    requires Bounded(Tss.InterpolateShares(f, size, shares).value, |positions|)
    ensures CombinesAlike(f, size, shares, positions)
  {
    assert SameBytes(f, size, shares, positions) by {
      forall i | 0 <= i < size ensures SameAt(f, Tss.Column(shares, i), positions, f.zero) {
        assert |Tss.InterpolateShares(f, size, shares).value[i]| <= |positions|;
        LowDegreeAgrees(f, Tss.Column(shares, i), positions, f.zero);
      }
    }
    CombinesByByte(f, size, shares, positions);
  }

  /** All selections of t shares combine to what all shares combine to, if and only if the
      polynomials through all shares have at most t coefficients. */
  lemma SubsetsAgreeExactly(f: Field<Byte>, size: nat, shares: seq<(Byte, seq<Byte>)>, t: nat)
    requires f.IsField()
    requires Tss.OfSize(size, shares) && Tss.ValidIndices(f, Tss.Indices(shares))
    requires 0 < t <= |shares|
    ensures (forall positions :: Selection(positions, |shares|) && |positions| == t ==>
             CombinesAlike(f, size, shares, positions))
       <==> Bounded(Tss.InterpolateShares(f, size, shares).value, t)
  {
    var ps := Tss.InterpolateShares(f, size, shares).value;
    if forall positions :: Selection(positions, |shares|) && |positions| == t ==>
        CombinesAlike(f, size, shares, positions) {
      assert SubsetsAlike(f, size, shares, t);
      SubsetsBound(f, size, shares, t);
    }
    if Bounded(ps, t) {
      forall positions | Selection(positions, |shares|) && |positions| == t
        ensures CombinesAlike(f, size, shares, positions) {
        LowDegreeCombines(f, size, shares, positions);
      }
    }
  }

  /** Every selection of t shares combines to the key. */
  ghost predicate SelectionsGive(f: Field<Byte>, size: nat, shares: seq<(Byte, seq<Byte>)>, t: nat, key: seq<Byte>)
    requires f.IsField()
    requires Tss.OfSize(size, shares)
  {
    forall positions :: Selection(positions, |shares|) && |positions| == t ==>
        Tss.Combine(f, size, Pick(shares, positions)) == Ok(key)
  }

  lemma SelectionsGiveExactly(f: Field<Byte>, size: nat, shares: seq<(Byte, seq<Byte>)>, t: nat, key: seq<Byte>)
    requires f.IsField()
    requires Tss.OfSize(size, shares) && Tss.ValidIndices(f, Tss.Indices(shares))
    requires 0 < t <= |shares| && Tss.Combine(f, size, shares) == Ok(key)
    ensures SelectionsGive(f, size, shares, t, key) <==> Bounded(Tss.InterpolateShares(f, size, shares).value, t)
  {
    SubsetsAgreeExactly(f, size, shares, t);
    if SelectionsGive(f, size, shares, t, key) {
      forall positions | Selection(positions, |shares|) && |positions| == t
        ensures CombinesAlike(f, size, shares, positions) {
      }
    } else {
      var positions :| Selection(positions, |shares|) && |positions| == t
          && Tss.Combine(f, size, Pick(shares, positions)) != Ok(key);
      assert !CombinesAlike(f, size, shares, positions);
    }
  }

  // ----- All shares of an accepted object

  /** The share of every service, decrypted with the randomness that the base key opens. */
  function AllShares<S(!new, ==)>(p: Primitives<S>, obj: EncryptedObject<S>, publicKeys: seq<G2<S>>,
                                  baseKey: Key): Result<seq<(Byte, Key)>>
    requires |obj.encryptions.encryptedShares| == |obj.services|
  {
    DecryptAllShares(p, obj.encryptions, CreateFullId(obj.packageId, obj.id), obj.services, publicKeys, baseKey,
                     obj.threshold)
  }

  function ServiceIndices(services: seq<Info>): seq<Byte> {
    seq(|services|, i requires 0 <= i < |services| => services[i].1)
  }

  /** The polynomials through the shares used. */
  ghost function Used<S(!new)>(f: Field<Byte>, p: Primitives<S>, obj: EncryptedObject<S>,
                               userKeys: map<ObjectId, G1<S>>): (ps: seq<seq<Byte>>)
    requires f.IsField()
    requires |obj.encryptions.encryptedShares| == |obj.services|
    requires Tss.ValidIndices(f, Tss.Indices(DecryptShares(p, obj, userKeys)))
    ensures |ps| == KEY_SIZE
  {
    Tss.InterpolateShares(f, KEY_SIZE, DecryptShares(p, obj, userKeys)).value
  }

  /** The polynomials through the shares used have at most t coefficients. */
  ghost predicate LowDegree<S(!new)>(f: Field<Byte>, p: Primitives<S>, obj: EncryptedObject<S>,
                                     userKeys: map<ObjectId, G1<S>>, t: nat)
    requires f.IsField()
    requires |obj.encryptions.encryptedShares| == |obj.services|
    requires Tss.ValidIndices(f, Tss.Indices(DecryptShares(p, obj, userKeys)))
  {
    Bounded(Used(f, p, obj, userKeys), t)
  }

  ghost predicate Accepted<S(!new)>(f: Field<Byte>, p: Primitives<S>, obj: EncryptedObject<S>, publicKeys: seq<G2<S>>,
                                    userKeys: map<ObjectId, G1<S>>, baseKey: Key) {
    && Ready(f, p)
    && RecoverBaseKey(f, p, obj, userKeys, Some(publicKeys)) == Ok(baseKey)
    && Tss.ValidIndices(f, ServiceIndices(obj.services))
  }

  /** All shares of an accepted object lie on the polynomials through the shares used. */
  lemma AllSharesOn<S(!new)>(f: Field<Byte>, p: Primitives<S>, obj: EncryptedObject<S>, publicKeys: seq<G2<S>>,
                             userKeys: map<ObjectId, G1<S>>, baseKey: Key)
    returns (all: seq<(Byte, Key)>, ps: seq<seq<Byte>>)
    requires Accepted(f, p, obj, publicKeys, userKeys, baseKey)
    ensures AllShares(p, obj, publicKeys, baseKey) == Ok(all) && |all| == |obj.services| == |publicKeys|
    ensures Tss.Indices(all) == ServiceIndices(obj.services)
    ensures ps == Used(f, p, obj, userKeys) && baseKey == Tss.EvalAll(f, ps, 0)
    ensures forall k :: 0 <= k < |all| ==> all[k].1 == Tss.EvalAll(f, ps, all[k].0)
  {
    var randomness;
    var shares, fullId := DecryptShares(p, obj, userKeys), CreateFullId(obj.packageId, obj.id);
    var key;
    ps, key, randomness := CheckedShares(f, p, obj.encryptions, shares, fullId, obj.services, obj.threshold,
                                         publicKeys);
    all := AllShares(p, obj, publicKeys, baseKey).value;
  }

  /** The polynomials through all shares are those through the shares used. */
  lemma SamePolynomials<S(!new)>(f: Field<Byte>, p: Primitives<S>, obj: EncryptedObject<S>, publicKeys: seq<G2<S>>,
                                 userKeys: map<ObjectId, G1<S>>, baseKey: Key) returns (all: seq<(Byte, Key)>)
    requires Accepted(f, p, obj, publicKeys, userKeys, baseKey)
    ensures AllShares(p, obj, publicKeys, baseKey) == Ok(all) && |all| == |obj.services| == |publicKeys|
    ensures Tss.Indices(all) == ServiceIndices(obj.services)
    ensures Tss.InterpolateShares(f, KEY_SIZE, all) == Ok(Used(f, p, obj, userKeys))
    ensures Tss.Combine(f, KEY_SIZE, all) == Ok(baseKey)
  {
    var ps;
    all, ps := AllSharesOn(f, p, obj, publicKeys, userKeys, baseKey);
    assert |ps| == KEY_SIZE && |Covered(obj.services, userKeys)| <= |all|;
    var shares := DecryptShares(p, obj, userKeys);
    forall i | 0 <= i < KEY_SIZE ensures Interpolate(f, Tss.Column(all, i)) == ps[i] {
      assert ps[i] == Interpolate(f, Tss.Column(shares, i)) && Strip(f, ps[i]) == ps[i];
      ColumnOn(f, all, ps, i);
      InterpolateUnique(f, Tss.Column(all, i), ps[i]);
    }
    assert Tss.InterpolateShares(f, KEY_SIZE, all).value == ps;
    Tss.CombineRefinesInterpolate(f, KEY_SIZE, all);
  }

  lemma ColumnOn(f: Field<Byte>, shares: seq<(Byte, Key)>, ps: seq<seq<Byte>>, i: nat)
    requires |ps| == KEY_SIZE && i < KEY_SIZE
    requires forall k :: 0 <= k < |shares| ==> shares[k].1 == Tss.EvalAll(f, ps, shares[k].0)
    ensures PassesThrough(f, ps[i], Tss.Column(shares, i))
  {
    forall k | 0 <= k < |shares| ensures Eval(f, ps[i], shares[k].0) == shares[k].1[i] {
      assert Tss.EvalAll(f, ps, shares[k].0)[i] == Eval(f, ps[i], shares[k].0);
    }
  }

  /** The exact reach of the check: when it accepts an object, all shares combine to the base key; and
      every selection of t of them does, if and only if the polynomials through the shares used have
      at most t coefficients. */
  lemma AcceptedSubsetsAgreeExactly<S(!new)>(f: Field<Byte>, p: Primitives<S>, obj: EncryptedObject<S>,
                                             publicKeys: seq<G2<S>>, userKeys: map<ObjectId, G1<S>>, baseKey: Key,
                                             t: nat)
    returns (all: seq<(Byte, Key)>)
    requires Accepted(f, p, obj, publicKeys, userKeys, baseKey)
    requires 0 < t <= |obj.services|
    ensures AllShares(p, obj, publicKeys, baseKey) == Ok(all) && |all| == |obj.services|
    ensures Tss.Combine(f, KEY_SIZE, all) == Ok(baseKey)
    ensures SelectionsGive(f, KEY_SIZE, all, t, baseKey) <==> LowDegree(f, p, obj, userKeys, t)
  {
    all := SamePolynomials(f, p, obj, publicKeys, userKeys, baseKey);
    SelectionsGiveExactly(f, KEY_SIZE, all, t, baseKey);
  }

  // ----- User keys for a subset of the services

  /** The only user key that verifies against the public key. */
  function VerifiedKey<S(!new)>(p: Primitives<S>, obj: EncryptedObject<S>, publicKey: G2<S>): G1<S> {
    p.G1Times(HashToG1(p, CreateFullId(obj.packageId, obj.id)), publicKey.log)
  }

  lemma VerifiedKeyVerifies<S(!new)>(p: Primitives<S>, obj: EncryptedObject<S>, publicKey: G2<S>)
    requires p.Valid()
    ensures VerifyUserSecretKey(p, VerifiedKey(p, obj, publicKey), CreateFullId(obj.packageId, obj.id), publicKey)
  {
    assert p.scalars.MulOne(VerifiedKey(p, obj, publicKey).log);
  }

  ghost function KeysFor<S(!new)>(p: Primitives<S>, obj: EncryptedObject<S>, publicKeys: seq<G2<S>>,
                                  positions: seq<nat>): map<ObjectId, G1<S>>
    requires |publicKeys| == |obj.services|
    requires forall k :: 0 <= k < |positions| ==> positions[k] < |obj.services|
  {
    if |positions| == 0 then map[]
    else
      var n, last := |positions| - 1, positions[|positions| - 1];
      KeysFor(p, obj, publicKeys, positions[..n])[obj.services[last].0 := VerifiedKey(p, obj, publicKeys[last])]
  }

  lemma {:induction false} KeysForAt<S(!new)>(p: Primitives<S>, obj: EncryptedObject<S>, publicKeys: seq<G2<S>>,
                                              positions: seq<nat>, i: nat)
    requires |publicKeys| == |obj.services| && Distinct(ServerIds(obj.services)) && i < |obj.services|
    requires forall k :: 0 <= k < |positions| ==> positions[k] < |obj.services|
    ensures
      var keys := KeysFor(p, obj, publicKeys, positions);
      && (obj.services[i].0 in keys <==> i in positions)
      && (i in positions ==> keys[obj.services[i].0] == VerifiedKey(p, obj, publicKeys[i]))
  {
    if |positions| > 0 {
      var n := |positions| - 1;
      KeysForAt(p, obj, publicKeys, positions[..n], i);
      assert positions == positions[..n] + [positions[n]];
      assert ServerIds(obj.services)[i] == ServerIds(obj.services)[positions[n]] ==> i == positions[n];
    }
  }

  /** Without position n, which can only be the last. */
  lemma Trim(a: seq<nat>, n: nat) returns (b: seq<nat>)
    requires Increasing(a, n + 1)
    ensures Increasing(b, n)
    ensures a == if n in a then b + [n] else b
  {
    if |a| > 0 && a[|a| - 1] == n {
      b := a[..|a| - 1];
    } else {
      b := a;
      forall k | 0 <= k < |a| ensures a[k] < n {
        assert a[k] <= a[|a| - 1];
      }
    }
  }

  lemma {:induction false} IncreasingUnique(a: seq<nat>, b: seq<nat>, n: nat)
    requires Increasing(a, n) && Increasing(b, n)
    requires forall x :: x < n ==> (x in a <==> x in b)
    ensures a == b
    decreases n
  {
    if n == 0 {
      NoPositions(a);
      NoPositions(b);
    } else {
      var a' := Trim(a, n - 1);
      var b' := Trim(b, n - 1);
      forall x | 0 <= x < n - 1 ensures x in a' <==> x in b' {
        assert x in a <==> x in b;
      }
      assert n - 1 in a <==> n - 1 in b;
      IncreasingUnique(a', b', n - 1);
    }
  }

  lemma First(a: seq<nat>) returns (x: nat)
    requires a != []
    ensures x in a
  {
    x := a[0];
  }

  lemma NoPositions(a: seq<nat>)
    requires Increasing(a, 0)
    ensures a == []
  {
    if a != [] {
      var x := First(a);
      assert false;
    }
  }

  /** A verified user key decrypts the share that the randomness decrypts. */
  lemma VerifiedShare<S(!new)>(p: Primitives<S>, obj: EncryptedObject<S>, publicKeys: seq<G2<S>>, baseKey: Key,
                               userKeys: map<ObjectId, G1<S>>, i: nat)
    requires p.Valid()
    requires |obj.encryptions.encryptedShares| == |obj.services| == |publicKeys| && i < |obj.services|
    requires AllShares(p, obj, publicKeys, baseKey).Ok?
    requires VerifiedKeys(p, obj, userKeys, publicKeys) && obj.services[i].0 in userKeys
    ensures |AllShares(p, obj, publicKeys, baseKey).value| == |obj.services|
    ensures DecryptShare(p, obj, userKeys, i) == AllShares(p, obj, publicKeys, baseKey).value[i]
  {
    var fullId := CreateFullId(obj.packageId, obj.id);
    var randomness := DecryptedAll(p, obj.encryptions, fullId, obj.services, publicKeys, baseKey, obj.threshold);
    DecryptionsAgree(p, randomness, obj.encryptions.nonce, obj.encryptions.encryptedShares[i], publicKeys[i],
                     userKeys[obj.services[i].0], fullId, obj.services[i]);
  }

  /** The keys for some services verify and cover exactly these services. */
  lemma KeysForCover<S(!new)>(p: Primitives<S>, obj: EncryptedObject<S>, publicKeys: seq<G2<S>>, positions: seq<nat>)
    requires p.Valid()
    requires |obj.services| == |publicKeys| && Distinct(ServerIds(obj.services))
    requires Increasing(positions, |obj.services|)
    ensures VerifiedKeys(p, obj, KeysFor(p, obj, publicKeys, positions), publicKeys)
    ensures Covered(obj.services, KeysFor(p, obj, publicKeys, positions)) == positions
  {
    var keys := KeysFor(p, obj, publicKeys, positions);
    forall i | 0 <= i < |obj.services|
      ensures obj.services[i].0 in keys <==> i in positions
      ensures obj.services[i].0 in keys ==>
        VerifyUserSecretKey(p, keys[obj.services[i].0], CreateFullId(obj.packageId, obj.id), publicKeys[i])
    {
      KeysForAt(p, obj, publicKeys, positions, i);
      VerifiedKeyVerifies(p, obj, publicKeys[i]);
    }
    CoveredUnique(obj.services, keys, positions);
  }

  lemma CoveredUnique<S(!new)>(services: seq<Info>, keys: map<ObjectId, G1<S>>, positions: seq<nat>)
    requires Increasing(positions, |services|)
    requires forall i :: 0 <= i < |services| ==> (services[i].0 in keys <==> i in positions)
    ensures Covered(services, keys) == positions
  {
    var covered := Covered(services, keys);
    IncreasingUnique(covered, positions, |services|);
  }

  /** They decrypt the shares of these services. */
  lemma KeysForShares<S(!new)>(p: Primitives<S>, obj: EncryptedObject<S>, publicKeys: seq<G2<S>>, baseKey: Key,
                               positions: seq<nat>)
    requires p.Valid()
    requires |obj.encryptions.encryptedShares| == |obj.services| == |publicKeys| && Distinct(ServerIds(obj.services))
    requires AllShares(p, obj, publicKeys, baseKey).Ok?
        && |AllShares(p, obj, publicKeys, baseKey).value| == |obj.services|
    requires Increasing(positions, |obj.services|)
    ensures DecryptShares(p, obj, KeysFor(p, obj, publicKeys, positions))
         == Pick<(Byte, seq<Byte>)>(AllShares(p, obj, publicKeys, baseKey).value, positions)
  {
    var keys := KeysFor(p, obj, publicKeys, positions);
    KeysForCover(p, obj, publicKeys, positions);
    var shares, picked := DecryptShares(p, obj, keys),
        Pick<(Byte, seq<Byte>)>(AllShares(p, obj, publicKeys, baseKey).value, positions);
    assert |shares| == |picked|;
    forall k | 0 <= k < |shares| ensures shares[k] == picked[k] {
      VerifiedShare(p, obj, publicKeys, baseKey, keys, positions[k]);
    }
  }

  /** Verified user keys for any t services recover the key. */
  ghost predicate VerifiedKeysGive<S(!new)>(f: Field<Byte>, p: Primitives<S>, obj: EncryptedObject<S>,
                                            publicKeys: seq<G2<S>>, t: nat, key: Key)
    requires f.IsField()
    requires |obj.services| == |publicKeys|
  {
    forall userKeys :: VerifiedKeys(p, obj, userKeys, publicKeys) && |Covered(obj.services, userKeys)| == t ==>
      RecoverBaseKey(f, p, obj, userKeys, None) == Ok(key)
  }

  /** If verified keys for any t services recover the base key, any t of all shares combine to it. */
  lemma VerifiedKeysCombine<S(!new)>(f: Field<Byte>, p: Primitives<S>, obj: EncryptedObject<S>, publicKeys: seq<G2<S>>,
                                     baseKey: Key, all: seq<(Byte, seq<Byte>)>, positions: seq<nat>)
    requires Ready(f, p)
    requires |obj.encryptions.encryptedShares| == |obj.services| == |publicKeys| == |all|
        && Distinct(ServerIds(obj.services))
    requires AllShares(p, obj, publicKeys, baseKey).Ok? && AllShares(p, obj, publicKeys, baseKey).value == all
    requires VerifiedKeysGive(f, p, obj, publicKeys, |positions|, baseKey)
    requires Increasing(positions, |all|)
    ensures Tss.OfSize(KEY_SIZE, Pick(all, positions)) && Tss.Combine(f, KEY_SIZE, Pick(all, positions)) == Ok(baseKey)
  {
    var keys := KeysFor(p, obj, publicKeys, positions);
    KeysForCover(p, obj, publicKeys, positions);
    KeysForShares(p, obj, publicKeys, baseKey, positions);
    assert RecoverBaseKey(f, p, obj, keys, None) == Ok(baseKey);
  }

  lemma CoveredIndices<S(!new)>(f: Field<Byte>, p: Primitives<S>, obj: EncryptedObject<S>,
                                userKeys: map<ObjectId, G1<S>>)
    requires |obj.encryptions.encryptedShares| == |obj.services| && Tss.ValidIndices(f, ServiceIndices(obj.services))
    requires |Covered(obj.services, userKeys)| > 0
    ensures Tss.ValidIndices(f, Tss.Indices(DecryptShares(p, obj, userKeys)))
  {
    var covered, indices, all := Covered(obj.services, userKeys), Tss.Indices(DecryptShares(p, obj, userKeys)),
        ServiceIndices(obj.services);
    forall k | 0 <= k < |indices| ensures indices[k] == all[covered[k]] {
    }
    forall i, j | 0 <= i < j < |indices| ensures indices[i] != indices[j] {
      assert covered[i] != covered[j];
    }
  }

  lemma VerifiedKeysAlike<S(!new)>(f: Field<Byte>, p: Primitives<S>, obj: EncryptedObject<S>, publicKeys: seq<G2<S>>,
                                   baseKey: Key, t: nat, all: seq<(Byte, seq<Byte>)>)
    requires Ready(f, p) && Tss.OfSize(KEY_SIZE, all)
    requires |obj.encryptions.encryptedShares| == |obj.services| == |publicKeys| == |all|
        && Distinct(ServerIds(obj.services))
    requires AllShares(p, obj, publicKeys, baseKey).Ok? && AllShares(p, obj, publicKeys, baseKey).value == all
    requires Tss.Combine(f, KEY_SIZE, all) == Ok(baseKey)
    requires VerifiedKeysGive(f, p, obj, publicKeys, t, baseKey)
    ensures SubsetsAlike(f, KEY_SIZE, all, t)
  {
    forall positions | Increasing(positions, |all|) && |positions| == t
      ensures CombinesAlike(f, KEY_SIZE, all, positions) {
      VerifiedKeysCombine(f, p, obj, publicKeys, baseKey, all, positions);
    }
  }

  lemma VerifiedKeysBound<S(!new)>(f: Field<Byte>, p: Primitives<S>, obj: EncryptedObject<S>, publicKeys: seq<G2<S>>,
                                   userKeys: map<ObjectId, G1<S>>, baseKey: Key, t: nat)
    requires Accepted(f, p, obj, publicKeys, userKeys, baseKey)
    requires Distinct(ServerIds(obj.services)) && 0 < t <= |obj.services| == |publicKeys|
    requires VerifiedKeysGive(f, p, obj, publicKeys, t, baseKey)
    ensures LowDegree(f, p, obj, userKeys, t)
  {
    var all := SamePolynomials(f, p, obj, publicKeys, userKeys, baseKey);
    VerifiedKeysAlike(f, p, obj, publicKeys, baseKey, t, all);
    SubsetsBound(f, KEY_SIZE, all, t);
  }

  lemma LowDegreeRecovers<S(!new)>(f: Field<Byte>, p: Primitives<S>, obj: EncryptedObject<S>, publicKeys: seq<G2<S>>,
                                   userKeys: map<ObjectId, G1<S>>, userKeys': map<ObjectId, G1<S>>, baseKey: Key)
    requires Accepted(f, p, obj, publicKeys, userKeys, baseKey)
    requires |obj.services| == |publicKeys| && VerifiedKeys(p, obj, userKeys', publicKeys)
    requires 0 < |Covered(obj.services, userKeys')| && obj.threshold as nat <= |Covered(obj.services, userKeys')|
    requires LowDegree(f, p, obj, userKeys, |Covered(obj.services, userKeys')|)
    ensures RecoverBaseKey(f, p, obj, userKeys', None) == Ok(baseKey)
  {
    CoveredIndices(f, p, obj, userKeys');
    forall i | 0 <= i < KEY_SIZE
      ensures |Tss.InterpolateShares(f, KEY_SIZE, DecryptShares(p, obj, userKeys)).value[i]|
          <= |Covered(obj.services, userKeys')|
    {
      assert |Used(f, p, obj, userKeys)[i]| <= |Covered(obj.services, userKeys')|;
    }
    CheckedObjectsAreConsistent(f, p, obj, publicKeys, userKeys, userKeys');
  }

  /** The reach of the check in terms of user keys. When decryption with public keys recovers a base
      key of an object whose services have different ids and indices, the verified keys of every t
      services, at least threshold many, recover that base key, if and only if the polynomials
      through the shares used have at most t coefficients. */
  lemma VerifiedKeysAgreeExactly<S(!new)>(f: Field<Byte>, p: Primitives<S>, obj: EncryptedObject<S>,
                                          publicKeys: seq<G2<S>>, userKeys: map<ObjectId, G1<S>>, baseKey: Key, t: nat)
    requires Accepted(f, p, obj, publicKeys, userKeys, baseKey)
    requires Distinct(ServerIds(obj.services))
    requires 0 < t <= |obj.services| == |publicKeys| && obj.threshold as nat <= t
    ensures VerifiedKeysGive(f, p, obj, publicKeys, t, baseKey) <==> LowDegree(f, p, obj, userKeys, t)
  {
    if VerifiedKeysGive(f, p, obj, publicKeys, t, baseKey) {
      VerifiedKeysBound(f, p, obj, publicKeys, userKeys, baseKey, t);
    }
    if LowDegree(f, p, obj, userKeys, t) {
      forall userKeys' | VerifiedKeys(p, obj, userKeys', publicKeys) && |Covered(obj.services, userKeys')| == t
        ensures RecoverBaseKey(f, p, obj, userKeys', None) == Ok(baseKey)
      {
        LowDegreeRecovers(f, p, obj, publicKeys, userKeys, userKeys', baseKey);
      }
    }
  }

  // ----- Smaller subsets of an accepted object

  /** The base key plus the index, byte by byte: a sharing of degree one. */
  function Slope(f: Field<Byte>): (c: seq<seq<Byte>>)
    ensures |c| == KEY_SIZE && forall i :: 0 <= i < KEY_SIZE ==> c[i] == [f.one]
  {
    seq(KEY_SIZE, i => [f.one])
  }

  lemma EvalLine(f: Field<Byte>, c: Byte, m: Byte, x: Byte)
    requires f.IsField()
    ensures Eval(f, [c, m], x) == f.add(f.mul(m, x), c)
  {
    assert [c, m][1..] == [m] && [m][1..] == [];
    assert Eval(f, [m], x) == f.add(f.mul(Eval(f, [], x), x), m);
    f.MulZero(x);
    f.ZeroAdd(m);
  }

  lemma SlopeMoves(f: Field<Byte>, baseKey: Key)
    requires Tss.ByteField(f)
    ensures Tss.EvalAll(f, Secrets(baseKey, Slope(f)), 1)[0] != baseKey[0]
  {
    var c := baseKey[0];
    assert Secrets(baseKey, Slope(f))[0] == [c, f.one];
    EvalLine(f, c, f.one, 1);
    f.OneMul(1);
    f.ZeroAdd(c);
    assert f.AddComm(1, c) && f.AddZero(c);
    if f.add(1, c) == c {
      f.AddCancel(c, 1, f.zero);
    }
  }

  lemma EvalConstant(f: Field<Byte>, c: Byte, x: Byte)
    requires f.IsField()
    ensures Eval(f, [c], x) == c
  {
    assert [c][1..] == [];
    f.MulZero(x);
    f.ZeroAdd(c);
  }

  /** A single share combines to itself. */
  lemma SingleShare(f: Field<Byte>, shares: seq<(Byte, Key)>)
    requires Tss.ByteField(f)
    requires |shares| == 1 && shares[0].0 != 0
    ensures Tss.Combine(f, KEY_SIZE, shares) == Ok(shares[0].1)
  {
    var value := shares[0].1;
    var ps := seq(KEY_SIZE, i requires 0 <= i < KEY_SIZE => [value[i]]);
    forall i, x | 0 <= i < KEY_SIZE ensures Eval(f, ps[i], x) == value[i] {
      EvalConstant(f, value[i], x);
    }
    assert Tss.ValidIndices(f, Tss.Indices(shares));
    Tss.CombineOnPolynomials(f, KEY_SIZE, shares, ps);
    assert Tss.EvalAll(f, ps, f.zero) == value;
  }

  /** The user key of the first service alone gives its share, if anything. */
  lemma FirstShareOnly<S(!new)>(f: Field<Byte>, p: Primitives<S>, obj: EncryptedObject<S>,
                                userKeys: map<ObjectId, G1<S>>, share: Key)
    requires Ready(f, p)
    requires |obj.services| == 2 && obj.services[0].0 in userKeys && obj.services[1].0 !in userKeys
    requires obj.services[0].1 == 1
    requires |obj.encryptions.encryptedShares| == 2 && DecryptShare(p, obj, userKeys, 0) == (1, share)
    ensures |Covered(obj.services, userKeys)| == 1
    ensures RecoverBaseKey(f, p, obj, userKeys, None).Ok? ==> RecoverBaseKey(f, p, obj, userKeys, None).value == share
  {
    var covered := Covered(obj.services, userKeys);
    assert 0 in covered && forall k :: 0 <= k < |covered| ==> covered[k] == 0;
    assert Holds({0}, covered);
    SetOfDistinct({0}, covered);
    SingleShare(f, DecryptShares(p, obj, userKeys));
  }

  /** Two services that share a base key on a line, with threshold one. Decryption with both keys and
      the public keys passes the check; the verified key of the first service alone reaches the
      threshold and does not recover the base key. */
  lemma SmallerSubsetsMayDisagree<S(!new)>(f: Field<Byte>, p: Primitives<S>, packageId: Key, id: seq<Byte>, a: ObjectId,
                                           b: ObjectId, masterA: S, masterB: S, baseKey: Key, randomness: S)
    returns (obj: EncryptedObject<S>, publicKeys: seq<G2<S>>, one: map<ObjectId, G1<S>>, both: map<ObjectId, G1<S>>)
    requires Ready(f, p)
    requires a != b
    ensures obj.threshold == 1 && |obj.services| == |publicKeys| == 2
    ensures VerifiedKeys(p, obj, both, publicKeys) && VerifiedKeys(p, obj, one, publicKeys)
    ensures |Covered(obj.services, one)| == 1
    ensures RecoverBaseKey(f, p, obj, both, Some(publicKeys)) == Ok(baseKey)
    ensures RecoverBaseKey(f, p, obj, one, None) != Ok(baseKey)
  {
    var servers, draws := [a, b], Draws(baseKey, Slope(f), randomness);
    var masterKeys := [masterA, masterB];
    publicKeys := [PublicKeyFromMasterKey(p, masterA), PublicKeyFromMasterKey(p, masterB)];
    var fullId := CreateFullId(packageId, id);
    one := map[a := Extract(p, masterA, fullId)];
    both := map[a := Extract(p, masterA, fullId), b := Extract(p, masterB, fullId)];
    var key, shares;
    obj, key, shares := EncryptedParts(f, p, packageId, id, servers, publicKeys, 1, Dem.PlainInput, draws);
    BothRecover(f, p, obj, masterKeys, publicKeys, shares, draws, both);
    OneFails(f, p, obj, masterKeys, publicKeys, shares, draws, one);
  }

  /** An object for two services, encrypted as usual but from shares on lines. */
  ghost predicate OnLines<S(!new)>(f: Field<Byte>, p: Primitives<S>, obj: EncryptedObject<S>, masterKeys: seq<S>,
                                   publicKeys: seq<G2<S>>, shares: seq<Key>, draws: Draws<S>) {
    && draws.coefficients == Slope(f)
    && obj.version == 0 && obj.threshold == 1
    && |shares| == |obj.services| == |publicKeys| == |masterKeys| == |obj.encryptions.encryptedShares| == 2
    && obj.services == Zip(ServerIds(obj.services), Tss.FirstIndices(2))
    && (forall i :: 0 <= i < 2 ==> publicKeys[i] == PublicKeyFromMasterKey(p, masterKeys[i]))
    && EncryptBatchedDeterministic(p, draws.randomness, shares, publicKeys, CreateFullId(obj.packageId, obj.id),
                                   obj.services)
       == Ok((obj.encryptions.nonce, obj.encryptions.encryptedShares))
    && obj.encryptions.encryptedRandomness == EncryptRandomness(p, draws.randomness,
         DeriveKey(p, EncryptedRandomness, draws.baseKey, obj.encryptions.encryptedShares, obj.threshold,
                   ServerIds(obj.services)))
    && forall k :: 0 <= k < 2 ==>
         shares[k] == Tss.EvalAll(f, Secrets(draws.baseKey, draws.coefficients), obj.services[k].1)
  }

  lemma BothRecover<S(!new)>(f: Field<Byte>, p: Primitives<S>, obj: EncryptedObject<S>, masterKeys: seq<S>,
                             publicKeys: seq<G2<S>>, shares: seq<Key>, draws: Draws<S>, both: map<ObjectId, G1<S>>)
    requires Ready(f, p) && OnLines(f, p, obj, masterKeys, publicKeys, shares, draws)
    requires forall i :: 0 <= i < 2 ==>
               obj.services[i].0 in both
               && both[obj.services[i].0] == Extract(p, masterKeys[i], CreateFullId(obj.packageId, obj.id))
    ensures VerifiedKeys(p, obj, both, publicKeys)
    ensures RecoverBaseKey(f, p, obj, both, Some(publicKeys)) == Ok(draws.baseKey)
  {
    var fullId := CreateFullId(obj.packageId, obj.id);
    forall i | 0 <= i < 2 ensures VerifyUserSecretKey(p, both[obj.services[i].0], fullId, publicKeys[i]) {
      VerifiedIsExtracted(p, both[obj.services[i].0], fullId, masterKeys[i]);
    }
    assert 0 in Covered(obj.services, both) && 1 in Covered(obj.services, both);
    BaseKeyRoundTrip(f, p, obj, masterKeys, publicKeys, shares, draws, both);
  }

  lemma OneFails<S(!new)>(f: Field<Byte>, p: Primitives<S>, obj: EncryptedObject<S>, masterKeys: seq<S>,
                          publicKeys: seq<G2<S>>, shares: seq<Key>, draws: Draws<S>, one: map<ObjectId, G1<S>>)
    requires Ready(f, p) && OnLines(f, p, obj, masterKeys, publicKeys, shares, draws)
    requires obj.services[0].0 in one && obj.services[1].0 !in one
    requires one[obj.services[0].0] == Extract(p, masterKeys[0], CreateFullId(obj.packageId, obj.id))
    ensures VerifiedKeys(p, obj, one, publicKeys)
    ensures |Covered(obj.services, one)| == 1
    ensures RecoverBaseKey(f, p, obj, one, None) != Ok(draws.baseKey)
  {
    var fullId := CreateFullId(obj.packageId, obj.id);
    VerifiedIsExtracted(p, one[obj.services[0].0], fullId, masterKeys[0]);
    assert obj.services[0].1 == Tss.FirstIndices(2)[0] == 1;
    Ibe.DecryptInvertsEncrypt(p, draws.randomness, shares, publicKeys, fullId, obj.services, 0);
    FirstShareOnly(f, p, obj, one, shares[0]);
    SlopeMoves(f, draws.baseKey);
  }
}
