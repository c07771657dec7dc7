/** ElGamal encryption of group elements, and the aggregation of encrypted key shares. */
module ElGamal {
  import opened Fields
  import opened Results
  import opened Polynomials
  import opened Interpolation
  import opened Sequences
  import opened Ibe
  import opened Bytes

  datatype Encryption<S> = Encryption(c1: G1<S>, c2: G1<S>)

  function Encrypt<S(!new)>(p: Primitives<S>, randomness: S, msg: G1<S>, publicKey: G1<S>): Encryption<S> {
    Encryption(G1(p.scalars.mul(p.scalars.one, randomness)),
               G1(p.scalars.add(p.scalars.mul(publicKey.log, randomness), msg.log)))
  }

  function Decrypt<S(!new)>(p: Primitives<S>, secretKey: S, e: Encryption<S>): G1<S> {
    G1(p.scalars.Sub(e.c2.log, p.scalars.mul(e.c1.log, secretKey)))
  }

  lemma DecryptInvertsEncrypt<S(!new)>(p: Primitives<S>, secretKey: S, randomness: S, msg: G1<S>)
    requires p.Valid()
    ensures Decrypt(p, secretKey, Encrypt(p, randomness, msg, G1(p.scalars.mul(p.scalars.one, secretKey)))) == msg
  {
    var f := p.scalars;
    f.OneMul(secretKey);
    f.OneMul(randomness);
    DecryptRelation(p, secretKey, Encrypt(p, randomness, msg, G1(f.mul(f.one, secretKey))), msg.log);
    assert f.MulComm(secretKey, randomness);
  }

  /** A ciphertext decrypts to m exactly when its second part is the first times the key, plus m. */
  /** Different randomness gives different encryptions, and different messages too. */
  lemma EncryptionsDiffer<S(!new)>(p: Primitives<S>, randomness: S, msg: G1<S>, randomness': S, msg': G1<S>,
                                   publicKey: G1<S>)
    requires p.Valid()
    ensures Encrypt(p, randomness, msg, publicKey).c1 == Encrypt(p, randomness', msg', publicKey).c1
       <==> randomness == randomness'
    ensures Encrypt(p, randomness, msg, publicKey) == Encrypt(p, randomness', msg', publicKey)
       <==> randomness == randomness' && msg == msg'
  {
    var f := p.scalars;
    f.OneMul(randomness);
    f.OneMul(randomness');
    if randomness == randomness' && Encrypt(p, randomness, msg, publicKey) == Encrypt(p, randomness', msg', publicKey) {
      f.AddCancel(f.mul(publicKey.log, randomness), msg.log, msg'.log);
    }
  }

  lemma DecryptRelation<S(!new)>(p: Primitives<S>, secretKey: S, e: Encryption<S>, m: S)
    requires p.Valid()
    ensures Decrypt(p, secretKey, e) == G1(m) <==> e.c2.log == p.scalars.add(p.scalars.mul(e.c1.log, secretKey), m)
  {
    var f := p.scalars;
    var k := f.mul(e.c1.log, secretKey);
    f.SubAdd(e.c2.log, k);
    assert f.AddComm(f.Sub(e.c2.log, k), k);
    if e.c2.log == f.add(k, m) {
      f.AddCancel(k, f.Sub(e.c2.log, k), m);
    }
  }

  /** How the library turns share indices into scalars: different indices, different non-zero scalars. */
  ghost predicate Embeds<S(!new)>(f: Field<S>, embed: nat -> S) {
    && (forall i :: 0 < i <= U16_MAX ==> embed(i) != f.zero)
    && (forall i, j :: 0 < i < j <= U16_MAX ==> embed(i) != embed(j))
  }

  function Points<S(!new)>(embed: nat -> S, shares: seq<(nat, G1<S>)>): seq<(S, S)> {
    seq(|shares|, i requires 0 <= i < |shares| => (embed(shares[i].0), shares[i].1.log))
  }

  /** The constant term of the polynomial through exactly threshold shares with distinct indices. */
  function RecoverC0<S(!new, ==)>(f: Field<S>, embed: nat -> S, threshold: nat,
                                  shares: seq<(nat, G1<S>)>): Result<G1<S>>
    requires f.IsField()
  {
    if |shares| != threshold || !Distinct(Xs(Points(embed, shares))) then Err(InvalidInput)
    else Ok(G1(Eval(f, Interpolate(f, Points(embed, shares)), f.zero)))
  }

  function Parties<S(!new)>(shares: seq<(nat, Encryption<S>)>): seq<nat> {
    seq(|shares|, i requires 0 <= i < |shares| => shares[i].0)
  }

  function FirstParts<S(!new)>(shares: seq<(nat, Encryption<S>)>): seq<(nat, G1<S>)> {
    seq(|shares|, i requires 0 <= i < |shares| => (shares[i].0 + 1, shares[i].1.c1))
  }

  function SecondParts<S(!new)>(shares: seq<(nat, Encryption<S>)>): seq<(nat, G1<S>)> {
    seq(|shares|, i requires 0 <= i < |shares| => (shares[i].0 + 1, shares[i].1.c2))
  }

  /** What aggregation computes: both parts interpolated at zero, if the party ids are distinct and
      leave room for the share index. */
  function Aggregated<S(!new, ==)>(f: Field<S>, embed: nat -> S, threshold: nat,
                                   shares: seq<(nat, Encryption<S>)>): Result<Encryption<S>>
    requires f.IsField()
  {
    if threshold == 0 || |shares| > U16_MAX || |shares| < threshold then Err(InvalidInput)
    else if U16_MAX in Parties(shares) || !Distinct(Parties(shares)) then Err(InvalidInput)
    else
      var c1 :- RecoverC0(f, embed, threshold, FirstParts(shares));
      var c2 :- RecoverC0(f, embed, threshold, SecondParts(shares));
      Ok(Encryption(c1, c2))
  }

  method AggregateEncrypted<S(!new, ==)>(f: Field<S>, embed: nat -> S, threshold: nat,
                                         shares: seq<(nat, Encryption<S>)>)
    returns (r: Result<Encryption<S>>)
    requires f.IsField()
    ensures r == Aggregated(f, embed, threshold, shares)
  {
    if threshold == 0 || |shares| > U16_MAX || |shares| < threshold {
      return Err(InvalidInput);
    }
    var seenIds: set<nat> := {};
    var c1Shares: seq<(nat, G1<S>)>, c2Shares: seq<(nat, G1<S>)> := [], [];
    for i := 0 to |shares|
      invariant c1Shares == FirstParts(shares[..i])
      invariant c2Shares == SecondParts(shares[..i])
      invariant U16_MAX !in Parties(shares[..i]) && Distinct(Parties(shares[..i]))
      invariant forall id :: id in seenIds <==> id in Parties(shares[..i])
    {
      var (id, e) := shares[i];
      assert Parties(shares[..i + 1]) == Parties(shares[..i]) + [id];
      assert Parties(shares)[..i + 1] == Parties(shares[..i + 1]);
      if id == U16_MAX || id in seenIds {
        assert !(U16_MAX !in Parties(shares) && Distinct(Parties(shares))) by {
          assert Parties(shares)[i] == id;
          if id in seenIds {
            var j :| 0 <= j < i && Parties(shares[..i])[j] == id;
            assert Parties(shares)[j] == id;
          }
        }
        return Err(InvalidInput);
      }
      seenIds := seenIds + {id};
      c1Shares := c1Shares + [(id + 1, e.c1)];
      c2Shares := c2Shares + [(id + 1, e.c2)];
    }
    assert shares[..|shares|] == shares;
    var c1 := RecoverC0(f, embed, threshold, c1Shares);
    if c1.Err? {
      return Err(c1.error);
    }
    var c2 := RecoverC0(f, embed, threshold, c2Shares);
    if c2.Err? {
      return Err(c2.error);
    }
    return Ok(Encryption(c1.value, c2.value));
  }

  /** Exactly when aggregation succeeds: threshold many encryptions, from different parties whose ids leave
      room for the share index. */
  lemma AggregationSucceeds<S(!new)>(f: Field<S>, embed: nat -> S, threshold: nat, shares: seq<(nat, Encryption<S>)>)
    requires f.IsField() && Embeds(f, embed)
    requires forall i :: 0 <= i < |shares| ==> shares[i].0 <= U16_MAX
    ensures Aggregated(f, embed, threshold, shares).Ok? <==>
      && 0 < threshold == |shares| <= U16_MAX
      && Distinct(Parties(shares))
      && forall i :: 0 <= i < |shares| ==> shares[i].0 != U16_MAX
  {
    assert forall i :: 0 <= i < |shares| ==> Parties(shares)[i] == shares[i].0;
    if Distinct(Parties(shares)) && forall i :: 0 <= i < |shares| ==> shares[i].0 != U16_MAX {
      ShareIndicesDistinct(f, embed, shares);
      assert Xs(Points(embed, FirstParts(shares))) == ShareIndices(embed, shares);
      assert Xs(Points(embed, SecondParts(shares))) == ShareIndices(embed, shares);
    }
  }

  // ----- Aggregation commutes with decryption

  /** Lagrange's formula is linear in the ordinates. */
  lemma {:induction false} LagrangeSumLinear<S(!new)>(f: Field<S>, a: seq<(S, S)>, b: seq<(S, S)>, c: seq<(S, S)>, s: S,
                                                      h: S, n: nat, x: S)
    requires f.IsField()
    requires |a| == |b| == |c| && n <= |a|
    requires Xs(a) == Xs(b) == Xs(c)
    requires forall i :: 0 <= i < |a| ==> c[i].1 == f.add(f.mul(a[i].1, s), f.mul(h, b[i].1))
    ensures LagrangeSum(f, c, n, x) == f.add(f.mul(LagrangeSum(f, a, n, x), s), f.mul(h, LagrangeSum(f, b, n, x)))
  {
    if n == 0 {
      f.MulZero(s);
      f.MulZero(h);
      assert f.AddZero(f.zero);
    } else {
      LagrangeSumLinear(f, a, b, c, s, h, n - 1, x);
      var l := LagrangeProduct(f, Xs(a), n - 1, |a|, x);
      var ya, yb := a[n - 1].1, b[n - 1].1;
      var sa, sb := LagrangeSum(f, a, n - 1, x), LagrangeSum(f, b, n - 1, x);
      LinearTerm(f, l, ya, yb, s, h);
      f.DistribRight(sa, f.mul(l, ya), s);
      assert f.Distrib(h, sb, f.mul(l, yb));
      f.AddSwap(f.mul(sa, s), f.mul(h, sb), f.mul(f.mul(l, ya), s), f.mul(h, f.mul(l, yb)));
    }
  }

  lemma LinearTerm<S(!new)>(f: Field<S>, l: S, ya: S, yb: S, s: S, h: S)
    requires f.IsField()
    ensures f.mul(l, f.add(f.mul(ya, s), f.mul(h, yb))) == f.add(f.mul(f.mul(l, ya), s), f.mul(h, f.mul(l, yb)))
  {
    assert f.Distrib(l, f.mul(ya, s), f.mul(h, yb));
    assert f.MulAssoc(l, ya, s) && f.MulAssoc(l, h, yb) && f.MulComm(l, h) && f.MulAssoc(h, l, yb);
  }

  /** The values of a polynomial at the share indices. */
  ghost function ValuePoints<S(!new)>(f: Field<S>, embed: nat -> S, shares: seq<(nat, Encryption<S>)>,
                                      poly: seq<S>): seq<(S, S)> {
    seq(|shares|, i requires 0 <= i < |shares| => (embed(shares[i].0 + 1), Eval(f, poly, embed(shares[i].0 + 1))))
  }

  /** Exactly threshold encryptions, under one key, of h times the values of a polynomial with at
      most threshold coefficients aggregate to an encryption of h times its constant term. */
  lemma AggregatedDecrypts<S(!new)>(p: Primitives<S>, embed: nat -> S, threshold: nat,
                                    shares: seq<(nat, Encryption<S>)>, secretKey: S, h: S, poly: seq<S>)
    requires p.Valid() && Embeds(p.scalars, embed)
    requires 0 < threshold == |shares| <= U16_MAX && |poly| <= threshold
    requires Distinct(Parties(shares)) && forall i :: 0 <= i < |shares| ==> shares[i].0 < U16_MAX
    requires forall i :: 0 <= i < |shares| ==>
               Decrypt(p, secretKey, shares[i].1) == G1(p.scalars.mul(h, Eval(p.scalars, poly, embed(shares[i].0 + 1))))
    ensures
      var r := Aggregated(p.scalars, embed, threshold, shares);
      r.Ok? && Decrypt(p, secretKey, r.value) == G1(p.scalars.mul(h, Eval(p.scalars, poly, p.scalars.zero)))
  {
    ShareIndicesDistinct(p.scalars, embed, shares);
    AggregatedAtDistinct(p, embed, shares, secretKey, h, poly);
  }

  lemma ValuesInterpolate<S(!new)>(f: Field<S>, embed: nat -> S, shares: seq<(nat, Encryption<S>)>, poly: seq<S>)
    requires f.IsField() && |poly| <= |shares|
    requires Distinct(ShareIndices(embed, shares))
    ensures Xs(ValuePoints(f, embed, shares, poly)) == ShareIndices(embed, shares)
    ensures Eval(f, Interpolate(f, ValuePoints(f, embed, shares, poly)), f.zero) == Eval(f, poly, f.zero)
  {
    assert Xs(ValuePoints(f, embed, shares, poly)) == ShareIndices(embed, shares);
    InterpolateRecovers(f, ValuePoints(f, embed, shares, poly), poly, f.zero);
  }

  lemma SharesLinear<S(!new)>(p: Primitives<S>, embed: nat -> S, shares: seq<(nat, Encryption<S>)>, secretKey: S, h: S,
                              poly: seq<S>)
    requires p.Valid()
    requires forall i :: 0 <= i < |shares| ==>
               Decrypt(p, secretKey, shares[i].1) == G1(p.scalars.mul(h, Eval(p.scalars, poly, embed(shares[i].0 + 1))))
    ensures
      var f := p.scalars;
      var a, b, c := Points(embed, FirstParts(shares)), ValuePoints(f, embed, shares, poly),
          Points(embed, SecondParts(shares));
      forall i :: 0 <= i < |shares| ==> c[i].1 == f.add(f.mul(a[i].1, secretKey), f.mul(h, b[i].1))
  {
    var f, b := p.scalars, ValuePoints(p.scalars, embed, shares, poly);
    forall i | 0 <= i < |shares|
      ensures shares[i].1.c2.log == f.add(f.mul(shares[i].1.c1.log, secretKey), f.mul(h, b[i].1)) {
      DecryptRelation(p, secretKey, shares[i].1, f.mul(h, b[i].1));
    }
  }

  lemma AggregatedAtDistinct<S(!new)>(p: Primitives<S>, embed: nat -> S, shares: seq<(nat, Encryption<S>)>,
                                      secretKey: S, h: S, poly: seq<S>)
    requires p.Valid()
    requires 0 < |shares| <= U16_MAX && |poly| <= |shares|
    requires Distinct(Parties(shares)) && forall i :: 0 <= i < |shares| ==> shares[i].0 < U16_MAX
    requires Distinct(ShareIndices(embed, shares))
    requires forall i :: 0 <= i < |shares| ==>
               Decrypt(p, secretKey, shares[i].1) == G1(p.scalars.mul(h, Eval(p.scalars, poly, embed(shares[i].0 + 1))))
    ensures
      var r := Aggregated(p.scalars, embed, |shares|, shares);
      r.Ok? && Decrypt(p, secretKey, r.value) == G1(p.scalars.mul(h, Eval(p.scalars, poly, p.scalars.zero)))
  {
    var f, at := p.scalars, p.scalars.zero;
    var a, b, c := Points(embed, FirstParts(shares)), ValuePoints(f, embed, shares, poly),
        Points(embed, SecondParts(shares));
    var e := AggregatedParts(f, embed, shares);
    ValuesInterpolate(f, embed, shares, poly);
    SharesLinear(p, embed, shares, secretKey, h, poly);
    InterpolationLinear(f, a, b, c, secretKey, h, at);
    DecryptRelation(p, secretKey, e, f.mul(h, Eval(f, poly, at)));
  }

  ghost function ShareIndices<S(!new)>(embed: nat -> S, shares: seq<(nat, Encryption<S>)>): seq<S> {
    seq(|shares|, i requires 0 <= i < |shares| => embed(shares[i].0 + 1))
  }

  lemma ShareIndicesDistinct<S(!new)>(f: Field<S>, embed: nat -> S, shares: seq<(nat, Encryption<S>)>)
    requires Embeds(f, embed)
    requires Distinct(Parties(shares)) && forall i :: 0 <= i < |shares| ==> shares[i].0 < U16_MAX
    ensures Distinct(ShareIndices(embed, shares))
  {
    forall i, j | 0 <= i < j < |shares| ensures embed(shares[i].0 + 1) != embed(shares[j].0 + 1) {
      assert Parties(shares)[i] != Parties(shares)[j];
    }
  }

  lemma AggregatedParts<S(!new)>(f: Field<S>, embed: nat -> S, shares: seq<(nat, Encryption<S>)>)
    returns (e: Encryption<S>)
    requires f.IsField() && 0 < |shares| <= U16_MAX
    requires Distinct(Parties(shares)) && forall i :: 0 <= i < |shares| ==> shares[i].0 < U16_MAX
    requires Distinct(ShareIndices(embed, shares))
    ensures Xs(Points(embed, FirstParts(shares))) == Xs(Points(embed, SecondParts(shares)))
        == ShareIndices(embed, shares)
    ensures Aggregated(f, embed, |shares|, shares) == Ok(e)
    ensures e.c1.log == Eval(f, Interpolate(f, Points(embed, FirstParts(shares))), f.zero)
    ensures e.c2.log == Eval(f, Interpolate(f, Points(embed, SecondParts(shares))), f.zero)
  {
    assert Xs(Points(embed, FirstParts(shares))) == ShareIndices(embed, shares);
    assert Xs(Points(embed, SecondParts(shares))) == ShareIndices(embed, shares);
    e := Aggregated(f, embed, |shares|, shares).value;
  }

  lemma InterpolationLinear<S(!new)>(f: Field<S>, a: seq<(S, S)>, b: seq<(S, S)>, c: seq<(S, S)>, s: S, h: S, x: S)
    requires f.IsField()
    requires |a| == |b| == |c| && Xs(a) == Xs(b) == Xs(c) && Distinct(Xs(a))
    requires forall i :: 0 <= i < |a| ==> c[i].1 == f.add(f.mul(a[i].1, s), f.mul(h, b[i].1))
    ensures Eval(f, Interpolate(f, c), x)
        == f.add(f.mul(Eval(f, Interpolate(f, a), x), s), f.mul(h, Eval(f, Interpolate(f, b), x)))
  {
    LagrangeSumLinear(f, a, b, c, s, h, |a|, x);
    EvalInterpolateUpTo(f, a, |a|, x);
    EvalInterpolateUpTo(f, b, |a|, x);
    EvalInterpolateUpTo(f, c, |a|, x);
  }

  // ----- Encrypted key shares

  /** The check of an encrypted key share against the public key of its sender: no part is the
      identity, and e(c2, g2) == e(c1, vk) + e(H(id), pk). */
  predicate VerifyEncryptedSignature<S(!new, ==)>(p: Primitives<S>, e: Encryption<S>, verificationKey: G2<S>,
                                                  partialKey: G2<S>, id: seq<Byte>) {
    && e.c1.log != p.scalars.zero && e.c2.log != p.scalars.zero
    && verificationKey.log != p.scalars.zero && partialKey.log != p.scalars.zero
    && p.Pairing(e.c2, p.G2Generator()).log
       == p.scalars.add(p.Pairing(e.c1, verificationKey).log, p.Pairing(HashToG1(p, id), partialKey).log)
  }

  /** Unless some part is the identity, the check accepts exactly the encryptions of the key share
      extracted with the sender's master share. */
  lemma VerifiedDecryptsToExtracted<S(!new)>(p: Primitives<S>, e: Encryption<S>, secretKey: S, masterShare: S,
                                             id: seq<Byte>)
    requires p.Valid()
    ensures
      var vk, pk := PublicKeyFromMasterKey(p, secretKey), PublicKeyFromMasterKey(p, masterShare);
      VerifyEncryptedSignature(p, e, vk, pk, id) <==>
        && Decrypt(p, secretKey, e) == Extract(p, masterShare, id)
        && p.scalars.zero !in {e.c1.log, e.c2.log, secretKey, masterShare}
  {
    var f := p.scalars;
    f.OneMul(secretKey);
    f.OneMul(masterShare);
    assert f.MulOne(e.c2.log);
    DecryptRelation(p, secretKey, e, f.mul(HashToG1(p, id).log, masterShare));
  }
}
