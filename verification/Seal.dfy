/** The key encapsulation of Seal: a random base key is secret shared among key servers, each share
    encrypted to the public key of its server under the identity of the object, and the message is
    encrypted under a key derived from the base key. */
module Seal {
  import opened Bytes
  import opened Fields
  import opened Results
  import opened Polynomials
  import opened Interpolation
  import opened Sequences
  import opened Ibe
  import Dem
  import Gf256
  import Tss

  datatype Encryptions<S> = Encryptions(nonce: G2<S>, encryptedShares: seq<Key>, encryptedRandomness: Key)

  datatype EncryptedObject<S> = EncryptedObject(
    version: nat,
    packageId: Key,
    id: seq<Byte>,
    services: seq<Info>,
    threshold: Byte,
    encryptions: Encryptions<S>,
    ciphertext: Dem.Ciphertext)

  function CreateFullId(packageId: Key, id: seq<Byte>): seq<Byte> { packageId + id }

  /** The full id determines the package and the id. */
  lemma FullIdDetermines(packageId: Key, id: seq<Byte>, packageId': Key, id': seq<Byte>)
    ensures CreateFullId(packageId, id) == CreateFullId(packageId', id') <==> packageId == packageId' && id == id'
    ensures packageId <= CreateFullId(packageId, id)
  {
    if CreateFullId(packageId, id) == CreateFullId(packageId', id') {
      ConcatInjective(packageId, id, packageId', id');
    }
  }

  // ----- Key derivation

  datatype KeyPurpose = EncryptedRandomness | DemKey

  function PurposeTag(purpose: KeyPurpose): seq<Byte> {
    match purpose
    case EncryptedRandomness => [0]
    case DemKey => [1]
  }

  const DST_DERIVE_KEY: seq<Byte> := Ascii("SUI-SEAL-IBE-BLS12381-H3-00")

  function DeriveKeyInput(purpose: KeyPurpose, baseKey: Key, encryptedShares: seq<Key>, threshold: Byte,
                          keyServers: seq<ObjectId>): seq<Byte> {
    DST_DERIVE_KEY + baseKey + PurposeTag(purpose) + [threshold] + Flatten(encryptedShares) + Flatten(keyServers)
  }

  /** The source asserts that there are as many shares as key servers. */
  function DeriveKey<S(!new)>(p: Primitives<S>, purpose: KeyPurpose, baseKey: Key, encryptedShares: seq<Key>,
                              threshold: Byte, keyServers: seq<ObjectId>): Key
    requires |encryptedShares| == |keyServers|
  {
    p.sha3(DeriveKeyInput(purpose, baseKey, encryptedShares, threshold, keyServers))
  }

  lemma {:induction false} FlattenSnoc(keys: seq<Key>, key: Key)
    ensures Flatten(keys + [key]) == Flatten(keys) + key
  {
    if |keys| == 0 {
      assert keys + [key] == [key];
    } else {
      FlattenSnoc(keys[1..], key);
      assert (keys + [key])[1..] == keys[1..] + [key];
    }
  }

  /** Key derivation as the source does it, feeding a hash state piece by piece. */
  method HashDeriveKey<S(!new)>(p: Primitives<S>, purpose: KeyPurpose, baseKey: Key, encryptedShares: seq<Key>,
                                threshold: Byte, keyServers: seq<ObjectId>) returns (key: Key)
    requires |encryptedShares| == |keyServers|
    ensures key == DeriveKey(p, purpose, baseKey, encryptedShares, threshold, keyServers)
  {
    var hashed := DST_DERIVE_KEY + baseKey + PurposeTag(purpose) + [threshold];
    ghost var header := hashed;
    for i := 0 to |encryptedShares|
      invariant hashed == header + Flatten(encryptedShares[..i])
    {
      FlattenSnoc(encryptedShares[..i], encryptedShares[i]);
      assert encryptedShares[..i] + [encryptedShares[i]] == encryptedShares[..i + 1];
      hashed := hashed + encryptedShares[i];
    }
    assert encryptedShares[..|encryptedShares|] == encryptedShares;
    for i := 0 to |keyServers|
      invariant hashed == header + Flatten(encryptedShares) + Flatten(keyServers[..i])
    {
      FlattenSnoc(keyServers[..i], keyServers[i]);
      assert keyServers[..i] + [keyServers[i]] == keyServers[..i + 1];
      hashed := hashed + keyServers[i];
    }
    assert keyServers[..|keyServers|] == keyServers;
    key := p.sha3(hashed);
  }

  /** What is hashed determines the purpose, the base key, the threshold, and, for equal numbers of
      shares, the shares and the key servers. */
  lemma DeriveKeyInputInjective(purpose: KeyPurpose, baseKey: Key, shares: seq<Key>, threshold: Byte,
                                servers: seq<ObjectId>, purpose': KeyPurpose, baseKey': Key, shares': seq<Key>,
                                threshold': Byte, servers': seq<ObjectId>)
    requires |shares| == |shares'| && |servers| == |servers'|
    requires DeriveKeyInput(purpose, baseKey, shares, threshold, servers)
        == DeriveKeyInput(purpose', baseKey', shares', threshold', servers')
    ensures purpose == purpose' && baseKey == baseKey' && shares == shares' && threshold == threshold'
        && servers == servers'
  {
    var d, t, t' := DST_DERIVE_KEY, PurposeTag(purpose), PurposeTag(purpose');
    ConcatInjective(d + baseKey + t + [threshold] + Flatten(shares), Flatten(servers),
                    d + baseKey' + t' + [threshold'] + Flatten(shares'), Flatten(servers'));
    ConcatInjective(d + baseKey + t + [threshold], Flatten(shares), d + baseKey' + t' + [threshold'], Flatten(shares'));
    ConcatInjective(d + baseKey + t, [threshold], d + baseKey' + t', [threshold']);
    ConcatInjective(d + baseKey, t, d + baseKey', t');
    ConcatInjective(d, baseKey, d, baseKey');
    FlattenInjective(shares, shares');
    FlattenInjective(servers, servers');
  }

  /** Two derived keys are hashes of byte strings that are equal only if nothing differs: the purpose, the
      base key, the threshold, the encrypted shares and the key servers all count. */
  lemma DerivedKeysDiffer<S(!new)>(p: Primitives<S>, purpose: KeyPurpose, baseKey: Key, shares: seq<Key>,
                                   threshold: Byte, servers: seq<ObjectId>, purpose': KeyPurpose, baseKey': Key,
                                   shares': seq<Key>, threshold': Byte, servers': seq<ObjectId>)
    returns (x: seq<Byte>, y: seq<Byte>)
    requires |shares| == |servers| == |shares'| == |servers'|
    ensures DeriveKey(p, purpose, baseKey, shares, threshold, servers) == p.sha3(x)
    ensures DeriveKey(p, purpose', baseKey', shares', threshold', servers') == p.sha3(y)
    ensures x == y <==>
      && purpose == purpose' && baseKey == baseKey' && shares == shares' && threshold == threshold'
      && servers == servers'
    ensures |x| == 61 + 64 * |shares| && x[..27] == DST_DERIVE_KEY && x[27..59] == baseKey
    ensures x[59] == (if purpose.EncryptedRandomness? then 0 else 1) && x[60] == threshold
    ensures x[61..61 + 32 * |shares|] == Flatten(shares) && x[61 + 32 * |shares|..] == Flatten(servers)
  {
    x := DeriveKeyInput(purpose, baseKey, shares, threshold, servers);
    y := DeriveKeyInput(purpose', baseKey', shares', threshold', servers');
    DeriveKeyLayout(purpose, baseKey, shares, threshold, servers);
    if x == y {
      DeriveKeyInputInjective(purpose, baseKey, shares, threshold, servers, purpose', baseKey', shares', threshold',
                              servers');
    }
  }

  lemma DeriveKeyLayout(purpose: KeyPurpose, baseKey: Key, shares: seq<Key>, threshold: Byte, servers: seq<ObjectId>)
    requires |shares| == |servers|
    ensures
      var x := DeriveKeyInput(purpose, baseKey, shares, threshold, servers);
      && |x| == 61 + 64 * |shares| && x[..27] == DST_DERIVE_KEY && x[27..59] == baseKey
      && x[59] == (if purpose.EncryptedRandomness? then 0 else 1) && x[60] == threshold
      && x[61..61 + 32 * |shares|] == Flatten(shares) && x[61 + 32 * |shares|..] == Flatten(servers)
  {
    assert |DST_DERIVE_KEY| == 27;
  }

  // ----- Decryption

  ghost predicate Ready<S(!new)>(f: Field<Byte>, p: Primitives<S>) {
    Tss.ByteField(f) && p.Valid()
  }

  lemma Gf256IsReady<S(!new)>(p: Primitives<S>)
    requires p.Valid()
    ensures Ready(Gf256.GF256, p)
  {
    Tss.Gf256IsByteField();
  }

  function ServerIds(services: seq<Info>): (ids: seq<ObjectId>)
    ensures |ids| == |services|
  {
    seq(|services|, i requires 0 <= i < |services| => services[i].0)
  }

  /** The positions below n of the services for which there is a user key. */
  function CoveredUpTo<S(!new)>(services: seq<Info>, userKeys: map<ObjectId, G1<S>>, n: nat): (r: seq<nat>)
    requires n <= |services|
    ensures |r| <= n
    ensures forall k :: 0 <= k < |r| ==> r[k] < n && services[r[k]].0 in userKeys
    ensures forall i, j :: 0 <= i < j < |r| ==> r[i] < r[j]
    ensures forall i :: 0 <= i < n && services[i].0 in userKeys ==> i in r
  {
    if n == 0 then []
    else if services[n - 1].0 in userKeys then CoveredUpTo(services, userKeys, n - 1) + [n - 1]
    else CoveredUpTo(services, userKeys, n - 1)
  }

  function Covered<S(!new)>(services: seq<Info>, userKeys: map<ObjectId, G1<S>>): (r: seq<nat>)
    ensures forall k :: 0 <= k < |r| ==> r[k] < |services| && services[r[k]].0 in userKeys
    ensures Distinct(r)
    ensures forall i :: 0 <= i < |services| && services[i].0 in userKeys ==> i in r
  {
    CoveredUpTo(services, userKeys, |services|)
  }

  function DecryptShare<S(!new)>(p: Primitives<S>, obj: EncryptedObject<S>, userKeys: map<ObjectId, G1<S>>,
                                 i: nat): (Byte, Key)
    requires i < |obj.services| == |obj.encryptions.encryptedShares|
    requires obj.services[i].0 in userKeys
  {
    var info := obj.services[i];
    (info.1, Ibe.Decrypt(p, obj.encryptions.nonce, obj.encryptions.encryptedShares[i], userKeys[info.0],
                     CreateFullId(obj.packageId, obj.id), info))
  }

  function DecryptShares<S(!new)>(p: Primitives<S>, obj: EncryptedObject<S>,
                                  userKeys: map<ObjectId, G1<S>>): (shares: seq<(Byte, Key)>)
    requires |obj.services| == |obj.encryptions.encryptedShares|
    ensures |shares| == |Covered(obj.services, userKeys)|
  {
    var covered := Covered(obj.services, userKeys);
    seq(|covered|, k requires 0 <= k < |covered| => DecryptShare(p, obj, userKeys, covered[k]))
  }

  function RecoverRandomness<S(!new, ==)>(p: Primitives<S>, encryptions: Encryptions<S>, services: seq<Info>,
                                          threshold: Byte, baseKey: Key): Result<S>
    requires |encryptions.encryptedShares| == |services|
  {
    var key := DeriveKey(p, EncryptedRandomness, baseKey, encryptions.encryptedShares, threshold, ServerIds(services));
    var randomness :- DecryptRandomness(p, encryptions.encryptedRandomness, key);
    if VerifyNonce(p, randomness, encryptions.nonce) then Ok(randomness) else Err(GeneralError("Invalid randomness"))
  }

  function CombineAndVerifyNonce<S(!new, ==)>(f: Field<Byte>, p: Primitives<S>, encryptions: Encryptions<S>,
                                              shares: seq<(Byte, Key)>, services: seq<Info>,
                                              threshold: Byte): Result<Key>
    requires f.IsField()
    requires |encryptions.encryptedShares| == |services|
  {
    var baseKey: Key :- Tss.Combine(f, KEY_SIZE, shares);
    var _ :- RecoverRandomness(p, encryptions, services, threshold, baseKey);
    Ok(baseKey)
  }

  /** Decrypt the share of every service with the recovered randomness. */
  function DecryptAllShares<S(!new, ==)>(p: Primitives<S>, encryptions: Encryptions<S>, fullId: seq<Byte>,
                                         services: seq<Info>, publicKeys: seq<G2<S>>, baseKey: Key,
                                         threshold: Byte): Result<seq<(Byte, Key)>>
    requires |encryptions.encryptedShares| == |services|
  {
    var randomness :- RecoverRandomness(p, encryptions, services, threshold, baseKey);
    if |publicKeys| != |encryptions.encryptedShares| then Err(InvalidInput)
    else
      Ok(seq(|services|, i requires 0 <= i < |services| =>
        (services[i].1, DecryptDeterministic(p, randomness, encryptions.encryptedShares[i], publicKeys[i], fullId,
                                             services[i]))))
  }

  predicate Consistent(f: Field<Byte>, ps: seq<seq<Byte>>, shares: seq<(Byte, Key)>) {
    forall i :: 0 <= i < |shares| ==> Tss.EvalAll(f, ps, shares[i].0) == shares[i].1
  }

  function CombineAndCheckShareConsistency<S(!new, ==)>(f: Field<Byte>, p: Primitives<S>, encryptions: Encryptions<S>,
                                                        shares: seq<(Byte, Key)>, fullId: seq<Byte>,
                                                        services: seq<Info>, threshold: Byte,
                                                        publicKeys: seq<G2<S>>): Result<Key>
    requires f.IsField()
    requires |encryptions.encryptedShares| == |services|
  {
    var ps :- Tss.InterpolateShares(f, KEY_SIZE, shares);
    var baseKey: Key := Tss.EvalAll(f, ps, 0);
    var allShares :- DecryptAllShares(p, encryptions, fullId, services, publicKeys, baseKey, threshold);
    if Consistent(f, ps, allShares) then Ok(baseKey) else Err(GeneralError("Inconsistent shares"))
  }

  /** The base key of an encrypted object; with public keys, all shares are checked. */
  function RecoverBaseKey<S(!new, ==)>(f: Field<Byte>, p: Primitives<S>, obj: EncryptedObject<S>,
                                       userKeys: map<ObjectId, G1<S>>, publicKeys: Option<seq<G2<S>>>): (r: Result<Key>)
    requires f.IsField()
    ensures r.Ok? ==>
      && obj.version == 0
      && |obj.encryptions.encryptedShares| == |obj.services|
      && |Covered(obj.services, userKeys)| >= obj.threshold as nat
      && Tss.ValidIndices(f, Tss.Indices(DecryptShares(p, obj, userKeys)))
  {
    if obj.version != 0 then Err(InvalidInput)
    else if |obj.encryptions.encryptedShares| != |obj.services| then Err(InvalidInput)
    else if |Covered(obj.services, userKeys)| < obj.threshold as nat then Err(InvalidInput)
    else
      var shares := DecryptShares(p, obj, userKeys);
      match publicKeys
      case Some(pks) =>
        CombineAndCheckShareConsistency(f, p, obj.encryptions, shares, CreateFullId(obj.packageId, obj.id),
                                        obj.services, obj.threshold, pks)
      case None =>
        CombineAndVerifyNonce(f, p, obj.encryptions, shares, obj.services, obj.threshold)
  }

  /** Total: no assertion of the source about lengths can fail, whatever the object, the user keys
      and the public keys are. */
  function SealDecrypt<S(!new, ==)>(f: Field<Byte>, p: Primitives<S>, obj: EncryptedObject<S>,
                                    userKeys: map<ObjectId, G1<S>>,
                                    publicKeys: Option<seq<G2<S>>>): (r: Result<seq<Byte>>)
    requires f.IsField()
    ensures r.Ok? ==>
      && obj.version == 0
      && |obj.encryptions.encryptedShares| == |obj.services|
      && |Covered(obj.services, userKeys)| >= (if obj.threshold == 0 then 1 else obj.threshold as nat)
      && Tss.ValidIndices(f, Tss.Indices(DecryptShares(p, obj, userKeys)))
  {
    var baseKey :- RecoverBaseKey(f, p, obj, userKeys, publicKeys);
    var key := DeriveKey(p, DemKey, baseKey, obj.encryptions.encryptedShares, obj.threshold, ServerIds(obj.services));
    Dem.Decrypt(p, obj.ciphertext, key)
  }

  // ----- Shares that lie on polynomials

  /** The shares determine the polynomials: there are at least as many shares as coefficients. */
  ghost predicate OnPolynomials(f: Field<Byte>, shares: seq<(Byte, Key)>, ps: seq<seq<Byte>>) {
    && Tss.ValidIndices(f, Tss.Indices(shares))
    && |ps| == KEY_SIZE
    && forall i :: 0 <= i < KEY_SIZE ==> |ps[i]| <= |shares| && PassesThrough(f, ps[i], Tss.Column(shares, i))
  }

  lemma InterpolatedAgree(f: Field<Byte>, shares: seq<(Byte, Key)>, ps: seq<seq<Byte>>, x: Byte)
    requires Tss.ByteField(f)
    requires OnPolynomials(f, shares, ps)
    ensures Tss.InterpolateShares(f, KEY_SIZE, shares).Ok?
    ensures Tss.EvalAll(f, Tss.InterpolateShares(f, KEY_SIZE, shares).value, x) == Tss.EvalAll(f, ps, x)
  {
    var qs := Tss.InterpolateShares(f, KEY_SIZE, shares).value;
    forall i | 0 <= i < KEY_SIZE ensures Tss.EvalAll(f, qs, x)[i] == Tss.EvalAll(f, ps, x)[i] {
      InterpolateRecovers(f, Tss.Column(shares, i), ps[i], x);
    }
  }

  /** Every service's share, decrypted with the randomness, lies on the polynomials. */
  ghost predicate AllOnPolynomials<S(!new)>(f: Field<Byte>, p: Primitives<S>, encryptions: Encryptions<S>,
                                            fullId: seq<Byte>, services: seq<Info>, publicKeys: seq<G2<S>>,
                                            randomness: S, ps: seq<seq<Byte>>)
    requires |encryptions.encryptedShares| == |services| == |publicKeys|
  {
    forall i :: 0 <= i < |services| ==>
      Tss.EvalAll(f, ps, services[i].1)
      == DecryptDeterministic(p, randomness, encryptions.encryptedShares[i], publicKeys[i], fullId, services[i])
  }

  lemma BothCombinationsSucceed<S(!new)>(f: Field<Byte>, p: Primitives<S>, encryptions: Encryptions<S>,
                                         shares: seq<(Byte, Key)>, fullId: seq<Byte>, services: seq<Info>,
                                         threshold: Byte, publicKeys: seq<G2<S>>, ps: seq<seq<Byte>>, baseKey: Key,
                                         randomness: S)
    requires Tss.ByteField(f)
    requires |encryptions.encryptedShares| == |services| == |publicKeys|
    requires OnPolynomials(f, shares, ps) && baseKey == Tss.EvalAll(f, ps, 0)
    requires RecoverRandomness(p, encryptions, services, threshold, baseKey) == Ok(randomness)
    requires AllOnPolynomials(f, p, encryptions, fullId, services, publicKeys, randomness, ps)
    ensures CombineAndVerifyNonce(f, p, encryptions, shares, services, threshold) == Ok(baseKey)
    ensures CombineAndCheckShareConsistency(f, p, encryptions, shares, fullId, services, threshold, publicKeys)
        == Ok(baseKey)
  {
    Tss.CombineOnPolynomials(f, KEY_SIZE, shares, ps);
    InterpolatedAgree(f, shares, ps, 0);
    var qs := Tss.InterpolateShares(f, KEY_SIZE, shares).value;
    var allShares := DecryptAllShares(p, encryptions, fullId, services, publicKeys, baseKey, threshold).value;
    forall i | 0 <= i < |allShares| ensures Tss.EvalAll(f, qs, allShares[i].0) == allShares[i].1 {
      InterpolatedAgree(f, shares, ps, services[i].1);
    }
  }

  // ----- What the consistency check guarantees

  ghost predicate VerifiedKeys<S(!new)>(p: Primitives<S>, obj: EncryptedObject<S>, userKeys: map<ObjectId, G1<S>>,
                                        publicKeys: seq<G2<S>>)
    requires |obj.services| == |publicKeys|
  {
    forall i :: 0 <= i < |obj.services| && obj.services[i].0 in userKeys ==>
      VerifyUserSecretKey(p, userKeys[obj.services[i].0], CreateFullId(obj.packageId, obj.id), publicKeys[i])
  }

  /** Verified user keys decrypt to points of the polynomials that all shares lie on. */
  lemma DecryptedOnPolynomials<S(!new)>(f: Field<Byte>, p: Primitives<S>, obj: EncryptedObject<S>,
                                        userKeys: map<ObjectId, G1<S>>, publicKeys: seq<G2<S>>, randomness: S,
                                        ps: seq<seq<Byte>>)
    requires Ready(f, p)
    requires |obj.encryptions.encryptedShares| == |obj.services| == |publicKeys|
    requires VerifiedKeys(p, obj, userKeys, publicKeys)
    requires VerifyNonce(p, randomness, obj.encryptions.nonce)
    requires AllOnPolynomials(f, p, obj.encryptions, CreateFullId(obj.packageId, obj.id), obj.services, publicKeys,
                              randomness, ps)
    requires |ps| == KEY_SIZE
    requires Tss.ValidIndices(f, Tss.Indices(DecryptShares(p, obj, userKeys)))
    requires forall i :: 0 <= i < KEY_SIZE ==> |ps[i]| <= |Covered(obj.services, userKeys)|
    ensures OnPolynomials(f, DecryptShares(p, obj, userKeys), ps)
  {
    var covered, shares := Covered(obj.services, userKeys), DecryptShares(p, obj, userKeys);
    forall k | 0 <= k < |covered| ensures shares[k].1 == Tss.EvalAll(f, ps, shares[k].0) {
      var i := covered[k];
      DecryptionsAgree(p, randomness, obj.encryptions.nonce, obj.encryptions.encryptedShares[i], publicKeys[i],
                       userKeys[obj.services[i].0], CreateFullId(obj.packageId, obj.id), obj.services[i]);
    }
    forall i | 0 <= i < KEY_SIZE ensures PassesThrough(f, ps[i], Tss.Column(shares, i)) {
      forall k | 0 <= k < |shares| ensures Eval(f, ps[i], shares[k].0) == shares[k].1[i] {
        assert Tss.EvalAll(f, ps, shares[k].0)[i] == Eval(f, ps[i], shares[k].0);
      }
    }
  }

  lemma DecryptedAll<S(!new)>(p: Primitives<S>, encryptions: Encryptions<S>, fullId: seq<Byte>, services: seq<Info>,
                              publicKeys: seq<G2<S>>, baseKey: Key, threshold: Byte) returns (randomness: S)
    requires |encryptions.encryptedShares| == |services|
    requires DecryptAllShares(p, encryptions, fullId, services, publicKeys, baseKey, threshold).Ok?
    ensures |services| == |publicKeys|
    ensures RecoverRandomness(p, encryptions, services, threshold, baseKey) == Ok(randomness)
    ensures VerifyNonce(p, randomness, encryptions.nonce)
    ensures
      var all := DecryptAllShares(p, encryptions, fullId, services, publicKeys, baseKey, threshold).value;
      |all| == |services| && forall i :: 0 <= i < |services| ==>
        all[i] == (services[i].1, DecryptDeterministic(p, randomness, encryptions.encryptedShares[i], publicKeys[i],
                                                       fullId, services[i]))
  {
    randomness := RecoverRandomness(p, encryptions, services, threshold, baseKey).value;
  }

  /** When the check passes, all shares lie on the polynomials through the given shares. */
  lemma CheckedShares<S(!new)>(f: Field<Byte>, p: Primitives<S>, encryptions: Encryptions<S>, shares: seq<(Byte, Key)>,
                               fullId: seq<Byte>, services: seq<Info>, threshold: Byte, publicKeys: seq<G2<S>>)
    returns (ps: seq<seq<Byte>>, baseKey: Key, randomness: S)
    requires f.IsField()
    requires |encryptions.encryptedShares| == |services|
    requires CombineAndCheckShareConsistency(f, p, encryptions, shares, fullId, services, threshold, publicKeys).Ok?
    ensures |services| == |publicKeys|
    ensures Tss.InterpolateShares(f, KEY_SIZE, shares) == Ok(ps) && |ps| == KEY_SIZE
    ensures CombineAndCheckShareConsistency(f, p, encryptions, shares, fullId, services, threshold, publicKeys)
        == Ok(baseKey)
    ensures baseKey == Tss.EvalAll(f, ps, 0)
    ensures RecoverRandomness(p, encryptions, services, threshold, baseKey) == Ok(randomness)
    ensures VerifyNonce(p, randomness, encryptions.nonce)
    ensures AllOnPolynomials(f, p, encryptions, fullId, services, publicKeys, randomness, ps)
  {
    ps := Tss.InterpolateShares(f, KEY_SIZE, shares).value;
    baseKey := Tss.EvalAll(f, ps, 0);
    randomness := DecryptedAll(p, encryptions, fullId, services, publicKeys, baseKey, threshold);
    var all := DecryptAllShares(p, encryptions, fullId, services, publicKeys, baseKey, threshold).value;
    assert Consistent(f, ps, all);
    forall i | 0 <= i < |services|
      ensures Tss.EvalAll(f, ps, services[i].1)
          == DecryptDeterministic(p, randomness, encryptions.encryptedShares[i], publicKeys[i], fullId, services[i])
    {
      assert all[i].0 == services[i].1;
    }
  }

  lemma CombinedKey<S(!new)>(f: Field<Byte>, p: Primitives<S>, encryptions: Encryptions<S>, shares: seq<(Byte, Key)>,
                             services: seq<Info>, threshold: Byte, key: Key)
    requires f.IsField() && |encryptions.encryptedShares| == |services|
    requires CombineAndVerifyNonce(f, p, encryptions, shares, services, threshold) == Ok(key)
    ensures Tss.Combine(f, KEY_SIZE, shares) == Ok(key)
    ensures RecoverRandomness(p, encryptions, services, threshold, key).Ok?
    ensures VerifyNonce(p, RecoverRandomness(p, encryptions, services, threshold, key).value, encryptions.nonce)
  {
  }

  lemma CombinedIsInterpolated(f: Field<Byte>, shares: seq<(Byte, Key)>, key: Key)
    requires Tss.ByteField(f)
    requires Tss.Combine(f, KEY_SIZE, shares) == Ok(key)
    ensures Tss.InterpolateShares(f, KEY_SIZE, shares).Ok?
    ensures key == Tss.EvalAll(f, Tss.InterpolateShares(f, KEY_SIZE, shares).value, 0)
  {
    Tss.CombineRefinesInterpolate(f, KEY_SIZE, shares);
  }

  /** A key recovered without public keys is the value at zero of the polynomials through the shares
      used, and decrypts the randomness that the nonce was made from. */
  lemma RecoveredKey<S(!new)>(f: Field<Byte>, p: Primitives<S>, obj: EncryptedObject<S>, userKeys: map<ObjectId, G1<S>>,
                              key: Key)
    requires Ready(f, p)
    requires RecoverBaseKey(f, p, obj, userKeys, None) == Ok(key)
    ensures RecoverRandomness(p, obj.encryptions, obj.services, obj.threshold, key).Ok?
    ensures VerifyNonce(p, RecoverRandomness(p, obj.encryptions, obj.services, obj.threshold, key).value,
                        obj.encryptions.nonce)
    ensures key == Tss.EvalAll(f, Tss.InterpolateShares(f, KEY_SIZE, DecryptShares(p, obj, userKeys)).value, 0)
  {
    var shares := DecryptShares(p, obj, userKeys);
    CombinedKey(f, p, obj.encryptions, shares, obj.services, obj.threshold, key);
    CombinedIsInterpolated(f, shares, key);
  }

  /** The shares of all services, decrypted with the randomness that the key decrypts, lie on the
      polynomials through the shares used. */
  ghost predicate AllSharesFit<S(!new)>(f: Field<Byte>, p: Primitives<S>, obj: EncryptedObject<S>,
                                        publicKeys: seq<G2<S>>, userKeys: map<ObjectId, G1<S>>, key: Key)
    requires f.IsField()
  {
    && |obj.encryptions.encryptedShares| == |obj.services| == |publicKeys|
    && RecoverRandomness(p, obj.encryptions, obj.services, obj.threshold, key).Ok?
    && Tss.InterpolateShares(f, KEY_SIZE, DecryptShares(p, obj, userKeys)).Ok?
    && AllOnPolynomials(f, p, obj.encryptions, CreateFullId(obj.packageId, obj.id), obj.services, publicKeys,
                        RecoverRandomness(p, obj.encryptions, obj.services, obj.threshold, key).value,
                        Tss.InterpolateShares(f, KEY_SIZE, DecryptShares(p, obj, userKeys)).value)
  }

  /** What the check adds: decryption with public keys recovers a key exactly when decryption without
      them recovers it and the shares of all services fit. */
  lemma CheckAcceptsExactly<S(!new)>(f: Field<Byte>, p: Primitives<S>, obj: EncryptedObject<S>, publicKeys: seq<G2<S>>,
                                     userKeys: map<ObjectId, G1<S>>, key: Key)
    requires Ready(f, p)
    ensures RecoverBaseKey(f, p, obj, userKeys, Some(publicKeys)) == Ok(key)
       <==> RecoverBaseKey(f, p, obj, userKeys, None) == Ok(key) && AllSharesFit(f, p, obj, publicKeys, userKeys, key)
  {
    if RecoverBaseKey(f, p, obj, userKeys, Some(publicKeys)) == Ok(key) {
      AcceptedFits(f, p, obj, publicKeys, userKeys, key);
    }
    if RecoverBaseKey(f, p, obj, userKeys, None) == Ok(key) && AllSharesFit(f, p, obj, publicKeys, userKeys, key) {
      FittingIsAccepted(f, p, obj, publicKeys, userKeys, key);
    }
  }

  lemma AcceptedFits<S(!new)>(f: Field<Byte>, p: Primitives<S>, obj: EncryptedObject<S>, publicKeys: seq<G2<S>>,
                              userKeys: map<ObjectId, G1<S>>, key: Key)
    requires Ready(f, p)
    requires RecoverBaseKey(f, p, obj, userKeys, Some(publicKeys)) == Ok(key)
    ensures RecoverBaseKey(f, p, obj, userKeys, None) == Ok(key) && AllSharesFit(f, p, obj, publicKeys, userKeys, key)
  {
    var shares, fullId := DecryptShares(p, obj, userKeys), CreateFullId(obj.packageId, obj.id);
    var ps, baseKey, randomness := CheckedShares(f, p, obj.encryptions, shares, fullId, obj.services, obj.threshold,
                                                 publicKeys);
    Tss.CombineRefinesInterpolate(f, KEY_SIZE, shares);
  }

  lemma FittingIsAccepted<S(!new)>(f: Field<Byte>, p: Primitives<S>, obj: EncryptedObject<S>, publicKeys: seq<G2<S>>,
                                   userKeys: map<ObjectId, G1<S>>, key: Key)
    requires Ready(f, p)
    requires RecoverBaseKey(f, p, obj, userKeys, None) == Ok(key) && AllSharesFit(f, p, obj, publicKeys, userKeys, key)
    ensures RecoverBaseKey(f, p, obj, userKeys, Some(publicKeys)) == Ok(key)
  {
    var shares, fullId := DecryptShares(p, obj, userKeys), CreateFullId(obj.packageId, obj.id);
    RecoveredKey(f, p, obj, userKeys, key);
    InterpolatedOnPolynomials(f, shares);
    BothCombinationsSucceed(f, p, obj.encryptions, shares, fullId, obj.services, obj.threshold, publicKeys,
                            Tss.InterpolateShares(f, KEY_SIZE, shares).value, key,
                            RecoverRandomness(p, obj.encryptions, obj.services, obj.threshold, key).value);
  }

  lemma InterpolatedOnPolynomials(f: Field<Byte>, shares: seq<(Byte, Key)>)
    requires f.IsField()
    requires Tss.ValidIndices(f, Tss.Indices(shares))
    ensures OnPolynomials(f, shares, Tss.InterpolateShares(f, KEY_SIZE, shares).value)
  {
    forall i | 0 <= i < KEY_SIZE
      ensures PassesThrough(f, Interpolate(f, Tss.Column(shares, i)), Tss.Column(shares, i)) {
      forall k | 0 <= k < |shares| {
        InterpolatePassesThrough(f, Tss.Column(shares, i), k);
      }
    }
  }

  /** When decryption with public keys accepts an object on the strength of some user keys, verified
      or not, any verified user keys for enough services with distinct non-zero indices lead to the
      same base key, with and without the check: enough is the threshold and the number of
      coefficients of the polynomials through the shares used. */
  lemma CheckedObjectsAreConsistent<S(!new)>(f: Field<Byte>, p: Primitives<S>, obj: EncryptedObject<S>,
                                             publicKeys: seq<G2<S>>, userKeys: map<ObjectId, G1<S>>,
                                             userKeys': map<ObjectId, G1<S>>)
    requires Ready(f, p)
    requires RecoverBaseKey(f, p, obj, userKeys, Some(publicKeys)).Ok?
    requires |obj.services| == |publicKeys| && VerifiedKeys(p, obj, userKeys', publicKeys)
    requires |Covered(obj.services, userKeys')| >= obj.threshold as nat
    requires forall i :: 0 <= i < KEY_SIZE ==>
               |Tss.InterpolateShares(f, KEY_SIZE, DecryptShares(p, obj, userKeys)).value[i]|
               <= |Covered(obj.services, userKeys')|
    requires Tss.ValidIndices(f, Tss.Indices(DecryptShares(p, obj, userKeys')))
    ensures RecoverBaseKey(f, p, obj, userKeys', Some(publicKeys))
        == RecoverBaseKey(f, p, obj, userKeys, Some(publicKeys))
    ensures RecoverBaseKey(f, p, obj, userKeys', None) == RecoverBaseKey(f, p, obj, userKeys, Some(publicKeys))
  {
    var shares, fullId := DecryptShares(p, obj, userKeys'), CreateFullId(obj.packageId, obj.id);
    var ps, baseKey, randomness := CheckedShares(f, p, obj.encryptions, DecryptShares(p, obj, userKeys), fullId,
                                                 obj.services, obj.threshold, publicKeys);
    DecryptedOnPolynomials(f, p, obj, userKeys', publicKeys, randomness, ps);
    BothCombinationsSucceed(f, p, obj.encryptions, shares, fullId, obj.services, obj.threshold, publicKeys, ps, baseKey,
                            randomness);
  }

  /** In particular, user keys for as many services as were used are enough. */
  lemma AcceptedObjectsAreConsistent<S(!new)>(f: Field<Byte>, p: Primitives<S>, obj: EncryptedObject<S>,
                                              publicKeys: seq<G2<S>>, userKeys: map<ObjectId, G1<S>>,
                                              userKeys': map<ObjectId, G1<S>>)
    requires Ready(f, p)
    requires RecoverBaseKey(f, p, obj, userKeys, Some(publicKeys)).Ok?
    requires |obj.services| == |publicKeys| && VerifiedKeys(p, obj, userKeys', publicKeys)
    requires |Covered(obj.services, userKeys')| >= |Covered(obj.services, userKeys)|
    requires Tss.ValidIndices(f, Tss.Indices(DecryptShares(p, obj, userKeys')))
    ensures RecoverBaseKey(f, p, obj, userKeys', Some(publicKeys))
        == RecoverBaseKey(f, p, obj, userKeys, Some(publicKeys))
    ensures RecoverBaseKey(f, p, obj, userKeys', None) == RecoverBaseKey(f, p, obj, userKeys, Some(publicKeys))
  {
    CheckedObjectsAreConsistent(f, p, obj, publicKeys, userKeys, userKeys');
  }

  /** The decrypted messages are then the same too. */
  lemma AcceptedObjectsDecryptAlike<S(!new)>(f: Field<Byte>, p: Primitives<S>, obj: EncryptedObject<S>,
                                             publicKeys: seq<G2<S>>, userKeys: map<ObjectId, G1<S>>,
                                             userKeys': map<ObjectId, G1<S>>)
    requires Ready(f, p)
    requires SealDecrypt(f, p, obj, userKeys, Some(publicKeys)).Ok?
    requires |obj.services| == |publicKeys| && VerifiedKeys(p, obj, userKeys', publicKeys)
    requires |obj.encryptions.encryptedShares| == |obj.services|
    requires |Covered(obj.services, userKeys')| >= |Covered(obj.services, userKeys)|
    requires Tss.ValidIndices(f, Tss.Indices(DecryptShares(p, obj, userKeys')))
    ensures SealDecrypt(f, p, obj, userKeys', Some(publicKeys)) == SealDecrypt(f, p, obj, userKeys, Some(publicKeys))
    ensures SealDecrypt(f, p, obj, userKeys', None) == SealDecrypt(f, p, obj, userKeys, Some(publicKeys))
  {
    AcceptedObjectsAreConsistent(f, p, obj, publicKeys, userKeys, userKeys');
  }

  // ----- Encryption

  datatype Outcome<+T> = Returned(result: Result<T>) | Panicked

  /** What encryption draws at random. */
  datatype Draws<S> = Draws(baseKey: Key, coefficients: seq<seq<Byte>>, randomness: S)

  function Zip(ids: seq<ObjectId>, indices: seq<Byte>): (r: seq<Info>)
    ensures |r| == if |ids| < |indices| then |ids| else |indices|
  {
    seq(if |ids| < |indices| then |ids| else |indices|,
        i requires 0 <= i < |ids| && i < |indices| => (ids[i], indices[i]))
  }

  /** The object and the derived key, once the shares are encrypted. */
  function Sealed<S(!new)>(p: Primitives<S>, packageId: Key, id: seq<Byte>, services: seq<Info>,
                           keyServers: seq<ObjectId>, threshold: Byte, input: Dem.EncryptionInput, baseKey: Key,
                           randomness: S, nonce: G2<S>, encryptedShares: seq<Key>): (EncryptedObject<S>, Key)
    requires |encryptedShares| == |keyServers|
  {
    var randomnessKey := DeriveKey(p, EncryptedRandomness, baseKey, encryptedShares, threshold, keyServers);
    var encryptions := Encryptions(nonce, encryptedShares, EncryptRandomness(p, randomness, randomnessKey));
    var key := DeriveKey(p, DemKey, baseKey, encryptedShares, threshold, keyServers);
    (EncryptedObject(0, packageId, id, services, threshold, encryptions, Dem.Encrypt(p, input, key)), key)
  }

  /** The number of key servers is cast to eight bits, and key derivation asserts that there are as
      many shares as key servers. */
  function SealEncrypt<S(!new)>(f: Field<Byte>, p: Primitives<S>, packageId: Key, id: seq<Byte>,
                                keyServers: seq<ObjectId>, publicKeys: seq<G2<S>>, threshold: Byte,
                                input: Dem.EncryptionInput, draws: Draws<S>): Outcome<(EncryptedObject<S>, Key)>
    requires |draws.coefficients| == KEY_SIZE
  {
    var numberOfShares := |keyServers| % 256;
    if threshold as nat > numberOfShares || threshold as nat == 0 then Returned(Err(InvalidInput))
    else
      match Tss.Split(f, draws.baseKey, threshold as nat, numberOfShares, draws.coefficients)
      case Err(e) => Returned(Err(e))
      case Ok(sharing) =>
        var services := Zip(keyServers, sharing.indices);
        if |publicKeys| != numberOfShares then Returned(Err(InvalidInput))
        else
          match EncryptBatchedDeterministic(p, draws.randomness, sharing.shares, publicKeys,
                                            CreateFullId(packageId, id), services)
          case Err(e) => Returned(Err(e))
          case Ok((nonce, encryptedShares)) =>
            if |encryptedShares| != |keyServers| then Panicked
            else
              Returned(Ok(Sealed(p, packageId, id, services, keyServers, threshold, input, draws.baseKey,
                                 draws.randomness,
                                 nonce, encryptedShares)))
  }

  /** Exactly when encryption succeeds, fails and panics. */
  lemma SealEncryptOutcome<S(!new)>(f: Field<Byte>, p: Primitives<S>, packageId: Key, id: seq<Byte>,
                                    keyServers: seq<ObjectId>, publicKeys: seq<G2<S>>, threshold: Byte,
                                    input: Dem.EncryptionInput, draws: Draws<S>)
    requires |draws.coefficients| == KEY_SIZE
    ensures
      var outcome := SealEncrypt(f, p, packageId, id, keyServers, publicKeys, threshold, input, draws);
      var n := |keyServers| % 256;
      if !(0 < threshold as nat <= n && |publicKeys| == n) then outcome == Returned(Err(InvalidInput))
      else if |keyServers| > 255 then outcome == Panicked
      else outcome.Returned? && outcome.result.Ok?
  {
    Tss.SplitValues(f, draws.baseKey, threshold as nat, |keyServers| % 256, draws.coefficients);
  }

  /** A panicking input: 257 key servers, which the cast turns into one, and one public key. */
  lemma TooManyServersPanic<S(!new)>(f: Field<Byte>, p: Primitives<S>, packageId: Key, id: seq<Byte>,
                                     keyServers: seq<ObjectId>, publicKey: G2<S>, input: Dem.EncryptionInput,
                                     draws: Draws<S>)
    requires |draws.coefficients| == KEY_SIZE && |keyServers| == 257
    ensures SealEncrypt(f, p, packageId, id, keyServers, [publicKey], 1, input, draws) == Panicked
  {
    SealEncryptOutcome(f, p, packageId, id, keyServers, [publicKey], 1, input, draws);
  }

  // ----- Decryption inverts encryption

  /** The polynomials behind a sharing. */
  ghost function Secrets(baseKey: Key, coefficients: seq<seq<Byte>>): (ps: seq<seq<Byte>>)
    requires |coefficients| == KEY_SIZE
    ensures |ps| == KEY_SIZE
  {
    seq(KEY_SIZE, i requires 0 <= i < KEY_SIZE => [baseKey[i]] + coefficients[i])
  }

  lemma SharesAreValues(f: Field<Byte>, baseKey: Key, threshold: nat, n: nat, coefficients: seq<seq<Byte>>)
    requires |coefficients| == KEY_SIZE && 0 < threshold <= n < 256
    ensures
      var r := Tss.Split(f, baseKey, threshold, n, coefficients);
      && r.Ok? && r.value.indices == Tss.FirstIndices(n) && |r.value.shares| == n
      && forall k :: 0 <= k < n ==>
           r.value.shares[k] == Tss.EvalAll(f, Secrets(baseKey, coefficients), r.value.indices[k])
  {
    Tss.SplitValues(f, baseKey, threshold, n, coefficients);
  }

  /** The services and the shares behind an object made by encryption. */
  lemma EncryptedServices<S(!new)>(f: Field<Byte>, p: Primitives<S>, packageId: Key, id: seq<Byte>,
                                   keyServers: seq<ObjectId>, publicKeys: seq<G2<S>>, threshold: Byte,
                                   input: Dem.EncryptionInput, draws: Draws<S>)
    returns (services: seq<Info>, shares: seq<Key>, nonce: G2<S>, encryptedShares: seq<Key>)
    requires |draws.coefficients| == KEY_SIZE
    requires 0 < threshold as nat <= |keyServers| == |publicKeys| < 256
    ensures services == Zip(keyServers, Tss.FirstIndices(|keyServers|))
    ensures |shares| == |services| == |encryptedShares| == |keyServers|
    ensures forall k :: 0 <= k < |shares| ==>
        shares[k] == Tss.EvalAll(f, Secrets(draws.baseKey, draws.coefficients), services[k].1)
    ensures EncryptBatchedDeterministic(p, draws.randomness, shares, publicKeys, CreateFullId(packageId, id), services)
         == Ok((nonce, encryptedShares))
    ensures SealEncrypt(f, p, packageId, id, keyServers, publicKeys, threshold, input, draws)
         == Returned(Ok(Sealed(p, packageId, id, services, keyServers, threshold, input, draws.baseKey,
                               draws.randomness,
                               nonce, encryptedShares)))
  {
    var n := |keyServers|;
    SharesAreValues(f, draws.baseKey, threshold as nat, n, draws.coefficients);
    services := Zip(keyServers, Tss.FirstIndices(n));
    shares := Tss.Split(f, draws.baseKey, threshold as nat, n, draws.coefficients).value.shares;
    var encrypted := EncryptBatchedDeterministic(p, draws.randomness, shares, publicKeys, CreateFullId(packageId, id),
                                                 services);
    nonce, encryptedShares := encrypted.value.0, encrypted.value.1;
  }

  /** The parts of an object made by encryption. */
  lemma EncryptedParts<S(!new)>(f: Field<Byte>, p: Primitives<S>, packageId: Key, id: seq<Byte>,
                                keyServers: seq<ObjectId>, publicKeys: seq<G2<S>>, threshold: Byte,
                                input: Dem.EncryptionInput, draws: Draws<S>)
    returns (obj: EncryptedObject<S>, key: Key, shares: seq<Key>)
    requires |draws.coefficients| == KEY_SIZE
    requires 0 < threshold as nat <= |keyServers| == |publicKeys| < 256
    ensures SealEncrypt(f, p, packageId, id, keyServers, publicKeys, threshold, input, draws)
        == Returned(Ok((obj, key)))
    ensures obj.version == 0 && obj.packageId == packageId && obj.id == id && obj.threshold == threshold
    ensures obj.services == Zip(keyServers, Tss.FirstIndices(|keyServers|)) && ServerIds(obj.services) == keyServers
    ensures |shares| == |keyServers| == |obj.services|
    ensures EncryptBatchedDeterministic(p, draws.randomness, shares, publicKeys, CreateFullId(packageId, id),
                                        obj.services)
         == Ok((obj.encryptions.nonce, obj.encryptions.encryptedShares))
    ensures |obj.encryptions.encryptedShares| == |keyServers|
    ensures obj.encryptions.encryptedRandomness == EncryptRandomness(p, draws.randomness,
              DeriveKey(p, EncryptedRandomness, draws.baseKey, obj.encryptions.encryptedShares, threshold, keyServers))
    ensures key == DeriveKey(p, DemKey, draws.baseKey, obj.encryptions.encryptedShares, threshold, keyServers)
    ensures obj.ciphertext == Dem.Encrypt(p, input, key)
    ensures forall k :: 0 <= k < |shares| ==>
        shares[k] == Tss.EvalAll(f, Secrets(draws.baseKey, draws.coefficients), obj.services[k].1)
  {
    var services, nonce, encryptedShares;
    services, shares, nonce, encryptedShares :=
      EncryptedServices(f, p, packageId, id, keyServers, publicKeys, threshold, input, draws);
    var sealed := Sealed(p, packageId, id, services, keyServers, threshold, input, draws.baseKey, draws.randomness,
                         nonce, encryptedShares);
    obj, key := sealed.0, sealed.1;
    assert ServerIds(services) == keyServers;
  }

  lemma EncryptedSharesOnSecrets<S(!new)>(f: Field<Byte>, p: Primitives<S>, obj: EncryptedObject<S>,
                                          publicKeys: seq<G2<S>>, shares: seq<Key>, randomness: S, ps: seq<seq<Byte>>)
    requires p.Valid()
    requires |shares| == |obj.services| == |publicKeys| == |obj.encryptions.encryptedShares|
    requires EncryptBatchedDeterministic(p, randomness, shares, publicKeys, CreateFullId(obj.packageId, obj.id),
                                         obj.services)
          == Ok((obj.encryptions.nonce, obj.encryptions.encryptedShares))
    requires forall k :: 0 <= k < |shares| ==> shares[k] == Tss.EvalAll(f, ps, obj.services[k].1)
    ensures AllOnPolynomials(f, p, obj.encryptions, CreateFullId(obj.packageId, obj.id), obj.services, publicKeys,
                             randomness, ps)
  {
    forall i | 0 <= i < |shares|
      ensures DecryptDeterministic(p, randomness, obj.encryptions.encryptedShares[i], publicKeys[i],
                                   CreateFullId(obj.packageId, obj.id), obj.services[i])
           == shares[i]
    {
      Ibe.DecryptInvertsEncrypt(p, randomness, shares, publicKeys, CreateFullId(obj.packageId, obj.id), obj.services,
                                i);
    }
  }

  /** Decrypting an encrypted message with correctly extracted keys for at least threshold services
      gives the message back, in every mode, for every choice of randomness, with and without the
      public keys. In plain mode it gives the derived key. */
  lemma SealRoundTrip<S(!new)>(f: Field<Byte>, p: Primitives<S>, packageId: Key, id: seq<Byte>,
                               keyServers: seq<ObjectId>, masterKeys: seq<S>, publicKeys: seq<G2<S>>, threshold: Byte,
                               input: Dem.EncryptionInput, draws: Draws<S>, userKeys: map<ObjectId, G1<S>>)
    returns (obj: EncryptedObject<S>, key: Key)
    requires Ready(f, p)
    requires |draws.coefficients| == KEY_SIZE
    requires forall i :: 0 <= i < KEY_SIZE ==> |draws.coefficients[i]| == threshold as nat - 1
    requires 0 < threshold as nat <= |keyServers| == |publicKeys| == |masterKeys| < 256
    requires forall i :: 0 <= i < |keyServers| ==> publicKeys[i] == PublicKeyFromMasterKey(p, masterKeys[i])
    requires forall i :: 0 <= i < |keyServers| && keyServers[i] in userKeys ==>
               userKeys[keyServers[i]] == Extract(p, masterKeys[i], CreateFullId(packageId, id))
    requires |Covered(Zip(keyServers, Tss.FirstIndices(|keyServers|)), userKeys)| >= threshold as nat
    ensures SealEncrypt(f, p, packageId, id, keyServers, publicKeys, threshold, input, draws)
        == Returned(Ok((obj, key)))
    ensures RecoverBaseKey(f, p, obj, userKeys, None) == RecoverBaseKey(f, p, obj, userKeys, Some(publicKeys))
        == Ok(draws.baseKey)
    ensures SealDecrypt(f, p, obj, userKeys, None) == Ok(Dem.Payload(input, key))
    ensures SealDecrypt(f, p, obj, userKeys, Some(publicKeys)) == Ok(Dem.Payload(input, key))
  {
    var shares;
    obj, key, shares := EncryptedParts(f, p, packageId, id, keyServers, publicKeys, threshold, input, draws);
    BaseKeyRoundTrip(f, p, obj, masterKeys, publicKeys, shares, draws, userKeys);
    Dem.DecryptInvertsEncrypt(p, input, key);
  }

  lemma SecretsAtZero(f: Field<Byte>, baseKey: Key, coefficients: seq<seq<Byte>>)
    requires Tss.ByteField(f)
    requires |coefficients| == KEY_SIZE
    ensures Tss.EvalAll(f, Secrets(baseKey, coefficients), 0) == baseKey
  {
    var ps := Secrets(baseKey, coefficients);
    forall i | 0 <= i < KEY_SIZE ensures Tss.EvalAll(f, ps, 0)[i] == baseKey[i] {
      Tss.EvalAtZero(f, ps[i]);
    }
  }

  /** The base key comes back from every sharing of a degree below the number of services covered. */
  lemma BaseKeyRoundTrip<S(!new)>(f: Field<Byte>, p: Primitives<S>, obj: EncryptedObject<S>, masterKeys: seq<S>,
                                  publicKeys: seq<G2<S>>, shares: seq<Key>, draws: Draws<S>,
                                  userKeys: map<ObjectId, G1<S>>)
    requires Ready(f, p)
    requires |draws.coefficients| == KEY_SIZE
    requires forall i :: 0 <= i < KEY_SIZE ==> |draws.coefficients[i]| < |Covered(obj.services, userKeys)|
    requires |shares| == |obj.services| == |publicKeys| == |masterKeys| == |obj.encryptions.encryptedShares| < 256
    requires obj.version == 0 && 0 < obj.threshold as nat <= |Covered(obj.services, userKeys)|
    requires obj.services == Zip(ServerIds(obj.services), Tss.FirstIndices(|obj.services|))
    requires forall i :: 0 <= i < |publicKeys| ==> publicKeys[i] == PublicKeyFromMasterKey(p, masterKeys[i])
    requires forall i :: 0 <= i < |publicKeys| && obj.services[i].0 in userKeys ==>
               userKeys[obj.services[i].0] == Extract(p, masterKeys[i], CreateFullId(obj.packageId, obj.id))
    requires EncryptBatchedDeterministic(p, draws.randomness, shares, publicKeys, CreateFullId(obj.packageId, obj.id),
                                         obj.services)
          == Ok((obj.encryptions.nonce, obj.encryptions.encryptedShares))
    requires obj.encryptions.encryptedRandomness == EncryptRandomness(p, draws.randomness,
               DeriveKey(p, EncryptedRandomness, draws.baseKey, obj.encryptions.encryptedShares, obj.threshold,
                         ServerIds(obj.services)))
    requires forall k :: 0 <= k < |shares| ==>
        shares[k] == Tss.EvalAll(f, Secrets(draws.baseKey, draws.coefficients), obj.services[k].1)
    ensures RecoverBaseKey(f, p, obj, userKeys, None) == RecoverBaseKey(f, p, obj, userKeys, Some(publicKeys))
        == Ok(draws.baseKey)
  {
    var ps, fullId := Secrets(draws.baseKey, draws.coefficients), CreateFullId(obj.packageId, obj.id);
    SecretsAtZero(f, draws.baseKey, draws.coefficients);
    RandomnessRoundTrip(p, draws.randomness,
      DeriveKey(p, EncryptedRandomness, draws.baseKey, obj.encryptions.encryptedShares, obj.threshold,
                ServerIds(obj.services)));
    EncryptedSharesOnSecrets(f, p, obj, publicKeys, shares, draws.randomness, ps);
    forall i | 0 <= i < |publicKeys| && obj.services[i].0 in userKeys
      ensures VerifyUserSecretKey(p, userKeys[obj.services[i].0], fullId, publicKeys[i])
    {
      VerifiedIsExtracted(p, userKeys[obj.services[i].0], fullId, masterKeys[i]);
    }
    CoveredIndicesValid(f, p, obj, userKeys);
    DecryptedOnPolynomials(f, p, obj, userKeys, publicKeys, draws.randomness, ps);
    BothCombinationsSucceed(f, p, obj.encryptions, DecryptShares(p, obj, userKeys), fullId, obj.services, obj.threshold,
                            publicKeys, ps, draws.baseKey, draws.randomness);
  }

  lemma CoveredIndicesValid<S(!new)>(f: Field<Byte>, p: Primitives<S>, obj: EncryptedObject<S>,
                                     userKeys: map<ObjectId, G1<S>>)
    requires Tss.ByteField(f)
    requires |obj.services| == |obj.encryptions.encryptedShares| < 256
    requires obj.services == Zip(ServerIds(obj.services), Tss.FirstIndices(|obj.services|))
    requires |Covered(obj.services, userKeys)| > 0
    ensures Tss.ValidIndices(f, Tss.Indices(DecryptShares(p, obj, userKeys)))
  {
    var covered, shares := Covered(obj.services, userKeys), DecryptShares(p, obj, userKeys);
    var indices, all := Tss.Indices(shares), Tss.FirstIndices(|obj.services|);
    forall k | 0 <= k < |shares| ensures indices[k] == all[covered[k]] {
      assert indices[k] == obj.services[covered[k]].1;
    }
    forall i, j | 0 <= i < j < |indices| ensures indices[i] != indices[j] {
      assert covered[i] != covered[j];
    }
  }
}
