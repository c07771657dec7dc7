/** The response of one committee member, and whether the aggregator accepts it. */
module Service {
  import opened Bytes
  import opened Fields
  import opened Results
  import opened Sequences
  import opened Ibe
  import opened Aggregator
  import Dem
  import ElGamal
  import Ptb
  import Seal
  import Tss

  /** One key for each id in turn, encrypted to the user; the randomness of the encryptions is given. */
  function CreateResponse<S(!new)>(p: Primitives<S>, masterKey: S, ids: seq<KeyId>, encryptionKey: G1<S>,
                                   randomness: seq<S>): (keys: Response<S>)
    requires |randomness| == |ids|
    ensures Ids(keys) == ids
  {
    seq(|ids|, i requires 0 <= i < |ids| =>
      DecryptionKey(ids[i], ElGamal.Encrypt(p, randomness[i], Extract(p, masterKey, ids[i]), encryptionKey)))
  }

  function ElGamalPublicKey<S(!new)>(p: Primitives<S>,
                                     secretKey: S): G1<S> { G1(p.scalars.mul(p.scalars.one, secretKey)) }

  /** What the aggregator expects: the ids as a set. */
  function ExpectedIds(ids: seq<KeyId>): set<KeyId> { set i | 0 <= i < |ids| :: ids[i] }

  /** Neither a key nor a part of the encryption is the identity, which the check refuses. */
  predicate Regular<S(!new, ==)>(p: Primitives<S>, e: ElGamal.Encryption<S>, secretKey: S, masterKey: S) {
    p.scalars.zero !in {e.c1.log, e.c2.log, secretKey, masterKey}
  }

  ghost predicate NoIdentity<S(!new)>(p: Primitives<S>, keys: Response<S>, secretKey: S, masterKey: S) {
    forall i :: 0 <= i < |keys| ==> Regular(p, keys[i].encryptedKey, secretKey, masterKey)
  }

  /** An honest encryption passes the check unless some part is the identity. */
  lemma HonestKeyVerifies<S(!new)>(p: Primitives<S>, secretKey: S, masterKey: S, id: KeyId, randomness: S)
    requires p.Valid()
    ensures
      var e := ElGamal.Encrypt(p, randomness, Extract(p, masterKey, id), ElGamalPublicKey(p, secretKey));
      ElGamal.VerifyEncryptedSignature(p, e, PublicKeyFromMasterKey(p, secretKey), PublicKeyFromMasterKey(p, masterKey),
                                       id)
      <==> Regular(p, e, secretKey, masterKey)
  {
    var e := ElGamal.Encrypt(p, randomness, Extract(p, masterKey, id), ElGamalPublicKey(p, secretKey));
    ElGamal.VerifiedDecryptsToExtracted(p, e, secretKey, masterKey, id);
    ElGamal.DecryptInvertsEncrypt(p, secretKey, randomness, Extract(p, masterKey, id));
  }

  lemma ResponseIds<S(!new)>(keys: Response<S>)
    ensures IdSet(keys) == ExpectedIds(Ids(keys))
  {
    forall id ensures id in IdSet(keys) <==> id in ExpectedIds(Ids(keys)) {
      IdSetMembers(keys, id);
    }
  }

  /** An honest response is accepted if and only if no id is requested twice and no part is the identity. */
  lemma HonestResponseAccepted<S(!new)>(p: Primitives<S>, secretKey: S, masterKey: S, ids: seq<KeyId>,
                                        randomness: seq<S>)
    requires p.Valid() && |randomness| == |ids|
    ensures
      var keys := CreateResponse(p, masterKey, ids, ElGamalPublicKey(p, secretKey), randomness);
      Verified(p, keys, PublicKeyFromMasterKey(p, masterKey), PublicKeyFromMasterKey(p, secretKey), ExpectedIds(ids))
      <==> Distinct(ids) && NoIdentity(p, keys, secretKey, masterKey)
  {
    var keys := CreateResponse(p, masterKey, ids, ElGamalPublicKey(p, secretKey), randomness);
    ResponseIds(keys);
    forall i | 0 <= i < |keys|
      ensures ElGamal.VerifyEncryptedSignature(p, keys[i].encryptedKey, PublicKeyFromMasterKey(p, secretKey),
                                               PublicKeyFromMasterKey(p, masterKey), keys[i].id)
         <==> Regular(p, keys[i].encryptedKey, secretKey, masterKey)
    {
      HonestKeyVerifies(p, secretKey, masterKey, ids[i], randomness[i]);
    }
  }

  lemma FullIdsDistinct(decode: seq<Byte> -> Option<KeyId>, ptb: Ptb.Transaction, firstPackageId: ObjectId)
    requires Ptb.Acceptable(decode, ptb)
    ensures Distinct(Ptb.FullIds(decode, ptb, firstPackageId)) <==> Distinct(Ptb.InnerIds(decode, ptb))
  {
    var full, inner := Ptb.FullIds(decode, ptb, firstPackageId), Ptb.InnerIds(decode, ptb);
    forall i, j | 0 <= i < j < |inner| ensures full[i] == full[j] <==> inner[i] == inner[j] {
      if full[i] == full[j] {
        ConcatInjective(firstPackageId, inner[i], firstPackageId, inner[j]);
      }
    }
  }

  /** For an accepted transaction, the honest response to its request is accepted if and only if its
      calls ask for different ids and no part is the identity. */
  lemma HonestRequestServed<S(!new)>(p: Primitives<S>, decode: seq<Byte> -> Option<KeyId>, ptb: Ptb.Transaction,
                                     firstPackageId: ObjectId, secretKey: S, masterKey: S, randomness: seq<S>)
    requires p.Valid() && Ptb.Acceptable(decode, ptb) && |randomness| == |ptb.commands|
    ensures
      var ids := Ptb.FullIds(decode, ptb, firstPackageId);
      var keys := CreateResponse(p, masterKey, ids, ElGamalPublicKey(p, secretKey), randomness);
      Verified(p, keys, PublicKeyFromMasterKey(p, masterKey), PublicKeyFromMasterKey(p, secretKey), ExpectedIds(ids))
      <==> Distinct(Ptb.InnerIds(decode, ptb)) && NoIdentity(p, keys, secretKey, masterKey)
  {
    HonestResponseAccepted(p, secretKey, masterKey, Ptb.FullIds(decode, ptb, firstPackageId), randomness);
    FullIdsDistinct(decode, ptb, firstPackageId);
  }

  /** Two calls for the same id: the transaction is accepted, and no honest response to it is. */
  lemma RepeatedIdRefused<S(!new)>(p: Primitives<S>, decode: seq<Byte> -> Option<KeyId>, bytes: seq<Byte>,
                                   packageId: ObjectId, firstPackageId: ObjectId, secretKey: S, masterKey: S,
                                   randomness: seq<S>)
    requires p.Valid() && decode(bytes).Some? && |randomness| == 2
    ensures
      var call := Ptb.MoveCall(packageId, "policy", "seal_approve", [], [Ptb.Input(0)]);
      var ptb := Ptb.Transaction([Ptb.Pure(bytes)], [call, call]);
      && Ptb.Acceptable(decode, ptb)
      && var ids := Ptb.FullIds(decode, ptb, firstPackageId);
         !Verified(p, CreateResponse(p, masterKey, ids, ElGamalPublicKey(p, secretKey), randomness),
                   PublicKeyFromMasterKey(p, masterKey), PublicKeyFromMasterKey(p, secretKey), ExpectedIds(ids))
  {
    var call := Ptb.MoveCall(packageId, "policy", "seal_approve", [], [Ptb.Input(0)]);
    var ptb := Ptb.Transaction([Ptb.Pure(bytes)], [call, call]);
    assert Ptb.AcceptableCall(decode, ptb.inputs, packageId, call);
    assert Ptb.InnerIds(decode, ptb)[0] == Ptb.InnerIds(decode, ptb)[1];
    HonestRequestServed(p, decode, ptb, firstPackageId, secretKey, masterKey, randomness);
  }

  // ----- The keys of a request open the objects it asks for

  /** The ids of a request are the full ids of objects of the package. */
  lemma FullIdsOfObjects(decode: seq<Byte> -> Option<KeyId>, ptb: Ptb.Transaction, firstPackageId: ObjectId, i: nat)
    requires Ptb.Acceptable(decode, ptb) && i < |ptb.commands|
    ensures Ptb.FullIds(decode, ptb, firstPackageId)[i]
        == Seal.CreateFullId(firstPackageId, Ptb.InnerIds(decode, ptb)[i])
  {
  }

  /** Key i of the response to an accepted transaction decrypts to the user key for the object of the package
      that call i names. */
  lemma ServedKey<S(!new)>(p: Primitives<S>, decode: seq<Byte> -> Option<KeyId>, ptb: Ptb.Transaction,
                           firstPackageId: ObjectId, secretKey: S, masterKey: S, randomness: seq<S>, i: nat)
    requires p.Valid() && Ptb.Acceptable(decode, ptb) && |randomness| == |ptb.commands| && i < |ptb.commands|
    ensures
      var ids := Ptb.FullIds(decode, ptb, firstPackageId);
      var keys := CreateResponse(p, masterKey, ids, ElGamalPublicKey(p, secretKey), randomness);
      && |keys| == |ptb.commands|
      && keys[i].id == Seal.CreateFullId(firstPackageId, Ptb.InnerIds(decode, ptb)[i])
      && ElGamal.Decrypt(p, secretKey, keys[i].encryptedKey)
         == Extract(p, masterKey, Seal.CreateFullId(firstPackageId, Ptb.InnerIds(decode, ptb)[i]))
  {
    var ids := Ptb.FullIds(decode, ptb, firstPackageId);
    FullIdsOfObjects(decode, ptb, firstPackageId, i);
    ElGamal.DecryptInvertsEncrypt(p, secretKey, randomness[i], Extract(p, masterKey, ids[i]));
  }

  /** That user key opens every object encrypted to the server under the package and the id of the call. */
  lemma ServedKeyOpens<S(!new)>(f: Field<Byte>, p: Primitives<S>, decode: seq<Byte> -> Option<KeyId>,
                                ptb: Ptb.Transaction, firstPackageId: ObjectId, secretKey: S, masterKey: S,
                                randomness: seq<S>, i: nat, server: ObjectId, input: Dem.EncryptionInput,
                                draws: Seal.Draws<S>)
    returns (obj: Seal.EncryptedObject<S>, key: Key)
    requires Seal.Ready(f, p) && Ptb.Acceptable(decode, ptb) && |randomness| == |ptb.commands| && i < |ptb.commands|
    requires |draws.coefficients| == KEY_SIZE && forall j :: 0 <= j < KEY_SIZE ==> |draws.coefficients[j]| == 0
    ensures Seal.SealEncrypt(f, p, firstPackageId, Ptb.InnerIds(decode, ptb)[i], [server],
                             [PublicKeyFromMasterKey(p, masterKey)], 1, input, draws) == Seal.Returned(Ok((obj, key)))
    ensures
      var ids := Ptb.FullIds(decode, ptb, firstPackageId);
      var keys := CreateResponse(p, masterKey, ids, ElGamalPublicKey(p, secretKey), randomness);
      var userKeys := map[server := ElGamal.Decrypt(p, secretKey, keys[i].encryptedKey)];
      Seal.SealDecrypt(f, p, obj, userKeys, None) == Ok(Dem.Payload(input, key))
  {
    ServedKey(p, decode, ptb, firstPackageId, secretKey, masterKey, randomness, i);
    var id := Ptb.InnerIds(decode, ptb)[i];
    var userKeys := map[server := Extract(p, masterKey, Seal.CreateFullId(firstPackageId, id))];
    var services := Seal.Zip([server], Tss.FirstIndices(1));
    assert services[0].0 in userKeys && 0 in Seal.Covered(services, userKeys);
    obj, key := Seal.SealRoundTrip(f, p, firstPackageId, id, [server], [masterKey],
                                   [PublicKeyFromMasterKey(p, masterKey)],
                                   1, input, draws, userKeys);
  }
}
