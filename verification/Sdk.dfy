/** The user's side: decrypting the responses of key servers and committees, and then objects. */
module Sdk {
  import opened Bytes
  import opened Fields
  import opened Results
  import opened Sequences
  import opened Ibe
  import opened Seal
  import opened Aggregator
  import Collection
  import Dem
  import ElGamal
  import Tss

  /** User keys by full id and key server. */
  type Cache<S> = map<KeyId, map<ObjectId, G1<S>>>

  // ----- Decrypting responses

  ghost predicate Cached<S(!new)>(cache: Cache<S>, id: KeyId, server: ObjectId) { id in cache && server in cache[id] }

  /** Some response of the server has a key for the id. */
  ghost predicate Answered<S(!new)>(responses: seq<(ObjectId, Response<S>)>, id: KeyId, server: ObjectId) {
    exists k :: 0 <= k < |responses| && responses[k].0 == server && id in IdSet(responses[k].1)
  }

  ghost predicate KeyVerifies<S(!new)>(p: Primitives<S>, secretKey: S, key: DecryptionKey<S>, publicKey: G2<S>) {
    VerifyUserSecretKey(p, ElGamal.Decrypt(p, secretKey, key.encryptedKey), key.id, publicKey)
  }

  ghost predicate ResponseVerifies<S(!new)>(p: Primitives<S>, secretKey: S, keys: Response<S>, publicKey: G2<S>) {
    forall i :: 0 <= i < |keys| ==> KeyVerifies(p, secretKey, keys[i], publicKey)
  }

  /** Every server has a public key, under which every decrypted user key of its responses verifies. */
  ghost predicate ResponsesVerify<S(!new)>(p: Primitives<S>, secretKey: S, responses: seq<(ObjectId, Response<S>)>,
                                           serverKeys: map<ObjectId, G2<S>>) {
    forall k :: 0 <= k < |responses| ==>
      responses[k].0 in serverKeys && ResponseVerifies(p, secretKey, responses[k].1, serverKeys[responses[k].0])
  }

  /** The cache has exactly the keys of the responses, and each verifies under its server's key. */
  ghost predicate Caches<S(!new)>(p: Primitives<S>, cache: Cache<S>, responses: seq<(ObjectId, Response<S>)>,
                                  serverKeys: map<ObjectId, G2<S>>) {
    && (forall id, server :: Cached(cache, id, server) <==> Answered(responses, id, server))
    && (forall id :: id in cache ==> cache[id] != map[])
    && forall id, server :: Cached(cache, id, server) ==>
         server in serverKeys && VerifyUserSecretKey(p, cache[id][server], id, serverKeys[server])
  }

  function Insert<S>(cache: Cache<S>, id: KeyId, server: ObjectId, key: G1<S>): Cache<S> {
    cache[id := (if id in cache then cache[id] else map[])[server := key]]
  }

  lemma AnsweredSnoc<S(!new)>(responses: seq<(ObjectId, Response<S>)>, server: ObjectId, keys: Response<S>, id: KeyId,
                              s: ObjectId)
    ensures Answered(responses + [(server, keys)], id, s)
        <==> Answered(responses, id, s) || (s == server && id in IdSet(keys))
  {
    var all := responses + [(server, keys)];
    if Answered(responses, id, s) {
      var k :| 0 <= k < |responses| && responses[k].0 == s && id in IdSet(responses[k].1);
      assert all[k] == responses[k];
    }
    if s == server && id in IdSet(keys) {
      assert all[|responses|] == (server, keys);
    }
  }

  /** Caching one more key of the last response. */
  lemma CacheOne<S(!new)>(p: Primitives<S>, cache: Cache<S>, responses: seq<(ObjectId, Response<S>)>, server: ObjectId,
                          keys: Response<S>, key: DecryptionKey<S>, userKey: G1<S>, serverKeys: map<ObjectId, G2<S>>)
    requires Caches(p, cache, responses + [(server, keys)], serverKeys)
    requires server in serverKeys && VerifyUserSecretKey(p, userKey, key.id, serverKeys[server])
    ensures Caches(p, Insert(cache, key.id, server, userKey), responses + [(server, keys + [key])], serverKeys)
  {
    var after := Insert(cache, key.id, server, userKey);
    IdSetSnoc(keys, key);
    forall id, s
      ensures Cached(after, id, s) <==> Cached(cache, id, s) || (id == key.id && s == server)
      ensures Cached(after, id, s) <==> Answered(responses + [(server, keys + [key])], id, s)
    {
      AnsweredSnoc(responses, server, keys, id, s);
      AnsweredSnoc(responses, server, keys + [key], id, s);
    }
    forall id | id in after ensures after[id] != map[] {
      assert id == key.id ==> server in after[id];
    }
  }

  lemma CacheNothing<S(!new)>(p: Primitives<S>, cache: Cache<S>, responses: seq<(ObjectId, Response<S>)>,
                              server: ObjectId, serverKeys: map<ObjectId, G2<S>>)
    requires Caches(p, cache, responses, serverKeys)
    ensures Caches(p, cache, responses + [(server, [])], serverKeys)
  {
    forall id, s ensures Answered(responses + [(server, [])], id, s) <==> Answered(responses, id, s) {
      AnsweredSnoc(responses, server, [], id, s);
    }
  }

  /** The inner loop: the keys of one response. */
  method DecryptResponse<S(!new, ==)>(p: Primitives<S>, secretKey: S, before: Cache<S>,
                                      ghost done: seq<(ObjectId, Response<S>)>, server: ObjectId, keys: Response<S>,
                                      serverKeys: map<ObjectId, G2<S>>)
    returns (r: Result<Cache<S>>)
    requires server in serverKeys && Caches(p, before, done, serverKeys)
    ensures r.Ok? <==> ResponseVerifies(p, secretKey, keys, serverKeys[server])
    ensures r.Ok? ==> Caches(p, r.value, done + [(server, keys)], serverKeys)
  {
    var cache := before;
    CacheNothing(p, cache, done, server, serverKeys);
    for j := 0 to |keys|
      invariant ResponseVerifies(p, secretKey, keys[..j], serverKeys[server])
      invariant Caches(p, cache, done + [(server, keys[..j])], serverKeys)
    {
      var userKey := ElGamal.Decrypt(p, secretKey, keys[j].encryptedKey);
      if !VerifyUserSecretKey(p, userKey, keys[j].id, serverKeys[server]) {
        assert !KeyVerifies(p, secretKey, keys[j], serverKeys[server]);
        return Err(InvalidInput);
      }
      CacheOne(p, cache, done, server, keys[..j], keys[j], userKey, serverKeys);
      assert keys[..j] + [keys[j]] == keys[..j + 1];
      cache := Insert(cache, keys[j].id, server, userKey);
    }
    assert keys[..|keys|] == keys;
    return Ok(cache);
  }

  /** Decrypts and verifies the keys of all responses. */
  method DecryptSealResponses<S(!new, ==)>(p: Primitives<S>, secretKey: S, responses: seq<(ObjectId, Response<S>)>,
                                           serverKeys: map<ObjectId, G2<S>>)
    returns (r: Result<Cache<S>>)
    ensures r.Ok? <==> ResponsesVerify(p, secretKey, responses, serverKeys)
    ensures r.Ok? ==> Caches(p, r.value, responses, serverKeys)
  {
    var cache: Cache<S> := map[];
    for i := 0 to |responses|
      invariant ResponsesVerify(p, secretKey, responses[..i], serverKeys)
      invariant Caches(p, cache, responses[..i], serverKeys)
    {
      var (server, keys) := responses[i];
      if server !in serverKeys {
        return Err(GeneralError("No public key configured for server"));
      }
      var extended := DecryptResponse(p, secretKey, cache, responses[..i], server, keys, serverKeys);
      if extended.Err? {
        return Err(extended.error);
      }
      assert responses[..i] + [(server, keys)] == responses[..i + 1];
      cache := extended.value;
    }
    assert responses[..|responses|] == responses;
    return Ok(cache);
  }

  // ----- Decrypting an object

  /** The user keys of those servers that are in the cache. */
  function UserKeysOf<S(!new)>(servers: seq<ObjectId>, keys: map<ObjectId, G1<S>>): map<ObjectId, G1<S>> {
    map id | id in keys && id in servers :: keys[id]
  }

  predicate AllConfigured<S(!new)>(servers: seq<ObjectId>, serverKeys: map<ObjectId, G2<S>>) {
    forall i :: 0 <= i < |servers| ==> servers[i] in serverKeys
  }

  /** The public keys in the order of the servers. */
  function PublicKeysOf<S(!new)>(servers: seq<ObjectId>, serverKeys: map<ObjectId, G2<S>>): seq<G2<S>>
    requires AllConfigured(servers, serverKeys)
  {
    seq(|servers|, i requires 0 <= i < |servers| => serverKeys[servers[i]])
  }

  ghost predicate Decryptable<S(!new)>(obj: EncryptedObject<S>, cache: Cache<S>, serverKeys: map<ObjectId, G2<S>>) {
    var fullId := CreateFullId(obj.packageId, obj.id);
    && fullId in cache
    && AllConfigured(ServerIds(obj.services), serverKeys)
    && |UserKeysOf(ServerIds(obj.services), cache[fullId])| >= obj.threshold as nat
  }

  function Opened<S(!new, ==)>(f: Field<Byte>, p: Primitives<S>, obj: EncryptedObject<S>, cache: Cache<S>,
                               serverKeys: map<ObjectId, G2<S>>): Result<seq<Byte>>
    requires f.IsField() && CreateFullId(obj.packageId, obj.id) in cache
        && AllConfigured(ServerIds(obj.services), serverKeys)
  {
    SealDecrypt(f, p, obj, UserKeysOf(ServerIds(obj.services), cache[CreateFullId(obj.packageId, obj.id)]),
                Some(PublicKeysOf(ServerIds(obj.services), serverKeys)))
  }

  /** The user only accepts objects that pass the check: all shares fit the shares used. */
  lemma OpenedIsChecked<S(!new)>(f: Field<Byte>, p: Primitives<S>, obj: EncryptedObject<S>, cache: Cache<S>,
                                 serverKeys: map<ObjectId, G2<S>>) returns (key: Key)
    requires Ready(f, p)
    requires CreateFullId(obj.packageId, obj.id) in cache && AllConfigured(ServerIds(obj.services), serverKeys)
    requires Opened(f, p, obj, cache, serverKeys).Ok?
    ensures AllSharesFit(f, p, obj, PublicKeysOf(ServerIds(obj.services), serverKeys),
                         UserKeysOf(ServerIds(obj.services), cache[CreateFullId(obj.packageId, obj.id)]), key)
  {
    var userKeys := UserKeysOf(ServerIds(obj.services), cache[CreateFullId(obj.packageId, obj.id)]);
    var publicKeys := PublicKeysOf(ServerIds(obj.services), serverKeys);
    key := RecoverBaseKey(f, p, obj, userKeys, Some(publicKeys)).value;
    CheckAcceptsExactly(f, p, obj, publicKeys, userKeys, key);
  }

  /** Decrypts with the cached keys of the services, in their order, and with all public keys. The
      keys are counted once for each server, so that repeated services do not add up. */
  method SealDecryptObject<S(!new, ==)>(f: Field<Byte>, p: Primitives<S>, obj: EncryptedObject<S>, cache: Cache<S>,
                                        serverKeys: map<ObjectId, G2<S>>)
    returns (r: Result<seq<Byte>>)
    requires f.IsField()
    ensures !Decryptable(obj, cache, serverKeys) ==> r.Err?
    ensures Decryptable(obj, cache, serverKeys) ==> r == Opened(f, p, obj, cache, serverKeys)
  {
    var fullId := CreateFullId(obj.packageId, obj.id);
    if fullId !in cache {
      return Err(GeneralError("No keys available for object"));
    }
    var keys, servers := cache[fullId], ServerIds(obj.services);
    var userKeys: map<ObjectId, G1<S>>, publicKeys: seq<G2<S>> := map[], [];
    for i := 0 to |servers|
      invariant AllConfigured(servers[..i], serverKeys)
      invariant userKeys == UserKeysOf(servers[..i], keys)
      invariant publicKeys == PublicKeysOf(servers[..i], serverKeys)
    {
      var server := servers[i];
      assert servers[..i + 1] == servers[..i] + [server];
      if server in keys {
        userKeys := userKeys[server := keys[server]];
      }
      if server !in serverKeys {
        return Err(GeneralError("No public key configured for server"));
      }
      publicKeys := publicKeys + [serverKeys[server]];
    }
    assert servers[..|servers|] == servers;
    if |userKeys| < obj.threshold as nat {
      return Err(GeneralError("Insufficient keys for object"));
    }
    return SealDecrypt(f, p, obj, userKeys, Some(publicKeys));
  }

  // ----- From the responses of committees to the message

  lemma CoveredCount<S(!new)>(services: seq<Info>, userKeys: map<ObjectId, G1<S>>)
    requires forall id :: id in userKeys ==> id in ServerIds(services)
    ensures |userKeys| <= |Covered(services, userKeys)|
  {
    var covered := Covered(services, userKeys);
    var ids := seq(|covered|, k requires 0 <= k < |covered| => services[covered[k]].0);
    forall id | id in userKeys.Keys ensures id in ids {
      var i :| 0 <= i < |services| && ServerIds(services)[i] == id;
      assert i in covered;
      var k :| 0 <= k < |covered| && covered[k] == i;
      assert ids[k] == id;
    }
    ElementsBound(userKeys.Keys, ids);
    assert |userKeys| == |userKeys.Keys|;
  }

  /** The key servers that answered with a key for the id. */
  ghost function Responding<S(!new)>(keyServers: seq<ObjectId>, responses: seq<(ObjectId, Response<S>)>,
                                     id: KeyId): set<ObjectId> {
    set server | server in keyServers && Answered(responses, id, server)
  }

  /** The master keys of the key servers, a committee's being that of its polynomial, and their public keys. */
  ghost predicate Configured<S(!new)>(p: Primitives<S>, masters: map<ObjectId, S>, serverKeys: map<ObjectId, G2<S>>) {
    forall server :: server in masters ==>
        server in serverKeys && serverKeys[server] == PublicKeyFromMasterKey(p, masters[server])
  }

  /** Each response has whole keys for the ids it was asked for, as fetching from a committee ensures. */
  ghost predicate WholeResponses<S(!new)>(p: Primitives<S>, secretKey: S, responses: seq<(ObjectId, Response<S>)>,
                                          masters: map<ObjectId, S>, expected: set<KeyId>) {
    forall k :: 0 <= k < |responses| ==>
      responses[k].0 in masters && Collection.WholeKeys(p, responses[k].1, secretKey, masters[responses[k].0], expected)
  }

  /** Whole responses decrypt: none of their keys is refused. */
  lemma WholeResponsesVerify<S(!new)>(p: Primitives<S>, secretKey: S, responses: seq<(ObjectId, Response<S>)>,
                                      masters: map<ObjectId, S>, serverKeys: map<ObjectId, G2<S>>, expected: set<KeyId>)
    requires p.Valid() && Configured(p, masters, serverKeys)
    requires WholeResponses(p, secretKey, responses, masters, expected)
    ensures ResponsesVerify(p, secretKey, responses, serverKeys)
  {
    forall k, i | 0 <= k < |responses| && 0 <= i < |responses[k].1|
      ensures KeyVerifies(p, secretKey, responses[k].1[i], serverKeys[responses[k].0])
    {
      var key := responses[k].1[i];
      VerifiedIsExtracted(p, ElGamal.Decrypt(p, secretKey, key.encryptedKey), key.id, masters[responses[k].0]);
    }
  }

  /** The cached keys of the servers are the extracted ones, and there is one for each server that answered. */
  lemma CachedUserKeys<S(!new)>(p: Primitives<S>, cache: Cache<S>, servers: seq<ObjectId>,
                                responses: seq<(ObjectId, Response<S>)>, masters: map<ObjectId, S>,
                                serverKeys: map<ObjectId, G2<S>>, fullId: KeyId)
    requires p.Valid() && Configured(p, masters, serverKeys) && Caches(p, cache, responses, serverKeys)
    requires forall i :: 0 <= i < |servers| ==> servers[i] in masters
    requires Responding(servers, responses, fullId) != {}
    ensures fullId in cache
    ensures
      var userKeys := UserKeysOf(servers, cache[fullId]);
      && |userKeys| == |Responding(servers, responses, fullId)|
      && forall server :: server in userKeys ==>
           server in servers && server in masters && userKeys[server] == Extract(p, masters[server], fullId)
  {
    var some :| some in Responding(servers, responses, fullId);
    assert Cached(cache, fullId, some);
    var userKeys := UserKeysOf(servers, cache[fullId]);
    forall server ensures server in userKeys <==> server in Responding(servers, responses, fullId) {
      assert Cached(cache, fullId, server) <==> Answered(responses, fullId, server);
    }
    assert userKeys.Keys == Responding(servers, responses, fullId) && |userKeys| == |userKeys.Keys|;
    forall server | server in userKeys
      ensures server in masters && userKeys[server] == Extract(p, masters[server], fullId) {
      assert Cached(cache, fullId, server);
      VerifiedIsExtracted(p, userKeys[server], fullId, masters[server]);
    }
  }

  /** The user keys obtained from the servers open every object encrypted to them. */
  lemma AnsweredRoundTrip<S(!new)>(f: Field<Byte>, p: Primitives<S>, packageId: Key, id: seq<Byte>,
                                   keyServers: seq<ObjectId>, publicKeys: seq<G2<S>>, threshold: Byte,
                                   input: Dem.EncryptionInput, draws: Draws<S>, masters: map<ObjectId, S>,
                                   userKeys: map<ObjectId, G1<S>>)
    returns (obj: EncryptedObject<S>, key: Key)
    requires Ready(f, p)
    requires |draws.coefficients| == KEY_SIZE
    requires forall i :: 0 <= i < KEY_SIZE ==> |draws.coefficients[i]| == threshold as nat - 1
    requires 0 < threshold as nat <= |keyServers| == |publicKeys| < 256
    requires forall i :: 0 <= i < |keyServers| ==>
               keyServers[i] in masters && publicKeys[i] == PublicKeyFromMasterKey(p, masters[keyServers[i]])
    requires forall server :: server in userKeys ==>
               server in keyServers && server in masters
               && userKeys[server] == Extract(p, masters[server], CreateFullId(packageId, id))
    requires |userKeys| >= threshold as nat
    ensures SealEncrypt(f, p, packageId, id, keyServers, publicKeys, threshold, input, draws)
        == Returned(Ok((obj, key)))
    ensures obj.threshold == threshold && ServerIds(obj.services) == keyServers
    ensures CreateFullId(obj.packageId, obj.id) == CreateFullId(packageId, id)
    ensures SealDecrypt(f, p, obj, userKeys, Some(publicKeys)) == Ok(Dem.Payload(input, key))
  {
    var masterKeys := seq(|keyServers|, i requires 0 <= i < |keyServers| => masters[keyServers[i]]);
    var services := Zip(keyServers, Tss.FirstIndices(|keyServers|));
    assert ServerIds(services) == keyServers;
    CoveredCount(services, userKeys);
    obj, key := SealRoundTrip(f, p, packageId, id, keyServers, masterKeys, publicKeys, threshold, input, draws,
                              userKeys);
    var obj', key', shares := EncryptedParts(f, p, packageId, id, keyServers, publicKeys, threshold, input, draws);
  }

  lemma ConfiguredKeys<S(!new)>(p: Primitives<S>, keyServers: seq<ObjectId>, publicKeys: seq<G2<S>>,
                                masters: map<ObjectId, S>, serverKeys: map<ObjectId, G2<S>>)
    requires Configured(p, masters, serverKeys) && |keyServers| == |publicKeys|
    requires forall i :: 0 <= i < |keyServers| ==>
               keyServers[i] in masters && publicKeys[i] == PublicKeyFromMasterKey(p, masters[keyServers[i]])
    ensures AllConfigured(keyServers, serverKeys) && PublicKeysOf(keyServers, serverKeys) == publicKeys
  {
  }

  /** Extracted keys for at least threshold servers in the cache open every object encrypted to the servers. */
  lemma CachedRoundTrip<S(!new)>(f: Field<Byte>, p: Primitives<S>, packageId: Key, id: seq<Byte>,
                                 keyServers: seq<ObjectId>, publicKeys: seq<G2<S>>, threshold: Byte,
                                 input: Dem.EncryptionInput, draws: Draws<S>, masters: map<ObjectId, S>,
                                 serverKeys: map<ObjectId, G2<S>>, cache: Cache<S>)
    returns (obj: EncryptedObject<S>, key: Key)
    requires Ready(f, p) && Configured(p, masters, serverKeys)
    requires |draws.coefficients| == KEY_SIZE
    requires forall i :: 0 <= i < KEY_SIZE ==> |draws.coefficients[i]| == threshold as nat - 1
    requires 0 < threshold as nat <= |keyServers| == |publicKeys| < 256
    requires forall i :: 0 <= i < |keyServers| ==>
               keyServers[i] in masters && publicKeys[i] == PublicKeyFromMasterKey(p, masters[keyServers[i]])
    requires CreateFullId(packageId, id) in cache
    requires
      var userKeys := UserKeysOf(keyServers, cache[CreateFullId(packageId, id)]);
      && |userKeys| >= threshold as nat
      && forall server :: server in userKeys ==>
           server in keyServers && server in masters
           && userKeys[server] == Extract(p, masters[server], CreateFullId(packageId, id))
    ensures SealEncrypt(f, p, packageId, id, keyServers, publicKeys, threshold, input, draws)
        == Returned(Ok((obj, key)))
    ensures Decryptable(obj, cache, serverKeys)
    ensures Opened(f, p, obj, cache, serverKeys) == Ok(Dem.Payload(input, key))
  {
    var userKeys := UserKeysOf(keyServers, cache[CreateFullId(packageId, id)]);
    ConfiguredKeys(p, keyServers, publicKeys, masters, serverKeys);
    obj, key := AnsweredRoundTrip(f, p, packageId, id, keyServers, publicKeys, threshold, input, draws, masters,
                                  userKeys);
  }

  /** An object encrypted to committees and key servers decrypts with what they answer: if each response
      has whole keys, at least threshold of the servers answered for the identity of the object, and the
      cache is what the responses decrypt to, then the responses verify, the object is decryptable, and
      decryption gives the message. */
  lemma CommitteeRoundTrip<S(!new)>(f: Field<Byte>, p: Primitives<S>, packageId: Key, id: seq<Byte>,
                                    keyServers: seq<ObjectId>, publicKeys: seq<G2<S>>, threshold: Byte,
                                    input: Dem.EncryptionInput, draws: Draws<S>, masters: map<ObjectId, S>,
                                    serverKeys: map<ObjectId, G2<S>>, secretKey: S,
                                    responses: seq<(ObjectId, Response<S>)>, expected: set<KeyId>, cache: Cache<S>)
    returns (obj: EncryptedObject<S>, key: Key)
    requires Ready(f, p) && Configured(p, masters, serverKeys)
    requires |draws.coefficients| == KEY_SIZE
    requires forall i :: 0 <= i < KEY_SIZE ==> |draws.coefficients[i]| == threshold as nat - 1
    requires 0 < threshold as nat <= |keyServers| == |publicKeys| < 256
    requires forall i :: 0 <= i < |keyServers| ==>
               keyServers[i] in masters && publicKeys[i] == PublicKeyFromMasterKey(p, masters[keyServers[i]])
    requires WholeResponses(p, secretKey, responses, masters, expected)
    requires |Responding(keyServers, responses, CreateFullId(packageId, id))| >= threshold as nat
    requires Caches(p, cache, responses, serverKeys)
    ensures ResponsesVerify(p, secretKey, responses, serverKeys)
    ensures SealEncrypt(f, p, packageId, id, keyServers, publicKeys, threshold, input, draws)
        == Returned(Ok((obj, key)))
    ensures Decryptable(obj, cache, serverKeys)
    ensures Opened(f, p, obj, cache, serverKeys) == Ok(Dem.Payload(input, key))
  {
    WholeResponsesVerify(p, secretKey, responses, masters, serverKeys, expected);
    CachedUserKeys(p, cache, keyServers, responses, masters, serverKeys, CreateFullId(packageId, id));
    obj, key := CachedRoundTrip(f, p, packageId, id, keyServers, publicKeys, threshold, input, draws, masters,
                                serverKeys, cache);
  }
}
