/** The aggregator of a key server committee: it collects encrypted partial keys from the members,
    checks each of them and combines threshold many into an encryption of the whole user key. */
module Aggregator {
  import opened Bytes
  import opened Fields
  import opened Results
  import opened Polynomials
  import opened Sequences
  import opened Ibe
  import opened ElGamal

  datatype DecryptionKey<S> = DecryptionKey(id: KeyId, encryptedKey: Encryption<S>)

  type Response<S> = seq<DecryptionKey<S>>

  function Ids<S(!new)>(keys: Response<S>): seq<KeyId> {
    seq(|keys|, i requires 0 <= i < |keys| => keys[i].id)
  }

  function IdSet<S(!new)>(keys: Response<S>): set<KeyId> {
    set i | 0 <= i < |keys| :: keys[i].id
  }

  // ----- Checking one response

  /** Exactly the expected ids, each once, and every encrypted share verifies. */
  ghost predicate Verified<S(!new)>(p: Primitives<S>, keys: Response<S>, partialKey: G2<S>, verificationKey: G2<S>,
                                    expected: set<KeyId>) {
    && Distinct(Ids(keys))
    && IdSet(keys) == expected
    && forall i :: 0 <= i < |keys| ==> VerifyEncryptedSignature(p, keys[i].encryptedKey, verificationKey, partialKey,
                                                                keys[i].id)
  }

  lemma IdSetMembers<S(!new)>(keys: Response<S>, id: KeyId)
    ensures id in IdSet(keys) <==> id in Ids(keys)
  {
    if id in Ids(keys) {
      var j :| 0 <= j < |keys| && Ids(keys)[j] == id;
      assert keys[j].id == id;
    }
    if id in IdSet(keys) {
      var j :| 0 <= j < |keys| && keys[j].id == id;
      assert Ids(keys)[j] == id;
    }
  }

  lemma IdSetSnoc<S(!new)>(keys: Response<S>, key: DecryptionKey<S>)
    ensures Ids(keys + [key]) == Ids(keys) + [key.id]
    ensures IdSet(keys + [key]) == IdSet(keys) + {key.id}
  {
    forall id ensures id in IdSet(keys + [key]) <==> id in IdSet(keys) + {key.id} {
      IdSetMembers(keys, id);
      IdSetMembers(keys + [key], id);
      assert Ids(keys + [key]) == Ids(keys) + [key.id];
    }
  }

  /** A list has as many different ids as entries exactly when no id is repeated. */
  lemma {:induction false} IdSetSize<S(!new)>(keys: Response<S>)
    ensures |IdSet(keys)| <= |keys|
    ensures |IdSet(keys)| == |keys| <==> Distinct(Ids(keys))
  {
    if |keys| > 0 {
      var init, last := keys[..|keys| - 1], keys[|keys| - 1];
      assert init + [last] == keys;
      IdSetSize(init);
      IdSetSnoc(init, last);
      DistinctSnoc(Ids(init), last.id);
      IdSetMembers(init, last.id);
      assert last.id in IdSet(init) ==> IdSet(keys) == IdSet(init);
    }
  }

  method VerifyDecryptionKeys<S(!new, ==)>(p: Primitives<S>, keys: Response<S>, partialKey: G2<S>,
                                           verificationKey: G2<S>, expected: set<KeyId>)
    returns (ok: bool)
    ensures ok <==> Verified(p, keys, partialKey, verificationKey, expected)
  {
    IdSetSize(keys);
    if |keys| != |expected| {
      return false;
    }
    var seen := IdSet(keys);
    if |seen| != |keys| {
      return false;
    }
    if seen != expected {
      return false;
    }
    for i := 0 to |keys|
      invariant forall j :: 0 <= j < i ==>
          VerifyEncryptedSignature(p, keys[j].encryptedKey, verificationKey, partialKey, keys[j].id)
    {
      if !VerifyEncryptedSignature(p, keys[i].encryptedKey, verificationKey, partialKey, keys[i].id) {
        return false;
      }
    }
    return true;
  }

  // ----- Combining responses

  /** The shares for an id in one response. */
  function SharesIn<S(!new)>(party: nat, keys: Response<S>, id: KeyId): seq<(nat, Encryption<S>)> {
    if |keys| == 0 then []
    else
      var n := |keys| - 1;
      SharesIn(party, keys[..n], id) + (if keys[n].id == id then [(party, keys[n].encryptedKey)] else [])
  }

  /** The shares for an id in all responses, in order. */
  function SharesFor<S(!new)>(responses: seq<(nat, Response<S>)>, id: KeyId): seq<(nat, Encryption<S>)> {
    if |responses| == 0 then []
    else
      var n := |responses| - 1;
      SharesFor(responses[..n], id) + SharesIn(responses[n].0, responses[n].1, id)
  }

  function AllIds<S(!new)>(responses: seq<(nat, Response<S>)>): set<KeyId> {
    if |responses| == 0 then {} else AllIds(responses[..|responses| - 1]) + IdSet(responses[|responses| - 1].1)
  }

  lemma {:induction false} NoSharesIn<S(!new)>(party: nat, keys: Response<S>, id: KeyId)
    requires id !in IdSet(keys)
    ensures SharesIn(party, keys, id) == []
  {
    if |keys| > 0 {
      var n := |keys| - 1;
      assert keys == keys[..n] + [keys[n]];
      IdSetSnoc(keys[..n], keys[n]);
      NoSharesIn(party, keys[..n], id);
    }
  }

  lemma {:induction false} NoSharesFor<S(!new)>(responses: seq<(nat, Response<S>)>, id: KeyId)
    requires id !in AllIds(responses)
    ensures SharesFor(responses, id) == []
  {
    if |responses| > 0 {
      var n := |responses| - 1;
      NoSharesFor(responses[..n], id);
      NoSharesIn(responses[n].0, responses[n].1, id);
    }
  }

  /** The map built so far holds the shares of the first responses and of the first keys of the next. */
  ghost predicate Gathered<S(!new)>(shares: map<KeyId, seq<(nat, Encryption<S>)>>, done: seq<(nat, Response<S>)>,
                                    party: nat, keys: Response<S>) {
    && shares.Keys == AllIds(done) + IdSet(keys)
    && forall id :: id in shares ==> shares[id] == SharesFor(done, id) + SharesIn(party, keys, id)
  }

  lemma SharesInSnoc<S(!new)>(party: nat, keys: Response<S>, key: DecryptionKey<S>, id: KeyId)
    ensures SharesIn(party, keys + [key], id)
         == SharesIn(party, keys, id) + (if key.id == id then [(party, key.encryptedKey)] else [])
  {
    assert (keys + [key])[..|keys|] == keys;
  }

  /** The entry of an id, where a missing entry counts as an empty one. */
  function EntryOf<S>(shares: map<KeyId, seq<(nat, Encryption<S>)>>, id: KeyId): seq<(nat, Encryption<S>)> {
    if id in shares then shares[id] else []
  }

  lemma GatheredEntry<S(!new)>(shares: map<KeyId, seq<(nat, Encryption<S>)>>, done: seq<(nat, Response<S>)>, party: nat,
                               keys: Response<S>, id: KeyId)
    requires Gathered(shares, done, party, keys)
    ensures EntryOf(shares, id) == SharesFor(done, id) + SharesIn(party, keys, id)
  {
    if id !in shares {
      NoSharesFor(done, id);
      NoSharesIn(party, keys, id);
    }
  }

  lemma GatherOne<S(!new)>(shares: map<KeyId, seq<(nat, Encryption<S>)>>, done: seq<(nat, Response<S>)>, party: nat,
                           keys: Response<S>, key: DecryptionKey<S>)
    requires Gathered(shares, done, party, keys)
    ensures Gathered(shares[key.id := EntryOf(shares, key.id) + [(party, key.encryptedKey)]], done, party, keys + [key])
  {
    var after := shares[key.id := EntryOf(shares, key.id) + [(party, key.encryptedKey)]];
    IdSetSnoc(keys, key);
    forall id | id in after ensures after[id] == SharesFor(done, id) + SharesIn(party, keys + [key], id) {
      SharesInSnoc(party, keys, key, id);
      GatheredEntry(shares, done, party, keys, id);
    }
  }

  lemma GatherNext<S(!new)>(shares: map<KeyId, seq<(nat, Encryption<S>)>>, responses: seq<(nat, Response<S>)>, i: nat)
    requires i < |responses| && Gathered(shares, responses[..i], responses[i].0, responses[i].1)
    ensures Gathered(shares, responses[..i + 1], 0, [])
  {
    assert responses[..i + 1][..i] == responses[..i];
  }

  /** The inner loop: the keys of one response. */
  method GatherResponse<S(!new)>(before: map<KeyId, seq<(nat, Encryption<S>)>>, ghost done: seq<(nat, Response<S>)>,
                                 party: nat, keys: Response<S>)
    returns (shares: map<KeyId, seq<(nat, Encryption<S>)>>)
    requires Gathered(before, done, 0, [])
    ensures Gathered(shares, done, party, keys)
  {
    shares := before;
    for j := 0 to |keys|
      invariant Gathered(shares, done, party, keys[..j])
    {
      GatherOne(shares, done, party, keys[..j], keys[j]);
      assert keys[..j] + [keys[j]] == keys[..j + 1];
      shares := shares[keys[j].id := EntryOf(shares, keys[j].id) + [(party, keys[j].encryptedKey)]];
    }
    assert keys[..|keys|] == keys;
  }

  method GatherShares<S(!new)>(responses: seq<(nat, Response<S>)>)
    returns (shares: map<KeyId, seq<(nat, Encryption<S>)>>)
    ensures shares.Keys == AllIds(responses)
    ensures forall id :: id in shares ==> shares[id] == SharesFor(responses, id)
  {
    shares := map[];
    for i := 0 to |responses|
      invariant Gathered(shares, responses[..i], 0, [])
    {
      shares := GatherResponse(shares, responses[..i], responses[i].0, responses[i].1);
      GatherNext(shares, responses, i);
    }
    assert responses[..|responses|] == responses;
  }

  ghost predicate AggregatedKey<S(!new)>(f: Field<S>, embed: nat -> S, threshold: nat,
                                         responses: seq<(nat, Response<S>)>, key: DecryptionKey<S>)
    requires f.IsField()
  {
    Aggregated(f, embed, threshold, SharesFor(responses, key.id)) == Ok(key.encryptedKey)
  }

  /** Every id of the responses once, with its aggregated encryption. */
  ghost predicate Aggregates<S(!new)>(f: Field<S>, embed: nat -> S, threshold: nat, responses: seq<(nat, Response<S>)>,
                                      keys: Response<S>)
    requires f.IsField()
  {
    && Distinct(Ids(keys))
    && IdSet(keys) == AllIds(responses)
    && forall i :: 0 <= i < |keys| ==> AggregatedKey(f, embed, threshold, responses, keys[i])
  }

  lemma MoveKey<S(!new)>(keys: Response<S>, remaining: set<KeyId>, key: DecryptionKey<S>)
    requires IdSet(keys) !! remaining && Distinct(Ids(keys)) && key.id in remaining
    ensures IdSet(keys + [key]) + (remaining - {key.id}) == IdSet(keys) + remaining
    ensures IdSet(keys + [key]) !! (remaining - {key.id})
    ensures Distinct(Ids(keys + [key]))
  {
    IdSetSnoc(keys, key);
    DistinctSnoc(Ids(keys), key.id);
    IdSetMembers(keys, key.id);
  }

  method AggregateVerifiedEncryptedResponses<S(!new, ==)>(f: Field<S>, embed: nat -> S, threshold: nat,
                                                          responses: seq<(nat, Response<S>)>)
    returns (r: Result<Response<S>>)
    requires f.IsField()
    ensures |responses| != threshold ==> r == Err(InvalidInput)
    ensures r.Ok? ==> Aggregates(f, embed, threshold, responses, r.value)
    ensures |responses| == threshold && r.Err? ==>
      exists id :: id in AllIds(responses) && Aggregated(f, embed, threshold, SharesFor(responses, id)) == Err(r.error)
  {
    if |responses| != threshold {
      return Err(InvalidInput);
    }
    var shares := GatherShares(responses);
    var keys: Response<S> := [];
    var remaining := shares.Keys;
    while remaining != {}
      invariant IdSet(keys) + remaining == AllIds(responses)
      invariant IdSet(keys) !! remaining
      invariant Distinct(Ids(keys))
      invariant forall i :: 0 <= i < |keys| ==> AggregatedKey(f, embed, threshold, responses, keys[i])
      decreases remaining
    {
      var id :| id in remaining;
      var aggregated := AggregateEncrypted(f, embed, threshold, shares[id]);
      if aggregated.Err? {
        return Err(aggregated.error);
      }
      var key := DecryptionKey(id, aggregated.value);
      MoveKey(keys, remaining, key);
      keys := keys + [key];
      remaining := remaining - {id};
    }
    return Ok(keys);
  }

  // ----- The aggregate decrypts to the whole user key

  /** A verified response holds exactly one share for each expected id, and it decrypts to the key
      extracted with the sender's master share. */
  lemma {:induction false} OneShareIn<S(!new)>(p: Primitives<S>, party: nat, keys: Response<S>, secretKey: S,
                                               masterShare: S, id: KeyId)
    requires p.Valid()
    requires Distinct(Ids(keys)) && id in IdSet(keys)
    requires forall i :: 0 <= i < |keys| ==>
               VerifyEncryptedSignature(p, keys[i].encryptedKey, PublicKeyFromMasterKey(p, secretKey),
                                        PublicKeyFromMasterKey(p, masterShare), keys[i].id)
    ensures
      var shares := SharesIn(party, keys, id);
      |shares| == 1 && shares[0].0 == party && ElGamal.Decrypt(p, secretKey, shares[0].1) == Extract(p, masterShare, id)
  {
    var n := |keys| - 1;
    assert keys == keys[..n] + [keys[n]];
    IdSetSnoc(keys[..n], keys[n]);
    DistinctSnoc(Ids(keys[..n]), keys[n].id);
    IdSetMembers(keys[..n], keys[n].id);
    if keys[n].id == id {
      NoSharesIn(party, keys[..n], id);
      VerifiedDecryptsToExtracted(p, keys[n].encryptedKey, secretKey, masterShare, id);
    } else {
      OneShareIn(p, party, keys[..n], secretKey, masterShare, id);
    }
  }

  /** The master share of a party: the value of the committee's polynomial at its index. */
  ghost function MasterShare<S(!new)>(p: Primitives<S>, embed: nat -> S, poly: seq<S>, party: nat): S {
    Eval(p.scalars, poly, embed(party + 1))
  }

  ghost predicate AllVerified<S(!new)>(p: Primitives<S>, embed: nat -> S, responses: seq<(nat, Response<S>)>,
                                       secretKey: S, poly: seq<S>, expected: set<KeyId>) {
    forall i :: 0 <= i < |responses| ==>
      Verified(p, responses[i].1, PublicKeyFromMasterKey(p, MasterShare(p, embed, poly, responses[i].0)),
               PublicKeyFromMasterKey(p, secretKey), expected)
  }

  function Senders<S(!new)>(responses: seq<(nat, Response<S>)>): seq<nat> {
    seq(|responses|, i requires 0 <= i < |responses| => responses[i].0)
  }

  lemma SharesForLast<S(!new)>(responses: seq<(nat, Response<S>)>, id: KeyId)
    requires |responses| > 0
    requires
      var (party, keys) := responses[|responses| - 1];
      |SharesIn(party, keys, id)| == 1 && SharesIn(party, keys, id)[0].0 == party
    ensures
      var (party, keys) := responses[|responses| - 1];
      var before, last := SharesFor(responses[..|responses| - 1], id), SharesIn(party, keys, id)[0];
      && SharesFor(responses, id) == before + [last]
      && Parties(before + [last]) == Parties(before) + [party]
      && Senders(responses) == Senders(responses[..|responses| - 1]) + [party]
  {
  }

  ghost predicate CorrectShare<S(!new)>(p: Primitives<S>, embed: nat -> S, share: (nat, Encryption<S>), secretKey: S,
                                        poly: seq<S>, id: KeyId) {
    ElGamal.Decrypt(p, secretKey, share.1) == Extract(p, MasterShare(p, embed, poly, share.0), id)
  }

  lemma {:induction false} OneShareEach<S(!new)>(p: Primitives<S>, embed: nat -> S, responses: seq<(nat, Response<S>)>,
                                                 secretKey: S, poly: seq<S>, expected: set<KeyId>, id: KeyId)
    requires p.Valid()
    requires AllVerified(p, embed, responses, secretKey, poly, expected) && id in expected
    ensures
      var shares := SharesFor(responses, id);
      Parties(shares) == Senders(responses)
      && forall i :: 0 <= i < |shares| ==> CorrectShare(p, embed, shares[i], secretKey, poly, id)
  {
    if |responses| > 0 {
      var n := |responses| - 1;
      OneShareEach(p, embed, responses[..n], secretKey, poly, expected, id);
      var party, keys := responses[n].0, responses[n].1;
      OneShareIn(p, party, keys, secretKey, MasterShare(p, embed, poly, party), id);
      assert CorrectShare(p, embed, SharesIn(party, keys, id)[0], secretKey, poly, id);
      SharesForLast(responses, id);
    }
  }

  lemma {:induction false} AllIdsExpected<S(!new)>(p: Primitives<S>, embed: nat -> S,
                                                   responses: seq<(nat, Response<S>)>, secretKey: S, poly: seq<S>,
                                                   expected: set<KeyId>)
    requires AllVerified(p, embed, responses, secretKey, poly, expected)
    ensures AllIds(responses) == if |responses| == 0 then {} else expected
  {
    if |responses| > 0 {
      AllIdsExpected(p, embed, responses[..|responses| - 1], secretKey, poly, expected);
    }
  }

  /** Threshold verified responses from distinct parties, whose partial public keys lie on a
      polynomial with at most threshold coefficients, aggregate for every expected id to an
      encryption of the user key extracted with the constant term of the polynomial. */
  lemma VerifiedResponsesAggregate<S(!new)>(p: Primitives<S>, embed: nat -> S, threshold: nat,
                                            responses: seq<(nat, Response<S>)>, secretKey: S, poly: seq<S>,
                                            expected: set<KeyId>, id: KeyId)
    requires p.Valid() && Embeds(p.scalars, embed)
    requires 0 < threshold == |responses| <= U16_MAX && |poly| <= threshold
    requires Distinct(Senders(responses)) && forall i :: 0 <= i < |responses| ==> responses[i].0 < U16_MAX
    requires AllVerified(p, embed, responses, secretKey, poly, expected)
    ensures AllIds(responses) == expected
    ensures id in expected ==>
      var r := Aggregated(p.scalars, embed, threshold, SharesFor(responses, id));
      r.Ok? && ElGamal.Decrypt(p, secretKey, r.value) == Extract(p, Eval(p.scalars, poly, p.scalars.zero), id)
  {
    AllIdsExpected(p, embed, responses, secretKey, poly, expected);
    if id in expected {
      OneShareEach(p, embed, responses, secretKey, poly, expected, id);
      var shares := SharesFor(responses, id);
      assert |shares| == |Parties(shares)| == |Senders(responses)|;
      forall i | 0 <= i < |shares|
        ensures shares[i].0 == responses[i].0
        ensures CorrectShare(p, embed, shares[i], secretKey, poly, id)
      {
        assert Parties(shares)[i] == Senders(responses)[i];
      }
      AggregatedDecrypts(p, embed, threshold, shares, secretKey, HashToG1(p, id).log, poly);
    }
  }
}
