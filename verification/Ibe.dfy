/** Boneh-Franklin identity-based encryption.

    The pairing groups have prime order, so each element is the generator times a scalar and is
    represented here by that scalar; the pairing then multiplies scalars. The hash functions and
    the encodings of the libraries are functions about which nothing is assumed but their types
    and, for scalars and AES-GCM, that decoding inverts encoding. */
module Ibe {
  import opened Bytes
  import opened Fields
  import opened Results

  datatype G1<S> = G1(log: S)
  datatype G2<S> = G2(log: S)
  datatype GT<S> = GT(log: S)

  datatype Primitives<!S(!new)> = Primitives(
    scalars: Field<S>,
    hashToG1: seq<Byte> -> G1<S>,
    sha3: seq<Byte> -> Key,
    hmacSha3: (Key, seq<Byte>) -> Key,
    gtBytes: GT<S> -> seq<Byte>,
    g1Bytes: G1<S> -> seq<Byte>,
    g2Bytes: G2<S> -> seq<Byte>,
    scalarToBytes: S -> Key,
    scalarFromBytes: Key -> Option<S>,
    aesEncrypt: (Key, seq<Byte>, seq<Byte>) -> seq<Byte>,
    aesDecrypt: (Key, seq<Byte>, seq<Byte>) -> Option<seq<Byte>>)
  {
    ghost predicate Valid() {
      && scalars.IsField()
      && (forall s :: scalarFromBytes(scalarToBytes(s)) == Some(s))
      && (forall key, aad, msg :: aesDecrypt(key, aad, aesEncrypt(key, aad, msg)) == Some(msg))
    }

    function G2Generator(): G2<S> { G2(scalars.one) }

    function G1Times(a: G1<S>, s: S): G1<S> { G1(scalars.mul(a.log, s)) }

    function G2Times(a: G2<S>, s: S): G2<S> { G2(scalars.mul(a.log, s)) }

    function Pairing(a: G1<S>, b: G2<S>): GT<S> { GT(scalars.mul(a.log, b.log)) }
  }

  const DST_ID: seq<Byte> := Ascii("SUI-SEAL-IBE-BLS12381-00")
  const DST_KDF: seq<Byte> := Ascii("SUI-SEAL-IBE-BLS12381-H2-00")

  /** The object id of a key server and the index of its share. */
  type Info = (Key, Byte)

  function PublicKeyFromMasterKey<S(!new)>(p: Primitives<S>, masterKey: S): G2<S> {
    p.G2Times(p.G2Generator(), masterKey)
  }

  function HashToG1<S(!new)>(p: Primitives<S>, id: seq<Byte>): G1<S> {
    p.hashToG1(DST_ID + id)
  }

  function Extract<S(!new)>(p: Primitives<S>, masterKey: S, id: seq<Byte>): G1<S> {
    p.G1Times(HashToG1(p, id), masterKey)
  }

  predicate VerifyUserSecretKey<S(!new, ==)>(p: Primitives<S>, userSecretKey: G1<S>, id: seq<Byte>, publicKey: G2<S>) {
    p.Pairing(userSecretKey, p.G2Generator()) == p.Pairing(HashToG1(p, id), publicKey)
  }

  function KdfInput<S(!new)>(p: Primitives<S>, input: GT<S>, nonce: G2<S>, gid: G1<S>, info: Info): seq<Byte> {
    DST_KDF + p.gtBytes(input) + p.g2Bytes(nonce) + p.g1Bytes(gid) + info.0 + [info.1]
  }

  function Kdf<S(!new)>(p: Primitives<S>, input: GT<S>, nonce: G2<S>, gid: G1<S>, info: Info): Key {
    p.sha3(KdfInput(p, input, nonce, gid, info))
  }

  /** The key that encrypts a share: the pairing is computed from the randomness. */
  function EncryptionKey<S(!new)>(p: Primitives<S>, randomness: S, publicKey: G2<S>, id: seq<Byte>, info: Info): Key {
    var gid := HashToG1(p, id);
    var nonce := p.G2Times(p.G2Generator(), randomness);
    Kdf(p, p.Pairing(p.G1Times(gid, randomness), publicKey), nonce, gid, info)
  }

  function EncryptBatchedDeterministic<S(!new)>(p: Primitives<S>, randomness: S, plaintexts: seq<Key>,
                                                publicKeys: seq<G2<S>>, id: seq<Byte>,
                                                infos: seq<Info>): Result<(G2<S>, seq<Key>)> {
    var batchSize := |plaintexts|;
    if batchSize != |publicKeys| || batchSize != |infos| then
      Err(InvalidInput)
    else
      Ok((p.G2Times(p.G2Generator(), randomness),
          seq(batchSize, i requires 0 <= i < batchSize =>
            XorKeys(EncryptionKey(p, randomness, publicKeys[i], id, infos[i]), plaintexts[i]))))
  }

  function Decrypt<S(!new)>(p: Primitives<S>, nonce: G2<S>, ciphertext: Key, secretKey: G1<S>, id: seq<Byte>,
                            info: Info): Key {
    XorKeys(ciphertext, Kdf(p, p.Pairing(secretKey, nonce), nonce, HashToG1(p, id), info))
  }

  predicate VerifyNonce<S(!new, ==)>(p: Primitives<S>, randomness: S, nonce: G2<S>) {
    p.G2Times(p.G2Generator(), randomness) == nonce
  }

  function DecryptDeterministic<S(!new)>(p: Primitives<S>, randomness: S, ciphertext: Key, publicKey: G2<S>,
                                         id: seq<Byte>, info: Info): Key {
    XorKeys(ciphertext, EncryptionKey(p, randomness, publicKey, id, info))
  }

  function EncryptRandomness<S(!new)>(p: Primitives<S>, randomness: S, key: Key): Key {
    XorKeys(key, p.scalarToBytes(randomness))
  }

  function DecryptRandomness<S(!new)>(p: Primitives<S>, encrypted: Key, key: Key): Result<S> {
    match p.scalarFromBytes(XorKeys(key, encrypted))
    case Some(s) => Ok(s)
    case None => Err(InvalidInput)
  }

  // ----- Correctness

  /** A user key verifies exactly when it is the one extracted with the master key. */
  lemma VerifiedIsExtracted<S(!new)>(p: Primitives<S>, userSecretKey: G1<S>, id: seq<Byte>, masterKey: S)
    requires p.Valid()
    ensures VerifyUserSecretKey(p, userSecretKey, id, PublicKeyFromMasterKey(p, masterKey))
       <==> userSecretKey == Extract(p, masterKey, id)
  {
    var f := p.scalars;
    f.OneMul(masterKey);
    assert f.MulOne(userSecretKey.log);
  }

  /** A user key that verifies for two identities exhibits a collision of the hash function into the
      group: the tag and the whole identity are hashed. */
  lemma KeyForTwoIdentities<S(!new)>(p: Primitives<S>, userSecretKey: G1<S>, id: seq<Byte>, id': seq<Byte>,
                                     publicKey: G2<S>)
    requires p.Valid() && publicKey.log != p.scalars.zero && id != id'
    requires VerifyUserSecretKey(p, userSecretKey, id, publicKey)
        && VerifyUserSecretKey(p, userSecretKey, id', publicKey)
    ensures DST_ID + id != DST_ID + id' && p.hashToG1(DST_ID + id) == p.hashToG1(DST_ID + id')
  {
    p.scalars.MulCancel(p.hashToG1(DST_ID + id).log, p.hashToG1(DST_ID + id').log, publicKey.log);
    if DST_ID + id == DST_ID + id' {
      ConcatInjective(DST_ID, id, DST_ID, id');
    }
  }

  /** Master keys differ exactly when their public keys do, and when their user keys do for any
      identity that does not hash to the group's identity. */
  lemma MasterKeysMatter<S(!new)>(p: Primitives<S>, a: S, b: S, id: seq<Byte>)
    requires p.Valid()
    ensures PublicKeyFromMasterKey(p, a) == PublicKeyFromMasterKey(p, b) <==> a == b
    ensures Extract(p, a, id) == Extract(p, b, id) <==> a == b || p.hashToG1(DST_ID + id).log == p.scalars.zero
  {
    var f, h := p.scalars, p.hashToG1(DST_ID + id).log;
    f.OneMul(a);
    f.OneMul(b);
    f.MulZero(a);
    f.MulZero(b);
    assert f.MulComm(h, a) && f.MulComm(h, b);
    if f.mul(h, a) == f.mul(h, b) && h != f.zero {
      f.MulCancel(a, b, h);
    }
  }

  /** Exactly one randomness verifies against a nonce. */
  lemma OneRandomness<S(!new)>(p: Primitives<S>, nonce: G2<S>, randomness: S)
    requires p.Valid()
    ensures VerifyNonce(p, randomness, nonce) <==> randomness == nonce.log
  {
    p.scalars.OneMul(randomness);
  }

  /** The pairing of a verified user key with the nonce is the one computed from the randomness. */
  lemma PairingsAgree<S(!new)>(p: Primitives<S>, randomness: S, publicKey: G2<S>, userSecretKey: G1<S>, id: seq<Byte>)
    requires p.Valid()
    requires VerifyUserSecretKey(p, userSecretKey, id, publicKey)
    ensures p.Pairing(userSecretKey, p.G2Times(p.G2Generator(), randomness))
         == p.Pairing(p.G1Times(HashToG1(p, id), randomness), publicKey)
  {
    var f, h := p.scalars, HashToG1(p, id).log;
    f.OneMul(randomness);
    assert f.MulOne(userSecretKey.log);
    assert f.MulAssoc(h, publicKey.log, randomness) && f.MulComm(publicKey.log, randomness)
        && f.MulAssoc(h, randomness, publicKey.log);
  }

  /** Decrypting with a verified user key and decrypting with the randomness of the nonce agree on
      every ciphertext. */
  lemma DecryptionsAgree<S(!new)>(p: Primitives<S>, randomness: S, nonce: G2<S>, ciphertext: Key, publicKey: G2<S>,
                                  userSecretKey: G1<S>, id: seq<Byte>, info: Info)
    requires p.Valid()
    requires VerifyUserSecretKey(p, userSecretKey, id, publicKey)
    requires VerifyNonce(p, randomness, nonce)
    ensures Decrypt(p, nonce, ciphertext, userSecretKey, id, info)
         == DecryptDeterministic(p, randomness, ciphertext, publicKey, id, info)
  {
    PairingsAgree(p, randomness, publicKey, userSecretKey, id);
  }

  /** Decryption gives each plaintext of a batch back, with its user key or with the randomness. */
  lemma DecryptInvertsEncrypt<S(!new)>(p: Primitives<S>, randomness: S, plaintexts: seq<Key>, publicKeys: seq<G2<S>>,
                                       id: seq<Byte>, infos: seq<Info>, i: nat)
    requires p.Valid()
    requires |plaintexts| == |publicKeys| == |infos| && i < |plaintexts|
    ensures
      var r := EncryptBatchedDeterministic(p, randomness, plaintexts, publicKeys, id, infos);
      && r.Ok?
      && VerifyNonce(p, randomness, r.value.0)
      && |r.value.1| == |plaintexts|
      && DecryptDeterministic(p, randomness, r.value.1[i], publicKeys[i], id, infos[i]) == plaintexts[i]
      && forall userKey :: VerifyUserSecretKey(p, userKey, id, publicKeys[i]) ==>
           Decrypt(p, r.value.0, r.value.1[i], userKey, id, infos[i]) == plaintexts[i]
  {
    var r := EncryptBatchedDeterministic(p, randomness, plaintexts, publicKeys, id, infos).value;
    XorUndoes(plaintexts[i], EncryptionKey(p, randomness, publicKeys[i], id, infos[i]));
    forall userKey | VerifyUserSecretKey(p, userKey, id, publicKeys[i])
      ensures Decrypt(p, r.0, r.1[i], userKey, id, infos[i]) == plaintexts[i]
    {
      DecryptionsAgree(p, randomness, r.0, r.1[i], publicKeys[i], userKey, id, infos[i]);
    }
  }

  /** Group elements have encodings of one length for each group, and different encodings. */
  ghost predicate FixedSizeEncodings<S(!new)>(p: Primitives<S>) {
    && (forall a, b :: |p.gtBytes(a)| == |p.gtBytes(b)| && (p.gtBytes(a) == p.gtBytes(b) ==> a == b))
    && (forall a, b :: |p.g2Bytes(a)| == |p.g2Bytes(b)| && (p.g2Bytes(a) == p.g2Bytes(b) ==> a == b))
    && (forall a, b :: |p.g1Bytes(a)| == |p.g1Bytes(b)| && (p.g1Bytes(a) == p.g1Bytes(b) ==> a == b))
  }

  /** No two different contexts hash the same bytes to derive a key: the pairing, the nonce, the
      identity and the service with its index all count. */
  lemma KdfInputInjective<S(!new)>(p: Primitives<S>, input: GT<S>, nonce: G2<S>, gid: G1<S>, info: Info,
                                   input': GT<S>, nonce': G2<S>, gid': G1<S>, info': Info)
    requires FixedSizeEncodings(p)
    requires KdfInput(p, input, nonce, gid, info) == KdfInput(p, input', nonce', gid', info')
    ensures input == input' && nonce == nonce' && gid == gid' && info == info'
  {
    var a, a' := p.gtBytes(input), p.gtBytes(input');
    var b, b' := p.g2Bytes(nonce), p.g2Bytes(nonce');
    var c, c' := p.g1Bytes(gid), p.g1Bytes(gid');
    ConcatInjective(DST_KDF + a + b + c + info.0, [info.1], DST_KDF + a' + b' + c' + info'.0, [info'.1]);
    ConcatInjective(DST_KDF + a + b + c, info.0, DST_KDF + a' + b' + c', info'.0);
    ConcatInjective(DST_KDF + a + b, c, DST_KDF + a' + b', c');
    ConcatInjective(DST_KDF + a, b, DST_KDF + a', b');
    ConcatInjective(DST_KDF, a, DST_KDF, a');
  }

  /** Keys derived in two contexts are hashes of byte strings that are equal only if the contexts are. */
  lemma KdfContexts<S(!new)>(p: Primitives<S>, input: GT<S>, nonce: G2<S>, gid: G1<S>, info: Info, input': GT<S>,
                             nonce': G2<S>, gid': G1<S>, info': Info)
    returns (x: seq<Byte>, y: seq<Byte>)
    requires FixedSizeEncodings(p)
    ensures Kdf(p, input, nonce, gid, info) == p.sha3(x) && Kdf(p, input', nonce', gid', info') == p.sha3(y)
    ensures x == y <==> input == input' && nonce == nonce' && gid == gid' && info == info'
    ensures DST_KDF <= x && DST_KDF <= y
  {
    x, y := KdfInput(p, input, nonce, gid, info), KdfInput(p, input', nonce', gid', info');
    if x == y {
      KdfInputInjective(p, input, nonce, gid, info, input', nonce', gid', info');
    }
  }

  /** Decrypting one ciphertext in two contexts gives the same bytes exactly when two byte strings have
      the same hash, and these strings are equal only if nothing in the contexts differs: the user key,
      as far as its pairing with the nonce, the nonce, the hashed identity, the service and its index. */
  lemma DecryptionContexts<S(!new)>(p: Primitives<S>, ciphertext: Key, nonce: G2<S>, secretKey: G1<S>, id: seq<Byte>,
                                    info: Info, nonce': G2<S>, secretKey': G1<S>, id': seq<Byte>, info': Info)
    returns (x: seq<Byte>, y: seq<Byte>)
    requires FixedSizeEncodings(p)
    ensures Decrypt(p, nonce, ciphertext, secretKey, id, info) == Decrypt(p, nonce', ciphertext, secretKey', id', info')
       <==> p.sha3(x) == p.sha3(y)
    ensures x == y <==>
      && p.Pairing(secretKey, nonce) == p.Pairing(secretKey', nonce')
      && nonce == nonce'
      && p.hashToG1(DST_ID + id) == p.hashToG1(DST_ID + id')
      && info == info'
  {
    x, y := KdfContexts(p, p.Pairing(secretKey, nonce), nonce, HashToG1(p, id), info,
                        p.Pairing(secretKey', nonce'), nonce', HashToG1(p, id'), info');
    XorInjective(ciphertext, p.sha3(x), p.sha3(y));
  }

  /** A wrong user key that decrypts a share to the same bytes as the right one exhibits a collision of
      the hash function, unless the nonce is the group's identity. */
  lemma WrongKeyCollides<S(!new)>(p: Primitives<S>, ciphertext: Key, nonce: G2<S>, secretKey: G1<S>, secretKey': G1<S>,
                                  id: seq<Byte>, info: Info) returns (x: seq<Byte>, y: seq<Byte>)
    requires p.Valid() && FixedSizeEncodings(p) && nonce.log != p.scalars.zero && secretKey != secretKey'
    requires Decrypt(p, nonce, ciphertext, secretKey, id, info) == Decrypt(p, nonce, ciphertext, secretKey', id, info)
    ensures x != y && p.sha3(x) == p.sha3(y)
  {
    x, y := DecryptionContexts(p, ciphertext, nonce, secretKey, id, info, nonce, secretKey', id, info);
    if x == y {
      p.scalars.MulCancel(secretKey.log, secretKey'.log, nonce.log);
    }
  }

  /** Decryption gives a scalar exactly when the bytes combined with the key encode it. */
  lemma RandomnessOutcome<S(!new)>(p: Primitives<S>, encrypted: Key, key: Key, randomness: S)
    ensures DecryptRandomness(p, encrypted, key) == Ok(randomness)
        <==> p.scalarFromBytes(Xor(key, encrypted)) == Some(randomness)
    ensures DecryptRandomness(p, encrypted, key).Err? <==> p.scalarFromBytes(Xor(key, encrypted)) == None
  {
  }

  /** The encrypted randomness depends on the key. */
  lemma RandomnessKeyMatters<S(!new)>(p: Primitives<S>, randomness: S, key: Key, key': Key)
    ensures EncryptRandomness(p, randomness, key) == EncryptRandomness(p, randomness, key') <==> key == key'
  {
    XorInjective(p.scalarToBytes(randomness), key, key');
  }

  lemma RandomnessRoundTrip<S(!new)>(p: Primitives<S>, randomness: S, key: Key)
    requires p.Valid()
    ensures DecryptRandomness(p, EncryptRandomness(p, randomness, key), key) == Ok(randomness)
  {
    XorUndoes(p.scalarToBytes(randomness), key);
  }
}
