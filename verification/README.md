# Seal: threshold encryption and its key servers

This project models the cryptographic library and the key server of Seal, a system that encrypts data
so that it can be read with the help of a threshold of key servers, and proves properties of the model.
The modules follow the crates:

- **Secret sharing** (`Gf256`, `Logarithms`, `Fields`, `Polynomials`, `Interpolation`, `Tss`). The log and
  exponent tables are shown to be the powers of 0x03 and to make the bytes a field whose product is the
  carry-less one of section 4.2 of FIPS 197. The theory of polynomials is proved once over any field:
  evaluation is a ring homomorphism, interpolation passes through its points and is unique. Sharing then
  recovers the secret from every large enough selection, determines nothing below the threshold, and the
  fused reconstruction formula refines the general one.
- **Encryption** (`Bytes`, `Ibe`, `Dem`, `Seal`, `Consistency`). A random base key is shared among the key
  servers, each share is encrypted under the identity of the object, and the message under a key derived
  from the base key. Decryption inverts encryption, is total, and with public keys accepts an object
  exactly when all shares fit. `Consistency` states for which subsets of shares that check speaks.
- **Committees** (`ElGamal`, `Service`, `Aggregator`, `Collection`). The members of a committee return encrypted
  partial keys, which an aggregator collects, verifies and combines by interpolation under encryption.
- **The user** (`Sdk`). What key servers and committees return is decrypted and verified, and opens the objects
  that were encrypted to them.
- **Key servers** (`MasterKeys`, `Rotation`, `Permissioned`). Key rotation is a state machine of version
  polls interleaved with lookups; a panic of the updater is a halted state. Permissioned mode is validated
  once and relied on later.
- **Requests** (`Ptb`). A validated transaction is rewritten with a staleness check in front.

`Results` and `Sequences` hold what the others share. `dafny verify dfyconfig.toml` checks everything.

## How to read the model

- The pairing groups have prime order, so an element is represented by its discrete logarithm: groups are
  scalars of an arbitrary field and the pairing multiplies. Hash functions and encodings are parameters
  about which only types are assumed, except that AES-GCM and the scalar encoding decode what they encode;
  `Ibe.KdfInputInjective` also assumes that group elements have injective encodings of one size.
- Hash functions are not assumed to be injective. Where the security of a construction rests on one, the lemma
  returns the two byte strings that would collide.
- What the source draws at random is an argument, so every statement is for all draws. `Tss.Rng` models the
  generator itself as a stream with a position, for the order in which sharing draws.
- Bytes are `bv8`, keys are 32 bytes, and the casts to eight, sixteen and thirty-two bits are written out.
- Loops and objects of the source are methods and classes, each proved against a function; the properties
  are proved about that function.

## Where the code and its comments differ

- `crates/crypto/src/gf256.rs:37` describes the logarithm table with an index of i + 1, while line 59 reads
  entry x - 1. The model follows line 59.
- `crates/crypto/src/lib.rs:341` says that the consistency check makes all subsets of shares reconstruct the
  same polynomial. The check bounds the degree by the number of shares used, not by the threshold.
  `Consistency.SmallerSubsetsMayDisagree` is an accepted object that shows the difference.
  `Consistency.AcceptedSubsetsAgreeExactly` and `Consistency.VerifiedKeysAgreeExactly` give the exact
  condition for an accepted object: subsets of t shares, or verified keys of t services, agree if and only if
  the polynomials through the shares used have at most t coefficients. `Seal.AcceptedObjectsAreConsistent`
  is the case that always holds, subsets at least as large as the set used.
- `seal_encrypt` casts the number of key servers to eight bits (`crates/crypto/src/lib.rs:119`).
  `Seal.SealEncryptOutcome` gives the exact inputs on which key derivation then panics, and
  `Seal.TooManyServersPanic` one of them; the round trip
  is stated for at most 255 key servers.
- `try_from` checks that the inputs exist only for the first argument of each command.
  `Ptb.AcceptedButDisturbed` is an accepted transaction, for every decoder, whose meaning the staleness check changes, and
  `Ptb.StalenessCheckMeaning` states exactly when the meaning is kept: always, if every input reference is
  in range.
- The documentation of `aggregate_verified_encrypted_responses` expects a key for every id from every member.
  A member answers with one key for each call, while the aggregator compares with a set of ids, so a transaction
  that asks twice for an id passes `try_from` and is then refused. `Service.RepeatedIdRefused` is such a
  transaction and `Service.HonestRequestServed` the exact condition.

## Model

| member | source | states |
|---|---|---|
| Gf256.TableEntry | crates/crypto/src/gf256.rs:18-55 | for each of the 255 exponents, the logarithm table maps the table entry back to the exponent, and the entry is a non-zero byte |
| Gf256.TablesArePowersOf3 | crates/crypto/src/gf256.rs:18-64 | `exp` and `log` are inverse to each other in both directions on all non-zero bytes, `exp(0)` is 1 and each step of `exp` multiplies by 0x03 modulo x^8 + x^4 + x^3 + x + 1, also past 255 |
| Logarithms.InverseBothWays | crates/crypto/src/gf256.rs:57-64 | a table that `log` undoes on n exponents reaches every one of the n non-zero values, so `exp` undoes `log` too (by counting) |
| Gf256.Times3Linear | crates/crypto/src/gf256.rs:99-109 | multiplication by the generator is linear over exclusive or, for all bytes |
| Logarithms.LogTables.MulAssoc | crates/crypto/src/gf256.rs:99-109 | multiplication through the tables is associative, zero operands included |
| Logarithms.LogTables.MulIterates | crates/crypto/src/gf256.rs:99-109 | multiplying by b applies the generator step `log(b)` times |
| Logarithms.LogTables.Distributes | crates/crypto/src/gf256.rs:99-109 | table multiplication distributes over every addition for which the generator step is linear |
| Gf256.Distributes | crates/crypto/src/gf256.rs:67-109 | multiplication distributes over exclusive or |
| Logarithms.LogTables.DivIsMulInverse | crates/crypto/src/gf256.rs:112-123 | division fails exactly on a zero divisor and otherwise multiplies by the inverse; the exponent `255 + log a - log b` never goes below zero |
| Logarithms.LogTables.DivInvertsMul | crates/crypto/src/gf256.rs:99-123 | division undoes multiplication and multiplication undoes division by a non-zero byte |
| Gf256.MulIsCarryLess | crates/crypto/src/gf256.rs:99-109 | table multiplication equals the shift-and-add product of section 4.2.1 of FIPS 197 for all pairs of bytes |
| Gf256.SubAndDivAreTheFields | crates/crypto/src/gf256.rs:83-123 | `Sub` and `Div` are the subtraction and division of the field |
| Gf256.PowersOf3MakeField | crates/crypto/src/gf256.rs:67-123 | any sound tables of powers of 0x03 make all nine field laws hold with exclusive or as addition |
| Gf256.Gf256IsField | crates/crypto/src/gf256.rs:18-123 | the operations on the tables of the source form a field |
| Polynomials.SumDistributes | crates/crypto/src/gf256.rs:131-135 | a factor distributes over the `Sum` fold of any length |
| Polynomials.SumConcat | crates/crypto/src/gf256.rs:131-135 | the sum of two lists in a row is the sum of their sums |
| Polynomials.SumOfOne | crates/crypto/src/gf256.rs:131-135 | the sum of nothing is zero, and that of one element the element |
| Polynomials.Strip | crates/crypto/src/polynomial.rs:42-47 | the result is a prefix that does not end in zero; `EvalStrip` shows that only zeros were dropped |
| Polynomials.StripTrailingZeros | crates/crypto/src/polynomial.rs:42-47 | the popping loop computes that prefix |
| Polynomials.EvalStrip | crates/crypto/src/polynomial.rs:42-47 | dropping trailing zeros keeps the value everywhere |
| Polynomials.EvalIsPowerSum | crates/crypto/src/polynomial.rs:23-29 | Horner evaluation is the sum of coefficients times powers, for every length including zero |
| Polynomials.EvalAdd | crates/crypto/src/polynomial.rs:77-95 | `Add` of polynomials of any two lengths evaluates to the sum |
| Polynomials.EvalScale | crates/crypto/src/polynomial.rs:103-109 | scalar `Mul` evaluates to the multiple |
| Polynomials.EvalMul | crates/crypto/src/polynomial.rs:112-128 | the convolution `Mul` of non-empty polynomials evaluates to the product |
| Polynomials.EvalDiv | crates/crypto/src/polynomial.rs:131-138 | `Div` by a scalar fails exactly on zero and otherwise its value times the divisor is the value |
| Polynomials.ResultsAreStripped | crates/crypto/src/polynomial.rs:77-138 | sums, multiples and quotients never end in zero |
| Interpolation.LinearFactorLength | crates/crypto/src/polynomial.rs:57-70 | the division in a basis factor cannot fail for distinct abscissas, and the factor keeps both coefficients, so no empty polynomial is ever multiplied |
| Interpolation.BasisUpTo | crates/crypto/src/polynomial.rs:57-74 | each basis polynomial has exactly one coefficient more than factors; its calls meet the preconditions of `Mul` and `Div` |
| Interpolation.Interpolate | crates/crypto/src/polynomial.rs:57-74 | at most as many coefficients as points, for every list of points with distinct abscissas |
| Interpolation.EvalInterpolateUpTo | crates/crypto/src/polynomial.rs:57-74 | the interpolated polynomial evaluates to the Lagrange sum at every argument |
| Interpolation.InterpolatePassesThrough | crates/crypto/src/polynomial.rs:57-74 | it passes through every given point |
| Interpolation.FactorTheorem | crates/crypto/src/polynomial.rs:57-74 | `p(x) - p(a)` is `x - a` times the value of a quotient one shorter |
| Interpolation.RootsForceZero | crates/crypto/src/polynomial.rs:57-74 | a polynomial with as many distinct roots as coefficients is zero |
| Interpolation.AgreementIsEquality | crates/crypto/src/polynomial.rs:57-74 | polynomials that agree at as many points as they have coefficients have the same coefficients |
| Interpolation.InterpolateUnique | crates/crypto/src/polynomial.rs:57-74 | a polynomial of at most n coefficients passes through n points if and only if, without trailing zeros, it is the interpolated one |
| Interpolation.InterpolateRecovers | crates/crypto/src/polynomial.rs:57-74 | interpolating points of a small polynomial gives back its values everywhere |
| Interpolation.ExactlyOneThrough | crates/crypto/src/polynomial.rs:57-74 | through n points goes exactly one list of n coefficients |
| Tss.DenominatorNonZero | crates/crypto/src/tss.rs:150-172 | the denominators of the fused formula are never zero, so its divisions cannot fail |
| Tss.LagrangeProductAtZero | crates/crypto/src/tss.rs:150-172 | the Lagrange product at zero is a quotient of the products that the fused formula uses |
| Tss.FusedTerm | crates/crypto/src/tss.rs:150-172 | each summand of the fused formula is the summand of Lagrange's formula |
| Tss.CombineByteIsInterpolation | crates/crypto/src/tss.rs:150-172 | `combine_byte` fails exactly on empty, repeated or zero indices and otherwise returns the value at zero of the interpolated polynomial |
| Tss.InterpolateShares | crates/crypto/src/tss.rs:68-97 | fails exactly on the same lists; otherwise one interpolated polynomial per byte, in order |
| Tss.CombineRefinesInterpolate | crates/crypto/src/tss.rs:68-115 | for every share list and N >= 1, `combine` and `interpolate(..)(0)` fail on the same inputs with the same error and otherwise return the same bytes; for N = 0 `combine` returns nothing without checking |
| Tss.Transpose | crates/crypto/src/utils.rs:30-50 | succeeds exactly on the given number of rows of equal length; entry (j, i) of the result is entry (i, j) |
| Tss.FirstIndices | crates/crypto/src/tss.rs:37-63 | the share indices are 1 to n, distinct and never zero |
| Tss.SplitByteOutcome | crates/crypto/src/tss.rs:120-145 | splitting a byte fails exactly on a threshold out of range or zero or repeated indices; share k is otherwise the value at index k |
| Tss.SplitValues | crates/crypto/src/tss.rs:37-63 | `split` fails exactly on a threshold out of range or an empty secret; otherwise byte i of share k is the value at index k of the polynomial with constant term byte i of the secret |
| Tss.DrawSplitByte | crates/crypto/src/tss.rs:120-145 | the random draws of one byte: the coefficients are the next threshold - 1 bytes of the generator, and nothing else is drawn |
| Tss.DrawSplit | crates/crypto/src/tss.rs:37-63 | the bytes of the secret draw their coefficients one after the other, none shared; the result is `split` with these coefficients, and the generator ends right after them |
| Tss.CombineOnPolynomials | crates/crypto/src/tss.rs:102-115 | shares on polynomials with at most as many coefficients as shares combine to the constant terms |
| Tss.CombineRecoversSecret | crates/crypto/src/tss.rs:37-172 | any selection of at least threshold distinct shares of a split, in any order, combines to the secret, for every secret and all coefficients |
| Tss.CombineRecoversSecretInGf256 | crates/crypto/src/tss.rs:37-172 | the same for the arithmetic on the tables of the source |
| Tss.BelowThresholdNothingIsDetermined | crates/crypto/src/tss.rs:120-145 | for any threshold - 1 shares, any values of them and any secret byte, exactly one coefficient list produces them |
| Ibe.VerifiedIsExtracted | crates/crypto/src/ibe.rs:69-84 | a user key passes the pairing check if and only if it is the key extracted with the master key |
| Ibe.KeyForTwoIdentities | crates/crypto/src/ibe.rs:69-84 | a user key that verifies for two identities gives a collision of the hash into the group on the tagged identities |
| Ibe.MasterKeysMatter | crates/crypto/src/ibe.rs:43-71 | master keys differ exactly when their public keys do, and when their user keys do for an identity that does not hash to the group identity |
| Ibe.OneRandomness | crates/crypto/src/ibe.rs:161-166 | exactly one randomness verifies against a nonce |
| Ibe.DecryptionsAgree | crates/crypto/src/ibe.rs:146-184 | for every ciphertext, decrypting with a verified user key and decrypting with the verified randomness give the same bytes |
| Ibe.DecryptInvertsEncrypt | crates/crypto/src/ibe.rs:116-184 | every plaintext of a batch comes back from its own position, with any verified user key and with the randomness; the nonce verifies |
| Ibe.KdfInputInjective | crates/crypto/src/ibe.rs:191-205 | under fixed-size injective encodings of group elements, equal key derivation inputs have equal pairing value, nonce, identity, service and index |
| Ibe.KdfContexts | crates/crypto/src/ibe.rs:191-205 | derived keys are hashes of byte strings after the domain tag that are equal only if the pairing value, the nonce, the hashed identity, the service and its index are |
| Ibe.DecryptionContexts | crates/crypto/src/ibe.rs:146-158 | a ciphertext decrypts to the same bytes in two contexts exactly when two byte strings have one hash, and these are equal only if nothing in the contexts differs |
| Ibe.WrongKeyCollides | crates/crypto/src/ibe.rs:146-158 | a wrong user key that decrypts a share like the right one gives a hash collision |
| Ibe.RandomnessOutcome | crates/crypto/src/ibe.rs:213-218 | decryption of the randomness gives a scalar exactly when the bytes combined with the key encode it |
| Ibe.RandomnessKeyMatters | crates/crypto/src/ibe.rs:208-210 | the encrypted randomness is different under every key |
| Ibe.RandomnessRoundTrip | crates/crypto/src/ibe.rs:208-218 | decrypting the encrypted randomness with the same key gives it back |
| Dem.CtrUndoes | crates/crypto/src/dem.rs:81-87 | counter mode from any block number is its own inverse, for every length and a partial last block |
| Dem.HmacCtrRoundTrip | crates/crypto/src/dem.rs:58-78 | decryption of an encryption returns the message, and the ciphertext has its length |
| Dem.HmacCtrAcceptsEncryptionsOnly | crates/crypto/src/dem.rs:58-78 | a ciphertext and tag decrypt to a message if and only if they are its encryption; it is rejected exactly when the tag differs |
| Dem.BlockBounds | crates/crypto/src/dem.rs:81-87 | blocks are the chunks of 32 bytes, the last perhaps shorter |
| Dem.CiphertextBlock | crates/crypto/src/dem.rs:58-87 | block q of a ciphertext, the last perhaps shorter, is block q of the message combined with key block q, counted from 0 |
| Dem.BlocksDiffer | crates/crypto/src/dem.rs:81-87 | key blocks of different numbers hash different byte strings under the key, none of which a tag hashes |
| Dem.MacCovers | crates/crypto/src/dem.rs:89-96 | tags are hashes under the key of byte strings that end in the ciphertext and are equal only if the associated data and the ciphertext are |
| Dem.ForgeryCollides | crates/crypto/src/dem.rs:58-96 | a changed ciphertext or changed associated data accepted under the tag of a message gives a collision of the keyed hash |
| Dem.AlteredCiphertextCollides | crates/crypto/src/dem.rs:127-155 | the same for whole ciphertexts, where missing associated data counts as empty |
| Dem.AesGetsAssociatedData | crates/crypto/src/dem.rs:127-155 | AES-GCM gets the key, the associated data and the message in both directions |
| Dem.TagBytes | crates/crypto/src/dem.rs:104-111 | which purpose has which tag |
| Dem.DecryptInvertsEncrypt | crates/crypto/src/dem.rs:127-155 | in all three modes decryption gives the data back, or the key in plain mode |
| Dem.U64BytesInjective | crates/crypto/src/dem.rs:123-125 | the 64-bit encoding is injective |
| Dem.MacInputInjective | crates/crypto/src/dem.rs:89-96 | equal inputs of the tag have equal associated data and equal ciphertexts |
| Dem.PurposesAreSeparated | crates/crypto/src/dem.rs:104-120 | inputs hashed for encryption and for authentication are never equal |
| Seal.HashDeriveKey | crates/crypto/src/lib.rs:318-338 | the hashing loops compute the specified key |
| Seal.DerivedKeysDiffer | crates/crypto/src/lib.rs:305-338 | derived keys are hashes of byte strings, laid out as tag, base key, purpose, threshold, shares and servers, that are equal only if none of these differs |
| Seal.FullIdDetermines | crates/crypto/src/lib.rs:293-295 | the full id starts with the package, and determines the package and the id |
| Seal.DeriveKeyInputInjective | crates/crypto/src/lib.rs:305-338 | equal hash inputs with equal counts have equal purpose, base key, shares, threshold and key servers |
| Seal.Covered | crates/crypto/src/lib.rs:239-244 | exactly the services for which there is a user key, each once |
| Seal.SealDecrypt | crates/crypto/src/lib.rs:200-290 | total: for every object, user keys and public keys no length assertion, `expect` or empty interpolation is reachable; success needs version 0, a share per service, threshold covered services and distinct non-zero indices |
| Seal.RecoveredKey | crates/crypto/src/lib.rs:378-403 | a base key recovered without public keys is the value at zero of the polynomials through the shares, and decrypts the randomness of the nonce |
| Seal.CheckedShares | crates/crypto/src/lib.rs:344-454 | when the consistency check passes, the shares of all services, decrypted with the recovered randomness, lie on the polynomials through the shares used, and the nonce verifies |
| Seal.BothCombinationsSucceed | crates/crypto/src/lib.rs:344-403 | shares on small polynomials that all services' shares lie on are combined to the same base key by both routes |
| Seal.CheckAcceptsExactly | crates/crypto/src/lib.rs:344-454 | decryption with public keys recovers a key if and only if decryption without them recovers it and the shares of all services fit the polynomials through the shares used |
| Seal.CheckedObjectsAreConsistent | crates/crypto/src/lib.rs:344-454 | after an accepted check, verified user keys for at least threshold services with distinct non-zero indices, and at least as many as the polynomials have coefficients, recover the same base key with and without the check |
| Seal.AcceptedObjectsAreConsistent | crates/crypto/src/lib.rs:344-454 | in particular for any verified user keys that cover at least as many services as were used |
| Seal.AcceptedObjectsDecryptAlike | crates/crypto/src/lib.rs:200-290 | the decrypted messages are then equal too, errors included |
| Consistency.SubsetsAgreeExactly | crates/crypto/src/tss.rs:102-172 | for any valid share list: all selections of t shares combine to what all shares combine to, if and only if the polynomials through the shares have at most t coefficients |
| Consistency.AcceptedSubsetsAgreeExactly | crates/crypto/src/lib.rs:341-454 | the exact reach of the check: for an accepted object with distinct non-zero indices, all decrypted shares combine to the base key, and every selection of t of them does, if and only if the polynomials through the shares used have at most t coefficients |
| Consistency.VerifiedKeysAgreeExactly | crates/crypto/src/lib.rs:200-454 | the same for user keys: for an accepted object with distinct services, the verified keys of every t >= threshold services recover the accepted base key, if and only if the polynomials through the shares used have at most t coefficients |
| Consistency.SamePolynomials | crates/crypto/src/lib.rs:344-454 | the polynomials through all shares of an accepted object are those through the shares used |
| Consistency.AgreementIsLowDegree | crates/crypto/src/lib.rs:341-372 | points of which all subsets of t agree at a further place lie on a polynomial with at most t coefficients |
| Consistency.SmallerSubsetsMayDisagree | crates/crypto/src/lib.rs:341-372 | the comment at line 341 promises agreement of all subsets: an object with threshold 1 that passes the check with two verified keys and whose base key one verified key does not recover |
| Seal.SealEncryptOutcome | crates/crypto/src/lib.rs:111-188 | exactly when encryption succeeds, returns an error and panics: because of the cast to eight bits it panics in key derivation for more than 255 key servers whose number modulo 256 is that of the public keys and at least the threshold |
| Seal.TooManyServersPanic | crates/crypto/src/lib.rs:111-188 | such an input: 257 key servers, one public key and threshold 1 |
| Seal.EncryptedParts | crates/crypto/src/lib.rs:111-188 | the parts of an encrypted object: services numbered from 1, shares on the polynomials of the base key, randomness and message under separately derived keys |
| Seal.SealRoundTrip | crates/crypto/src/lib.rs:111-290 | for every message, mode, randomness and coefficients, and every map of correctly extracted keys that covers at least threshold services, decryption returns the message (the derived key in plain mode), with and without public keys; repeated server ids are allowed |
| Seal.BaseKeyRoundTrip | crates/crypto/src/lib.rs:200-290 | the base key comes back from every sharing whose degree is below the number of covered services |
| Seal.Gf256IsReady | crates/crypto/src/lib.rs:111-290 | the results hold for the byte arithmetic of the source |
| ElGamal.DecryptInvertsEncrypt | crates/crypto/src/elgamal.rs:42-53 | decryption inverts encryption for all randomness |
| ElGamal.EncryptionsDiffer | crates/crypto/src/elgamal.rs:42-49 | different randomness gives different first parts, and encryptions are equal only if randomness and message are |
| ElGamal.AggregationSucceeds | crates/crypto/src/elgamal.rs:56-94 | exactly when aggregation succeeds: threshold many encryptions from different parties with ids below 65535 |
| ElGamal.DecryptRelation | crates/crypto/src/elgamal.rs:51-53 | what it means to decrypt to an element, as a linear relation of the two parts |
| ElGamal.AggregateEncrypted | crates/crypto/src/elgamal.rs:56-94 | the loop with its three checks computes the aggregation of both lists of parts, or the first error |
| ElGamal.LagrangeSumLinear | crates/crypto/src/elgamal.rs:56-94 | Lagrange sums at equal abscissas are linear in the values, at every prefix |
| ElGamal.InterpolationLinear | crates/crypto/src/elgamal.rs:56-94 | interpolation at equal abscissas is linear in the values |
| ElGamal.AggregatedDecrypts | crates/crypto/src/elgamal.rs:56-94 | exactly threshold encryptions, from distinct parties in any order, of values of a polynomial with at most threshold coefficients aggregate to an encryption of its value at zero |
| ElGamal.VerifiedDecryptsToExtracted | crates/crypto/src/ibe.rs:88-112 | an encrypted key share passes the check if and only if it decrypts to the key extracted with the sender's master share and no part is the identity |
| Aggregator.IdSetSize | crates/key-server/src/aggregator/utils.rs:67-114 | a response without repetition is recognised by the size of its id set |
| Aggregator.VerifyDecryptionKeys | crates/key-server/src/aggregator/utils.rs:67-114 | accepts exactly the responses with each expected id once, no other, and every share verified |
| Aggregator.GatherShares | crates/key-server/src/aggregator/utils.rs:41-50 | the nested loops collect for each id exactly the shares sent for it, in arrival order |
| Aggregator.AggregateVerifiedEncryptedResponses | crates/key-server/src/aggregator/utils.rs:33-62 | refuses any number of responses but threshold; success holds each gathered id once with its aggregated shares; failure comes from an id whose aggregation fails |
| Aggregator.OneShareIn | crates/key-server/src/aggregator/utils.rs:41-114 | a verified response contributes exactly one share to an expected id, which decrypts to the partial key |
| Aggregator.OneShareEach | crates/key-server/src/aggregator/utils.rs:41-114 | verified responses contribute one correct share each, in the order of their senders |
| Aggregator.VerifiedResponsesAggregate | crates/key-server/src/aggregator/utils.rs:33-114 | threshold verified responses of distinct parties aggregate, for each expected id, to an encryption of the user key extracted with the master secret |
| Collection.Collect | crates/key-server/src/aggregator/server.rs:446-477 | for every arrival order: exactly threshold answers if and only if at least threshold members answer validly; it stops at the first arrival after which the outcome is decided, and not before; a threshold of zero is met by the first answer |
| Collection.AnswersAreArrivals | crates/key-server/src/aggregator/server.rs:446-477 | the answers and failures collected are those that arrived, unchanged |
| Collection.CountIsMultiplicity | crates/key-server/src/aggregator/server.rs:665-671 | the count of a kind is its multiplicity among the kinds of the errors |
| Collection.CountErrors | crates/key-server/src/aggregator/server.rs:653-683 | the counting map holds the number of errors of each kind with the first error of that kind |
| Collection.HandleInsufficientResponses | crates/key-server/src/aggregator/server.rs:653-683 | returns a collected error, the first of its kind, whose kind has the largest multiplicity; the generic error only when nothing was collected |
| Collection.AggregatesAreWhole | crates/key-server/src/aggregator/server.rs:479-504 | the aggregated response has exactly the expected ids, each once, each decrypting to the extracted user key |
| Collection.FetchKey | crates/key-server/src/aggregator/server.rs:446-525 | from arrivals to response: with too few valid answers a most frequent error of those collected when the loop stopped, otherwise, for verified members of one committee, all expected keys whole; with threshold zero it succeeds only when nobody answers |
| Service.HonestResponseAccepted | crates/key-server/src/server.rs:566-591 | the response of an honest member is accepted by the aggregator if and only if no id is requested twice and no part is the identity |
| Service.HonestRequestServed | crates/key-server/src/aggregator/utils.rs:22-114 | for every accepted transaction: the honest response is accepted if and only if its calls ask for different ids and no part is the identity |
| Service.RepeatedIdRefused | crates/key-server/src/aggregator/utils.rs:22-84 | a transaction that `try_from` accepts, with two calls for one id, to which every honest response is refused |
| Service.FullIdsOfObjects | crates/key-server/src/valid_ptb.rs:159-164 | the full ids of a request are those of objects of the package with the ids of the calls |
| Service.ServedKey | crates/key-server/src/server.rs:566-591 | each key of the response to an accepted transaction decrypts to the user key of the object its call names |
| Service.ServedKeyOpens | crates/key-server/src/server.rs:566-591 | that user key opens every object encrypted to the server under the package and id |
| Sdk.DecryptSealResponses | crates/seal-sdk/src/lib.rs:68-95 | succeeds exactly when every server has a public key under which all its decrypted keys verify; the cache then holds exactly the keys answered, each verified for its id and server, whatever the order |
| Sdk.SealDecryptObject | crates/seal-sdk/src/lib.rs:98-147 | fails without keys for the identity, without a public key of some service or with fewer distinct servers than the threshold; otherwise decrypts with exactly the cached keys of the services and their public keys in order |
| Sdk.OpenedIsChecked | crates/seal-sdk/src/lib.rs:98-147 | an object is only opened when the shares of all its services fit the shares used |
| Sdk.WholeResponsesVerify | crates/seal-sdk/src/lib.rs:68-95 | responses with whole keys, as the aggregator returns them, are never refused |
| Sdk.CachedUserKeys | crates/seal-sdk/src/lib.rs:68-123 | the cached keys of the services are the extracted ones, one for each server that answered |
| Sdk.CommitteeRoundTrip | crates/seal-sdk/src/lib.rs:68-147 | an object encrypted to committees and key servers decrypts to its message with the responses of at least threshold of them |
| Rotation.RunOutcome | crates/key-server/src/server.rs:654-767 | in every run of polls: an active committee never spawns the updater; a rotating one starts one below the target, waits while it polls the old version, finishes exactly when the target is polled with a matching on-chain key, and is halted otherwise |
| Rotation.LoadOutcome | crates/key-server/src/master_keys.rs:86-150 | exactly when loading a committee succeeds, and with which shares |
| Rotation.VersionChangesOnce | crates/key-server/src/server.rs:717-765 | between any two points of a run the version changes only from target - 1 to target and only after the new public key was validated |
| Rotation.ChangeNeedsValidatedKey | crates/key-server/src/server.rs:717-765 | a change of version took polls of the old version and then one of the next version that found the public key of the next share on chain |
| Rotation.ServedShareMatchesVersion | crates/key-server/src/master_keys.rs:86-302 | in every reachable state every lookup, by package and by server, serves the share configured for the stored version; a missing old share is the only failure, and only before the rotation completes; the "Invalid rotation state" branch is unreachable |
| Rotation.LookupsStaySuccessful | crates/key-server/src/server.rs:524-591 | a lookup that succeeded when the request was checked succeeds at every later version, in all three modes |
| MasterKeys.OpenModeServes | crates/key-server/src/master_keys.rs:226-302 | in open mode the one key answers every lookup, and outside committee mode there is no committee share |
| Rotation.CommitteeServer.constructor | crates/key-server/src/server.rs:654-690 | the server starts at the loaded version and spawns the updater only while rotating |
| Rotation.CommitteeServer.HandleEvent | crates/key-server/src/server.rs:717-765 | one poll changes the shared version and the updater as the transition says, and nothing else |
| Rotation.CommitteeServer.Monitor | crates/key-server/src/server.rs:717-765 | the polling loop performs the run |
| Permissioned.CheckClient | crates/key-server/src/key_server_options.rs:207-253 | one client: accepted exactly when it has packages and keeps names, indices, variables and ids free of repetition; the four sets then hold those seen so far |
| Permissioned.Validate | crates/key-server/src/key_server_options.rs:201-265 | accepts exactly the configurations without repeated names, derivation indices, environment variables or object ids, with packages for every client and every index below the number of indices in use |
| Permissioned.NoRepetitionMeans | crates/key-server/src/key_server_options.rs:207-253 | freedom from repetition in terms of the clients: none names an object twice, and no two share a name, derivation index, environment variable or object |
| Permissioned.AcceptedConfigurations | crates/key-server/src/key_server_options.rs:201-265 | the accepted configurations in these terms, with the derivation indices of the clients exactly the numbers below some n |
| Permissioned.IndicesAreIncremental | crates/key-server/src/key_server_options.rs:255-262 | for an accepted configuration the indices in use are exactly those from 0 to n - 1 |
| Permissioned.InsertPackages | crates/key-server/src/master_keys.rs:175-184 | the insertion loop adds the key for exactly the given packages |
| Permissioned.Load | crates/key-server/src/master_keys.rs:151-191 | succeeds exactly when the seed decodes, every imported key is available and some package has a key; the two maps are those of the clients |
| Permissioned.EveryClientItsKey | crates/key-server/src/master_keys.rs:151-191 | in the maps every package and server id has its own client's key, unspoilt by later clients, and those of exported clients have none |
| Permissioned.LoadedKeysServe | crates/key-server/src/master_keys.rs:151-237 | a lookup finds the derived or imported key of the client that owns the package, and fails exactly for exported clients |
| Permissioned.SupportedExactly | crates/key-server/src/key_server_options.rs:266-287 | a server id is supported exactly when it is that of a client that still has a key |
| Permissioned.SupportedServersHaveKeys | crates/key-server/src/server.rs:286-308 | every supported server id has a key, so the proof-of-possession map never panics |
| Ptb.TryFrom | crates/key-server/src/valid_ptb.rs:21-95 | accepts exactly the transactions with inputs, 1 to 100 commands, all calls to one package, named seal_approve..., with an identity as first argument; the transaction is unchanged |
| Ptb.AcceptedTransactions | crates/key-server/src/valid_ptb.rs:21-95 | the accepted transactions call by call, with the limit of 100 and the prefix seal_approve |
| Ptb.KeyIdOutcome | crates/key-server/src/valid_ptb.rs:97-125 | a call has a key id exactly when its first argument is a pure input in range whose bytes decode to it |
| Ptb.InnerIds | crates/key-server/src/valid_ptb.rs:139-150 | one id per command, decoded from its first argument; the `expect`s cannot fire |
| Ptb.FullIdsInjective | crates/key-server/src/valid_ptb.rs:159-164 | equal lists of full ids come from the same package and the same inner ids |
| Ptb.U64ArgumentDecodes | crates/key-server/src/seal_package.rs:55-66 | the time and the allowance are passed as eight bytes that decode to them |
| Ptb.InsertedClock | crates/key-server/src/seal_package.rs:66-86 | the clock is inserted exactly when there is none: the shared object 0x6 from its first version, not mutable |
| Ptb.ClockPosition | crates/key-server/src/seal_package.rs:66-86 | the first clock object among the inputs, or none |
| Ptb.ClockAfterPushing | crates/key-server/src/seal_package.rs:66-86 | the pushed arguments are never mistaken for the clock |
| Ptb.Extension.TryAddArgument | crates/key-server/src/seal_package.rs:98-111 | pushes the argument even when its index no longer fits, and returns the index or the error |
| Ptb.Extension.AddStalenessCheck | crates/key-server/src/seal_package.rs:55-95 | fails exactly when the extended inputs do not fit 16-bit indices, and otherwise returns the extended transaction |
| Ptb.ResolveCallExtended | crates/key-server/src/seal_package.rs:55-95 | a call on inputs stands for the same after inputs are appended and a command is inserted, if and only if it refers to none of the new inputs |
| Ptb.StalenessCheckMeaning | crates/key-server/src/seal_package.rs:55-95 | the result is the check on the given time, the allowance and the clock, then the same commands; the inputs stay a prefix; the calls keep what their arguments stand for if and only if none refers to a position that the new inputs take. That commands shift does no harm because accepted calls use no results |
| Ptb.AcceptedButDisturbed | crates/key-server/src/seal_package.rs:55-95 | for every decoder and every bytes it decodes, `try_from` accepts a transaction with a dangling second argument, which the check makes resolve to the time stamp |

## Left out

- Curve arithmetic, pairings, SHA-3, HMAC, HKDF, AES-GCM and the BCS, hex and base64 codecs are libraries; see above for what is assumed of them.
- Random number generation beyond the order of draws in sharing: no statement about probability or computational hardness. The draws of `seal_encrypt` are one record, so their order among each other is not modelled.
- The foreign `Poly::recover_c0` is modelled by its contract: Lagrange interpolation at zero of exactly threshold distinct non-zero indices, an error otherwise.
- Scalars form an arbitrary field with an injection of the share indices, instead of the integers modulo the order of BLS12-381.
- The in-place `add_assign` of field elements is modelled only as addition.
- Tss.Split: takes one coefficient list per byte of the secret, as the generator produces them; `Tss.DrawSplit` models the drawing.
- Collection.FetchKey: the signature, policy, header and version checks around the collection loop are not modelled.
- Aggregator.VerifyDecryptionKeys: returns whether the response is accepted, without the texts of the error messages.
- Aggregator.AggregateVerifiedEncryptedResponses: when several ids fail, which of their errors is returned depends on the iteration order of a hash map and is not determined.
- Rotation.RunOutcome: the polls are an arbitrary list of results; failing calls to the chain, which the source retries, and the polling interval are not modelled, and neither is the check of the active share at startup.
- Permissioned.Load: the public keys it logs, and the choice of the mode from the environment, are not modelled; open mode has a single key and nothing to load.
- Sdk.SealDecryptObject: the texts of its error messages are not distinguished beyond the kind of failure.
- Permissioned.SupportedServersHaveKeys: the proofs of possession themselves are signatures and not modelled.
- The distributed key generation and its command line tools, whose protocol steps live in another repository.
- HTTP, gRPC, name lookup, caches, signature checks, policy simulation and the session certificate.
- Metrics, the proxy, event and upgrade monitors, the documentation site and the example front ends.
