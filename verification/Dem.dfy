/** Data encapsulation: AES-256-GCM, HMAC-SHA3-256 in counter mode, or nothing but the key. */
module Dem {
  import opened Bytes
  import opened Results
  import opened Ibe

  datatype Purpose = Encryption | Mac

  function PurposeTag(purpose: Purpose): seq<Byte> {
    match purpose
    case Encryption => Ascii("HMAC-CTR-ENC")
    case Mac => Ascii("HMAC-CTR-MAC")
  }

  /** What is hashed for a purpose: the tag, then the data. */
  function HmacInput(purpose: Purpose, data: seq<Byte>): seq<Byte> {
    PurposeTag(purpose) + data
  }

  function Hmac<S(!new)>(p: Primitives<S>, purpose: Purpose, key: Key, data: seq<Byte>): Key {
    p.hmacSha3(key, HmacInput(purpose, data))
  }

  /** An unsigned 64-bit integer in the BCS encoding. */
  function U64Bytes(n: nat): seq<Byte> { LittleEndian(n, 8) }

  function Block<S(!new)>(p: Primitives<S>, key: Key, i: nat): Key {
    Hmac(p, Encryption, key, U64Bytes(i))
  }

  /** The blocks of 32 bytes from number i on, each combined with its own key block; the last
      block may be shorter. */
  function CtrFrom<S(!new)>(p: Primitives<S>, key: Key, msg: seq<Byte>, i: nat): (r: seq<Byte>)
    ensures |r| == |msg|
    decreases |msg|
  {
    if |msg| == 0 then []
    else
      var n := if |msg| < KEY_SIZE then |msg| else KEY_SIZE;
      Xor(msg[..n], Block(p, key, i)) + CtrFrom(p, key, msg[n..], i + 1)
  }

  function EncryptInCtrMode<S(!new)>(p: Primitives<S>, key: Key, msg: seq<Byte>): seq<Byte> {
    CtrFrom(p, key, msg, 0)
  }

  function MacInput(aad: seq<Byte>, ciphertext: seq<Byte>): seq<Byte> {
    U64Bytes(|aad|) + aad + ciphertext
  }

  function ComputeMac<S(!new)>(p: Primitives<S>, key: Key, aad: seq<Byte>, ciphertext: seq<Byte>): Key {
    Hmac(p, Mac, key, MacInput(aad, ciphertext))
  }

  function HmacCtrEncrypt<S(!new)>(p: Primitives<S>, msg: seq<Byte>, aad: seq<Byte>, key: Key): (seq<Byte>, Key) {
    var ciphertext := EncryptInCtrMode(p, key, msg);
    (ciphertext, ComputeMac(p, key, aad, ciphertext))
  }

  function HmacCtrDecrypt<S(!new)>(p: Primitives<S>, ciphertext: seq<Byte>, mac: Key, aad: seq<Byte>,
                                   key: Key): Result<seq<Byte>> {
    if mac != ComputeMac(p, key, aad, ciphertext) then Err(GeneralError("Invalid MAC"))
    else Ok(EncryptInCtrMode(p, key, ciphertext))
  }

  datatype EncryptionInput =
    | AesInput(data: seq<Byte>, aad: Option<seq<Byte>>)
    | HmacCtrInput(data: seq<Byte>, aad: Option<seq<Byte>>)
    | PlainInput

  datatype Ciphertext =
    | AesCiphertext(blob: seq<Byte>, aad: Option<seq<Byte>>)
    | HmacCtrCiphertext(blob: seq<Byte>, aad: Option<seq<Byte>>, mac: Key)
    | PlainCiphertext

  function OrEmpty(aad: Option<seq<Byte>>): seq<Byte> {
    match aad
    case Some(bytes) => bytes
    case None => []
  }

  function Encrypt<S(!new)>(p: Primitives<S>, input: EncryptionInput, key: Key): Ciphertext {
    match input
    case AesInput(data, aad) => AesCiphertext(p.aesEncrypt(key, OrEmpty(aad), data), aad)
    case HmacCtrInput(data, aad) =>
      var (blob, mac) := HmacCtrEncrypt(p, data, OrEmpty(aad), key);
      HmacCtrCiphertext(blob, aad, mac)
    case PlainInput => PlainCiphertext
  }

  function Decrypt<S(!new)>(p: Primitives<S>, ciphertext: Ciphertext, key: Key): Result<seq<Byte>> {
    match ciphertext
    case AesCiphertext(blob, aad) =>
      (match p.aesDecrypt(key, OrEmpty(aad), blob)
       case Some(msg) => Ok(msg)
       case None => Err(GeneralError("AES decryption failed")))
    case HmacCtrCiphertext(blob, aad, mac) => HmacCtrDecrypt(p, blob, mac, OrEmpty(aad), key)
    case PlainCiphertext => Ok(key)
  }

  // ----- Decryption inverts encryption

  /** Counter mode is its own inverse, also on a partial last block. */
  lemma {:induction false} CtrUndoes<S(!new)>(p: Primitives<S>, key: Key, msg: seq<Byte>, i: nat)
    ensures CtrFrom(p, key, CtrFrom(p, key, msg, i), i) == msg
    decreases |msg|
  {
    if |msg| > 0 {
      var n := if |msg| < KEY_SIZE then |msg| else KEY_SIZE;
      var block, rest := Xor(msg[..n], Block(p, key, i)), CtrFrom(p, key, msg[n..], i + 1);
      assert CtrFrom(p, key, msg, i) == block + rest;
      assert (block + rest)[..n] == block && (block + rest)[n..] == rest;
      XorUndoes(msg[..n], Block(p, key, i));
      CtrUndoes(p, key, msg[n..], i + 1);
      assert msg[..n] + msg[n..] == msg;
    }
  }

  lemma HmacCtrRoundTrip<S(!new)>(p: Primitives<S>, msg: seq<Byte>, aad: seq<Byte>, key: Key)
    ensures var (ciphertext, mac) := HmacCtrEncrypt(p, msg, aad, key);
      |ciphertext| == |msg| && HmacCtrDecrypt(p, ciphertext, mac, aad, key) == Ok(msg)
  {
    CtrUndoes(p, key, msg, 0);
  }

  /** Decryption accepts exactly what encryption makes: a ciphertext and a tag that decrypt to a
      message are those of that message, and anything else is rejected. */
  lemma HmacCtrAcceptsEncryptionsOnly<S(!new)>(p: Primitives<S>, ciphertext: seq<Byte>, mac: Key, aad: seq<Byte>,
                                               key: Key, msg: seq<Byte>)
    ensures HmacCtrDecrypt(p, ciphertext, mac, aad, key) == Ok(msg)
        <==> HmacCtrEncrypt(p, msg, aad, key) == (ciphertext, mac)
    ensures HmacCtrDecrypt(p, ciphertext, mac, aad, key).Err? <==> mac != ComputeMac(p, key, aad, ciphertext)
  {
    CtrUndoes(p, key, ciphertext, 0);
    CtrUndoes(p, key, msg, 0);
  }

  /** What decryption returns: the data, or the key when there is none. */
  function Payload(input: EncryptionInput, key: Key): seq<Byte> {
    match input
    case AesInput(data, _) => data
    case HmacCtrInput(data, _) => data
    case PlainInput => key
  }

  lemma DecryptInvertsEncrypt<S(!new)>(p: Primitives<S>, input: EncryptionInput, key: Key)
    requires p.Valid()
    ensures Decrypt(p, Encrypt(p, input, key), key) == Ok(Payload(input, key))
  {
    match input
    case HmacCtrInput(data, aad) => HmacCtrRoundTrip(p, data, OrEmpty(aad), key);
    case _ =>
  }

  // ----- What is authenticated is unambiguous

  lemma U64BytesInjective(m: nat, n: nat)
    requires m < 0x1_0000_0000_0000_0000 && n < 0x1_0000_0000_0000_0000
    requires U64Bytes(m) == U64Bytes(n)
    ensures m == n
  {
    assert Pow256(8) == 0x1_0000_0000_0000_0000 by {
      assert Pow256(2) == 0x1_0000;
      assert Pow256(4) == 0x1_0000_0000;
    }
    LittleEndianInjective(m, n, 8);
  }

  /** The input of the MAC determines the associated data and the ciphertext. */
  lemma MacInputInjective(aad: seq<Byte>, ciphertext: seq<Byte>, aad': seq<Byte>, ciphertext': seq<Byte>)
    requires |aad| < 0x1_0000_0000_0000_0000 && |aad'| < 0x1_0000_0000_0000_0000
    requires MacInput(aad, ciphertext) == MacInput(aad', ciphertext')
    ensures aad == aad' && ciphertext == ciphertext'
  {
    assert MacInput(aad, ciphertext) == U64Bytes(|aad|) + (aad + ciphertext);
    assert MacInput(aad', ciphertext') == U64Bytes(|aad'|) + (aad' + ciphertext');
    ConcatInjective(U64Bytes(|aad|), aad + ciphertext, U64Bytes(|aad'|), aad' + ciphertext');
    U64BytesInjective(|aad|, |aad'|);
    ConcatInjective(aad, ciphertext, aad', ciphertext');
  }

  /** The two purposes never hash the same input, and each input determines its data. */
  lemma PurposesAreSeparated(a: Purpose, data: seq<Byte>, b: Purpose, data': seq<Byte>)
    requires HmacInput(a, data) == HmacInput(b, data')
    ensures a == b && data == data'
  {
    TagsDiffer();
    ConcatInjective(PurposeTag(a), data, PurposeTag(b), data');
  }

  lemma TagsDiffer()
    ensures |PurposeTag(Encryption)| == |PurposeTag(Mac)|
    ensures PurposeTag(Encryption) != PurposeTag(Mac)
  {
    assert PurposeTag(Encryption)[9] == 69 && PurposeTag(Mac)[9] == 77;
  }

  // ----- What a tag and a key block depend on

  /** The tags end in ENC and in MAC. */
  lemma TagBytes()
    ensures |PurposeTag(Encryption)| == |PurposeTag(Mac)| == 12
    ensures PurposeTag(Encryption)[9] == 0x45 && PurposeTag(Mac)[9] == 0x4d
  {
    assert PurposeTag(Encryption)[9] == ('E' as int) as Byte;
    assert PurposeTag(Mac)[9] == ('M' as int) as Byte;
  }

  /** The tags of two ciphertexts under one key are hashes of byte strings that end in the ciphertexts and
      are equal only if the ciphertexts and the associated data are. */
  lemma MacCovers<S(!new)>(p: Primitives<S>, key: Key, aad: seq<Byte>, ciphertext: seq<Byte>,
                           aad': seq<Byte>, ciphertext': seq<Byte>) returns (x: seq<Byte>, y: seq<Byte>)
    requires |aad| < 0x1_0000_0000_0000_0000 && |aad'| < 0x1_0000_0000_0000_0000
    ensures ComputeMac(p, key, aad, ciphertext) == p.hmacSha3(key, x)
    ensures ComputeMac(p, key, aad', ciphertext') == p.hmacSha3(key, y)
    ensures x == y <==> aad == aad' && ciphertext == ciphertext'
    ensures |ciphertext'| <= |y| && y[|y| - |ciphertext'|..] == ciphertext'
  {
    x, y := HmacInput(Mac, MacInput(aad, ciphertext)), HmacInput(Mac, MacInput(aad', ciphertext'));
    assert y == (PurposeTag(Mac) + U64Bytes(|aad'|) + aad') + ciphertext';
    if x == y {
      PurposesAreSeparated(Mac, MacInput(aad, ciphertext), Mac, MacInput(aad', ciphertext'));
      MacInputInjective(aad, ciphertext, aad', ciphertext');
    }
  }

  /** Whoever gets a changed ciphertext or changed associated data accepted under the tag of a message
      has found a collision of the keyed hash function. */
  lemma ForgeryCollides<S(!new)>(p: Primitives<S>, key: Key, msg: seq<Byte>, aad: seq<Byte>, ciphertext': seq<Byte>,
                                 aad': seq<Byte>) returns (x: seq<Byte>, y: seq<Byte>)
    requires |aad| < 0x1_0000_0000_0000_0000 && |aad'| < 0x1_0000_0000_0000_0000
    requires
      var (ciphertext, mac) := HmacCtrEncrypt(p, msg, aad, key);
      HmacCtrDecrypt(p, ciphertext', mac, aad', key).Ok? && (ciphertext', aad') != (ciphertext, aad)
    ensures x != y && p.hmacSha3(key, x) == p.hmacSha3(key, y)
    ensures |ciphertext'| <= |y| && y[|y| - |ciphertext'|..] == ciphertext'
  {
    x, y := MacCovers(p, key, aad, HmacCtrEncrypt(p, msg, aad, key).0, aad', ciphertext');
  }

  /** The same for whole ciphertexts: missing associated data counts as empty. */
  lemma AlteredCiphertextCollides<S(!new)>(p: Primitives<S>, key: Key, msg: seq<Byte>, aad: Option<seq<Byte>>,
                                           blob: seq<Byte>, aad': Option<seq<Byte>>)
    returns (x: seq<Byte>, y: seq<Byte>)
    requires aad.Some? ==> |aad.value| < 0x1_0000_0000_0000_0000
    requires aad'.Some? ==> |aad'.value| < 0x1_0000_0000_0000_0000
    requires
      var sealed := Encrypt(p, HmacCtrInput(msg, aad), key);
      && sealed.HmacCtrCiphertext?
      && Decrypt(p, HmacCtrCiphertext(blob, aad', sealed.mac), key).Ok?
      && (blob != sealed.blob
          || (match aad case Some(a) => a case None => []) != (match aad' case Some(a) => a case None => []))
    ensures x != y && p.hmacSha3(key, x) == p.hmacSha3(key, y)
  {
    x, y := ForgeryCollides(p, key, msg, OrEmpty(aad), blob, OrEmpty(aad'));
  }

  /** AES-GCM gets the key, the associated data and the message, missing associated data being empty. */
  lemma AesGetsAssociatedData<S(!new)>(p: Primitives<S>, key: Key, msg: seq<Byte>, aad: Option<seq<Byte>>,
                                       blob: seq<Byte>)
    ensures
      var bytes := match aad case Some(a) => a case None => [];
      && Encrypt(p, AesInput(msg, aad), key) == AesCiphertext(p.aesEncrypt(key, bytes, msg), aad)
      && (forall m :: Decrypt(p, AesCiphertext(blob, aad), key) == Ok(m) <==> p.aesDecrypt(key, bytes, blob) == Some(m))
  {
    assert OrEmpty(aad) == match aad case Some(a) => a case None => [];
  }

  /** The key blocks of two numbers are hashes of different byte strings, and never of what a tag hashes. */
  lemma BlocksDiffer<S(!new)>(p: Primitives<S>, key: Key, i: nat, j: nat) returns (x: seq<Byte>, y: seq<Byte>)
    requires i < 0x1_0000_0000_0000_0000 && j < 0x1_0000_0000_0000_0000
    ensures Block(p, key, i) == p.hmacSha3(key, x) && Block(p, key, j) == p.hmacSha3(key, y)
    ensures x == y <==> i == j
    ensures forall aad, ciphertext :: x != HmacInput(Mac, MacInput(aad, ciphertext))
  {
    x, y := HmacInput(Encryption, U64Bytes(i)), HmacInput(Encryption, U64Bytes(j));
    if x == y {
      PurposesAreSeparated(Encryption, U64Bytes(i), Encryption, U64Bytes(j));
      U64BytesInjective(i, j);
    }
    forall aad, ciphertext ensures x != HmacInput(Mac, MacInput(aad, ciphertext)) {
      if x == HmacInput(Mac, MacInput(aad, ciphertext)) {
        PurposesAreSeparated(Encryption, U64Bytes(i), Mac, MacInput(aad, ciphertext));
      }
    }
  }

  lemma TakeOfDrop(s: seq<Byte>, m: nat, n: nat)
    requires m <= n <= |s|
    ensures s[m..][..n - m] == s[m..n]
  {
  }

  lemma DropTwice(s: seq<Byte>, m: nat, n: nat)
    requires m + n <= |s|
    ensures s[m..][n..] == s[m + n..]
  {
  }

  /** Where block q starts. */
  function Start(q: nat): nat {
    if q == 0 then 0 else Start(q - 1) + KEY_SIZE
  }

  function End(length: nat, q: nat): nat {
    if length < Start(q) + KEY_SIZE then length else Start(q) + KEY_SIZE
  }

  /** Block q starts at byte 32 * q and ends 32 bytes later, or with the message. */
  lemma {:induction false} BlockBounds(length: nat, q: nat)
    ensures Start(q) == 32 * q
    ensures End(length, q) == if length < 32 * q + 32 then length else 32 * q + 32
  {
    if q > 0 {
      BlockBounds(length, q - 1);
    }
  }

  /** One step of a mode that combines block after block with key blocks. */
  ghost predicate StepAt(mode: (seq<Byte>, nat) -> seq<Byte>, blocks: nat -> Key, msg: seq<Byte>, i: nat) {
    var n := End(|msg|, 0);
    && |mode(msg, i)| == |msg|
    && mode(msg, i)[..n] == Xor(msg[..n], blocks(i))
    && mode(msg, i)[n..] == mode(msg[n..], i + 1)
  }

  /** What follows q blocks is the mode from block number i + q on. */
  lemma {:induction false} ModeDrop(mode: (seq<Byte>, nat) -> seq<Byte>, blocks: nat -> Key, msg: seq<Byte>, i: nat,
                                    q: nat)
    requires forall m, j: nat :: StepAt(mode, blocks, m, j)
    requires Start(q) <= |msg|
    ensures |mode(msg, i)| == |msg| && mode(msg, i)[Start(q)..] == mode(msg[Start(q)..], i + q)
    decreases q
  {
    assert StepAt(mode, blocks, msg, i);
    if q == 0 {
      assert msg[0..] == msg;
    } else {
      var n := Start(q - 1);
      ModeDrop(mode, blocks, msg, i, q - 1);
      assert StepAt(mode, blocks, msg[n..], i + (q - 1));
      DropTwice(msg, n, KEY_SIZE);
      DropTwice(mode(msg, i), n, KEY_SIZE);
    }
  }

  lemma ModeBlock(mode: (seq<Byte>, nat) -> seq<Byte>, blocks: nat -> Key, msg: seq<Byte>, q: nat)
    requires forall m, j: nat :: StepAt(mode, blocks, m, j)
    requires Start(q) <= |msg|
    ensures |mode(msg, 0)| == |msg| && Start(q) <= End(|msg|, q) <= |msg|
    ensures mode(msg, 0)[Start(q)..End(|msg|, q)] == Xor(msg[Start(q)..End(|msg|, q)], blocks(q))
  {
    var start, end := Start(q), End(|msg|, q);
    ModeDrop(mode, blocks, msg, 0, q);
    assert StepAt(mode, blocks, msg[start..], q);
    TakeOfDrop(mode(msg, 0), start, end);
    TakeOfDrop(msg, start, end);
  }

  lemma ConcatParts(a: seq<Byte>, b: seq<Byte>)
    ensures (a + b)[..|a|] == a && (a + b)[|a|..] == b
  {
  }

  lemma CtrParts<S(!new)>(p: Primitives<S>, key: Key, msg: seq<Byte>, i: nat, n: nat)
    requires n == if |msg| < KEY_SIZE then |msg| else KEY_SIZE
    ensures CtrFrom(p, key, msg, i)[..n] == Xor(msg[..n], Block(p, key, i))
    ensures CtrFrom(p, key, msg, i)[n..] == CtrFrom(p, key, msg[n..], i + 1)
  {
    if n > 0 {
      ConcatParts(Xor(msg[..n], Block(p, key, i)), CtrFrom(p, key, msg[n..], i + 1));
    }
  }

  lemma CtrStep<S(!new)>(p: Primitives<S>, key: Key, msg: seq<Byte>, i: nat)
    ensures StepAt((m: seq<Byte>, j: nat) => CtrFrom(p, key, m, j), (j: nat) => Block(p, key, j), msg, i)
  {
    CtrParts(p, key, msg, i, End(|msg|, 0));
  }

  /** Block q of the ciphertext of a message, the last one perhaps shorter, is block q of the message
      combined with key block q. */
  lemma CiphertextBlock<S(!new)>(p: Primitives<S>, msg: seq<Byte>, aad: seq<Byte>, key: Key, q: nat)
    requires Start(q) <= |msg|
    ensures
      var ciphertext, start, end := HmacCtrEncrypt(p, msg, aad, key).0, Start(q), End(|msg|, q);
      |ciphertext| == |msg| && start <= end <= |msg| && ciphertext[start..end] == Xor(msg[start..end], Block(p, key, q))
  {
    var mode, blocks := (m, j: nat) => CtrFrom(p, key, m, j), (j: nat) => Block(p, key, j);
    forall m, j: nat ensures StepAt(mode, blocks, m, j) {
      CtrStep(p, key, m, j);
    }
    ModeBlock(mode, blocks, msg, q);
    assert HmacCtrEncrypt(p, msg, aad, key).0 == mode(msg, 0);
  }
}
