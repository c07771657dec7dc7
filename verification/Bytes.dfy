/** Byte strings: exclusive or, little-endian integers, concatenation. */
module Bytes {

  type Byte = bv8

  const KEY_SIZE: nat := 32
  const U16_MAX: nat := 65535

  /** A byte array of the size of a key: keys, shares, object ids and packed scalars. */
  type Key = s: seq<Byte> | |s| == KEY_SIZE witness seq(KEY_SIZE, _ => 0)

  type ObjectId = Key

  /** The identity that a user key is extracted for. */
  type KeyId = seq<Byte>

  /** The exclusive or of two byte strings, as long as the shorter one. */
  function Xor(a: seq<Byte>, b: seq<Byte>): (r: seq<Byte>)
    ensures |r| == if |a| < |b| then |a| else |b|
  {
    seq(if |a| < |b| then |a| else |b|, i requires 0 <= i < |a| && i < |b| => a[i] ^ b[i])
  }

  /** The exclusive or of two arrays of the same size. */
  function XorKeys(a: Key, b: Key): Key { Xor(a, b) }

  lemma XorBytes(a: Byte, b: Byte)
    ensures (a ^ b) ^ b == a
    ensures b ^ (b ^ a) == a
    ensures (b ^ a) ^ b == a
  {
  }

  /** The exclusive or with a string at least as long undoes itself, on either side. */
  lemma XorUndoes(a: seq<Byte>, b: seq<Byte>)
    requires |a| <= |b|
    ensures Xor(Xor(a, b), b) == a
    ensures |a| == |b| ==> Xor(b, Xor(b, a)) == a && Xor(Xor(b, a), b) == a
  {
    forall i | 0 <= i < |a|
      ensures Xor(Xor(a, b), b)[i] == a[i]
      ensures |a| == |b| ==> Xor(b, Xor(b, a))[i] == a[i] && Xor(Xor(b, a), b)[i] == a[i]
    {
      XorBytes(a[i], b[i]);
    }
  }

  /** Different strings of one size stay different under the exclusive or with the same string. */
  lemma XorInjective(a: seq<Byte>, b: seq<Byte>, c: seq<Byte>)
    requires |a| == |b| == |c|
    ensures Xor(a, b) == Xor(a, c) <==> b == c
    ensures Xor(b, a) == Xor(c, a) <==> b == c
  {
    XorUndoes(b, a);
    XorUndoes(c, a);
  }

  /** The bytes of the characters of an ASCII string. */
  function Ascii(s: string): seq<Byte>
    requires forall i :: 0 <= i < |s| ==> s[i] < 128 as char
  {
    seq(|s|, i requires 0 <= i < |s| => (s[i] as int) as Byte)
  }

  function Pow256(k: nat): nat {
    if k == 0 then 1 else 256 * Pow256(k - 1)
  }

  /** The k lowest bytes of n, lowest first. */
  function LittleEndian(n: nat, k: nat): (r: seq<Byte>)
    ensures |r| == k
  {
    if k == 0 then [] else [(n % 256) as Byte] + LittleEndian(n / 256, k - 1)
  }

  lemma ByteIncrement(b: Byte)
    requires b as nat < 255
    ensures (b + 1) as nat == b as nat + 1
  {
  }

  lemma {:induction false} ByteOf(n: nat) returns (b: Byte)
    requires n < 256
    ensures b as nat == n
  {
    if n == 0 {
      b := 0;
    } else {
      var c := ByteOf(n - 1);
      ByteIncrement(c);
      b := c + 1;
    }
  }

  lemma NumberRoundTrip(b: Byte)
    ensures b as nat as Byte == b
  {
  }

  lemma ByteRoundTrip(n: nat)
    requires n < 256
    ensures n as Byte as nat == n
  {
    var b := ByteOf(n);
    NumberRoundTrip(b);
  }

  lemma {:induction false} LittleEndianInjective(m: nat, n: nat, k: nat)
    requires m < Pow256(k) && n < Pow256(k)
    requires LittleEndian(m, k) == LittleEndian(n, k)
    ensures m == n
  {
    if k > 0 {
      var a, b := LittleEndian(m, k), LittleEndian(n, k);
      assert a[0] == b[0] && a[1..] == b[1..];
      ByteRoundTrip(m % 256);
      ByteRoundTrip(n % 256);
      LittleEndianInjective(m / 256, n / 256, k - 1);
    }
  }

  /** The number that the bytes encode, lowest byte first. */
  function Decoded(bytes: seq<Byte>): nat {
    if |bytes| == 0 then 0 else bytes[0] as nat + 256 * Decoded(bytes[1..])
  }

  lemma ModSplit(n: nat, m: nat)
    requires m > 0
    ensures n % (256 * m) == n % 256 + 256 * (n / 256 % m)
  {
    var q, r := n / 256 / m, n % 256 + 256 * (n / 256 % m);
    assert n / 256 == q * m + n / 256 % m;
    assert n == q * (256 * m) + r;
    ModUnique(n, 256 * m, q, r);
  }

  lemma ModUnique(n: nat, m: nat, q: nat, r: nat)
    requires r < m && n == q * m + r
    ensures n % m == r
  {
    var d := n / m - q;
    assert n == (n / m) * m + n % m;
    assert d * m == r - n % m;
    MultipleIsLarge(d, m);
  }

  lemma MultipleIsLarge(d: int, m: nat)
    ensures d > 0 ==> d * m >= m
    ensures d < 0 ==> d * m <= 0 - m
  {
    if d > 0 {
      assert (d - 1) * m >= 0;
    } else if d < 0 {
      assert (0 - d - 1) * m >= 0;
    }
  }

  /** The encoding in k bytes decodes to the number, modulo 256 to the k. */
  lemma {:induction false} LittleEndianDecodes(n: nat, k: nat)
    ensures Pow256(k) > 0
    ensures Decoded(LittleEndian(n, k)) == n % Pow256(k)
  {
    if k > 0 {
      LittleEndianDecodes(n / 256, k - 1);
      ByteRoundTrip(n % 256);
      assert LittleEndian(n, k)[1..] == LittleEndian(n / 256, k - 1);
      ModSplit(n, Pow256(k - 1));
    }
  }

  lemma ConcatInjective(a: seq<Byte>, b: seq<Byte>, c: seq<Byte>, d: seq<Byte>)
    requires |a| == |c|
    requires a + b == c + d
    ensures a == c && b == d
  {
    assert (a + b)[..|a|] == a && (c + d)[..|c|] == c;
    assert (a + b)[|a|..] == b && (c + d)[|c|..] == d;
  }

  function Flatten(keys: seq<Key>): (r: seq<Byte>)
    ensures |r| == KEY_SIZE * |keys|
  {
    if |keys| == 0 then [] else keys[0] + Flatten(keys[1..])
  }

  /** Byte j of key i is byte 32 * i + j of the whole. */
  lemma {:induction false} FlattenAt(keys: seq<Key>, i: nat, j: nat)
    requires i < |keys| && j < KEY_SIZE
    ensures KEY_SIZE * i + j < |Flatten(keys)| && Flatten(keys)[KEY_SIZE * i + j] == keys[i][j]
  {
    if i > 0 {
      FlattenAt(keys[1..], i - 1, j);
    }
  }

  lemma {:induction false} FlattenInjective(a: seq<Key>, b: seq<Key>)
    requires |a| == |b|
    requires Flatten(a) == Flatten(b)
    ensures a == b
  {
    if |a| > 0 {
      ConcatInjective(a[0], Flatten(a[1..]), b[0], Flatten(b[1..]));
      FlattenInjective(a[1..], b[1..]);
      assert a == [a[0]] + a[1..] && b == [b[0]] + b[1..];
    }
  }
}
