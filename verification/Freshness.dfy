/** What the inputs of the MACs, the initialisation vectors and the session keys tell apart
    (ntag424_crypto.cpp:188-216 and 225-280, ntag424_apdu.cpp:123-131 and 228-236). */
module Freshness {
  import opened Octets
  import opened Bytes
  import opened BlockCipher
  import opened CipherSuite
  import opened Sessions
  import opened Apdu

  // ---- Counters --------------------------------------------------------------------------------

  lemma SameToByteIff(a: int, b: int)
    ensures ToByte(a) == ToByte(b) <==> a % 256 == b % 256
  {
    ToByteModulo(a);
    ToByteModulo(b);
    if a % 256 == b % 256 {
      ToByteCongruent(a, b);
    }
  }

  lemma CongruentFromBytes(a: int, b: int)
    requires a % 256 == b % 256 && (a / 256) % 256 == (b / 256) % 256
    ensures (a - b) % 0x1_0000 == 0
  {
    var q := (a / 256 - b / 256) / 256;
    assert a / 256 - b / 256 == 256 * q;
    assert a - b == 0x1_0000 * q;
  }

  /** The two counter bytes tell counters apart exactly modulo 2^16. */
  lemma CounterBytesIff(a: int, b: int)
    ensures CounterBytes(a) == CounterBytes(b) <==> (a - b) % 0x1_0000 == 0
  {
    if CounterBytes(a) == CounterBytes(b) {
      assert CounterBytes(a)[0] == CounterBytes(b)[0] && CounterBytes(a)[1] == CounterBytes(b)[1];
      SameToByteIff(a, b);
      SameToByteIff(a / 256, b / 256);
      CongruentFromBytes(a, b);
    }
    if (a - b) % 0x1_0000 == 0 {
      CounterBytesModulo(a, b);
    }
  }

  // ---- MAC inputs --------------------------------------------------------------------------------

  lemma SameParts(a: byte, c: seq<byte>, t: seq<byte>, m: seq<byte>, a': byte, c': seq<byte>, t': seq<byte>,
      m': seq<byte>)
    requires |c| == |c'| && |t| == |t'|
    ensures [a] + c + t + m == [a'] + c' + t' + m' <==> a == a' && c == c' && t == t' && m == m'
  {
    var s, s' := [a] + c + t + m, [a'] + c' + t' + m';
    assert s[0] == a && s[1..1 + |c|] == c && s[1 + |c|..1 + |c| + |t|] == t && s[1 + |c| + |t|..] == m;
    assert s'[0] == a' && s'[1..1 + |c|] == c' && s'[1 + |c|..1 + |c| + |t|] == t' && s'[1 + |c| + |t|..] == m';
  }

  /** Two messages to be signed are the same exactly if command, identifier and the string of header and data
      are, and the counters agree modulo 2^16. */
  lemma MacMessageIff(ins: byte, n: int, ti: Ti, h: seq<byte>, d: seq<byte>,
    ins': byte, n': int, ti': Ti, h': seq<byte>, d': seq<byte>)
    ensures MacMessage(ins, n, ti, h, d) == MacMessage(ins', n', ti', h', d')
       <==> ins == ins' && (n - n') % 0x1_0000 == 0 && ti == ti' && h + d == h' + d'
  {
    CounterBytesIff(n, n');
    ConcatAssociates([ins] + CounterBytes(n) + ti, h, d);
    ConcatAssociates([ins'] + CounterBytes(n') + ti', h', d');
    SameParts(ins, CounterBytes(n), ti, h + d, ins', CounterBytes(n'), ti', h' + d');
  }

  // ---- Initialisation vectors ------------------------------------------------------------------------

  lemma VectorBlockIff(a: byte, b: byte, ti: Ti, n: int, a': byte, b': byte, ti': Ti, n': int)
    ensures VectorBlock(a, b, ti, n) == VectorBlock(a', b', ti', n')
       <==> a == a' && b == b' && ti == ti' && (n - n') % 0x1_0000 == 0
  {
    CounterBytesIff(n, n');
    var v, v' := VectorBlock(a, b, ti, n), VectorBlock(a', b', ti', n');
    assert v[0] == a && v[1] == b && v[2..6] == ti && v[6..8] == CounterBytes(n);
    assert v'[0] == a' && v'[1] == b' && v'[2..6] == ti' && v'[6..8] == CounterBytes(n');
  }

  lemma EncryptionInjective(c: Cipher, key: Block, a: Block, b: Block)
    ensures c.e(key, a) == c.e(key, b) <==> a == b
  {
    assert c.d(key, c.e(key, a)) == a && c.d(key, c.e(key, b)) == b;
  }

  /** Under one session key, two command vectors are the same exactly if identifier and counter (modulo 2^16)
      are, and so are two response vectors; a command vector is never a response vector. */
  lemma VectorsFreshIff(c: Cipher, v: View, w: View)
    requires v.keyEnc == w.keyEnc
    ensures CommandIv(c, v) == CommandIv(c, w) <==> v.ti == w.ti && (v.counter - w.counter) % 0x1_0000 == 0
    ensures ResponseIv(c, v) == ResponseIv(c, w) <==> v.ti == w.ti && (v.counter - w.counter) % 0x1_0000 == 0
    ensures CommandIv(c, v) != ResponseIv(c, w)
  {
    EncryptionInjective(c, v.keyEnc, VectorBlock(0xA5, 0x5A, v.ti, v.counter),
      VectorBlock(0xA5, 0x5A, w.ti, w.counter));
    EncryptionInjective(c, v.keyEnc, VectorBlock(0x5A, 0xA5, v.ti, v.counter + 1),
      VectorBlock(0x5A, 0xA5, w.ti, w.counter + 1));
    EncryptionInjective(c, v.keyEnc, VectorBlock(0xA5, 0x5A, v.ti, v.counter),
      VectorBlock(0x5A, 0xA5, w.ti, w.counter + 1));
    VectorBlockIff(0xA5, 0x5A, v.ti, v.counter, 0xA5, 0x5A, w.ti, w.counter);
    VectorBlockIff(0x5A, 0xA5, v.ti, v.counter + 1, 0x5A, 0xA5, w.ti, w.counter + 1);
    VectorBlockIff(0xA5, 0x5A, v.ti, v.counter, 0x5A, 0xA5, w.ti, w.counter + 1);
  }

  /** So no two of the first 65536 commands of a session are encrypted under the same vector. */
  lemma NoVectorTwice(c: Cipher, v: View, i: nat, j: nat)
    requires i < j < 0x1_0000
    ensures CommandIv(c, v.(counter := ToInt16(i))) != CommandIv(c, v.(counter := ToInt16(j)))
  {
    VectorsFreshIff(c, v.(counter := ToInt16(i)), v.(counter := ToInt16(j)));
    NotCongruent(i, j);
  }

  lemma NotCongruent(i: nat, j: nat)
    requires i < j < 0x1_0000
    ensures (ToInt16(i) - ToInt16(j)) % 0x1_0000 != 0
  {
  }

  // ---- Session keys ----------------------------------------------------------------------------------

  lemma XorInjective(a: seq<byte>, x: seq<byte>, y: seq<byte>)
    requires |a| == |x| == |y|
    ensures Xor(a, x) == Xor(a, y) <==> x == y
  {
    XorCommutes(a, x);
    XorCommutes(a, y);
    XorCancels(x, a);
    XorCancels(y, a);
  }

  lemma VectorParts(l0: byte, l1: byte, a: Block, b: Block)
    ensures var s := SessionVector(l0, l1, a, b);
            && s[0] == l0 && s[1] == l1
            && s[6..8] == a[..2] && s[8..14] == Xor(a[2..8], b[..6]) && s[14..24] == b[6..] && s[24..] == a[8..]
  {
  }

  lemma BlockOfParts(a: Block, b: Block, i: nat, j: nat)
    requires i <= j <= 16 && a[..i] == b[..i] && a[i..j] == b[i..j] && a[j..] == b[j..]
    ensures a == b
  {
    assert a == a[..i] + a[i..j] + a[j..] && b == b[..i] + b[i..j] + b[j..];
  }

  /** Each random number alone decides the vector: with the other fixed, different numbers give different
      vectors. The vector of the encryption key is never that of the MAC key. */
  lemma SessionVectorIff(l0: byte, l1: byte, a: Block, b: Block, a': Block, b': Block)
    ensures SessionVector(l0, l1, a, b) == SessionVector(l0, l1, a, b') <==> b == b'
    ensures SessionVector(l0, l1, a, b) == SessionVector(l0, l1, a', b) <==> a == a'
    ensures SessionVector(0xA5, 0x5A, a, b) != SessionVector(0x5A, 0xA5, a', b')
  {
    VectorParts(l0, l1, a, b);
    if SessionVector(l0, l1, a, b) == SessionVector(l0, l1, a, b') {
      VectorParts(l0, l1, a, b');
      XorInjective(a[2..8], b[..6], b'[..6]);
      BlockOfParts(b, b', 6, 6);
    }
    if SessionVector(l0, l1, a, b) == SessionVector(l0, l1, a', b) {
      VectorParts(l0, l1, a', b);
      XorCommutes(a[2..8], b[..6]);
      XorCommutes(a'[2..8], b[..6]);
      XorInjective(b[..6], a[2..8], a'[2..8]);
      BlockOfParts(a, a', 2, 8);
    }
    VectorParts(0xA5, 0x5A, a, b);
    VectorParts(0x5A, 0xA5, a', b');
  }
}
