/** The 128-bit block cipher as a pair of functions, and cipher block chaining over them
    (section 6.2 of NIST SP 800-38A). */
module BlockCipher {
  import opened Bytes
  import opened Octets

  type Block = s: seq<byte> | |s| == 16 witness Zeros(16)

  /** A key and a block to a block. */
  type BlockFunction = (Block, Block) -> Block

  ghost predicate Inverse(e: BlockFunction, d: BlockFunction) {
    forall k: Block, b: Block :: d(k, e(k, b)) == b
  }

  function CbcEncrypt(e: BlockFunction, k: Block, iv: Block, m: seq<byte>): (r: seq<byte>)
    requires |m| % 16 == 0
    ensures |r| == |m|
    decreases |m|
  {
    if |m| == 0 then [] else
      var y: Block := e(k, Xor(iv, m[..16]));
      y + CbcEncrypt(e, k, y, m[16..])
  }

  function CbcDecrypt(d: BlockFunction, k: Block, iv: Block, m: seq<byte>): (r: seq<byte>)
    requires |m| % 16 == 0
    ensures |r| == |m|
    decreases |m|
  {
    if |m| == 0 then [] else
      Xor(d(k, m[..16]), iv) + CbcDecrypt(d, k, m[..16], m[16..])
  }

  /** Decryption undoes encryption for any number of blocks. */
  lemma {:induction false} CbcInverse(e: BlockFunction, d: BlockFunction, k: Block, iv: Block, m: seq<byte>)
    requires Inverse(e, d) && |m| % 16 == 0
    ensures CbcDecrypt(d, k, iv, CbcEncrypt(e, k, iv, m)) == m
    decreases |m|
  {
    if |m| != 0 {
      var x: Block := Xor(iv, m[..16]);
      var y: Block := e(k, x);
      var rest := CbcEncrypt(e, k, y, m[16..]);
      assert CbcEncrypt(e, k, iv, m) == y + rest;
      assert (y + rest)[..16] == y && (y + rest)[16..] == rest;
      assert d(k, y) == x;
      XorCommutes(iv, m[..16]);
      XorCancels(m[..16], iv);
      CbcInverse(e, d, k, y, m[16..]);
      assert m[..16] + m[16..] == m;
    }
  }

  /** The block of `y` at some place is the encryption of that of `m` and the block before it, or the vector. */
  predicate ChainedAt(e: BlockFunction, k: Block, iv: Block, m: seq<byte>, y: seq<byte>, at: nat)
    requires |y| == |m| && at + 16 <= |m| && (at == 0 || at >= 16)
  {
    y[at..at + 16] == e(k, Xor(if at == 0 then iv else y[at - 16..at], m[at..at + 16]))
  }

  /** Every block of ciphertext is chained to the one before it. */
  lemma {:induction false} CbcBlockAt(e: BlockFunction, k: Block, iv: Block, m: seq<byte>, at: nat)
    requires |m| % 16 == 0 && at % 16 == 0 && at + 16 <= |m|
    ensures ChainedAt(e, k, iv, m, CbcEncrypt(e, k, iv, m), at)
    decreases at
  {
    var first: Block := e(k, Xor(iv, m[..16]));
    var rest := CbcEncrypt(e, k, first, m[16..]);
    assert CbcEncrypt(e, k, iv, m) == first + rest;
    if at == 0 {
      FirstChained(e, k, iv, m, rest);
    } else {
      CbcBlockAt(e, k, first, m[16..], at - 16);
      LaterChained(e, k, iv, m, first, rest, at);
    }
  }

  lemma FirstChained(e: BlockFunction, k: Block, iv: Block, m: seq<byte>, rest: seq<byte>)
    requires |m| == 16 + |rest|
    ensures ChainedAt(e, k, iv, m, e(k, Xor(iv, m[..16])) + rest, 0)
  {
    FirstBlock(e(k, Xor(iv, m[..16])), rest);
    assert m[0..16] == m[..16];
  }

  lemma LaterChained(e: BlockFunction, k: Block, iv: Block, m: seq<byte>, first: Block, rest: seq<byte>, at: nat)
    requires |m| == 16 + |rest| && at + 16 <= |m| && (at == 16 || at >= 32)
    requires ChainedAt(e, k, first, m[16..], rest, at - 16)
    ensures ChainedAt(e, k, iv, m, first + rest, at)
  {
    LaterBlock(first, rest, at);
    assert m[16..][at - 16..at] == m[at..at + 16];
    if at == 16 {
      FirstBlock(first, rest);
    } else {
      LaterBlock(first, rest, at - 16);
    }
  }

  lemma FirstBlock(first: Block, rest: seq<byte>)
    ensures (first + rest)[0..16] == first
  {
  }

  lemma LaterBlock(first: Block, rest: seq<byte>, at: nat)
    requires 16 <= at <= |rest|
    ensures (first + rest)[at..at + 16] == rest[at - 16..at]
  {
  }

  /** One block under the zero vector is the bare block cipher. */
  lemma CbcOneBlock(e: BlockFunction, d: BlockFunction, k: Block, b: Block)
    ensures CbcEncrypt(e, k, Zeros(16), b) == e(k, b)
    ensures CbcDecrypt(d, k, Zeros(16), b) == d(k, b)
  {
    XorZeros(b);
    XorZeros(d(k, b));
    assert b[..16] == b && b[16..] == [];
  }

  /** `ntag424_encrypt`: the library refuses a partial block without touching `output`, and the
      wrapper reports success all the same. */
  method Encrypt(e: BlockFunction, key: Block, iv: Block, length: nat, input: seq<byte>, output: array<byte>)
    returns (ok: bool)
    requires length <= |input| && length <= output.Length
    modifies output
    ensures ok
    ensures output[..length]
         == if length % 16 == 0 then CbcEncrypt(e, key, iv, input[..length]) else old(output[..length])
    ensures output[length..] == old(output[length..])
  {
    if length % 16 == 0 {
      Memcpy(output, 0, CbcEncrypt(e, key, iv, input[..length]));
    }
    ok := true;
  }

  /** `ntag424_decrypt`: here the library's refusal of a partial block is passed on. */
  method Decrypt(d: BlockFunction, key: Block, iv: Block, length: nat, input: seq<byte>, output: array<byte>)
    returns (ok: bool)
    requires length <= |input| && length <= output.Length
    modifies output
    ensures ok <==> length % 16 == 0
    ensures output[..length] == if ok then CbcDecrypt(d, key, iv, input[..length]) else old(output[..length])
    ensures output[length..] == old(output[length..])
  {
    ok := length % 16 == 0;
    if ok {
      Memcpy(output, 0, CbcDecrypt(d, key, iv, input[..length]));
    }
  }
}
