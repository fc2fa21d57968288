/** AES-CMAC: the functions of sections 2.3 and 2.4 of RFC 4493, and the in-place loops of `aescmac.cpp`
    proved against them. */
module AesCmac {
  import opened Bytes
  import opened Octets
  import opened BlockCipher

  // ---- Doubling -------------------------------------------------------------------------------

  /** A byte string as digits to the base 256, most significant first, and the number they spell. */
  function Digits(s: seq<byte>): (d: seq<nat>)
    ensures |d| == |s| && forall i :: 0 <= i < |d| ==> d[i] == s[i] as int && d[i] < 256
  {
    seq(|s|, i requires 0 <= i < |s| => s[i] as int)
  }

  function Number(d: seq<nat>): nat {
    if |d| == 0 then 0 else 256 * Number(d[..|d| - 1]) + d[|d| - 1]
  }

  function Value(s: seq<byte>): nat {
    Number(Digits(s))
  }

  function Pow256(n: nat): (p: nat)
    ensures p > 0
  {
    if n == 0 then 1 else 256 * Pow256(n - 1)
  }

  predicate Msb(s: seq<byte>) {
    |s| > 0 && TopBit(s[0])
  }

  /** One-bit left shift: every byte takes in the top bit of the byte after it. */
  function ShiftLeft(s: seq<byte>): (r: seq<byte>)
    ensures |r| == |s|
  {
    seq(|s|, i requires 0 <= i < |s| => ShiftByte(s[i], i + 1 < |s| && TopBit(s[i + 1])))
  }

  /** The same shift on digits, with `carry` coming in at the end. */
  function ShiftDigits(d: seq<nat>, carry: nat): (r: seq<nat>)
    ensures |r| == |d|
    ensures forall i :: 0 <= i < |d| ==> r[i] == (2 * d[i]) % 256 + if i + 1 < |d| then d[i + 1] / 128 else carry
  {
    if |d| == 0 then [] else
      var last := d[|d| - 1];
      ShiftDigits(d[..|d| - 1], last / 128) + [(2 * last) % 256 + carry]
  }

  lemma DigitsOfShift(s: seq<byte>)
    ensures Digits(ShiftLeft(s)) == ShiftDigits(Digits(s), 0)
  {
    forall i | 0 <= i < |s| ensures Digits(ShiftLeft(s))[i] == ShiftDigits(Digits(s), 0)[i] {
      DigitOfShift(s, i);
    }
  }

  lemma DigitOfShift(s: seq<byte>, i: nat)
    requires i < |s|
    ensures ShiftLeft(s)[i] as int == ShiftDigits(Digits(s), 0)[i]
  {
    if i + 1 < |s| {
      ShiftByteDoubles(s[i], TopBit(s[i + 1]));
      TopBitIsHigh(s[i + 1]);
    } else {
      ShiftByteDoubles(s[i], false);
    }
  }

  lemma {:induction false} ShiftDigitsDoubles(d: seq<nat>, carry: nat)
    requires |d| > 0 && carry <= 1 && forall i :: 0 <= i < |d| ==> d[i] < 256
    ensures Number(ShiftDigits(d, carry)) + (if d[0] >= 128 then Pow256(|d|) else 0) == 2 * Number(d) + carry
  {
    var last, front := d[|d| - 1], d[..|d| - 1];
    assert ShiftDigits(d, carry)[..|d| - 1] == ShiftDigits(front, last / 128);
    if |d| == 1 {
      assert front == [] && Pow256(1) == 256 * Pow256(0);
    } else {
      ShiftDigitsDoubles(front, last / 128);
    }
    DigitDoubles(last);
  }

  lemma DigitDoubles(x: nat)
    requires x < 256
    ensures (2 * x) % 256 + 256 * (x / 128) == 2 * x && x / 128 == if x >= 128 then 1 else 0
  {
  }

  lemma {:induction false} NumberBounded(d: seq<nat>)
    requires forall i :: 0 <= i < |d| ==> d[i] < 256
    ensures Number(d) < Pow256(|d|)
  {
    if |d| != 0 {
      NumberBounded(d[..|d| - 1]);
    }
  }

  /** The carry loop is doubling modulo 2 to the number of bits, and the bit it drops is the top bit. */
  lemma ShiftLeftDoubles(s: seq<byte>)
    requires |s| > 0
    ensures Value(ShiftLeft(s)) == (2 * Value(s)) % Pow256(|s|)
    ensures Msb(s) <==> 2 * Value(s) >= Pow256(|s|)
  {
    DigitsOfShift(s);
    TopBitIsHigh(s[0]);
    DoublingModulo(Digits(s));
  }

  lemma DoublingModulo(d: seq<nat>)
    requires |d| > 0 && forall i :: 0 <= i < |d| ==> d[i] < 256
    ensures Number(ShiftDigits(d, 0)) == (2 * Number(d)) % Pow256(|d|)
    ensures d[0] / 128 == 1 <==> 2 * Number(d) >= Pow256(|d|)
  {
    ShiftDigitsDoubles(d, 0);
    NumberBounded(d);
    DigitDoubles(d[0]);
    forall i | 0 <= i < |d| ensures ShiftDigits(d, 0)[i] < 256 {
      DigitDoubles(d[i]);
      if i + 1 < |d| {
        DigitDoubles(d[i + 1]);
      }
    }
    NumberBounded(ShiftDigits(d, 0));
    ModOnce(2 * Number(d), Number(ShiftDigits(d, 0)), Pow256(|d|));
  }

  lemma ModOnce(x: nat, r: nat, m: nat)
    requires 0 < m && r < m && (x == r || x == r + m)
    ensures x % m == r
  {
    if x == r + m {
      assert x / m == 1;
    }
  }

  // ---- RFC 4493 -------------------------------------------------------------------------------

  const RB: Block := Zeros(15) + [0x87]

  /** Section 2.3: doubling in the field of 2^128 elements. */
  function Double(l: Block): Block {
    if Msb(l) then Xor(ShiftLeft(l), RB) else ShiftLeft(l)
  }

  function K1(e: BlockFunction, k: Block): Block {
    Double(e(k, Zeros(16)))
  }

  function K2(e: BlockFunction, k: Block): Block {
    Double(K1(e, k))
  }

  /** The number of blocks; an empty message has one. */
  function BlockCount(length: nat): (n: nat)
    ensures n > 0 && 16 * (n - 1) <= length <= 16 * n
    ensures length > 0 ==> 16 * (n - 1) < length
  {
    if length == 0 then 1 else (length + 15) / 16
  }

  /** Section 2.4, step 4: the last block, masked with the subkey that tells whole from padded. */
  function LastBlock(m: seq<byte>, k1: Block, k2: Block): Block {
    Mask(m[16 * (BlockCount(|m|) - 1)..], k1, k2)
  }

  function Mask(tail: seq<byte>, k1: Block, k2: Block): Block
    requires |tail| <= 16
  {
    if |tail| == 16 then Xor(tail, k1) else Xor(tail + [0x80] + Zeros(15 - |tail|), k2)
  }

  /** Step 6: the chaining value after `i` whole blocks. */
  function Chain(e: BlockFunction, k: Block, m: seq<byte>, i: nat): Block
    requires 16 * i <= |m|
  {
    if i == 0 then Zeros(16) else e(k, Xor(Chain(e, k, m, i - 1), m[16 * (i - 1)..16 * i]))
  }

  /** Step 7, before and after the last encryption. */
  function MacInput(e: BlockFunction, k: Block, m: seq<byte>, k1: Block, k2: Block): Block {
    Xor(LastBlock(m, k1, k2), Chain(e, k, m, BlockCount(|m|) - 1))
  }

  function Cmac(e: BlockFunction, k: Block, m: seq<byte>): Block {
    e(k, MacInput(e, k, m, K1(e, k), K2(e, k)))
  }

  /** The vector the next block would be chained to. */
  function CbcFeedback(e: BlockFunction, k: Block, iv: Block, m: seq<byte>): Block
    requires |m| % 16 == 0
  {
    if |m| == 0 then iv else CbcEncrypt(e, k, iv, m)[|m| - 16..]
  }

  /** Appending one block to a whole number of them appends one block of ciphertext. */
  lemma {:induction false} CbcAppendsBlock(e: BlockFunction, k: Block, iv: Block, m: seq<byte>, last: Block)
    requires |m| % 16 == 0
    ensures CbcEncrypt(e, k, iv, m + last)
         == CbcEncrypt(e, k, iv, m) + e(k, Xor(last, CbcFeedback(e, k, iv, m)))
    decreases |m|
  {
    if |m| == 0 {
      assert m + last == last && last[..16] == last && last[16..] == [];
      XorCommutes(iv, last);
    } else {
      var y: Block := e(k, Xor(iv, m[..16]));
      assert (m + last)[..16] == m[..16] && (m + last)[16..] == m[16..] + last;
      CbcAppendsBlock(e, k, y, m[16..], last);
      assert CbcFeedback(e, k, iv, m) == CbcFeedback(e, k, y, m[16..]);
    }
  }

  /** The chaining value is the last block of the plain CBC encryption under the zero vector. */
  lemma {:induction false} ChainIsCbc(e: BlockFunction, k: Block, m: seq<byte>, i: nat)
    requires 16 * i <= |m|
    ensures Chain(e, k, m, i) == CbcFeedback(e, k, Zeros(16), m[..16 * i])
  {
    if i > 0 {
      var front, last: Block := m[..16 * (i - 1)], m[16 * (i - 1)..16 * i];
      ChainIsCbc(e, k, m, i - 1);
      assert front + last == m[..16 * i];
      CbcAppendsBlock(e, k, Zeros(16), front, last);
      XorCommutes(last, Chain(e, k, m, i - 1));
    }
  }

  /** The MAC is the last block of the CBC encryption of the message with its last block masked
      (the view of section 6.2 of NIST SP 800-38B). */
  lemma CmacIsLastCbcBlock(e: BlockFunction, k: Block, m: seq<byte>)
    ensures var cut := 16 * (BlockCount(|m|) - 1);
            Cmac(e, k, m) == CbcEncrypt(e, k, Zeros(16), m[..cut] + LastBlock(m, K1(e, k), K2(e, k)))[cut..]
  {
    var i := BlockCount(|m|) - 1;
    CbcAppendsBlock(e, k, Zeros(16), m[..16 * i], LastBlock(m, K1(e, k), K2(e, k)));
    ChainIsCbc(e, k, m, i);
  }

  // ---- The same by arithmetic -------------------------------------------------------------------

  /** The string of `n` bytes that spells a number. */
  function Spell(v: nat, n: nat): (s: seq<byte>)
    ensures |s| == n
  {
    if n == 0 then [] else Spell(v / 256, n - 1) + [ToByte(v)]
  }

  lemma SpellNext(v: nat, n: nat, q: nat, b: byte)
    requires v == 256 * q + b as int
    ensures Spell(v, n + 1) == Spell(q, n) + [b]
  {
    QuotientIs(v, q, b as int);
    ToByteModulo(v);
    assert ToByte(v) as int == b as int;
  }

  lemma QuotientIs(v: nat, q: nat, r: nat)
    requires v == 256 * q + r && r < 256
    ensures v / 256 == q && v % 256 == r
  {
  }

  lemma ValueNext(s: seq<byte>, b: byte)
    ensures Value(s + [b]) == 256 * Value(s) + b as int
  {
    assert Digits(s + [b])[..|s|] == Digits(s);
  }

  lemma {:induction false} SpellsBack(s: seq<byte>)
    ensures Spell(Value(s), |s|) == s
  {
    if s != [] {
      var front, last := s[..|s| - 1], s[|s| - 1];
      assert s == front + [last];
      ValueNext(front, last);
      SpellsBack(front);
      SpellNext(Value(s), |front|, Value(front), last);
    }
  }

  /** The block of twice the number; what overflows 128 bits is folded into the last byte as 87, as section 2.3 of
      RFC 4493 has it. */
  function Doubled(l: Block): Block {
    var v := 2 * Value(l);
    if v < 0x1_0000_0000_0000_0000_0000_0000_0000_0000 then Spell(v, 16) else
      var s := Spell(v - 0x1_0000_0000_0000_0000_0000_0000_0000_0000, 16);
      s[..15] + [s[15] ^ 0x87]
  }

  lemma Pow256Of16()
    ensures Pow256(16) == 0x1_0000_0000_0000_0000_0000_0000_0000_0000
  {
    assert Pow256(4) == 0x1_0000_0000;
    assert Pow256(8) == 0x1_0000_0000_0000_0000;
    assert Pow256(12) == 0x1_0000_0000_0000_0000_0000_0000;
  }

  /** A subkey step is that doubling, for every block. */
  lemma DoubleIs(l: Block)
    ensures Double(l) == Doubled(l)
  {
    ShiftLeftDoubles(l);
    Pow256Of16();
    NumberBounded(Digits(l));
    Overflows(2 * Value(l), Pow256(16));
    SpellsBack(ShiftLeft(l));
    var s: Block := ShiftLeft(l);
    FoldConstant(s);
    assert s[15 := s[15] ^ 0x87] == s[..15] + [s[15] ^ 0x87];
  }

  lemma Overflows(v: nat, m: nat)
    requires v < 2 * m
    ensures v % m == if v < m then v else v - m
  {
    if v >= m {
      assert v / m == 1;
    }
  }

  /** Section 2.4 as it is written down: the subkeys by arithmetic, the last block whole or marked and filled up, and
      the last block of a CBC encryption. */
  function Rfc4493(e: BlockFunction, k: Block, m: seq<byte>): (mac: seq<byte>) {
    var k1 := Doubled(e(k, Zeros(16)));
    var k2 := Doubled(k1);
    var cut := LastCut(|m|);
    var blocks := m[..cut] + Final(m[cut..], k1, k2);
    assert |blocks| == cut + 16;
    CbcEncrypt(e, k, Zeros(16), blocks)[cut..]
  }

  /** Where the last block begins. */
  function LastCut(n: nat): (cut: nat)
    ensures cut % 16 == 0 && (cut + 16) % 16 == 0 && cut <= n <= cut + 16
  {
    if n == 0 then 0 else (n - 1) / 16 * 16
  }

  function Final(tail: seq<byte>, k1: Block, k2: Block): Block
    requires |tail| <= 16
  {
    if |tail| < 16 then Xor(tail + [0x80] + Zeros(15 - |tail|), k2) else Xor(tail, k1)
  }

  lemma CmacIsRfc4493(e: BlockFunction, k: Block, m: seq<byte>)
    ensures Cmac(e, k, m) == Rfc4493(e, k, m)
  {
    DoubleIs(e(k, Zeros(16)));
    DoubleIs(K1(e, k));
    CmacIsLastCbcBlock(e, k, m);
    LastBlockAt(|m|);
    FinalIs(m[LastCut(|m|)..], K1(e, k), K2(e, k));
  }

  lemma LastBlockAt(n: nat)
    ensures 16 * (BlockCount(n) - 1) == LastCut(n)
  {
  }

  lemma FinalIs(tail: seq<byte>, k1: Block, k2: Block)
    requires |tail| <= 16
    ensures Mask(tail, k1, k2) == Final(tail, k1, k2)
  {
  }

  // ---- The loops ------------------------------------------------------------------------------

  /** `xor_block`; where the source moves into an input, an offset is given here. The output may be one of the inputs,
      as it is where the last block is masked, provided that input is read in place. */
  method XorBlock(output: array<byte>, input1: array<byte>, at1: nat, input2: array<byte>, at2: nat, len: nat)
    requires len <= output.Length && at1 + len <= input1.Length && at2 + len <= input2.Length
    requires output != input1 || at1 == 0
    requires output != input2 || at2 == 0
    modifies output
    ensures output[..len] == Xor(old(input1[at1..at1 + len]), old(input2[at2..at2 + len]))
    ensures output[len..] == old(output[len..])
  {
    var i := 0;
    while i < len
      invariant 0 <= i <= len
      invariant forall j :: 0 <= j < i ==> output[j] == old(input1[at1 + j]) ^ old(input2[at2 + j])
      invariant forall j :: i <= j < output.Length ==> output[j] == old(output[j])
    {
      output[i] := input1[at1 + i] ^ input2[at2 + i];
      i := i + 1;
    }
  }

  lemma ShiftLeftAt(s: seq<byte>, i: nat)
    requires i < |s|
    ensures ShiftLeft(s)[i] == ShiftByte(s[i], i + 1 < |s| && TopBit(s[i + 1]))
  {
  }

  /** `shift_left`. The loop reads a byte again after writing the output, so the two must differ. */
  method ShiftLeftLoop(output: array<byte>, input: array<byte>, len: nat)
    requires output != input && len <= output.Length && len <= input.Length
    modifies output
    ensures output[..len] == ShiftLeft(input[..len])
    ensures output[len..] == old(output[len..])
  {
    ghost var s := input[..len];
    var overflow := 0;
    var i := len - 1;
    while i >= 0
      invariant -1 <= i < len
      invariant overflow == if i + 1 < len && TopBit(s[i + 1]) then 1 else 0
      invariant forall j :: i < j < len ==> output[j] == ShiftLeft(s)[j]
      invariant forall j :: len <= j < output.Length ==> output[j] == old(output[j])
    {
      ShiftByteBits(input[i], overflow);
      ShiftLeftAt(s, i);
      output[i] := (input[i] << 1) | overflow;
      overflow := if input[i] & 0x80 != 0 then 1 else 0;
      i := i - 1;
    }
  }

  /** One subkey step, which the source writes out twice: shift, then fold in the field constant. */
  method DoubleInto(to: array<byte>, from: array<byte>)
    requires to != from && to.Length == 16 && from.Length == 16
    modifies to
    ensures to[..16] == Double(from[..16])
  {
    ShiftLeftLoop(to, from, 16);
    if from[0] & 0x80 != 0 {
      ghost var shifted := to[..16];
      to[15] := to[15] ^ 0x87;
      FoldConstant(shifted);
    }
  }

  lemma FoldConstant(s: Block)
    ensures Xor(s, RB) == s[15 := s[15] ^ 0x87]
  {
    forall i | 0 <= i < 15 ensures Xor(s, RB)[i] == s[i] {
      assert s[i] ^ 0 == s[i];
    }
  }

  /** `mbedtls_aes_crypt_ecb`, in place where the caller asks for it. */
  method EncryptEcb(e: BlockFunction, key: Block, input: array<byte>, output: array<byte>)
    requires input.Length == 16 && output.Length == 16
    modifies output
    ensures output[..16] == e(key, old(input[..16]))
  {
    Memcpy(output, 0, e(key, input[..16]));
  }

  /** The zero-filled, marked copy of a partial last block. */
  method PadBlock(lastBlock: array<byte>, tail: seq<byte>)
    requires lastBlock.Length == 16 && |tail| < 16
    modifies lastBlock
    ensures lastBlock[..16] == tail + [0x80] + Zeros(15 - |tail|)
  {
    Memcpy(lastBlock, 0, Zeros(16));
    assert lastBlock[..16] == Zeros(16);
    Memcpy(lastBlock, 0, tail);
    assert lastBlock[|tail|..] == Zeros(16)[|tail|..];
    assert lastBlock[..|tail|] == tail;
    ghost var was := lastBlock[..16];
    lastBlock[|tail|] := 0x80;
    assert lastBlock[..16] == was[|tail| := 0x80];
  }

  /** The masked last block. */
  method FillLastBlock(input: array<byte>, length: nat, k1: array<byte>, k2: array<byte>, lastBlock: array<byte>)
    requires length <= input.Length
    requires k1.Length == 16 && k2.Length == 16 && lastBlock.Length == 16
    requires lastBlock != input && lastBlock != k1 && lastBlock != k2
    modifies lastBlock
    ensures lastBlock[..16] == Mask(input[16 * (BlockCount(length) - 1)..length], k1[..16], k2[..16])
  {
    var n := (length + 15) / 16;
    var lastBlockComplete := length % 16 == 0;
    if n == 0 {
      n := 1;
      lastBlockComplete := false;
    }
    var at := 16 * (n - 1);
    if lastBlockComplete {
      assert at + 16 == length;
      XorBlock(lastBlock, input, at, k1, 0, 16);
    } else {
      assert length - at < 16;
      PadBlock(lastBlock, input[at..length]);
      XorBlock(lastBlock, lastBlock, 0, k2, 0, 16);
    }
  }

  /** `AES128_CMAC`. */
  method Aes128Cmac(e: BlockFunction, key: Block, input: array<byte>, length: nat, output: array<byte>)
    requires length <= input.Length && output.Length == 16
    modifies output
    ensures output[..16] == Cmac(e, key, old(input[..length]))
  {
    var k1, k2 := new byte[16](_ => 0), new byte[16](_ => 0);
    var buffer := new byte[16](_ => 0);
    assert buffer[..16] == Zeros(16);
    EncryptEcb(e, key, buffer, buffer);
    DoubleInto(k1, buffer);
    DoubleInto(k2, k1);
    MacBlocks(e, key, input, length, k1, k2, buffer);
    EncryptEcb(e, key, buffer, output);
  }

  /** The message blocks, leaving the input of the last encryption in `buffer`. */
  method MacBlocks(e: BlockFunction, key: Block, input: array<byte>, length: nat, k1: array<byte>, k2: array<byte>,
                   buffer: array<byte>)
    requires length <= input.Length && buffer.Length == 16 && buffer != input
    requires k1.Length == 16 && k2.Length == 16 && buffer != k1 && buffer != k2
    modifies buffer
    ensures buffer[..16] == MacInput(e, key, input[..length], k1[..16], k2[..16])
  {
    ghost var m := input[..length];
    var lastBlock := new byte[16];
    FillLastBlock(input, length, k1, k2, lastBlock);
    assert m[16 * (BlockCount(|m|) - 1)..] == input[16 * (BlockCount(length) - 1)..length];
    ghost var last := lastBlock[..16];
    ChainBlocks(e, key, input, length, lastBlock, buffer);
    assert buffer[..16] == Xor(last, Chain(e, key, m, BlockCount(|m|) - 1));
  }

  /** The block loop, which leaves the input of the last encryption in `buffer`. */
  method ChainBlocks(e: BlockFunction, key: Block, input: array<byte>, length: nat, lastBlock: array<byte>,
      buffer: array<byte>)
    requires length <= input.Length && lastBlock.Length == 16 && buffer.Length == 16
    requires buffer != input && buffer != lastBlock
    modifies buffer
    ensures buffer[..16] == Xor(lastBlock[..16], Chain(e, key, input[..length], BlockCount(length) - 1))
  {
    var n := BlockCount(length);
    var x := new byte[16](_ => 0);
    assert x[..16] == Zeros(16);
    var i := 0;
    while i < n - 1
      invariant 0 <= i <= n - 1
      invariant x[..16] == Chain(e, key, input[..length], i)
    {
      ghost var from, end := 16 * i, 16 * (i + 1);
      assert end == from + 16 <= 16 * (n - 1) <= length;
      assert input[from..end] == input[..length][from..end];
      XorBlock(buffer, x, 0, input, 16 * i, 16);
      EncryptEcb(e, key, buffer, x);
      i := i + 1;
    }
    XorBlock(buffer, lastBlock, 0, x, 0, 16);
  }
}
