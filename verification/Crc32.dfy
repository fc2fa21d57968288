/** The CRC-32 loop (ntag424_crypto.cpp:43-53) as a linear register, and what it detects. */
module Crc32 {
  import opened Octets
  import opened ShiftRegisters

  type word = bv32

  const POLYNOMIAL: word := 0xEDB88320
  const ONES: word := 0xFFFFFFFF

  function BitStep(r: word): word {
    (r >> 1) ^ (if r & 1 != 0 then POLYNOMIAL else 0)
  }

  function XorWord(a: word, b: word): word {
    a ^ b
  }

  function Load(b: byte): word {
    b as word
  }

  function ByteUp(x: word): word {
    x << 8
  }

  const CRC32: Machine<word> := Machine(BitStep, XorWord, Load, ByteUp, 0)

  /** The register after a byte string, and the checksum read from it. */
  function Register(s: seq<byte>): word {
    Feed(CRC32, ONES, s)
  }

  function Crc(s: seq<byte>): word {
    Register(s) ^ ONES
  }

  // ---- The loop ---------------------------------------------------------------------------------

  lemma MaskedStep(crc: word)
    ensures (crc >> 1) ^ (POLYNOMIAL & (0 - (crc & 1))) == BitStep(crc)
  {
    assert crc & 1 == 0 || crc & 1 == 1;
  }

  /** The eight bit steps of one byte, with the polynomial masked in. */
  method StepByte(start: word) returns (crc: word)
    ensures crc == Steps(CRC32, start, 8)
  {
    crc := start;
    var bit := 0;
    while bit < 8
      invariant 0 <= bit <= 8
      invariant crc == Steps(CRC32, start, bit)
    {
      var mask := 0 - (crc & 1);
      MaskedStep(crc);
      crc := (crc >> 1) ^ (POLYNOMIAL & mask);
      bit := bit + 1;
    }
  }

  lemma FeedNext(r: word, s: seq<byte>, i: nat)
    requires i < |s|
    ensures Feed(CRC32, r, s[i..]) == Feed(CRC32, Steps(CRC32, r ^ (s[i] as word), 8), s[i + 1..])
  {
    assert s[i..][1..] == s[i + 1..];
  }

  /** `Arduino_CRC32::calc`. */
  method Calc(data: seq<byte>) returns (result: word)
    ensures result == Crc(data)
  {
    var crc: word := 0xFFFFFFFF;
    var i := 0;
    while i < |data|
      invariant 0 <= i <= |data|
      invariant Feed(CRC32, crc, data[i..]) == Register(data)
    {
      FeedNext(crc, data, i);
      crc := StepByte(crc ^ (data[i] as word));
      i := i + 1;
    }
    result := crc ^ 0xFFFFFFFF;
  }

  // ---- The register is linear and injective -----------------------------------------------------

  lemma StepEven(a: word)
    requires a & 1 == 0
    ensures BitStep(a) == a >> 1
  {
  }

  lemma ShiftsSum(a: word, b: word)
    requires a & 1 == 0 && b & 1 == 0
    ensures (a ^ b) & 1 == 0 && (a ^ b) >> 1 == (a >> 1) ^ (b >> 1)
  {
  }

  lemma LinearEvenEven(a: word, b: word)
    requires a & 1 == 0 && b & 1 == 0
    ensures BitStep(a ^ b) == BitStep(a) ^ BitStep(b)
  {
    ShiftsSum(a, b);
    StepEven(a ^ b);
    StepEven(a);
    StepEven(b);
  }

  lemma LinearOddEven(a: word, b: word)
    requires a & 1 != 0 && b & 1 == 0
    ensures BitStep(a ^ b) == BitStep(a) ^ BitStep(b)
  {
    assert (a ^ b) & 1 != 0;
  }

  lemma LinearOddOdd(a: word, b: word)
    requires a & 1 != 0 && b & 1 != 0
    ensures BitStep(a ^ b) == BitStep(a) ^ BitStep(b)
  {
    assert (a ^ b) & 1 == 0;
  }

  lemma BitStepLinear(a: word, b: word)
    ensures BitStep(a ^ b) == BitStep(a) ^ BitStep(b)
  {
    if a & 1 == 0 && b & 1 == 0 {
      LinearEvenEven(a, b);
    } else if a & 1 != 0 && b & 1 != 0 {
      LinearOddOdd(a, b);
    } else if a & 1 != 0 {
      LinearOddEven(a, b);
    } else {
      LinearOddEven(b, a);
      XorCommutes(a, b);
      XorCommutes(BitStep(a), BitStep(b));
    }
  }

  lemma XorCommutes(a: word, b: word)
    ensures a ^ b == b ^ a
  {
  }

  /** The polynomial has its top bit set, so the bit that is shifted out can be read off the result. */
  lemma BitStepInjective(a: word, b: word)
    requires BitStep(a) == BitStep(b)
    ensures a == b
  {
    assert BitStep(a) & 0x80000000 != 0 <==> a & 1 != 0;
    assert BitStep(b) & 0x80000000 != 0 <==> b & 1 != 0;
  }

  lemma XorAssociates(a: word, b: word, c: word)
    ensures (a ^ b) ^ c == a ^ (b ^ c)
  {
  }

  lemma XorCancels(a: word, b: word, c: word)
    ensures a ^ b == a ^ c ==> b == c
    ensures a ^ c == b ^ c ==> a == b
  {
  }

  // ---- Four bytes are one word ------------------------------------------------------------------

  /** A step on a word whose low bit is zero only shifts it, so eight steps undo a shift by eight. */
  lemma EvenStep(y: word)
    requires y & 0x80000000 == 0
    ensures BitStep(y << 1) == y
  {
  }

  lemma ShiftByOnes(x: word)
    requires x <= 0x00FFFFFF
    ensures var y := ((x << 1) << 1) << 1;
            var z := ((y << 1) << 1) << 1;
            (z << 1) << 1 == x << 8 && (z << 1) & 0x80000000 == 0 && z & 0x80000000 == 0
    ensures var y := ((x << 1) << 1) << 1;
            ((y << 1) << 1) & 0x80000000 == 0 && (y << 1) & 0x80000000 == 0 && y & 0x80000000 == 0
    ensures ((x << 1) << 1) & 0x80000000 == 0 && (x << 1) & 0x80000000 == 0 && x & 0x80000000 == 0
  {
  }

  lemma StepBack(r: word, n: nat, y: word)
    requires Steps(CRC32, r, n) == y << 1 && y & 0x80000000 == 0
    ensures Steps(CRC32, r, n + 1) == y
  {
    EvenStep(y);
  }

  lemma EightStepsUndo(x: word)
    requires x <= 0x00FFFFFF
    ensures Steps(CRC32, x << 8, 8) == x
  {
    ShiftByOnes(x);
    var x1 := x << 1;
    var x2 := x1 << 1;
    var x3 := x2 << 1;
    var x4 := x3 << 1;
    var x5 := x4 << 1;
    var x6 := x5 << 1;
    var x7 := x6 << 1;
    StepBack(x << 8, 0, x7);
    StepBack(x << 8, 1, x6);
    StepBack(x << 8, 2, x5);
    StepBack(x << 8, 3, x4);
    StepBack(x << 8, 4, x3);
    StepBack(x << 8, 5, x2);
    StepBack(x << 8, 6, x1);
    StepBack(x << 8, 7, x);
  }

  lemma {:induction false} WordBounded(s: seq<byte>)
    requires |s| <= 4
    ensures |s| == 0 ==> Word(CRC32, s) == 0
    ensures |s| <= 1 ==> Word(CRC32, s) <= 0xFF
    ensures |s| <= 2 ==> Word(CRC32, s) <= 0xFFFF
    ensures |s| <= 3 ==> Word(CRC32, s) <= 0xFFFFFF
  {
    if |s| != 0 {
      WordBounded(s[1..]);
      JoinBounded(s[0], Word(CRC32, s[1..]));
    }
  }

  lemma JoinBounded(b: byte, x: word)
    ensures x == 0 ==> Load(b) ^ ByteUp(x) <= 0xFF
    ensures x <= 0xFF ==> Load(b) ^ ByteUp(x) <= 0xFFFF
    ensures x <= 0xFFFF ==> Load(b) ^ ByteUp(x) <= 0xFFFFFF
  {
  }

  lemma JoinInjective(a: byte, x: word, b: byte, y: word)
    requires x <= 0xFFFFFF && y <= 0xFFFFFF
    requires Load(a) ^ ByteUp(x) == Load(b) ^ ByteUp(y)
    ensures a == b && x == y
  {
  }

  predicate Below24(x: word) {
    x <= 0xFFFFFF
  }

  lemma Crc32Joins()
    ensures Joins(CRC32, Below24)
  {
    forall a: byte, x: word, b: byte, y: word
      | Below24(x) && Below24(y) && CRC32.xor(CRC32.load(a), CRC32.up(x)) == CRC32.xor(CRC32.load(b), CRC32.up(y))
      ensures a == b && x == y
    {
      JoinApplied(a, x, b, y);
    }
  }

  lemma JoinApplied(a: byte, x: word, b: byte, y: word)
    requires Below24(x) && Below24(y)
    requires CRC32.xor(CRC32.load(a), CRC32.up(x)) == CRC32.xor(CRC32.load(b), CRC32.up(y))
    ensures a == b && x == y
  {
    assert CRC32.xor(CRC32.load(a), CRC32.up(x)) == Load(a) ^ ByteUp(x);
    assert CRC32.xor(CRC32.load(b), CRC32.up(y)) == Load(b) ^ ByteUp(y);
    JoinInjective(a, x, b, y);
  }

  lemma Crc32Injective()
    ensures Injective(CRC32)
  {
    forall a: word, b: word | CRC32.step(a) == CRC32.step(b) ensures a == b {
      BitStepInjective(a, b);
    }
  }

  lemma Crc32Linear()
    ensures Linear(CRC32)
  {
    forall a: word, b: word ensures CRC32.step(CRC32.xor(a, b)) == CRC32.xor(CRC32.step(a), CRC32.step(b)) {
      BitStepLinear(a, b);
    }
  }

  lemma Crc32Associative()
    ensures Associative(CRC32)
  {
    forall a: word, b: word, c: word ensures CRC32.xor(CRC32.xor(a, b), c) == CRC32.xor(a, CRC32.xor(b, c)) {
      XorAssociates(a, b, c);
    }
  }

  lemma Crc32Cancels()
    ensures Cancels(CRC32) && Neutral(CRC32)
  {
    forall a: word, b: word, c: word
      ensures (CRC32.xor(a, b) == CRC32.xor(a, c) ==> b == c) && (CRC32.xor(a, c) == CRC32.xor(b, c) ==> a == b)
    {
      XorCancels(a, b, c);
    }
    forall a: word ensures CRC32.xor(a, 0) == a {
      XorZero(a);
    }
  }

  lemma XorZero(a: word)
    ensures a ^ 0 == a
  {
  }

  lemma Crc32Undoes()
    ensures Undoes(CRC32, 4)
  {
    forall s: seq<byte> | |s| < 4 ensures Steps(CRC32, CRC32.up(Word(CRC32, s)), 8) == Word(CRC32, s) {
      WordBounded(s);
      EightStepsUndo(Word(CRC32, s));
    }
  }

  lemma Crc32IsLawful()
    ensures Lawful(CRC32, 4)
  {
    Crc32Injective();
    Crc32Linear();
    Crc32Associative();
    Crc32Cancels();
    Crc32Undoes();
  }

  lemma Crc32WordInjective(s: seq<byte>, t: seq<byte>)
    requires |s| == |t| <= 4
    ensures Word(CRC32, s) == Word(CRC32, t) ==> s == t
  {
    Crc32Joins();
    forall u: seq<byte> | |u| < 4 ensures Below24(Word(CRC32, u)) {
      WordBounded(u);
    }
    if Word(CRC32, s) == Word(CRC32, t) {
      WordInjective(CRC32, Below24, s, t, 4);
    }
  }

  // ---- What the checksum detects ----------------------------------------------------------------

  /** Two messages that differ only inside a window of up to four consecutive bytes have different
      checksums, for every length and whatever stands around the window. */
  lemma BurstDetected(before: seq<byte>, w: seq<byte>, w': seq<byte>, after: seq<byte>)
    requires |w| == |w'| <= 4 && w != w'
    ensures Crc(before + w + after) != Crc(before + w' + after)
  {
    Crc32IsLawful();
    Crc32WordInjective(w, w');
    BurstsDiffer(CRC32, ONES, before, w, w', after, 4);
    FlipInjective(Register(before + w + after), Register(before + w' + after));
  }

  lemma FlipInjective(a: word, b: word)
    ensures a != b ==> a ^ ONES != b ^ ONES
  {
  }

  /** `memcpy` of a 32-bit integer on the little-endian hosts the library runs on. */
  function LeBytes(x: word): (r: seq<byte>)
    ensures |r| == 4
  {
    [(x & 0xFF) as byte, ((x >> 8) & 0xFF) as byte, ((x >> 16) & 0xFF) as byte, ((x >> 24) & 0xFF) as byte]
  }

  lemma Reassembles(x: word)
    ensures var s := LeBytes(x);
            Load(s[0]) ^ ByteUp(Load(s[1]) ^ ByteUp(Load(s[2]) ^ ByteUp(Load(s[3]) ^ ByteUp(0)))) == x
  {
  }

  lemma WordOfLeBytes(x: word)
    ensures Word(CRC32, LeBytes(x)) == x
  {
    var s := LeBytes(x);
    Reassembles(x);
    WordOfFour(CRC32, s[0], s[1], s[2], s[3]);
    assert s == [s[0], s[1], s[2], s[3]];
  }

  /** A message followed by four bytes leaves the register at zero exactly when the bytes are the
      message's own register, low byte first. */
  lemma ResidueZeroIff(s: seq<byte>, x: word)
    ensures Register(s + LeBytes(x)) == 0 <==> x == Register(s)
  {
    Crc32IsLawful();
    FeedConcat(CRC32, ONES, s, LeBytes(x));
    ResidueOfFour(Register(s), x);
  }

  /** The complement of the checksum is the register itself. */
  function JamCrc(s: seq<byte>): word {
    Register(s)
  }

  lemma JamCrcOfCrc(s: seq<byte>, crc: word)
    requires crc == Crc(s)
    ensures !crc == JamCrc(s)
  {
    FlipTwice(Register(s));
  }

  lemma SameCrcIff(s: seq<byte>, t: seq<byte>)
    ensures Crc(s) == Crc(t) <==> Register(s) == Register(t)
  {
    if Register(s) != Register(t) {
      FlipInjective(Register(s), Register(t));
    }
  }

  /** The check value of one message fits another exactly when they have the same checksum. */
  lemma CheckValueIff(s: seq<byte>, t: seq<byte>)
    ensures Register(s + LeBytes(JamCrc(t))) == 0 <==> Crc(s) == Crc(t)
  {
    ResidueZeroIff(s, Register(t));
    SameCrcIff(s, t);
  }

  lemma ResidueOfFour(r: word, x: word)
    requires Lawful(CRC32, 4)
    ensures Feed(CRC32, r, LeBytes(x)) == 0 <==> x == r
  {
    WordOfLeBytes(x);
    ZeroRegister(r);
    ResidueIff(CRC32, r, LeBytes(x), 4);
  }

  lemma FlipTwice(r: word)
    ensures !(r ^ ONES) == r
  {
  }

  lemma ZeroRegister(r: word)
    ensures CRC32.xor(r, r) == CRC32.zero && CRC32.step(CRC32.zero) == CRC32.zero
  {
    assert r ^ r == 0;
    assert BitStep(0) == 0;
  }
}
