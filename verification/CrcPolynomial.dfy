/** What the CRC-32 register computes (ntag424_crypto.cpp:43-53): the remainder of a message polynomial modulo the
    generator of ISO/IEC 3309, by long division over the field of two elements. The division knows nothing of the
    constants of the register. */
module CrcPolynomial {
  import opened Octets
  import opened ShiftRegisters
  import opened Crc32

  // ---- Polynomials --------------------------------------------------------------------------------

  /** A polynomial over the field of two elements, as the set of its exponents. */
  type Poly = set<nat>

  function Add(a: Poly, b: Poly): Poly {
    (a - b) + (b - a)
  }

  function Shift(a: Poly, k: nat): Poly {
    set e | e in a :: e + k
  }

  /** x^32 + x^26 + x^23 + x^22 + x^16 + x^12 + x^11 + x^10 + x^8 + x^7 + x^5 + x^4 + x^2 + x + 1 */
  const GENERATOR: Poly := {32, 26, 23, 22, 16, 12, 11, 10, 8, 7, 5, 4, 2, 1, 0}

  predicate Below(p: Poly, n: nat) {
    forall e <- p :: e < n
  }

  /** Long division of a polynomial of degree below `n`: its remainder. */
  function Rem(p: Poly, n: nat): Poly
    decreases n
  {
    if n <= 32 then p
    else Rem(if n - 1 in p then Add(p, Shift(GENERATOR, n - 33)) else p, n - 1)
  }

  lemma InShift(a: Poly, k: nat, e: nat)
    ensures e in Shift(a, k) <==> e >= k && e - k in a
  {
    if e >= k && e - k in a {
      assert (e - k) + k == e;
    }
  }

  lemma {:induction false} RemBelow(p: Poly, n: nat)
    requires Below(p, n)
    ensures Below(Rem(p, n), 32)
    decreases n
  {
    if n > 32 {
      var q := if n - 1 in p then Add(p, Shift(GENERATOR, n - 33)) else p;
      forall e <- q ensures e < n - 1 {
        InShift(GENERATOR, n - 33, e);
        InShift(GENERATOR, n - 33, n - 1);
      }
      RemBelow(q, n - 1);
    }
  }

  lemma AddSwaps(a: Poly, b: Poly, c: Poly)
    ensures Add(Add(a, b), c) == Add(Add(a, c), b)
  {
  }

  lemma AddTwice(a: Poly, b: Poly)
    ensures Add(Add(a, b), b) == a
  {
  }

  /** A multiple of the generator makes no difference to the remainder. */
  lemma {:induction false} RemOfMultiple(p: Poly, k: nat, n: nat)
    requires k + 32 < n
    ensures Rem(Add(p, Shift(GENERATOR, k)), n) == Rem(p, n)
    decreases n
  {
    var g, q := Shift(GENERATOR, k), Add(p, Shift(GENERATOR, k));
    InShift(GENERATOR, k, n - 1);
    if k + 33 == n {
      AddTwice(p, g);
    } else {
      var top := Shift(GENERATOR, n - 33);
      AddSwaps(p, g, top);
      RemOfMultiple(if n - 1 in p then Add(p, top) else p, k, n - 1);
    }
  }

  /** The high part of a dividend may be reduced first. */
  lemma {:induction false} RemInParts(p: Poly, n: nat, j: nat, q: Poly)
    requires Below(p, n) && n >= 32 && Below(q, 32 + j)
    ensures Rem(Add(Shift(p, j), q), n + j) == Rem(Add(Shift(Rem(p, n), j), q), 32 + j)
    decreases n
  {
    if n > 32 {
      var top := n - 1 + j;
      InShift(p, j, top);
      assert top in Add(Shift(p, j), q) <==> n - 1 in p;
      if n - 1 in p {
        PartsAdd(p, n - 33, j, q);
        TopGoes(p, n);
        RemInParts(Add(p, Shift(GENERATOR, n - 33)), n - 1, j, q);
      } else {
        RemInParts(p, n - 1, j, q);
      }
    }
  }

  lemma TopGoes(p: Poly, n: nat)
    requires Below(p, n) && n > 32 && n - 1 in p
    ensures Below(Add(p, Shift(GENERATOR, n - 33)), n - 1)
  {
    var q := Add(p, Shift(GENERATOR, n - 33));
    forall e <- q ensures e < n - 1 {
      InShift(GENERATOR, n - 33, e);
      InShift(GENERATOR, n - 33, n - 1);
    }
  }

  lemma PartsAdd(p: Poly, k: nat, j: nat, q: Poly)
    ensures Add(Add(Shift(p, j), q), Shift(GENERATOR, k + j)) == Add(Shift(Add(p, Shift(GENERATOR, k)), j), q)
  {
    var a, b := Add(Add(Shift(p, j), q), Shift(GENERATOR, k + j)), Add(Shift(Add(p, Shift(GENERATOR, k)), j), q);
    forall e: nat ensures e in a <==> e in b {
      InShift(p, j, e);
      InShift(GENERATOR, k + j, e);
      InShift(Add(p, Shift(GENERATOR, k)), j, e);
      if e >= j {
        InShift(GENERATOR, k, e - j);
      }
    }
  }

  // ---- Registers ------------------------------------------------------------------------------------

  /** The bits of a byte, the least significant one first. */
  function BitOf(e: nat): byte {
    match e
    case 0 => 0x80 case 1 => 0x40 case 2 => 0x20 case 3 => 0x10
    case 4 => 0x08 case 5 => 0x04 case 6 => 0x02 case _ => 0x01
  }

  function ByteTerms(b: byte): Poly {
    set e: nat | 0 <= e < 8 && b & BitOf(e) != 0
  }

  const START: Poly := {31, 30, 29, 28, 27, 26, 25, 24, 23, 22, 21, 20, 19, 18, 17, 16,
                        15, 14, 13, 12, 11, 10, 9, 8, 7, 6, 5, 4, 3, 2, 1, 0}

  /** The dividend: 32 ones, byte after byte moved up, and added to each byte 32 places further up. */
  function Dividend(s: seq<byte>): Poly {
    if s == [] then START
    else Add(Shift(Dividend(s[..|s| - 1]), 8), Shift(ByteTerms(s[|s| - 1]), 32))
  }

  function Remainder(s: seq<byte>): Poly {
    Rem(Dividend(s), 8 * |s| + 32)
  }

  /** A register of 32 terms, read by `bit`. */
  function Terms<W>(bit: (W, nat) -> bool, r: W): Poly {
    set e: nat | 0 <= e < 32 && bit(r, e)
  }

  /** A step multiplies by x and, if that makes an x^32, subtracts the generator. */
  predicate DividesAt<W>(m: Machine<W>, bit: (W, nat) -> bool, r: W, e: nat, top: nat) {
    bit(m.step(r), e) <==> (e > 0 && bit(r, e - 1)) != (bit(r, top) && e in GENERATOR)
  }

  ghost predicate Divides<W(!new)>(m: Machine<W>, bit: (W, nat) -> bool) {
    forall r, e: nat {:trigger bit(m.step(r), e)} :: e < 32 ==> DividesAt(m, bit, r, e, 31)
  }

  /** A byte is added to the upper eight terms. */
  ghost predicate AddsBytes<W(!new)>(m: Machine<W>, bit: (W, nat) -> bool) {
    forall r, b, e: nat {:trigger bit(m.xor(r, m.load(b)), e)} :: e < 32 ==>
      (bit(m.xor(r, m.load(b)), e) <==> bit(r, e) != (e >= 24 && e - 24 in ByteTerms(b)))
  }

  lemma InTerms<W>(bit: (W, nat) -> bool, r: W, e: nat)
    ensures e in Terms(bit, r) <==> e < 32 && bit(r, e)
    ensures Below(Terms(bit, r), 32)
  {
  }

  lemma TopTerm()
    ensures 32 in GENERATOR && Below(GENERATOR, 33)
  {
  }

  lemma TimesX(p: Poly, e: nat)
    ensures e in Rem(Shift(p, 1), 33) <==> (e > 0 && e - 1 in p) != (31 in p && e in GENERATOR)
  {
    RemOnce(Shift(p, 1), 33);
    InShift(GENERATOR, 0, e);
    InShift(p, 1, 32);
    InShift(p, 1, e);
  }

  lemma RemOnce(p: Poly, n: nat)
    requires n == 33
    ensures Rem(p, n) == if 32 in p then Add(p, Shift(GENERATOR, 0)) else p
  {
  }

  lemma StepIs<W(!new)>(m: Machine<W>, bit: (W, nat) -> bool, r: W)
    requires Divides(m, bit)
    ensures Terms(bit, m.step(r)) == Rem(Shift(Terms(bit, r), 1), 33)
  {
    var p, q := Terms(bit, r), Rem(Shift(Terms(bit, r), 1), 33);
    TopTerm();
    forall e: nat ensures e in Terms(bit, m.step(r)) <==> e in q {
      TimesX(p, e);
      if e < 32 {
        assert bit(m.step(r), e) ==> DividesAt(m, bit, r, e, 31);
      }
    }
  }

  lemma {:induction false} StepsAre<W(!new)>(m: Machine<W>, bit: (W, nat) -> bool, r: W, k: nat)
    requires Divides(m, bit)
    ensures Terms(bit, Steps(m, r, k)) == Rem(Shift(Terms(bit, r), k), 32 + k)
  {
    var t := Terms(bit, r);
    ShiftBelow(t, 32, k);
    if k == 0 {
      ShiftNothing(t);
    } else {
      var p := Shift(t, k - 1);
      ShiftBelow(t, 32, k - 1);
      StepsAre(m, bit, r, k - 1);
      StepIs(m, bit, Steps(m, r, k - 1));
      RemInParts(p, 32 + k - 1, 1, {});
      AddNothing(Shift(p, 1));
      AddNothing(Shift(Rem(p, 32 + k - 1), 1));
      ShiftTwice(t, k - 1, 1);
    }
  }

  lemma ShiftNothing(p: Poly)
    ensures Shift(p, 0) == p
  {
    forall e: nat ensures e in Shift(p, 0) <==> e in p {
      InShift(p, 0, e);
    }
  }

  lemma ShiftBelow(p: Poly, n: nat, k: nat)
    requires Below(p, n)
    ensures Below(Shift(p, k), n + k)
  {
  }

  lemma AddNothing(p: Poly)
    ensures Add(p, {}) == p
  {
  }

  lemma ShiftTwice(p: Poly, i: nat, j: nat)
    ensures Shift(Shift(p, i), j) == Shift(p, i + j)
  {
    forall e: nat ensures e in Shift(Shift(p, i), j) <==> e in Shift(p, i + j) {
      InShift(Shift(p, i), j, e);
      InShift(p, i + j, e);
      if e >= j {
        InShift(p, i, e - j);
      }
    }
  }

  lemma ShiftAdds(a: Poly, b: Poly, k: nat)
    ensures Shift(Add(a, b), k) == Add(Shift(a, k), Shift(b, k))
  {
    forall e: nat ensures e in Shift(Add(a, b), k) <==> e in Add(Shift(a, k), Shift(b, k)) {
      InShift(Add(a, b), k, e);
      InShift(a, k, e);
      InShift(b, k, e);
    }
  }

  lemma LoadAdds<W(!new)>(m: Machine<W>, bit: (W, nat) -> bool, r: W, b: byte)
    requires AddsBytes(m, bit)
    ensures Terms(bit, m.xor(r, m.load(b))) == Add(Terms(bit, r), Shift(ByteTerms(b), 24))
  {
    var q := Shift(ByteTerms(b), 24);
    forall e: nat ensures e in Terms(bit, m.xor(r, m.load(b))) <==> e in Add(Terms(bit, r), q) {
      InShift(ByteTerms(b), 24, e);
      if e < 32 {
        assert bit(m.xor(r, m.load(b)), e) <==> bit(r, e) != (e >= 24 && e - 24 in ByteTerms(b));
      }
    }
  }

  lemma {:induction false} DividendBelow(s: seq<byte>)
    ensures Below(Dividend(s), 8 * |s| + 32)
  {
    if s != [] {
      DividendBelow(s[..|s| - 1]);
    }
  }

  /** One byte more: eight steps on the register with the byte in it. */
  lemma ByteFed<W(!new)>(m: Machine<W>, bit: (W, nat) -> bool, d: Poly, n: nat, r: W, b: byte, k: nat)
    requires Divides(m, bit) && AddsBytes(m, bit)
    requires Below(d, n) && n >= 32 && Terms(bit, r) == Rem(d, n) && k == 8
    ensures Terms(bit, Steps(m, m.xor(r, m.load(b)), k)) == Rem(Add(Shift(d, k), Shift(ByteTerms(b), 32)), n + k)
  {
    var q := ByteTerms(b);
    LoadAdds(m, bit, r, b);
    StepsAre(m, bit, m.xor(r, m.load(b)), k);
    ShiftAdds(Rem(d, n), Shift(q, 24), k);
    ShiftTwice(q, 24, k);
    RemInParts(d, n, k, Shift(q, 32));
  }

  /** For every message, such a register holds the remainder of the dividend. */
  lemma {:induction false} FeedIsRemainder<W(!new)>(m: Machine<W>, bit: (W, nat) -> bool, ones: W, s: seq<byte>)
    requires Divides(m, bit) && AddsBytes(m, bit) && Terms(bit, ones) == START
    ensures Terms(bit, Feed(m, ones, s)) == Remainder(s)
  {
    if s != [] {
      var front, b := s[..|s| - 1], s[|s| - 1];
      assert s == front + [b];
      FeedIsRemainder(m, bit, ones, front);
      FeedSnoc(m, ones, front, b, 8);
      DividendBelow(front);
      ByteFed(m, bit, Dividend(front), 8 * |front| + 32, Feed(m, ones, front), b, 8);
    }
  }

  // ---- CRC-32 ---------------------------------------------------------------------------------------

  /** Bit 31 is the constant term, and bit 0 the coefficient of x^31. */
  function Mask(e: nat): word {
    match e
    case 0 => 0x80000000 case 1 => 0x40000000 case 2 => 0x20000000 case 3 => 0x10000000
    case 4 => 0x08000000 case 5 => 0x04000000 case 6 => 0x02000000 case 7 => 0x01000000
    case 8 => 0x00800000 case 9 => 0x00400000 case 10 => 0x00200000 case 11 => 0x00100000
    case 12 => 0x00080000 case 13 => 0x00040000 case 14 => 0x00020000 case 15 => 0x00010000
    case 16 => 0x00008000 case 17 => 0x00004000 case 18 => 0x00002000 case 19 => 0x00001000
    case 20 => 0x00000800 case 21 => 0x00000400 case 22 => 0x00000200 case 23 => 0x00000100
    case 24 => 0x00000080 case 25 => 0x00000040 case 26 => 0x00000020 case 27 => 0x00000010
    case 28 => 0x00000008 case 29 => 0x00000004 case 30 => 0x00000002 case _ => 0x00000001
  }

  function Bit(r: word, e: nat): bool {
    r & Mask(e) != 0
  }

  predicate SingleBit(m: word) {
    m != 0 && m & (m - 1) == 0
  }

  /** A single bit, half of the one before. */
  predicate HalfOf(m: word, before: word) {
    before == m << 1 && m & 0x80000000 == 0
  }

  lemma MaskSingle(e: nat)
    requires e < 32
    ensures SingleBit(Mask(e)) && (e > 0 ==> HalfOf(Mask(e), Mask(e - 1)))
  {
    match e
    case 0 => case 1 => case 2 => case 3 => case 4 => case 5 => case 6 => case 7 =>
    case 8 => case 9 => case 10 => case 11 => case 12 => case 13 => case 14 => case 15 =>
    case 16 => case 17 => case 18 => case 19 => case 20 => case 21 => case 22 => case 23 =>
    case 24 => case 25 => case 26 => case 27 => case 28 => case 29 => case 30 => case _ =>
  }

  lemma XorBit(a: word, b: word, m: word)
    requires SingleBit(m)
    ensures (a ^ b) & m != 0 <==> (a & m != 0) != (b & m != 0)
  {
  }

  lemma ShiftedBit(r: word, m: word)
    requires m & 0x80000000 == 0
    ensures (r >> 1) & m != 0 <==> r & (m << 1) != 0
  {
  }

  lemma TopShifted(r: word)
    ensures (r >> 1) & 0x80000000 == 0
  {
  }

  lemma PolynomialBit(e: nat)
    requires e < 32
    ensures POLYNOMIAL & Mask(e) != 0 <==> e in GENERATOR
  {
    if e < 16 {
      UpperHalf(e);
    } else {
      LowerHalf(e);
    }
  }

  lemma UpperHalf(e: nat)
    requires e < 16
    ensures POLYNOMIAL & Mask(e) != 0 <==> e in GENERATOR
  {
    match e
    case 0 => case 1 => case 2 => case 3 => case 4 => case 5 => case 6 => case 7 =>
    case 8 => case 9 => case 10 => case 11 => case 12 => case 13 => case 14 => case _ =>
  }

  lemma LowerHalf(e: nat)
    requires 16 <= e < 32
    ensures POLYNOMIAL & Mask(e) != 0 <==> e in GENERATOR
  {
    match e
    case 16 => case 17 => case 18 => case 19 => case 20 => case 21 => case 22 => case 23 =>
    case 24 => case 25 => case 26 => case 27 => case 28 => case 29 => case 30 => case _ =>
  }

  /** One step, below the top bit and at it. */
  lemma StepBelow(r: word, m: word, before: word, taken: bool)
    requires SingleBit(m) && HalfOf(m, before) && (POLYNOMIAL & m != 0 <==> taken)
    ensures BitStep(r) & m != 0 <==> (r & before != 0) != (r & 1 != 0 && taken)
  {
    XorBit(r >> 1, if r & 1 != 0 then POLYNOMIAL else 0, m);
    ShiftedBit(r, m);
  }

  lemma StepTop(r: word)
    ensures BitStep(r) & 0x80000000 != 0 <==> r & 1 != 0
  {
    TopShifted(r);
  }

  lemma LowestBit(r: word, e: nat)
    requires e == 31
    ensures Bit(r, e) <==> r & 1 != 0
  {
  }

  lemma StepAt(r: word, e: nat)
    requires 0 < e < 32
    ensures Bit(BitStep(r), e) <==> Bit(r, e - 1) != (r & 1 != 0 && e in GENERATOR)
  {
    MaskSingle(e);
    PolynomialBit(e);
    StepBelow(r, Mask(e), Mask(e - 1), e in GENERATOR);
  }

  lemma StepIff(r: word, e: nat, top: nat)
    requires e < 32 && top == 31
    ensures DividesAt(CRC32, Bit, r, e, top)
  {
    LowestBit(r, top);
    if e > 0 {
      StepAt(r, e);
    } else {
      StepTop(r);
    }
  }

  lemma CrcDivides()
    ensures Divides(CRC32, Bit)
  {
    forall r: word, e: nat | e < 32
      ensures DividesAt(CRC32, Bit, r, e, 31)
    {
      StepIff(r, e, 31);
    }
  }

  lemma LoadBit(b: byte, e: nat)
    requires e < 32
    ensures Load(b) & Mask(e) != 0 <==> e >= 24 && b & BitOf(e - 24) != 0
  {
    if e < 24 {
      LowMask(e);
      LowByte(b, Mask(e));
    } else {
      HighMask(b, e);
    }
  }

  lemma HighMask(b: byte, e: nat)
    requires 24 <= e < 32
    ensures Load(b) & Mask(e) != 0 <==> b & BitOf(e - 24) != 0
  {
  }

  lemma LowMask(e: nat)
    requires e < 24
    ensures Mask(e) & 0xFF == 0
  {
  }

  lemma LowByte(b: byte, m: word)
    requires m & 0xFF == 0
    ensures Load(b) & m == 0
  {
  }

  lemma LoadAt(r: word, b: byte, e: nat)
    requires e < 32
    ensures Bit(r ^ Load(b), e) <==> Bit(r, e) != (e >= 24 && e - 24 in ByteTerms(b))
  {
    MaskSingle(e);
    XorBit(r, Load(b), Mask(e));
    LoadBit(b, e);
  }

  lemma CrcAddsBytes()
    ensures AddsBytes(CRC32, Bit)
  {
    forall r: word, b: byte, e: nat | e < 32
      ensures Bit(CRC32.xor(r, CRC32.load(b)), e) <==> Bit(r, e) != (e >= 24 && e - 24 in ByteTerms(b))
    {
      LoadAt(r, b, e);
    }
  }

  lemma OnesHas(m: word)
    requires SingleBit(m)
    ensures ONES & m != 0
  {
  }

  lemma CrcStarts()
    ensures Terms(Bit, ONES) == START
  {
    forall e: nat ensures e in Terms(Bit, ONES) <==> e in START {
      if e < 32 {
        MaskSingle(e);
        OnesHas(Mask(e));
      }
    }
  }

  /** The CRC-32 register holds the remainder of the message's dividend, for every message. */
  lemma RegisterIsRemainder(s: seq<byte>)
    ensures Terms(Bit, Register(s)) == Remainder(s)
  {
    CrcDivides();
    CrcAddsBytes();
    CrcStarts();
    FeedIsRemainder(CRC32, Bit, ONES, s);
  }

  lemma NoTermsIff(r: word)
    ensures Terms(Bit, r) == {} <==> r == 0
  {
    if Terms(Bit, r) == {} {
      forall e: nat | e < 32 ensures !Bit(r, e) {
        InTerms(Bit, r, e);
      }
      NoBits(r);
    } else {
      var e :| e in Terms(Bit, r);
      InTerms(Bit, r, e);
    }
  }

  lemma NoBits(r: word)
    requires forall e: nat :: e < 32 ==> !Bit(r, e)
    ensures r == 0
  {
    NoFirstBits(r);
    NoSecondBits(r);
    NoThirdBits(r);
    NoFourthBits(r);
  }

  lemma NoFirstBits(r: word)
    requires forall e: nat :: e < 32 ==> !Bit(r, e)
    ensures r & 0xFF000000 == 0
  {
    assert !Bit(r, 0) && !Bit(r, 1) && !Bit(r, 2) && !Bit(r, 3);
    assert !Bit(r, 4) && !Bit(r, 5) && !Bit(r, 6) && !Bit(r, 7);
  }

  lemma NoSecondBits(r: word)
    requires forall e: nat :: e < 32 ==> !Bit(r, e)
    ensures r & 0x00FF0000 == 0
  {
    assert !Bit(r, 8) && !Bit(r, 9) && !Bit(r, 10) && !Bit(r, 11);
    assert !Bit(r, 12) && !Bit(r, 13) && !Bit(r, 14) && !Bit(r, 15);
  }

  lemma NoThirdBits(r: word)
    requires forall e: nat :: e < 32 ==> !Bit(r, e)
    ensures r & 0x0000FF00 == 0
  {
    assert !Bit(r, 16) && !Bit(r, 17) && !Bit(r, 18) && !Bit(r, 19);
    assert !Bit(r, 20) && !Bit(r, 21) && !Bit(r, 22) && !Bit(r, 23);
  }

  lemma NoFourthBits(r: word)
    requires forall e: nat :: e < 32 ==> !Bit(r, e)
    ensures r & 0x000000FF == 0
  {
    assert !Bit(r, 24) && !Bit(r, 25) && !Bit(r, 26) && !Bit(r, 27);
    assert !Bit(r, 28) && !Bit(r, 29) && !Bit(r, 30) && !Bit(r, 31);
  }

  /** A message is divisible by the generator exactly if it leaves the register at zero. */
  lemma DivisibleIff(s: seq<byte>)
    ensures Remainder(s) == {} <==> Register(s) == 0
  {
    RegisterIsRemainder(s);
    NoTermsIff(Register(s));
  }

  // ---- The check value --------------------------------------------------------------------------------

  lemma FedTo(s: seq<byte>, r: word, b: byte, c: word, x: word, y: word) returns (s': seq<byte>)
    requires Register(s) == r && Load(b) == c
    requires x == BitStep(BitStep(BitStep(BitStep(r ^ c))))
    requires y == BitStep(BitStep(BitStep(BitStep(x))))
    ensures s' == s + [b] && Register(s') == y
  {
    s' := s + [b];
    FeedsTo(CRC32, ONES, s, b, x, y, 8);
  }

  lemma CheckOneToThree() returns (s: seq<byte>)
    ensures s == [0x31, 0x32, 0x33] && Register(s) == 0x77B79C2D
  {
    s := [];
    s := FedTo(s, 0xFFFFFFFF, 0x31, 0x00000031, 0xAFF51D84, 0x7C231048);
    s := FedTo(s, 0x7C231048, 0x32, 0x00000032, 0xD11492EF, 0xB0ACBB32);
    s := FedTo(s, 0xB0ACBB32, 0x33, 0x00000033, 0x16BDDBD4, 0x77B79C2D);
  }

  lemma CheckFourToSix() returns (s: seq<byte>)
    ensures s == [0x31, 0x32, 0x33, 0x34, 0x35, 0x36] && Register(s) == 0xF68D2C9E
  {
    s := CheckOneToThree();
    s := FedTo(s, 0x77B79C2D, 0x34, 0x00000034, 0xF774EA85, 0x641C1F5C);
    s := FedTo(s, 0x641C1F5C, 0x35, 0x00000035, 0xF64E52B2, 0x340AC5E3);
    s := FedTo(s, 0x340AC5E3, 0x36, 0x00000036, 0x682BFDA9, 0xF68D2C9E);
  }

  /** The check value in the catalogues of CRC algorithms: that of the digits 1 to 9. */
  lemma CheckValue()
    ensures Crc([0x31, 0x32, 0x33, 0x34, 0x35, 0x36, 0x37, 0x38, 0x39]) == 0xCBF43926
  {
    var s := CheckFourToSix();
    s := FedTo(s, 0xF68D2C9E, 0x37, 0x00000037, 0xFF67418E, 0xAFFC9660);
    s := FedTo(s, 0xAFFC9660, 0x38, 0x00000038, 0xE7474A45, 0x651F2550);
    s := FedTo(s, 0x651F2550, 0x39, 0x00000039, 0xF65E6112, 0x340BC6D9);
    assert s == [0x31, 0x32, 0x33, 0x34, 0x35, 0x36, 0x37, 0x38, 0x39];
  }
}
