/** One byte: truncation of integers, and the bit operations on it as arithmetic. These few facts mix
    bit-vectors and integers, so they stand alone. */
module Octets {
  type byte = bv8

  /** Truncation of an integer to `uint8_t`. */
  function ToByte(n: int): byte {
    (n % 256) as bv8
  }

  lemma ByteExact(n: int)
    requires 0 <= n < 256
    ensures (n as bv8) as int == n
  {
    if n < 128 {
      if n < 64 {} else {}
    } else {
      if n < 192 {} else {}
    }
  }

  lemma ToByteModulo(n: int)
    ensures ToByte(n) as int == n % 256
  {
    ByteExact(n % 256);
  }

  lemma ToByteSmall(n: int)
    requires 0 <= n < 256
    ensures ToByte(n) as int == n
  {
    ToByteModulo(n);
  }

  lemma ToByteCongruent(a: int, b: int)
    requires a % 256 == b % 256
    ensures ToByte(a) == ToByte(b)
  {
  }

  lemma ModAdd(n: int, k: int)
    ensures (n % 256 + k) % 256 == (n + k) % 256
  {
  }

  /** Truncating before or after an addition makes no difference. */
  lemma ToByteAdds(n: int, k: int)
    ensures ToByte(ToByte(n) as int + k) == ToByte(n + k)
  {
    var m := ToByte(n) as int;
    assert m == n % 256 by { ToByteModulo(n); }
    ModAdd(n, k);
    ToByteCongruent(m + k, n + k);
  }

  predicate TopBit(b: byte) {
    b & 0x80 != 0
  }

  /** A byte of a string that is shifted left by one bit, with the bit that comes in. */
  function ShiftByte(b: byte, carry: bool): byte {
    (b << 1) | (if carry then 1 else 0)
  }

  lemma ShiftByteBits(b: byte, overflow: byte)
    requires overflow == 0 || overflow == 1
    ensures (b << 1) | overflow == ShiftByte(b, overflow == 1)
  {
  }

  lemma ShiftByteDoubles(b: byte, carry: bool)
    ensures ShiftByte(b, carry) as int == (2 * (b as int)) % 256 + (if carry then 1 else 0)
  {
    ByteDoubles(b);
    assert (b << 1) & 1 == 0 && (b << 1) | 0 == b << 1;
    CarryIn(b << 1);
  }

  lemma ByteDoubles(b: byte)
    ensures (b << 1) as int == (2 * (b as int)) % 256
  {
  }

  lemma CarryIn(b: byte)
    requires b & 1 == 0
    ensures (b | 1) as int == b as int + 1
  {
  }

  lemma TopBitIsHigh(b: byte)
    ensures b as int / 128 == if TopBit(b) then 1 else 0
  {
  }
}
