/** Padding method 2 of ISO/IEC 9797-1 (section 6.3.3) and the backward loop that strips it. */
module Padding {
  import opened Bytes
  import opened Octets
  import opened BlockCipher

  function Pad(s: seq<byte>, n: nat): (r: seq<byte>)
    requires n > 0
    ensures |r| % n == 0 && |s| < |r| <= |s| + n
  {
    var k := n - |s| % n;
    PaddedLengthIsWhole(|s|, n);
    s + [0x80] + Zeros(k - 1)
  }

  lemma PaddedLengthIsWhole(l: nat, n: nat)
    requires n > 0
    ensures (l + (n - l % n)) % n == 0
  {
    assert l == n * (l / n) + l % n;
    assert l + (n - l % n) == n * (l / n + 1);
    MultipleHasNoRemainder(n, l / n + 1);
  }

  lemma MultipleHasNoRemainder(n: nat, q: nat)
    requires n > 0
    ensures (n * q) % n == 0
  {
    var d := q - (n * q) / n;
    assert n * d == (n * q) % n;
    MultipleIsFarFromZero(n, d);
  }

  lemma MultipleIsFarFromZero(n: int, d: int)
    requires n > 0
    ensures d >= 1 ==> n * d >= n
    ensures d <= -1 ==> n * d <= -n
  {
  }

  /** Where the backward loop of the response decoder stops: it drops zero bytes and then, if it meets
      it, one 0x80. */
  function StripLength(s: seq<byte>): (r: nat)
    ensures r <= |s|
  {
    if |s| == 0 then 0
    else if s[|s| - 1] == 0 then StripLength(s[..|s| - 1])
    else if s[|s| - 1] == 0x80 then |s| - 1
    else |s|
  }

  /** The stripped string and what stood behind it: zeros, or one 80 and zeros; and all of them. */
  lemma {:induction false} StripIs(s: seq<byte>)
    ensures var n := StripLength(s);
            && (s[n..] == Zeros(|s| - n) || (n < |s| && s[n..] == [0x80] + Zeros(|s| - n - 1)))
            && (s[n..] == Zeros(|s| - n) && n > 0 ==> s[n - 1] != 0x00 && s[n - 1] != 0x80)
  {
    if s != [] && s[|s| - 1] == 0 {
      var n := StripLength(s);
      StripIs(s[..|s| - 1]);
      assert s[n..] == s[..|s| - 1][n..] + [0];
      ZerosNext(|s| - 1 - n);
    } else if s != [] && s[|s| - 1] == 0x80 {
      assert s[|s| - 1..] == [0x80] + Zeros(0);
      assert Zeros(1)[0] != s[|s| - 1..][0];
    } else {
      assert s[|s|..] == Zeros(0);
    }
  }

  lemma ZerosNext(k: nat)
    ensures Zeros(k) + [0] == Zeros(k + 1)
    ensures k > 0 ==> [0x80] + Zeros(k - 1) + [0] == [0x80] + Zeros(k)
  {
  }

  lemma {:induction false} StripSkipsZeros(s: seq<byte>, k: nat)
    ensures StripLength(s + Zeros(k)) == StripLength(s)
  {
    if k == 0 {
      assert s + Zeros(0) == s;
    } else {
      assert (s + Zeros(k))[..|s| + k - 1] == s + Zeros(k - 1);
      StripSkipsZeros(s, k - 1);
    }
  }

  /** Stripping undoes padding for every plaintext, also one that ends in 00 or 80 itself. */
  lemma StripUndoesPad(s: seq<byte>, n: nat)
    requires n > 0
    ensures StripLength(Pad(s, n)) == |s|
  {
    StripSkipsZeros(s + [0x80], n - |s| % n - 1);
  }

  /** ... and does so behind encryption and decryption in any number of blocks. */
  lemma StripUndoesPadThroughCbc(e: BlockFunction, d: BlockFunction, k: Block, iv: Block, s: seq<byte>)
    requires Inverse(e, d)
    ensures var plain := CbcDecrypt(d, k, iv, CbcEncrypt(e, k, iv, Pad(s, 16)));
            plain[..StripLength(plain)] == s
  {
    CbcInverse(e, d, k, iv, Pad(s, 16));
    StripUndoesPad(s, 16);
  }

  /** `ntag424_addpadding`; the returned length is truncated to 8 bits. */
  method AddPadding(inputLength: nat, paddingLength: nat, buffer: array<byte>) returns (n: nat)
    requires inputLength < 256 && 0 < paddingLength < 256
    requires inputLength + paddingLength - inputLength % paddingLength <= buffer.Length
    modifies buffer
    ensures n == |Pad(old(buffer[..inputLength]), paddingLength)| % 256
    ensures var p := Pad(old(buffer[..inputLength]), paddingLength);
            buffer[..|p|] == p && buffer[|p|..] == old(buffer[|p|..])
  {
    var zeroesToAdd := paddingLength - inputLength % paddingLength;
    Memcpy(buffer, inputLength, Zeros(zeroesToAdd));
    if zeroesToAdd > 0 {
      buffer[inputLength] := 0x80;
    }
    n := (inputLength + zeroesToAdd) % 256;
  }

  /** The strip loop of `ntag424_process_response`. */
  method StripPadding(buffer: array<byte>, length: nat) returns (r: nat)
    requires length <= buffer.Length
    ensures r == StripLength(buffer[..length])
  {
    r := length;
    var i := length - 1;
    while i >= 0
      invariant -1 <= i < length
      invariant r == i + 1
      invariant StripLength(buffer[..length]) == StripLength(buffer[..i + 1])
    {
      assert buffer[..i + 1][..i] == buffer[..i];
      if buffer[i] == 0x00 {
        r := i;
      } else if buffer[i] == 0x80 {
        r := i;
        break;
      } else {
        break;
      }
      i := i - 1;
    }
  }
}
