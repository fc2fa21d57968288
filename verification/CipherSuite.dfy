/** What the NTAG 424 protocol layer needs of AES-128: encryption, its inverse, and the CMAC built on
    it. Nothing else about AES is used. */
module CipherSuite {
  import opened Octets
  import opened BlockCipher
  import opened AesCmac

  datatype Functions = Functions(e: BlockFunction, d: BlockFunction, mac: (Block, seq<byte>) -> Block)

  /** Any block function with an inverse, and its CMAC. The trigger keeps the CMAC folded wherever only
      the equality of two MACs matters. */
  ghost predicate IsSuite(f: Functions) {
    && Inverse(f.e, f.d)
    && forall k: Block, m: seq<byte> {:trigger Cmac(f.e, k, m)} :: f.mac(k, m) == Cmac(f.e, k, m)
  }

  type Cipher = f: Functions | IsSuite(f)
    witness Functions((k, b) => b, (k, b) => b, (k, m) => Cmac((k, b) => b, k, m))

  /** The eight odd bytes, the truncation used for every MAC on the wire. */
  function Truncate(t: Block): (r: seq<byte>)
    ensures |r| == 8
  {
    seq(8, i requires 0 <= i < 8 => t[2 * i + 1])
  }

  function CmacShort(c: Cipher, k: Block, m: seq<byte>): (r: seq<byte>)
    ensures |r| == 8
  {
    Truncate(c.mac(k, m))
  }

  /** `ntag424_cmac_short`. */
  method CmacShortLoop(c: Cipher, key: Block, input: array<byte>, length: nat, cmac: array<byte>)
    requires length <= input.Length && cmac.Length >= 8 && cmac != input
    modifies cmac
    ensures cmac[..8] == CmacShort(c, key, input[..length])
    ensures cmac[8..] == old(cmac[8..])
  {
    var regular := new byte[16];
    Aes128Cmac(c.e, key, input, length, regular);
    ghost var t := regular[..16];
    var at := 0;
    var i := 1;
    while i < 16
      invariant 1 <= i <= 17 && i == 2 * at + 1
      invariant regular[..16] == t && input[..length] == old(input[..length])
      invariant forall j :: 0 <= j < at ==> cmac[j] == t[2 * j + 1]
      invariant cmac[8..] == old(cmac[8..])
    {
      cmac[at] := regular[i];
      at := at + 1;
      i := i + 2;
    }
    assert cmac[..8] == Truncate(t);
  }
}
