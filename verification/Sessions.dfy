/** The authenticated session: its signed 16-bit command counter, the MAC over commands, and the
    derivation of the session keys (ntag424_crypto.cpp, ntag424_crypto.h). */
module Sessions {
  import opened Bytes
  import opened Octets
  import opened BlockCipher
  import opened AesCmac
  import opened CipherSuite

  type Int16 = n: int | -0x8000 <= n < 0x8000

  /** Storing an integer into an `int16_t`. */
  function ToInt16(n: int): (r: Int16)
    ensures (r - n) % 0x1_0000 == 0
  {
    var m := n % 0x1_0000;
    if m < 0x8000 then m else m - 0x1_0000
  }

  /** The two counter bytes, low byte first; the shift of a negative counter is arithmetic. */
  function CounterBytes(n: int): (r: seq<byte>)
    ensures |r| == 2
  {
    [ToByte(n), ToByte(n / 256)]
  }

  /** Counters that agree modulo 2^16 have the same bytes, whatever their signs. */
  lemma CounterBytesModulo(a: int, b: int)
    requires (a - b) % 0x1_0000 == 0
    ensures CounterBytes(a) == CounterBytes(b)
  {
    LowBytesModulo(a, b);
  }

  lemma LowBytesModulo(a: int, b: int)
    requires (a - b) % 0x1_0000 == 0
    ensures a % 256 == b % 256 && (a / 256) % 256 == (b / 256) % 256
  {
    var q := (a - b) / 0x1_0000;
    assert a == b + 256 * (256 * q);
    assert a / 256 == b / 256 + 256 * q;
  }

  type Ti = s: seq<byte> | |s| == 4 witness Zeros(4)
  type Capabilities = s: seq<byte> | |s| == 6 witness Zeros(6)

  /** The value of a session at one moment. */
  datatype View = View(authenticated: bool, counter: Int16, ti: Ti, rndA: Block,
                       pdCap2: Capabilities, pcdCap2: Capabilities, keyEnc: Block, keyMac: Block)

  /** `ntag424_SessionType`. */
  class Session {
    var authenticated: bool
    var cmdCounter: Int16
    var ti: Ti
    var rndA: Block
    var pdCap2: Capabilities
    var pcdCap2: Capabilities
    var sessionKeyEnc: Block
    var sessionKeyMac: Block

    function Snapshot(): View
      reads this
    {
      View(authenticated, cmdCounter, ti, rndA, pdCap2, pcdCap2, sessionKeyEnc, sessionKeyMac)
    }
  }

  /** What a reference to a session designates. */
  function Snap(s: Session?): Option<View>
    reads s
  {
    if s == null then None else Some(s.Snapshot())
  }

  // ---- The MAC over a command -----------------------------------------------------------------

  /** Cmd || CmdCtr || TI || CmdHeader || CmdData. */
  function MacMessage(ins: byte, counter: int, ti: Ti, header: seq<byte>, data: seq<byte>): (r: seq<byte>)
    ensures |r| == 7 + |header| + |data|
  {
    [ins] + CounterBytes(counter) + ti + header + data
  }

  function CommandMac(c: Cipher, v: View, ins: byte, header: seq<byte>, data: seq<byte>): (r: seq<byte>)
    ensures |r| == 8
  {
    CmacShort(c, v.keyMac, MacMessage(ins, v.counter, v.ti, header, data))
  }

  /** What fits the 48-byte buffer of `ntag424_MAC`. */
  predicate MacFits(header: seq<byte>, data: seq<byte>) {
    |header| + |data| <= 41
  }

  /** The signature bytes after a call of `ntag424_MAC` on a buffer that held `prior`: the function gives
      up on a long message without writing them. */
  function MacField(c: Cipher, v: View, ins: byte, header: seq<byte>, data: seq<byte>, prior: seq<byte>): (r: seq<byte>)
    requires |prior| == 8
    ensures |r| == 8
  {
    if MacFits(header, data) then CommandMac(c, v, ins, header, data) else prior
  }

  /** A command carries its MAC whatever was in the buffer before, exactly when header and data
      together have at most 41 bytes. */
  lemma MacIsWrittenIff(c: Cipher, v: View, ins: byte, header: seq<byte>, data: seq<byte>)
    ensures (forall prior: seq<byte> | |prior| == 8 ::
               MacField(c, v, ins, header, data, prior) == CommandMac(c, v, ins, header, data))
       <==> |header| + |data| <= 41
  {
    var mac := CommandMac(c, v, ins, header, data);
    var other := mac[0 := mac[0] + 1];
    assert other[0] != mac[0];
    assert MacField(c, v, ins, header, data, other) == mac ==> |header| + |data| <= 41;
  }

  /** The guard of `ntag424_MAC`, whose length is computed in 8 bits, for `n` bytes of header and data. */
  predicate MacPasses(n: nat) {
    (7 + n) % 256 <= 48
  }

  /** The lengths at which it tells whether the message fits. */
  predicate MacMeasurable(n: nat) {
    n <= 248 || 298 <= n <= 504
  }

  lemma MacGuardIsExactIff(header: nat, data: nat)
    requires header < 256 && data < 256
    ensures (MacPasses(header + data) <==> 7 + header + data <= 48) <==> MacMeasurable(header + data)
  {
    var n := 7 + header + data;
    if n >= 512 {
      assert n % 256 == n - 512;
    } else if n >= 256 {
      assert n % 256 == n - 256;
    }
  }

  /** `ntag424_MAC`. At other lengths the message would run past its 48 bytes. */
  method Mac(c: Cipher, session: Session?, key: Block, cmd: byte, header: seq<byte>, data: seq<byte>,
             signature: array<byte>)
    requires session != null ==> MacMeasurable(|header| + |data|)
    requires signature.Length == 8
    modifies signature
    ensures signature[..] == if session != null && MacFits(header, data)
                             then CmacShort(c, key, MacMessage(cmd, session.cmdCounter, session.ti, header, data))
                             else old(signature[..])
  {
    if session == null {
      return;
    }
    var msgLen := (1 + 2 + 4 + |header| + |data|) % 256;
    var mesg := new byte[48];
    if !MacPasses(|header| + |data|) {
      return;
    }
    FillMessage(mesg, cmd, CounterBytes(session.cmdCounter), session.ti, header, data);
    CmacShortLoop(c, key, mesg, msgLen, signature);
    assert signature[..] == signature[..8];
  }

  /** Lines 205-216 of the source: the message is put together at a moving offset. */
  method FillMessage(mesg: array<byte>, cmd: byte, counter: seq<byte>, ti: Ti, header: seq<byte>, data: seq<byte>)
    requires |counter| == 2 && 7 + |header| + |data| <= mesg.Length
    modifies mesg
    ensures mesg[..7 + |header| + |data|] == [cmd] + counter + ti + header + data
  {
    var dataOffset := 0;
    mesg[dataOffset] := cmd;
    dataOffset := dataOffset + 1;
    assert mesg[..1] == [cmd];
    Memcpy(mesg, dataOffset, counter);
    dataOffset := dataOffset + 2;
    Memcpy(mesg, dataOffset, ti);
    dataOffset := dataOffset + 4;
    Memcpy(mesg, dataOffset, header);
    if |data| > 0 {
      dataOffset := dataOffset + |header|;
      Memcpy(mesg, dataOffset, data);
    } else {
      assert [cmd] + counter + ti + header + data == [cmd] + counter + ti + header;
    }
  }

  // ---- Session keys ---------------------------------------------------------------------------

  /** The 32-byte session vector under a label. */
  function SessionVector(label0: byte, label1: byte, rndA: Block, rndB: Block): (r: seq<byte>)
    ensures |r| == 32
  {
    [label0, label1, 0x00, 0x01, 0x00, 0x80] + rndA[..2] + Xor(rndA[2..8], rndB[..6]) + rndB[6..] + rndA[8..]
  }

  function SessionKeyEnc(c: Cipher, key: Block, rndA: Block, rndB: Block): Block {
    c.mac(key, SessionVector(0xA5, 0x5A, rndA, rndB))
  }

  function SessionKeyMac(c: Cipher, key: Block, rndA: Block, rndB: Block): Block {
    c.mac(key, SessionVector(0x5A, 0xA5, rndA, rndB))
  }

  /** The CMAC of a session vector assembled from its five parts. */
  method CmacOfParts(c: Cipher, key: Block, label0: byte, label1: byte, f1: seq<byte>, f2xor3: seq<byte>,
                     f4: seq<byte>, f5: seq<byte>) returns (k: Block)
    requires |f1| == 2 && |f2xor3| == 6 && |f4| == 10 && |f5| == 8
    ensures k == c.mac(key, [label0, label1, 0x00, 0x01, 0x00, 0x80] + f1 + f2xor3 + f4 + f5)
  {
    var sv, out := new byte[32], new byte[16];
    Memcpy(sv, 0, [label0, label1, 0x00, 0x01, 0x00, 0x80] + f1 + f2xor3 + f4 + f5);
    assert sv[..32] == [label0, label1, 0x00, 0x01, 0x00, 0x80] + f1 + f2xor3 + f4 + f5;
    Aes128Cmac(c.e, key, sv, 32, out);
    k := out[..16];
  }

  /** `ntag424_derive_session_keys`. */
  method DeriveSessionKeys(c: Cipher, session: Session, key: Block, rndA: Block, rndB: Block)
    modifies session`sessionKeyEnc, session`sessionKeyMac
    ensures session.sessionKeyEnc == SessionKeyEnc(c, key, rndA, rndB)
    ensures session.sessionKeyMac == SessionKeyMac(c, key, rndA, rndB)
  {
    var f1, f2, f3, f4, f5 := rndA[..2], rndA[2..8], rndB[..6], rndB[6..], rndA[8..];
    var f2xor3 := new byte[6];
    for i := 0 to 6
      invariant forall j :: 0 <= j < i ==> f2xor3[j] == f2[j] ^ f3[j]
    {
      f2xor3[i] := f2[i] ^ f3[i];
    }
    assert f2xor3[..] == Xor(f2, f3);
    session.sessionKeyEnc := CmacOfParts(c, key, 0xA5, 0x5A, f1, f2xor3[..], f4, f5);
    session.sessionKeyMac := CmacOfParts(c, key, 0x5A, 0xA5, f1, f2xor3[..], f4, f5);
  }

  // ---- Rotation -------------------------------------------------------------------------------

  function RotateLeft(s: seq<byte>, r: nat): (t: seq<byte>)
    requires r <= |s|
    ensures |t| == |s|
  {
    s[r..] + s[..r]
  }

  /** `ntag424_rotl`. */
  method Rotl(input: array<byte>, output: array<byte>, bufferLen: nat, rotation: nat) returns (ok: bool)
    requires input != output && bufferLen <= input.Length && bufferLen <= output.Length
    modifies output
    ensures ok <==> rotation <= 16 && rotation <= bufferLen
    ensures ok ==> output[..bufferLen] == RotateLeft(input[..bufferLen], rotation)
    ensures !ok ==> output[..] == old(output[..])
    ensures output[bufferLen..] == old(output[bufferLen..])
  {
    if rotation > 16 || bufferLen < rotation {
      return false;
    }
    var i := 0;
    while i < bufferLen
      invariant 0 <= i <= bufferLen
      invariant forall j :: 0 <= j < i ==>
          output[if j < rotation then bufferLen + j - rotation else j - rotation] == input[j]
      invariant forall j :: bufferLen <= j < output.Length ==> output[j] == old(output[j])
    {
      var z := i - rotation;
      if z < 0 {
        z := bufferLen + z;
      }
      output[z] := input[i];
      i := i + 1;
    }
    forall k | 0 <= k < bufferLen
      ensures output[k] == RotateLeft(input[..bufferLen], rotation)[k]
    {
      var j := if k < bufferLen - rotation then k + rotation else k + rotation - bufferLen;
      assert output[if j < rotation then bufferLen + j - rotation else j - rotation] == input[j];
    }
    ok := true;
  }
}
