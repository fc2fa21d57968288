/** Secure messaging on the host: protecting a command and opening a response (ntag424_apdu.cpp). */
module Apdu {
  import opened Bytes
  import opened Octets
  import opened BlockCipher
  import opened Padding
  import opened CipherSuite
  import opened Sessions

  const MAX_APDU := 80
  const PLAIN: byte := 0x00
  const MAC: byte := 0x01
  const FULL: byte := 0x02
  const ISO_UPDATE_BINARY: byte := 0xD6

  predicate Secured(mode: byte) {
    mode == MAC || mode == FULL
  }

  /** A constant input buffer with its length; without a buffer there may still be a length. */
  datatype Input = Null(length: nat) | Data(bytes: seq<byte>) {
    function Length(): nat {
      if Null? then length else |bytes|
    }

    predicate Missing() {
      Null? && length > 0
    }

    function Value(): seq<byte> {
      if Null? then [] else bytes
    }
  }

  datatype Command = Command(cla: byte, ins: byte, p1: byte, p2: byte, header: Input, data: Input, le: byte)

  // ---- What a protected command is --------------------------------------------------------------

  /** The block that is encrypted into an initialisation vector. */
  function VectorBlock(label0: byte, label1: byte, ti: Ti, counter: int): Block {
    [label0, label1] + ti + CounterBytes(counter) + Zeros(8)
  }

  function CommandIv(c: Cipher, v: View): Block {
    c.e(v.keyEnc, VectorBlock(0xA5, 0x5A, v.ti, v.counter))
  }

  function ResponseIv(c: Cipher, v: View): Block {
    c.e(v.keyEnc, VectorBlock(0x5A, 0xA5, v.ti, v.counter + 1))
  }

  /** The data field as it travels: as it is, or padded and encrypted. */
  function ProtectedData(c: Cipher, v: Option<View>, mode: byte, data: seq<byte>): (r: seq<byte>)
    requires mode == FULL ==> v.Some?
    ensures |r| == ProtectedLength(mode, |data|)
  {
    if mode == PLAIN || mode == MAC then data
    else if mode == FULL && |data| > 0 then CbcEncrypt(c.e, v.value.keyEnc, CommandIv(c, v.value), Pad(data, 16))
    else []
  }

  function ProtectedLength(mode: byte, dataLength: nat): nat {
    if mode == PLAIN || mode == MAC then dataLength
    else if mode == FULL && dataLength > 0 then dataLength + (16 - dataLength % 16)
    else 0
  }

  function MacLength(mode: byte): nat {
    if Secured(mode) then 8 else 0
  }

  function LeLength(ins: byte): nat {
    if ins == ISO_UPDATE_BINARY then 0 else 1
  }

  function ApduLength(cmd: Command, mode: byte): nat {
    5 + cmd.header.Length() + ProtectedLength(mode, cmd.data.Length()) + MacLength(mode) + LeLength(cmd.ins)
  }

  /** Lc: header, protected data and MAC; a mode the source does not know counts header and data. */
  function Lc(cmd: Command, mode: byte): nat {
    cmd.header.Length() + MacLength(mode)
    + if mode == PLAIN || Secured(mode) then ProtectedLength(mode, cmd.data.Length()) else cmd.data.Length()
  }

  function LcByte(cmd: Command, mode: byte): byte {
    ToByte(Lc(cmd, mode))
  }

  /** The whole command APDU around a MAC field. */
  function Frame(c: Cipher, v: Option<View>, cmd: Command, mode: byte, mac: seq<byte>): (r: seq<byte>)
    requires mode == FULL ==> v.Some?
    ensures !cmd.header.Missing() && |mac|
         == MacLength(mode) && (mode == PLAIN || Secured(mode) ==> !cmd.data.Missing())
        ==> |r| == ApduLength(cmd, mode)
  {
    [cmd.cla, cmd.ins, cmd.p1, cmd.p2] + [LcByte(cmd, mode)]
    + cmd.header.Value() + ProtectedData(c, v, mode, cmd.data.Value()) + mac + LeField(cmd)
  }

  /** In a mode that the source does not know, the header travels alone, although Lc counts the data too. */
  lemma OtherModeFrame(c: Cipher, v: Option<View>, cmd: Command, mode: byte)
    requires mode !in {PLAIN, MAC, FULL}
    ensures Frame(c, v, cmd, mode, [])
         == [cmd.cla, cmd.ins, cmd.p1, cmd.p2, ToByte(cmd.header.Length() + cmd.data.Length())] + cmd.header.Value()
            + (if cmd.ins == 0xD6 then [] else [cmd.le])
  {
    var lead := [cmd.cla, cmd.ins, cmd.p1, cmd.p2];
    assert lead + [LcByte(cmd, mode)] == [cmd.cla, cmd.ins, cmd.p1, cmd.p2, LcByte(cmd, mode)];
    assert cmd.header.Value() + [] + [] == cmd.header.Value();
  }

  function LeField(cmd: Command): (r: seq<byte>)
    ensures |r| == LeLength(cmd.ins)
  {
    if cmd.ins == ISO_UPDATE_BINARY then [] else [cmd.le]
  }

  /** Eight bytes that are the MAC of the command whenever the command fits the MAC buffer. */
  predicate Signs(c: Cipher, v: View, cmd: Command, body: seq<byte>, mac: seq<byte>) {
    |mac| == 8 && (MacFits(cmd.header.Value(), body) ==> mac == CommandMac(c, v, cmd.ins, cmd.header.Value(), body))
  }

  /** Exactly the calls for which an APDU is built. */
  predicate Buildable(v: Option<View>, cmd: Command, mode: byte) {
    && (Secured(mode) ==> v.Some? && v.value.authenticated)
    && !cmd.header.Missing()
    && (mode == PLAIN || mode == MAC ==> !cmd.data.Missing())
    && ApduLength(cmd, mode) <= MAX_APDU
  }

  /** The lengths are 8-bit numbers. */
  predicate Sized(cmd: Command) {
    cmd.header.Length() < 256 && cmd.data.Length() < 256
  }

  /** Data for which the source stays inside its buffers once the header is written. In FULL mode it copies
      and pads them in 80 bytes, from where they are said to be. */
  predicate DataInBounds(cmd: Command, mode: byte) {
    && (mode == PLAIN || mode == MAC ==> cmd.data.Missing() || cmd.data.Length() <= MAX_APDU)
    && (mode == FULL ==> !cmd.data.Missing() && cmd.data.Length() < MAX_APDU)
  }

  /** The calls in which the source stays inside its buffers: refused before anything is copied, or with a
      header that is missing, or refused, or written with data in bounds behind it. */
  predicate InBounds(v: Option<View>, cmd: Command, mode: byte) {
    || (Secured(mode) && (v.None? || !v.value.authenticated))
    || cmd.header.Missing()
    || (cmd.header.Length() <= MAX_APDU && (5 + cmd.header.Length() <= MAX_APDU ==> DataInBounds(cmd, mode)))
  }

  // ---- Building it ------------------------------------------------------------------------------

  /** The guard of `ntag424_copy_input_if_present`, in 8-bit arithmetic, for a non-empty input. */
  predicate GuardPasses(length: nat, capacity: nat, offset: nat) {
    !(offset > (capacity - length) % 256)
  }

  /** The lengths and offsets at which it tells whether the input fits. */
  predicate GuardIsExact(length: nat, capacity: nat, offset: nat) {
    length <= capacity || offset > 256 + capacity - length
  }

  /** The guard tells whether the input fits, exactly when its length is within the capacity or the
      offset lies above the wrapped difference. */
  lemma GuardIsExactIff(length: nat, capacity: nat, offset: nat)
    requires 0 < length < 256 && capacity < 256 && offset < 256
    ensures (GuardPasses(length, capacity, offset) <==> offset + length <= capacity)
       <==> GuardIsExact(length, capacity, offset)
  {
    if length > capacity {
      assert (capacity - length) % 256 == 256 + capacity - length;
    }
  }

  /** `ntag424_copy_input_if_present`, wherever the guard is exact or there is no input to copy. */
  method CopyInputIfPresent(input: Input, output: array<byte>, capacity: nat, offset: nat)
    returns (ok: bool, newOffset: nat)
    requires capacity <= output.Length && capacity < 256 && offset <= capacity && input.Length() < 256
    requires input.Missing() || GuardIsExact(input.Length(), capacity, offset)
    modifies output
    ensures ok <==> !input.Missing() && offset + input.Length() <= capacity
    ensures newOffset == if ok then offset + input.Length() else offset
    ensures output[..newOffset] == old(output[..offset]) + if ok then input.Value() else []
    ensures output[newOffset..] == old(output[newOffset..])
    ensures forall i :: capacity <= i < output.Length ==> output[i] == old(output[i])
  {
    if input.Length() == 0 {
      return true, offset;
    }
    if input.Null? || offset > (capacity - input.Length()) % 256 {
      return false, offset;
    }
    Memcpy(output, offset, input.bytes);
    return true, offset + input.Length();
  }

  /** Lines 123-135 of the source: pad, derive the vector, encrypt. */
  method EncryptPayload(c: Cipher, session: Session, data: seq<byte>) returns (out: array<byte>, length: nat)
    requires 0 < |data| < MAX_APDU
    ensures fresh(out) && out.Length == MAX_APDU
    ensures length == ProtectedLength(FULL, |data|) <= MAX_APDU
    ensures out[..length] == ProtectedData(c, Some(session.Snapshot()), FULL, data)
  {
    var padded := new byte[MAX_APDU];
    Memcpy(padded, 0, data);
    assert padded[..|data|] == data;
    length := AddPadding(|data|, 16, padded);
    assert padded[..length] == Pad(data, 16);

    var iv: Block := [0xA5, 0x5A] + session.ti + CounterBytes(session.cmdCounter) + Zeros(8);
    var ive := new byte[16];
    var ok := Encrypt(c.e, session.sessionKeyEnc, Zeros(16), 16, iv, ive);
    CbcOneBlock(c.e, c.d, session.sessionKeyEnc, iv);
    assert iv[..16] == iv;
    assert ive[..16] == CommandIv(c, session.Snapshot());

    out := new byte[MAX_APDU];
    ok := Encrypt(c.e, session.sessionKeyEnc, ive[..16], length, padded[..], out);
    assert padded[..][..length] == padded[..length];
  }

  /** The MAC over the command is appended and counted into Lc. */
  method AppendMac(c: Cipher, session: Session, ins: byte, header: seq<byte>, body: seq<byte>,
                   lc: byte, apduOut: array<byte>, at: nat)
    returns (ok: bool, offset: nat, ghost mac: seq<byte>)
    requires apduOut.Length >= MAX_APDU && 5 <= at <= MAX_APDU && |header| + |body| <= 160
    modifies apduOut
    ensures |mac| == 8 && (MacFits(header, body) ==> mac == CommandMac(c, session.Snapshot(), ins, header, body))
    ensures ok <==> at + 8 <= MAX_APDU
    ensures ok ==> offset == at + 8 && apduOut[..offset] == old(apduOut[..4]) + [lc] + old(apduOut[5..at]) + mac
    ensures forall i :: MAX_APDU <= i < apduOut.Length ==> apduOut[i] == old(apduOut[i])
  {
    var cmacShort := new byte[8];
    Mac(c, session, session.sessionKeyMac, ins, header, body, cmacShort);
    mac := cmacShort[..];
    ok, offset := CopyInputIfPresent(Data(cmacShort[..]), apduOut, MAX_APDU, at);
    if ok {
      ghost var was := apduOut[..offset];
      apduOut[4] := lc;
      assert apduOut[..offset] == was[..4] + [lc] + was[5..];
    }
  }

  /** Lines 96-110 of the source. */
  method AppendMacBody(c: Cipher, cmd: Command, session: Session, apduOut: array<byte>, at: nat)
    returns (ok: bool, offset: nat, ghost mac: seq<byte>)
    requires apduOut.Length >= MAX_APDU && 5 <= at <= MAX_APDU
    requires Sized(cmd) && DataInBounds(cmd, MAC) && cmd.header.Length() <= MAX_APDU
    requires apduOut[4] == ToByte(cmd.data.Length() + cmd.header.Length())
    modifies apduOut
    ensures ok <==> at + cmd.data.Length() + 8 <= MAX_APDU && !cmd.data.Missing()
    ensures ok ==> offset == at + cmd.data.Length() + 8 && Signs(c, session.Snapshot(), cmd, cmd.data.Value(), mac)
    ensures ok
        ==> apduOut[..offset] == old(apduOut[..4]) + [LcByte(cmd, MAC)] + old(apduOut[5..at]) + cmd.data.Value() + mac
    ensures forall i :: MAX_APDU <= i < apduOut.Length ==> apduOut[i] == old(apduOut[i])
  {
    mac := [];
    ghost var head, start := apduOut[..4], apduOut[5..at];
    var data := cmd.data.Value();
    var lc := ToByte(apduOut[4] as int + 8);
    assert lc == LcByte(cmd, MAC) by { ToByteAdds(cmd.data.Length() + cmd.header.Length(), 8); }
    ok, offset := CopyInputIfPresent(cmd.data, apduOut, MAX_APDU, at);
    if ok {
      assert apduOut[..4] == head && apduOut[5..offset] == start + data;
      ok, offset, mac := AppendMac(c, session, cmd.ins, cmd.header.Value(), data, lc, apduOut, offset);
      assert ok ==> apduOut[..offset] == head + [lc] + (start + data) + mac;
      ConcatAssociates(head + [lc], start, data);
    }
  }

  /** Lines 113-152 of the source: a non-empty data field. */
  method AppendFullBody(c: Cipher, cmd: Command, session: Session, lc: byte, apduOut: array<byte>, at: nat)
    returns (ok: bool, offset: nat, ghost body: seq<byte>, ghost mac: seq<byte>)
    requires apduOut.Length >= MAX_APDU && 5 <= at <= MAX_APDU
    requires DataInBounds(cmd, FULL) && cmd.data.Length() > 0 && cmd.header.Length() <= MAX_APDU
    modifies apduOut
    ensures body == ProtectedData(c, Some(session.Snapshot()), FULL, cmd.data.Value())
    ensures ok <==> at + |body| + 8 <= MAX_APDU
    ensures ok ==> offset == at + |body| + 8 && Signs(c, session.Snapshot(), cmd, body, mac)
    ensures ok ==> apduOut[..offset] == old(apduOut[..4]) + [lc] + old(apduOut[5..at]) + body + mac
    ensures forall i :: MAX_APDU <= i < apduOut.Length ==> apduOut[i] == old(apduOut[i])
  {
    mac := [];
    ghost var head, start := apduOut[..4], apduOut[5..at];
    var payload, length := EncryptPayload(c, session, cmd.data.Value());
    body := payload[..length];
    ok, offset := CopyInputIfPresent(Data(payload[..length]), apduOut, MAX_APDU, at);
    if ok {
      assert apduOut[..4] == head && apduOut[5..offset] == start + body;
      ok, offset, mac := AppendMac(c, session, cmd.ins, cmd.header.Value(), payload[..length], lc, apduOut, offset);
      ConcatAssociates(head + [lc], start, body);
    }
  }

  /** Lines 111-164 of the source. */
  method AppendFull(c: Cipher, cmd: Command, session: Session, apduOut: array<byte>, at: nat)
    returns (ok: bool, offset: nat, ghost body: seq<byte>, ghost mac: seq<byte>)
    requires apduOut.Length >= MAX_APDU && 5 <= at <= MAX_APDU
    requires DataInBounds(cmd, FULL) && cmd.header.Length() <= MAX_APDU
    requires apduOut[4] == ToByte(cmd.data.Length() + cmd.header.Length())
    modifies apduOut
    ensures body == ProtectedData(c, Some(session.Snapshot()), FULL, cmd.data.Value())
    ensures ok <==> at + |body| + 8 <= MAX_APDU
    ensures ok ==> offset == at + |body| + 8 && Signs(c, session.Snapshot(), cmd, body, mac)
    ensures ok ==> apduOut[..offset] == old(apduOut[..4]) + [LcByte(cmd, FULL)] + old(apduOut[5..at]) + body + mac
    ensures forall i :: MAX_APDU <= i < apduOut.Length ==> apduOut[i] == old(apduOut[i])
  {
    if cmd.data.Length() > 0 {
      var lc := ToByte(cmd.header.Length() + ProtectedLength(FULL, cmd.data.Length()) + 8);
      assert lc == LcByte(cmd, FULL) by {
        assert cmd.header.Length() + ProtectedLength(FULL, cmd.data.Length()) + 8 == Lc(cmd, FULL);
      }
      ok, offset, body, mac := AppendFullBody(c, cmd, session, lc, apduOut, at);
    } else {
      body := [];
      var lc := ToByte(apduOut[4] as int + 8);
      assert lc == LcByte(cmd, FULL) by { ToByteAdds(cmd.data.Length() + cmd.header.Length(), 8); }
      ok, offset, mac := AppendMac(c, session, cmd.ins, cmd.header.Value(), [], lc, apduOut, at);
    }
  }

  /** Lines 90-165 of the source: everything between the header and Le. */
  method AppendBody(c: Cipher, cmd: Command, mode: byte, session: Session?, apduOut: array<byte>, at: nat)
    returns (ok: bool, offset: nat, ghost body: seq<byte>, ghost mac: seq<byte>)
    requires apduOut.Length >= MAX_APDU && at == 5 + cmd.header.Length() <= MAX_APDU
    requires Secured(mode) ==> session != null
    requires Sized(cmd) && DataInBounds(cmd, mode)
    requires apduOut[4] == ToByte(cmd.data.Length() + cmd.header.Length())
    modifies apduOut
    ensures ok <==> ApduLength(cmd, mode) - LeLength(cmd.ins) <= MAX_APDU
                    && (mode == PLAIN || mode == MAC ==> !cmd.data.Missing())
    ensures ok ==> offset == ApduLength(cmd, mode) - LeLength(cmd.ins)
    ensures ok ==> body == ProtectedData(c, Snap(session), mode, cmd.data.Value()) && |mac| == MacLength(mode)
    ensures ok && Secured(mode) ==> Signs(c, session.Snapshot(), cmd, body, mac)
    ensures ok ==> apduOut[..offset] == old(apduOut[..4]) + [LcByte(cmd, mode)] + old(apduOut[5..at]) + body + mac
    ensures forall i :: MAX_APDU <= i < apduOut.Length ==> apduOut[i] == old(apduOut[i])
  {
    ok, offset, body, mac := true, at, [], [];
    if mode == PLAIN {
      ghost var head, start := apduOut[..4], apduOut[5..at];
      body := cmd.data.Value();
      ok, offset := CopyInputIfPresent(cmd.data, apduOut, MAX_APDU, at);
      assert ok ==> apduOut[..offset] == head + [LcByte(cmd, mode)] + start + body + mac;
    } else if mode == MAC {
      body := cmd.data.Value();
      ok, offset, mac := AppendMacBody(c, cmd, session, apduOut, at);
    } else if mode == FULL {
      ok, offset, body, mac := AppendFull(c, cmd, session, apduOut, at);
    } else {
      assert apduOut[..offset] == apduOut[..4] + [LcByte(cmd, mode)] + apduOut[5..at] + body + mac;
    }
  }

  /** Lines 77-88 of the source: everything up to the command header. */
  method WriteHead(cmd: Command, apduOut: array<byte>) returns (ok: bool, offset: nat)
    requires apduOut.Length >= MAX_APDU && Sized(cmd) && (cmd.header.Missing() || cmd.header.Length() <= MAX_APDU)
    modifies apduOut
    ensures ok <==> !cmd.header.Missing() && 5 + cmd.header.Length() <= MAX_APDU
    ensures ok ==> offset == 5 + cmd.header.Length()
    ensures ok ==> apduOut[..4] == [cmd.cla, cmd.ins, cmd.p1, cmd.p2] && apduOut[5..offset] == cmd.header.Value()
    ensures ok ==> apduOut[4] == ToByte(cmd.data.Length() + cmd.header.Length())
    ensures forall i :: MAX_APDU <= i < apduOut.Length ==> apduOut[i] == old(apduOut[i])
  {
    apduOut[0], apduOut[1], apduOut[2], apduOut[3] := cmd.cla, cmd.ins, cmd.p1, cmd.p2;
    apduOut[4] := ToByte(cmd.data.Length() + cmd.header.Length());
    ghost var top := apduOut[..5];
    ok, offset := CopyInputIfPresent(cmd.header, apduOut, MAX_APDU, 5);
    assert ok ==> apduOut[..offset] == top + cmd.header.Value();
    assert ok ==> apduOut[..offset][4] == top[4] && apduOut[..offset][..4] == top[..4];
  }

  /** Lines 167-175 of the source: Le, which only the update command does not have. */
  method AppendLe(cmd: Command, apduOut: array<byte>, offset: nat) returns (n: nat)
    requires apduOut.Length >= MAX_APDU && 0 < offset <= MAX_APDU
    modifies apduOut
    ensures n == if offset + LeLength(cmd.ins) <= MAX_APDU then offset + LeLength(cmd.ins) else 0
    ensures n != 0 ==> apduOut[..n] == old(apduOut[..offset]) + LeField(cmd)
    ensures forall i :: MAX_APDU <= i < apduOut.Length ==> apduOut[i] == old(apduOut[i])
  {
    n := offset;
    if cmd.ins != ISO_UPDATE_BINARY {
      if offset >= MAX_APDU {
        return 0;
      }
      apduOut[offset] := cmd.le;
      n := n + 1;
    }
  }

  /** `ntag424_build_apdu`: the length of the APDU, or 0. Nothing past byte 80 is written. */
  method BuildApdu(c: Cipher, cmd: Command, mode: byte, session: Session?, apduOut: array?<byte>)
    returns (n: nat, ghost mac: seq<byte>)
    requires Sized(cmd) && (apduOut != null ==> InBounds(Snap(session), cmd, mode))
    requires apduOut != null ==> apduOut.Length >= MAX_APDU
    modifies if apduOut == null then {} else {apduOut}
    ensures n != 0 <==> apduOut != null && Buildable(Snap(session), cmd, mode)
    ensures n != 0 ==> n == ApduLength(cmd, mode)
    ensures n != 0 ==> apduOut[..n] == Frame(c, Snap(session), cmd, mode, mac)
    ensures n != 0 ==> |mac| == MacLength(mode)
    ensures n != 0 && Secured(mode)
        ==> Signs(c, session.Snapshot(), cmd, ProtectedData(c, Snap(session), mode, cmd.data.Value()), mac)
    ensures apduOut != null ==> forall i :: MAX_APDU <= i < apduOut.Length ==> apduOut[i] == old(apduOut[i])
  {
    mac := [];
    if apduOut == null {
      return 0, mac;
    }
    if Secured(mode) && (session == null || !session.authenticated) {
      return 0, mac;
    }
    var ok, offset := WriteHead(cmd, apduOut);
    if !ok {
      return 0, mac;
    }
    ghost var body: seq<byte>;
    ok, offset, body, mac := AppendBody(c, cmd, mode, session, apduOut, offset);
    if !ok {
      return 0, mac;
    }
    n := AppendLe(cmd, apduOut, offset);
  }

  // ---- Opening a response -----------------------------------------------------------------------

  function ResponseMac(c: Cipher, v: View, sw2: byte, data: seq<byte>): (r: seq<byte>)
    ensures |r| == 8
  {
    CmacShort(c, v.keyMac, [sw2] + CounterBytes(v.counter + 1) + v.ti + data)
  }

  /** A response of ten bytes or more carries its MAC before the status word. */
  predicate MacVerifies(c: Cipher, v: View, r: seq<byte>)
    requires |r| >= 10
  {
    r[|r| - 10..|r| - 2] == ResponseMac(c, v, r[|r| - 1], r[..|r| - 10])
  }

  /** The decrypted and stripped data of a response, with the status word behind it. */
  function Decrypted(c: Cipher, v: View, r: seq<byte>): (plain: Option<seq<byte>>)
    requires |r| > 10
    ensures plain.Some? ==> 2 <= |plain.value| <= |r|
  {
    if (|r| - 10) % 16 != 0 then None else
      var plain := CbcDecrypt(c.d, v.keyEnc, ResponseIv(c, v), r[..|r| - 10]);
      Some(plain[..StripLength(plain)] + r[|r| - 2..])
  }

  /** What the source makes of a response; None where it gives up. */
  function Opened(c: Cipher, v: Option<View>, mode: byte, r: seq<byte>): Option<seq<byte>> {
    if Secured(mode) && v.None? then None
    else if |r| > MAX_APDU then None
    else if |r| >= 10 && Secured(mode) && !MacVerifies(c, v.value, r) then None
    else if |r| > 10 && mode == FULL then Decrypted(c, v.value, r)
    else Some(r)
  }

  /** What is accepted in a secured mode: a response of ten bytes or more that carries its MAC, with whole
      blocks of data in FULL mode; but any shorter one, which carries none. */
  lemma AcceptedIff(c: Cipher, v: View, mode: byte, r: seq<byte>)
    requires Secured(mode) && |r| <= MAX_APDU
    ensures Opened(c, Some(v), mode, r).Some?
       <==> |r| < 10 || (MacVerifies(c, v, r) && (mode == FULL ==> (|r| - 10) % 16 == 0))
    ensures |r| < 10 ==> Opened(c, Some(v), mode, r) == Some(r)
  {
  }

  /** The counter of an authenticated session moves with every accepted response, in any mode. */
  function Advanced(v: Option<View>): Option<View> {
    if v.Some? && v.value.authenticated then Some(v.value.(counter := ToInt16(v.value.counter + 1))) else v
  }

  /** It moves, and always to another value, exactly if the session is authenticated. */
  lemma CountedIff(v: Option<View>)
    ensures Advanced(v) != v <==> v.Some? && v.value.authenticated
    ensures v.Some? && v.value.authenticated
        ==> Advanced(v).Some? && (Advanced(v).value.counter - v.value.counter - 1) % 0x1_0000 == 0
            && Advanced(v).value.(counter := v.value.counter) == v.value
  {
  }

  /** Lines 197-223 of the source: the eight MAC bytes are compared one by one. */
  method CheckResponseMac(c: Cipher, session: Session, response: array<byte>, length: nat) returns (ok: bool)
    requires 10 <= length <= response.Length && length <= MAX_APDU
    ensures ok <==> MacVerifies(c, session.Snapshot(), response[..length])
  {
    ghost var r := response[..length];
    var respCmac := response[length - 10..length - 2];
    assert respCmac == r[|r| - 10..|r| - 2];
    var checkMacIn := new byte[MAX_APDU + 6];
    var respCounter := (session.cmdCounter + 1) % 0x1_0000;
    CounterBytesModulo(respCounter, session.cmdCounter + 1);
    var dataLength := length - 10;
    Memcpy(checkMacIn, 0, [response[length - 1]] + CounterBytes(respCounter));
    Memcpy(checkMacIn, 3, session.ti);
    Memcpy(checkMacIn, 7, response[..dataLength]);
    assert checkMacIn[..7 + dataLength] == [r[|r| - 1]] + CounterBytes(respCounter) + session.ti + r[..|r| - 10];
    var checkMac := new byte[8];
    CmacShortLoop(c, session.sessionKeyMac, checkMacIn, 7 + dataLength, checkMac);
    assert checkMac[..] == checkMac[..8] == ResponseMac(c, session.Snapshot(), r[|r| - 1], r[..|r| - 10]);
    var i := 0;
    while i < 8
      invariant 0 <= i <= 8
      invariant forall j :: 0 <= j < i ==> respCmac[j] == checkMac[j]
    {
      if respCmac[i] != checkMac[i] {
        assert respCmac[i] != checkMac[..][i];
        return false;
      }
      i := i + 1;
    }
    assert respCmac == checkMac[..];
    ok := true;
  }

  /** Lines 228-236 of the source: the response vector. */
  method DeriveResponseIv(c: Cipher, session: Session) returns (ive: Block)
    ensures ive == ResponseIv(c, session.Snapshot())
  {
    var iv: Block := [0x5A, 0xA5] + session.ti + CounterBytes(session.cmdCounter + 1) + Zeros(8);
    var out := new byte[16];
    var ok := Encrypt(c.e, session.sessionKeyEnc, Zeros(16), 16, iv, out);
    CbcOneBlock(c.e, c.d, session.sessionKeyEnc, iv);
    assert iv[..16] == iv;
    ive := out[..16];
  }

  /** Lines 245-260 of the source: strip the plaintext and put the status word behind it. */
  method StripInto(plain: seq<byte>, sw: seq<byte>, processedOut: array<byte>) returns (n: nat)
    requires |sw| == 2 && |plain| + 2 <= processedOut.Length
    modifies processedOut
    ensures n == StripLength(plain) + 2
    ensures processedOut[..n] == plain[..StripLength(plain)] + sw
  {
    Memcpy(processedOut, 0, plain);
    assert processedOut[..|plain|] == plain;
    var stripped := StripPadding(processedOut, |plain|);
    assert processedOut[..stripped] == plain[..stripped];
    Memcpy(processedOut, stripped, sw);
    n := stripped + 2;
  }

  /** Lines 227-260 of the source. */
  method DecryptResponse(c: Cipher, session: Session, response: array<byte>, length: nat, processedOut: array<byte>)
    returns (n: nat)
    requires 10 < length <= response.Length && length <= MAX_APDU && length <= processedOut.Length
    requires response != processedOut
    modifies processedOut
    ensures n <= length
    ensures Decrypted(c, session.Snapshot(), response[..length]) == if n == 0 then None else Some(processedOut[..n])
  {
    ghost var r := response[..length];
    assert r[..|r| - 10] == response[..length - 10] && r[|r| - 2..] == response[length - 2..length];
    var ive := DeriveResponseIv(c, session);
    var encryptedLength := length - 10;
    var respPlain := new byte[MAX_APDU];
    var ok := Decrypt(c.d, session.sessionKeyEnc, ive, encryptedLength, response[..encryptedLength], respPlain);
    if !ok {
      return 0;
    }
    assert response[..encryptedLength][..encryptedLength] == response[..encryptedLength];
    assert respPlain[..encryptedLength]
        == CbcDecrypt(c.d, session.sessionKeyEnc, ive, response[..encryptedLength]);
    n := StripInto(respPlain[..encryptedLength], response[length - 2..length], processedOut);
  }

  /** Lines 186-263 of the source: everything but the counter. */
  method OpenResponse(c: Cipher, response: array<byte>, length: nat, mode: byte, session: Session?,
      processedOut: array<byte>)
    returns (ok: bool, n: nat)
    requires length <= response.Length && response != processedOut
    requires length <= MAX_APDU ==> length <= processedOut.Length
    modifies processedOut
    ensures ok <==> Opened(c, Snap(session), mode, response[..length]).Some?
    ensures n <= processedOut.Length
    ensures ok ==> n <= length && Opened(c, Snap(session), mode, response[..length]) == Some(processedOut[..n])
  {
    n := 0;
    if Secured(mode) && session == null {
      return false, 0;
    }
    if length > MAX_APDU {
      return false, 0;
    }
    ghost var r := response[..length];
    if length >= 10 && Secured(mode) {
      ok := CheckResponseMac(c, session, response, length);
      if !ok {
        return false, 0;
      }
    }
    if length > 10 && mode == FULL {
      n := DecryptResponse(c, session, response, length, processedOut);
      ok := n != 0;
      OpenedFull(c, session.Snapshot(), r);
    } else {
      Memcpy(processedOut, 0, response[..length]);
      ok, n := true, length;
      assert processedOut[..n] == r;
      OpenedAsIs(c, Snap(session), mode, r);
    }
  }

  lemma OpenedFull(c: Cipher, v: View, r: seq<byte>)
    requires 10 < |r| <= MAX_APDU && MacVerifies(c, v, r)
    ensures Opened(c, Some(v), FULL, r) == Decrypted(c, v, r)
  {
  }

  lemma OpenedAsIs(c: Cipher, v: Option<View>, mode: byte, r: seq<byte>)
    requires |r| <= MAX_APDU && (Secured(mode) ==> v.Some?) && !(|r| > 10 && mode == FULL)
    requires |r| >= 10 && Secured(mode) ==> MacVerifies(c, v.value, r)
    ensures Opened(c, v, mode, r) == Some(r)
  {
  }

  /** `ntag424_process_response`. */
  method ProcessResponse(c: Cipher, response: array?<byte>, length: nat, mode: byte, session: Session?,
                         processedOut: array?<byte>) returns (n: nat)
    requires response != null ==> length <= response.Length
    requires processedOut != null && length <= MAX_APDU ==> length <= processedOut.Length
    requires response != null ==> response != processedOut
    modifies if processedOut == null then {} else {processedOut}, if session == null then {} else {session}
    ensures var r := if response == null || processedOut == null then None
                     else Opened(c, old(Snap(session)), mode, old(response[..length]));
            if r.None? then n == 0 && Snap(session) == old(Snap(session))
            else n == |r.value| && n <= length
                 && processedOut[..n] == r.value && Snap(session) == Advanced(old(Snap(session)))
  {
    if response == null || processedOut == null {
      return 0;
    }
    var ok;
    ok, n := OpenResponse(c, response, length, mode, session, processedOut);
    if !ok {
      return 0;
    }
    if session != null && session.authenticated {
      session.cmdCounter := ToInt16(session.cmdCounter + 1);
    }
  }

  // ---- Status words -----------------------------------------------------------------------------

  /** `ntag424_response_has_status`, for a buffer that holds `r`. */
  predicate HasStatus(r: seq<byte>, sw1: byte, sw2: byte) {
    |r| >= 2 && r[|r| - 2] == sw1 && r[|r| - 1] == sw2
  }
}
