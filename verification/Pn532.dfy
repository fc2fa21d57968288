/** PN532 frames: the two writers (Adafruit_PN532_NTAG424.cpp:2299-2384) and the adapter that carries an
    APDU in an InDataExchange (pn532_ntag424_adapter.cpp:14-57). */
module Pn532 {
  import opened Octets
  import opened Bytes
  import opened Readers

  /** A running total over a string. */
  function Fold<T>(plus: (T, T) -> T, start: T, s: seq<T>): T {
    if |s| == 0 then start else plus(Fold(plus, start, s[..|s| - 1]), s[|s| - 1])
  }

  /** A different start shifts the total, if it does so for every single step. */
  lemma {:induction false} FoldShifts<T(!new)>(plus: (T, T) -> T, zero: T, start: T, s: seq<T>)
    requires plus(start, zero) == start
    requires forall a, b {:trigger plus(start, plus(a, b))} :: plus(plus(start, a), b) == plus(start, plus(a, b))
    ensures Fold(plus, start, s) == plus(start, Fold(plus, zero, s))
  {
    if s != [] {
      FoldShifts(plus, zero, start, s[..|s| - 1]);
    }
  }

  function Plus(a: byte, b: byte): byte {
    a + b
  }

  /** The sum of bytes modulo 256, from a first value on. */
  function Sum(start: byte, s: seq<byte>): byte {
    Fold(Plus, start, s)
  }

  /** What both checksums cover besides the data: the start code and the direction byte. */
  const SPI_START: byte := 0xD3

  lemma SumFromStart(s: seq<byte>)
    ensures Sum(SPI_START, s) == SPI_START + Sum(0, s)
  {
    forall a, b ensures Plus(Plus(SPI_START, a), b) == Plus(SPI_START, Plus(a, b)) {
      StartAssociates(a, b);
    }
    FoldShifts(Plus, 0, SPI_START, s);
  }

  lemma StartAssociates(a: byte, b: byte)
    ensures Plus(Plus(SPI_START, a), b) == Plus(SPI_START, Plus(a, b))
  {
  }

  function I2cHead(len: byte): seq<byte> {
    [0x00, 0x00, 0xFF, len, !len + 1, 0xD4]
  }

  function SpiHead(len: byte): seq<byte> {
    [0x01, 0x00, 0x00, 0xFF, len, !len + 1, 0xD4]
  }

  /** The frame on the I2C and serial lines. */
  function I2cFrame(cmd: seq<byte>): seq<byte> {
    I2cHead(ToByte(|cmd| + 1)) + cmd + [!(0xD4 + Sum(0, cmd)) + 1, 0x00]
  }

  /** The frame on the SPI line. With 255 bytes the length wraps to 0, the copying loop does not run, and
      the postamble is not sent. */
  function SpiFrame(cmd: seq<byte>): seq<byte> {
    if |cmd| <= 254 then SpiHead(ToByte(|cmd| + 1)) + cmd + [!Sum(SPI_START, cmd), 0x00]
    else SpiHead(ToByte(|cmd| + 1)) + [!SPI_START]
  }

  /** The fixed part of the SPI packet, up to the direction byte. */
  method PutSpiHead(packet: array<byte>, len: byte)
    requires packet.Length >= 7
    modifies packet
    ensures packet[..7] == SpiHead(len)
  {
    packet[0], packet[1], packet[2], packet[3] := 0x01, 0x00, 0x00, 0xFF;
    packet[4], packet[5], packet[6] := len, !len + 1, 0xD4;
  }

  /** The copying loop of either writer, with its running checksum. */
  method CopySumming<T>(packet: array<T>, at: nat, cmd: seq<T>, plus: (T, T) -> T, start: T) returns (sum: T)
    requires at + |cmd| <= packet.Length
    modifies packet
    ensures packet[..at + |cmd|] == old(packet[..at]) + cmd
    ensures sum == Fold(plus, start, cmd)
  {
    sum := start;
    var i := 0;
    while i < |cmd|
      invariant 0 <= i <= |cmd|
      invariant packet[..at + i] == old(packet[..at]) + cmd[..i]
      invariant sum == Fold(plus, start, cmd[..i])
    {
      assert cmd[..i + 1][..i] == cmd[..i];
      packet[at + i] := cmd[i];
      sum := plus(sum, cmd[i]);
      i := i + 1;
      assert packet[..at + i] == old(packet[..at]) + cmd[..i];
    }
    assert cmd[..i] == cmd;
  }

  /** The checksum and the postamble. */
  method PutTail(packet: array<byte>, at: nat, checksum: byte)
    requires at + 2 <= packet.Length
    modifies packet
    ensures packet[..at + 2] == old(packet[..at]) + [checksum, 0x00]
  {
    packet[at], packet[at + 1] := checksum, 0x00;
  }

  /** `writecommand` on SPI. The loop copies one byte less than the wrapped length says, so nothing of 255
      bytes. */
  method WriteSpi(cmd: seq<byte>) returns (sent: seq<byte>)
    requires |cmd| < 256
    ensures sent == SpiFrame(cmd)
  {
    var packet := new byte[9 + |cmd|];
    var cmdLen := (|cmd| + 1) % 256;
    PutSpiHead(packet, ToByte(|cmd| + 1));
    var copied := if cmdLen == 0 then [] else cmd[..cmdLen - 1];
    var checksum := CopySumming(packet, 7, copied, Plus, 0xFF + 0xD4);
    PutTail(packet, 7 + |copied|, !checksum);
    assert packet[..9 + |copied|] == SpiHead(ToByte(|cmd| + 1)) + copied + [!checksum, 0x00];
    sent := packet[..8 + cmdLen];
    if |cmd| <= 254 {
      assert copied == cmd && 9 + |copied| == 8 + cmdLen;
    } else {
      assert sent == packet[..9 + |copied|][..8];
      NothingCopied(SpiHead(ToByte(|cmd| + 1)), !checksum);
    }
  }

  lemma NothingCopied(head: seq<byte>, checksum: byte)
    requires |head| == 7
    ensures (head + [] + [checksum, 0x00])[..8] == head + [checksum]
  {
  }

  /** `writecommand` on I2C or a serial line. */
  method WriteI2c(cmd: seq<byte>) returns (sent: seq<byte>)
    requires |cmd| < 256
    ensures sent == I2cFrame(cmd)
  {
    var packet := new byte[8 + |cmd|];
    PutI2cHead(packet, ToByte(|cmd| + 1));
    var sum := CopySumming(packet, 6, cmd, Plus, 0);
    PutTail(packet, 6 + |cmd|, !(0xD4 + sum) + 1);
    sent := packet[..8 + |cmd|];
  }

  method PutI2cHead(packet: array<byte>, len: byte)
    requires packet.Length >= 6
    modifies packet
    ensures packet[..6] == I2cHead(len)
  {
    packet[0], packet[1], packet[2], packet[3] := 0x00, 0x00, 0xFF, len;
    packet[4], packet[5] := !len + 1, 0xD4;
  }

  lemma Checksums(s: byte)
    ensures !(SPI_START + s) == !(0xD4 + s) + 1
    ensures (0xD4 + s) + (!(0xD4 + s) + 1) == 0
  {
  }

  lemma LengthChecksum(len: byte)
    ensures len + (!len + 1) == 0
  {
  }

  lemma HeadsAgree(len: byte, cmd: seq<byte>, tail: seq<byte>)
    ensures SpiHead(len) + cmd + tail == [0x01] + (I2cHead(len) + cmd + tail)
  {
    assert SpiHead(len) == [0x01] + I2cHead(len);
  }

  /** The two writers, whose checksums are computed differently, send the same frame behind the SPI
      direction byte exactly for commands of at most 254 bytes. */
  lemma WritersAgreeIff(cmd: seq<byte>)
    requires |cmd| < 256
    ensures SpiFrame(cmd) == [0x01] + I2cFrame(cmd) <==> |cmd| <= 254
  {
    if |cmd| <= 254 {
      SumFromStart(cmd);
      Checksums(Sum(0, cmd));
      HeadsAgree(ToByte(|cmd| + 1), cmd, [!(0xD4 + Sum(0, cmd)) + 1, 0x00]);
    } else {
      assert |SpiFrame(cmd)| == 8;
    }
  }

  /** Of 255 bytes the SPI writer sends none: the length is announced as 0, with a frame checksum of its own. */
  lemma SpiOf255(cmd: seq<byte>)
    requires |cmd| == 255
    ensures SpiFrame(cmd) == [0x01, 0x00, 0x00, 0xFF, 0x00, 0x00, 0xD4, 0x2C]
  {
  }

  /** A receiver: start code, length with its checksum, direction, data with its checksum, postamble. */
  function ParseFrame(f: seq<byte>): Option<seq<byte>> {
    if |f| < 8 || f[..3] != [0x00, 0x00, 0xFF] || f[3] + f[4] != 0 || f[3] as int + 7 != |f| then None else
      var data := f[6..|f| - 2];
      if f[5] != 0xD4 || f[5] + Sum(0, data) + f[|f| - 2] != 0 || f[|f| - 1] != 0x00 then None else Some(data)
  }

  lemma FrameParts(len: byte, cmd: seq<byte>, dcs: byte)
    ensures var f := I2cHead(len) + cmd + [dcs, 0x00];
            f[..3] == [0x00, 0x00, 0xFF] && f[3] == len && f[4] == !len + 1 && |f| == |cmd| + 8
            && f[5] == 0xD4 && f[6..|f| - 2] == cmd && f[|f| - 2] == dcs && f[|f| - 1] == 0x00
  {
  }

  /** A receiver gets back every command of at most 254 bytes. */
  lemma FrameRoundTrip(cmd: seq<byte>)
    requires |cmd| <= 254
    ensures ParseFrame(I2cFrame(cmd)) == Some(cmd)
  {
    ParseParts(ToByte(|cmd| + 1), cmd, !(0xD4 + Sum(0, cmd)) + 1) by {
      ToByteSmall(|cmd| + 1);
      Checksums(Sum(0, cmd));
    }
  }

  lemma ParseParts(len: byte, cmd: seq<byte>, dcs: byte)
    requires len as int == |cmd| + 1 && 0xD4 + Sum(0, cmd) + dcs == 0
    ensures ParseFrame(I2cHead(len) + cmd + [dcs, 0x00]) == Some(cmd)
  {
    FrameParts(len, cmd, dcs);
    LengthChecksum(len);
  }

  // ---- The adapter ------------------------------------------------------------------------------

  /** The 64 bytes the adapter reads, whatever the chip has sent. */
  type Raw = s: seq<byte> | |s| == 64 witness Zeros(64)

  /** A chip: its state and a written frame give its new state and, if it acknowledges, what is read next. */
  type Chip<!S> = (S, seq<byte>) -> (S, Option<Raw>)

  predicate WellFormed(raw: Raw) {
    && raw[0] == 0x00 && raw[1] == 0x00 && raw[2] == 0xFF
    && raw[4] == !raw[3] + 1
    && raw[3] as int >= 3
    && raw[5] == 0xD5 && raw[6] == 0x41
    && raw[7] & 0x3F == 0
  }

  /** The payload of a response frame, cut to the room there is; nothing if it was not read in full. */
  function Decode(raw: Raw, room: nat): seq<byte> {
    if !WellFormed(raw) || raw[3] as int - 3 > 54 then [] else
      var n := raw[3] as int - 3;
      raw[8..8 + if n > room then room else n]
  }

  function Carried<S>(chip: Chip<S>, state: S, send: seq<byte>, room: nat): (S, seq<byte>) {
    var (state', raw) := chip(state, I2cFrame([0x40, 0x01] + send));
    (state', if raw.None? then [] else Decode(raw.value, room))
  }

  class Adapter<S> {
    const chip: Chip<S>
    var state: S

    constructor (chip: Chip<S>, state: S)
      ensures this.chip == chip && this.state == state
    {
      this.chip := chip;
      this.state := state;
    }

    /** Command, acknowledge, and the 64 bytes that follow. */
    method SendCommandCheckAck(cmd: seq<byte>) returns (ack: bool, raw: Raw)
      requires |cmd| < 256
      modifies this
      ensures (state, if ack then Some(raw) else None) == chip(old(state), I2cFrame(cmd))
    {
      var frame := WriteI2c(cmd);
      var (state', r) := chip(state, frame);
      state := state';
      ack := r.Some?;
      raw := if ack then r.value else Zeros(64);
    }

    /** `PN532_NTAG424_Adapter::transceive`. */
    method Transceive(send: seq<byte>, response: array?<byte>, room: nat) returns (n: nat)
      requires response != null ==> room <= response.Length
      modifies this, if response == null then {} else {response}
      ensures response == null || room == 0 || |send| > 80 ==> n == 0 && state == old(state)
      ensures response != null && room != 0 && |send| <= 80
          ==> n <= room && (state, response[..n]) == Carried(chip, old(state), send, room)
    {
      if response == null || room == 0 || |send| > 80 {
        return 0;
      }
      var frame := new byte[82](_ => 0);
      frame[0], frame[1] := 0x40, 0x01;
      assert frame[..2] == [0x40, 0x01];
      Memcpy(frame, 2, send);
      var ack, resp := SendCommandCheckAck(frame[..|send| + 2]);
      if !ack {
        return 0;
      }
      n := Unpack(resp, response, room);
    }
  }

  /** The checks on what was read, and the copy to the caller. */
  method Unpack(resp: Raw, response: array<byte>, room: nat) returns (n: nat)
    requires room <= response.Length
    modifies response
    ensures n <= room && response[..n] == Decode(resp, room)
  {
    if resp[0] != 0x00 || resp[1] != 0x00 || resp[2] != 0xFF {
      return 0;
    }
    if resp[4] != !resp[3] + 1 || resp[3] as int < 3 || resp[5] != 0xD5 || resp[6] != 0x41 || resp[7] & 0x3F != 0 {
      return 0;
    }
    var payloadLength := resp[3] as int - 3;
    if payloadLength > 54 {
      return 0;
    }
    n := if payloadLength > room then room else payloadLength;
    Memcpy(response, 0, resp[8..8 + n]);
    assert response[..n] == resp[8..8 + n];
  }

  /** What is read of a response frame: its fixed part, the payload, its checksum, and whatever follows. */
  function ResponseWith(len: byte, status: byte, payload: seq<byte>, dcs: byte, filler: Raw): Raw {
    ([0x00, 0x00, 0xFF, len, !len + 1, 0xD5, 0x41, status] + payload + [dcs, 0x00] + filler)[..64]
  }

  /** The response frame of an InDataExchange. */
  function ResponseFrame(status: byte, payload: seq<byte>, filler: Raw): Raw {
    ResponseWith(ToByte(|payload| + 3), status, payload, !(0xD5 + 0x41 + status + Sum(0, payload)) + 1, filler)
  }

  lemma ResponseParts(len: byte, status: byte, payload: seq<byte>, dcs: byte, filler: Raw)
    ensures var raw := ResponseWith(len, status, payload, dcs, filler);
            raw[..8] == [0x00, 0x00, 0xFF, len, !len + 1, 0xD5, 0x41, status]
            && (|payload| <= 54 ==> raw[8..8 + |payload|] == payload)
  {
    var raw := ResponseWith(len, status, payload, dcs, filler);
    var head := [0x00, 0x00, 0xFF, len, !len + 1, 0xD5, 0x41, status];
    assert raw[..8] == head;
    if |payload| <= 54 {
      forall i | 0 <= i < |payload| ensures raw[8 + i] == payload[i] {
      }
    }
  }

  /** The adapter returns the payload, cut to the room there is, exactly when it has at most 54 bytes; what
      it does not read in full it drops. */
  lemma DecodesIff(status: byte, payload: seq<byte>, filler: Raw, room: nat)
    requires |payload| <= 252 && status & 0x3F == 0
    ensures Decode(ResponseFrame(status, payload, filler), room) == if |payload| <= 54 then Cut(payload, room) else []
  {
    DecodesWith(ToByte(|payload| + 3), status, payload,
                !(0xD5 + 0x41 + status + Sum(0, payload)) + 1, filler, room) by {
      ToByteSmall(|payload| + 3);
    }
  }

  lemma DecodesWith(len: byte, status: byte, payload: seq<byte>, dcs: byte, filler: Raw, room: nat)
    requires len as int == |payload| + 3 && status & 0x3F == 0
    ensures Decode(ResponseWith(len, status, payload, dcs, filler), room)
         == if |payload| <= 54 then Cut(payload, room) else []
  {
    var raw := ResponseWith(len, status, payload, dcs, filler);
    ResponseParts(len, status, payload, dcs, filler);
    assert forall i :: 0 <= i < 8 ==> raw[i] == raw[..8][i];
    if |payload| <= 54 && |payload| > room {
      assert raw[8..8 + room] == raw[8..8 + |payload|][..room];
    }
  }

  /** What was read begins with a response that was carried out, with this payload. */
  predicate IsResponse(raw: Raw, status: byte, payload: seq<byte>) {
    && |payload| <= 54 && status & 0x3F == 0 && raw[3] as int == |payload| + 3
    && raw[..8 + |payload|] == [0x00, 0x00, 0xFF, raw[3], !raw[3] + 1, 0xD5, 0x41, status] + payload
  }

  /** The other way round: bytes come out only of a response frame, and they are its payload, cut. */
  lemma DecodesOnly(raw: Raw, room: nat) returns (status: byte, payload: seq<byte>)
    requires Decode(raw, room) != []
    ensures IsResponse(raw, status, payload) && Decode(raw, room) == Cut(payload, room)
  {
    status := raw[7];
    payload := raw[8..8 + (raw[3] as int - 3)];
    HeadOf(raw, |payload|);
    if |payload| > room {
      assert payload[..room] == raw[8..8 + room];
    }
  }

  lemma HeadOf(raw: Raw, n: nat)
    requires WellFormed(raw) && n <= 54
    ensures raw[..8 + n] == [0x00, 0x00, 0xFF, raw[3], !raw[3] + 1, 0xD5, 0x41, raw[7]] + raw[8..8 + n]
  {
    assert raw[..8] == [0x00, 0x00, 0xFF, raw[3], !raw[3] + 1, 0xD5, 0x41, raw[7]];
    assert raw[..8 + n] == raw[..8] + raw[8..8 + n];
  }

  /** A chip in front of a card. */
  function ChipFor<S>(card: Peer<S>, filler: Raw): Chip<S> {
    (state: S, frame: seq<byte>) =>
      var cmd := ParseFrame(frame);
      if cmd.None? || |cmd.value| < 2 || cmd.value[..2] != [0x40, 0x01] then (state, None) else
        var (state', answer) := card(state, cmd.value[2..], 252);
        (state', Some(ResponseFrame(0x00, answer, filler)))
  }

  /** Through both frames, the adapter carries an APDU of at most 80 bytes to the card and the card's answer
      back, if that has at most 54 bytes. */
  lemma AdapterCarries<S>(card: Peer<S>, state: S, send: seq<byte>, room: nat, filler: Raw)
    requires |send| <= 80 && |card(state, send, 252).1| <= 252
    ensures Carried(ChipFor(card, filler), state, send, room)
         == (card(state, send, 252).0,
             if |card(state, send, 252).1| <= 54 then Cut(card(state, send, 252).1, room) else [])
  {
    var (state', answer) := card(state, send, 252);
    var cmd := [0x40, 0x01] + send;
    FrameRoundTrip(cmd);
    assert cmd[..2] == [0x40, 0x01] && cmd[2..] == send;
    DecodesIff(0x00, answer, filler, room);
  }
}
