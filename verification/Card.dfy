/** A small functional NTAG 424 card, and the agreement of host and card over one exchange. The card lays out what it
    signs and encrypts byte by byte, as its data sheet does (sections 9.1.4 to 9.1.10 of NT4H2421Gx); it has nothing of
    the host but the modes and the standard algorithms. */
module Card {
  import opened Bytes
  import opened Octets
  import opened BlockCipher
  import opened Padding
  import opened CipherSuite
  import opened Sessions
  import opened Apdu

  /** A command as it was accepted: CLA, INS, P1, P2, and its header and plain data. */
  datatype Order = Order(head: seq<byte>, header: seq<byte>, data: seq<byte>)

  /** The card keeps an unsigned 16-bit counter, and remembers every command it accepted. */
  datatype Card = Card(ti: Ti, counter: nat, keyEnc: Block, keyMac: Block, inbox: seq<Order>)

  /** How the card treats one command: the mode and header length it prescribes, and its answer. */
  datatype Profile = Profile(mode: byte, headerLength: nat, reply: seq<byte>, sw2: byte)

  /** Same identifier and keys, and the same counter modulo 2^16 although one side is signed. */
  ghost predicate Synced(v: View, k: Card) {
    && v.authenticated
    && v.ti == k.ti && v.keyEnc == k.keyEnc && v.keyMac == k.keyMac
    && k.counter < 0x1_0000
    && (v.counter - k.counter) % 0x1_0000 == 0
  }

  /** Strict removal of the padding: an 0x80 must stand before the trailing zeros. */
  function Unpad(s: seq<byte>): Option<seq<byte>> {
    if |s| == 0 then None
    else if s[|s| - 1] == 0 then Unpad(s[..|s| - 1])
    else if s[|s| - 1] == 0x80 then Some(s[..|s| - 1])
    else None
  }

  lemma {:induction false} UnpadSkipsZeros(s: seq<byte>, n: nat)
    ensures Unpad(s + Zeros(n)) == Unpad(s)
  {
    if n == 0 {
      assert s + Zeros(0) == s;
    } else {
      assert (s + Zeros(n))[..|s| + n - 1] == s + Zeros(n - 1);
      UnpadSkipsZeros(s, n - 1);
    }
  }

  lemma UnpadUndoesPad(s: seq<byte>)
    ensures Unpad(Pad(s, 16)) == Some(s)
  {
    UnpadSkipsZeros(s + [0x80], 16 - |s| % 16 - 1);
    assert (s + [0x80])[..|s|] == s;
  }

  /** Where the card's strict rule accepts, the host's lenient loop cuts at the same place. */
  lemma {:induction false} StripAgreesWithUnpad(s: seq<byte>)
    requires Unpad(s).Some?
    ensures Unpad(s) == Some(s[..StripLength(s)])
  {
    if s[|s| - 1] == 0 {
      StripAgreesWithUnpad(s[..|s| - 1]);
      assert s[..|s| - 1][..StripLength(s)] == s[..StripLength(s)];
    } else {
      assert s[..|s| - 1] == s[..StripLength(s)];
    }
  }

  // ---- The card's side ------------------------------------------------------------------------

  /** The low byte of a 16-bit counter, and the high byte. */
  function Low(n: nat): byte {
    ToByte(n % 256)
  }

  function High(n: nat): byte {
    ToByte(n / 256)
  }

  /** The eight bytes of a CMAC that travel. */
  function MacBytes(c: Cipher, key: Block, m: seq<byte>): (r: seq<byte>)
    ensures |r| == 8
  {
    var t := c.mac(key, m);
    [t[1], t[3], t[5], t[7], t[9], t[11], t[13], t[15]]
  }

  /** What the MAC over a command is taken of. */
  function SignedCommand(k: Card, ins: byte, header: seq<byte>, data: seq<byte>): seq<byte> {
    [ins, Low(k.counter), High(k.counter)] + k.ti + header + data
  }

  function SignedReply(k: Card, sw2: byte, data: seq<byte>): seq<byte> {
    [sw2, Low(k.counter), High(k.counter)] + k.ti + data
  }

  /** What the vectors of commands and of replies are the encryption of. */
  function CommandVector(k: Card): Block {
    [0xA5, 0x5A] + k.ti + [Low(k.counter), High(k.counter), 0, 0, 0, 0, 0, 0, 0, 0]
  }

  function ReplyVector(k: Card): Block {
    [0x5A, 0xA5] + k.ti + [Low(k.counter), High(k.counter), 0, 0, 0, 0, 0, 0, 0, 0]
  }

  /** The body an APDU announces by its length byte. Behind it stands Le, but for UPDATE BINARY. */
  function ApduBody(apdu: seq<byte>): Option<seq<byte>> {
    if |apdu| < 5 || |apdu| != 5 + apdu[4] as int + (if apdu[1] == 0xD6 then 0 else 1) then None
    else Some(apdu[5..5 + apdu[4] as int])
  }

  function TagLength(mode: byte): nat {
    if mode == MAC || mode == FULL then 8 else 0
  }

  /** What the card takes from a command: its header and plain data, if the MAC verifies. */
  function Receive(c: Cipher, k: Card, mode: byte, headerLength: nat, apdu: seq<byte>): Option<Order> {
    var body := ApduBody(apdu);
    if body.None? || |body.value| < headerLength + TagLength(mode) then None else
      var end := |body.value| - TagLength(mode);
      var data := Accept(c, k, mode, apdu[1], body.value[..headerLength], body.value[headerLength..end],
                         body.value[end..]);
      if data.None? then None else Some(Order(apdu[..4], body.value[..headerLength], data.value))
  }

  /** The plain data of a command, if its MAC and its padding are right. */
  function Accept(c: Cipher, k: Card, mode: byte, ins: byte, header: seq<byte>, data: seq<byte>, mac: seq<byte>):
    Option<seq<byte>>
  {
    if (mode == MAC || mode == FULL) && mac != MacBytes(c, k.keyMac, SignedCommand(k, ins, header, data)) then None
    else if mode == FULL && data != [] then Decrypt(c, k, data)
    else Some(data)
  }

  /** The padding fills up the last block, and no more. */
  function Decrypt(c: Cipher, k: Card, data: seq<byte>): Option<seq<byte>> {
    if |data| % 16 != 0 then None else
      var plain := Unpad(CbcDecrypt(c.d, k.keyEnc, c.e(k.keyEnc, CommandVector(k)), data));
      if plain.None? || |plain.value| + 16 < |data| then None else plain
  }

  /** The reply data as it travels under the counter the card has now. */
  function ReplyData(c: Cipher, k: Card, p: Profile): (r: seq<byte>)
    ensures |r| == if p.mode == FULL && p.reply != [] then |p.reply| / 16 * 16 + 16
                   else |p.reply|
  {
    if p.mode == FULL && p.reply != [] then
      CbcEncrypt(c.e, k.keyEnc, c.e(k.keyEnc, ReplyVector(k)), p.reply + [0x80] + Zeros(15 - |p.reply| % 16))
    else p.reply
  }

  function Reply(c: Cipher, k: Card, p: Profile): seq<byte> {
    var data := ReplyData(c, k, p);
    var mac := if p.mode == MAC || p.mode == FULL then MacBytes(c, k.keyMac, SignedReply(k, p.sw2, data)) else [];
    data + mac + [0x91, p.sw2]
  }

  /** One command: an accepted one moves the counter before it is answered; any other gets 91 1E. */
  function Step(c: Cipher, p: Profile, k: Card, apdu: seq<byte>): (Card, seq<byte>) {
    var got := Receive(c, k, p.mode, p.headerLength, apdu);
    if got.None? then (k, [0x91, 0x1E]) else
      var k' := k.(counter := (k.counter + 1) % 0x1_0000, inbox := k.inbox + [got.value]);
      (k', Reply(c, k', p))
  }

  // ---- Host and card lay out the same ------------------------------------------------------------

  lemma TruncateIs(t: Block)
    ensures Truncate(t) == [t[1], t[3], t[5], t[7], t[9], t[11], t[13], t[15]]
  {
  }

  lemma MacsAgree(c: Cipher, key: Block, m: seq<byte>)
    ensures CmacShort(c, key, m) == MacBytes(c, key, m)
  {
    TruncateIs(c.mac(key, m));
  }

  lemma CounterIs(n: nat)
    ensures CounterBytes(n) == [Low(n), High(n)]
  {
    ToByteCongruent(n, n % 256);
  }

  lemma CommandsSigned(v: View, k: Card, ins: byte, header: seq<byte>, data: seq<byte>)
    requires v.ti == k.ti && CounterBytes(v.counter) == CounterBytes(k.counter)
    ensures MacMessage(ins, v.counter, v.ti, header, data) == SignedCommand(k, ins, header, data)
  {
    CounterIs(k.counter);
    assert [ins] + [Low(k.counter), High(k.counter)] == [ins, Low(k.counter), High(k.counter)];
  }

  lemma RepliesSigned(v: View, k: Card, sw2: byte, data: seq<byte>)
    requires v.ti == k.ti && CounterBytes(v.counter + 1) == CounterBytes(k.counter)
    ensures [sw2] + CounterBytes(v.counter + 1) + v.ti + data == SignedReply(k, sw2, data)
  {
    CounterIs(k.counter);
    assert [sw2] + [Low(k.counter), High(k.counter)] == [sw2, Low(k.counter), High(k.counter)];
  }

  lemma VectorIs(a: byte, b: byte, ti: Ti, counter: int, k: nat)
    requires CounterBytes(counter) == CounterBytes(k)
    ensures VectorBlock(a, b, ti, counter) == [a, b] + ti + [Low(k), High(k), 0, 0, 0, 0, 0, 0, 0, 0]
  {
    CounterIs(k);
  }

  lemma VectorsAgree(c: Cipher, v: View, k: Card)
    requires v.ti == k.ti && v.keyEnc == k.keyEnc
    ensures CounterBytes(v.counter) == CounterBytes(k.counter) ==> CommandIv(c, v) == c.e(k.keyEnc, CommandVector(k))
    ensures CounterBytes(v.counter + 1) == CounterBytes(k.counter) ==> ResponseIv(c, v) == c.e(k.keyEnc, ReplyVector(k))
  {
    if CounterBytes(v.counter) == CounterBytes(k.counter) {
      VectorIs(0xA5, 0x5A, v.ti, v.counter, k.counter);
    }
    if CounterBytes(v.counter + 1) == CounterBytes(k.counter) {
      VectorIs(0x5A, 0xA5, v.ti, v.counter + 1, k.counter);
    }
  }

  // ---- Command round trip -----------------------------------------------------------------------

  /** The MAC the host puts on a command whose body fits. */
  function HostMac(c: Cipher, v: View, cmd: Command, mode: byte): (r: seq<byte>)
    ensures |r| == MacLength(mode)
  {
    if Secured(mode) then
      CommandMac(c, v, cmd.ins, cmd.header.Value(), ProtectedData(c, Some(v), mode, cmd.data.Value()))
    else []
  }

  /** Commands that both sides can handle: one of the three modes, and within the MAC buffer. */
  predicate InDomain(cmd: Command, mode: byte) {
    && (mode == PLAIN || Secured(mode))
    && !cmd.header.Missing() && !cmd.data.Missing()
    && ApduLength(cmd, mode) <= 80
    && (Secured(mode) ==> cmd.header.Length() + ProtectedLength(mode, cmd.data.Length()) <= 41)
  }

  /** CLA, INS, P1 and P2 stand first, the length byte leads a parser to exactly header, protected data and MAC, and
      Le is last, but for UPDATE BINARY. */
  lemma FrameSplits(c: Cipher, v: Option<View>, cmd: Command, mode: byte, mac: seq<byte>)
    requires mode == PLAIN || Secured(mode)
    requires mode == FULL ==> v.Some?
    requires !cmd.header.Missing() && !cmd.data.Missing()
    requires ApduLength(cmd, mode) <= MAX_APDU && |mac| == MacLength(mode)
    ensures var apdu := Frame(c, v, cmd, mode, mac);
            && |apdu| >= 5 && apdu[..4] == [cmd.cla, cmd.ins, cmd.p1, cmd.p2] && apdu[1] == cmd.ins
            && ApduBody(apdu) == Some(cmd.header.Value() + ProtectedData(c, v, mode, cmd.data.Value()) + mac)
            && apdu[5 + apdu[4] as int..] == if cmd.ins == 0xD6 then [] else [cmd.le]
  {
    var h, p := cmd.header.Value(), ProtectedData(c, v, mode, cmd.data.Value());
    var body := h + p + mac;
    LcByteExact(cmd, mode);
    var head := [cmd.cla, cmd.ins, cmd.p1, cmd.p2];
    RegroupFrame(head + [LcByte(cmd, mode)], h, p, mac, LeField(cmd));
    SplitAtLength(head, LcByte(cmd, mode), body, LeField(cmd));
  }

  lemma RegroupFrame(head: seq<byte>, h: seq<byte>, p: seq<byte>, mac: seq<byte>, tail: seq<byte>)
    ensures head + h + p + mac + tail == head + (h + p + mac) + tail
  {
  }

  lemma LcByteExact(cmd: Command, mode: byte)
    requires Lc(cmd, mode) < 256
    ensures LcByte(cmd, mode) as int == Lc(cmd, mode)
  {
    ToByteModulo(Lc(cmd, mode));
  }

  lemma SplitAtLength(head: seq<byte>, length: byte, body: seq<byte>, tail: seq<byte>)
    requires |head| == 4 && length as int == |body| && |tail| == if head[1] == 0xD6 then 0 else 1
    ensures var apdu := head + [length] + body + tail;
            apdu[..4] == head && apdu[1] == head[1] && ApduBody(apdu) == Some(body)
            && apdu[5 + apdu[4] as int..] == tail
  {
    var apdu := head + [length] + body + tail;
    assert apdu[4] == length;
    assert apdu[5..5 + |body|] == body;
  }

  lemma SyncedVectors(v: View, k: Card)
    requires Synced(v, k)
    ensures CounterBytes(v.counter) == CounterBytes(k.counter)
    ensures CounterBytes(v.counter + 1) == CounterBytes((k.counter + 1) % 0x1_0000)
  {
    CounterBytesModulo(v.counter, k.counter);
    StillCongruent(v.counter, k.counter);
    CounterBytesModulo(v.counter + 1, (k.counter + 1) % 0x1_0000);
  }

  lemma StillCongruent(a: int, b: nat)
    requires (a - b) % 0x1_0000 == 0
    ensures (a + 1 - (b + 1) % 0x1_0000) % 0x1_0000 == 0
  {
  }

  /** A card in step with the host verifies every command and recovers exactly its head, header and data. */
  lemma CommandRoundTrip(c: Cipher, v: View, k: Card, cmd: Command, mode: byte)
    requires Synced(v, k) && InDomain(cmd, mode)
    ensures Receive(c, k, mode, cmd.header.Length(), Frame(c, Some(v), cmd, mode, HostMac(c, v, cmd, mode)))
         == Some(Order([cmd.cla, cmd.ins, cmd.p1, cmd.p2], cmd.header.Value(), cmd.data.Value()))
  {
    AcceptsInStep(c, v, k, cmd, mode);
    FrameReceived(c, v, k, cmd, mode, HostMac(c, v, cmd, mode));
  }

  /** A frame of which the card accepts the parts. */
  lemma FrameReceived(c: Cipher, v: View, k: Card, cmd: Command, mode: byte, mac: seq<byte>)
    requires InDomain(cmd, mode) && |mac| == MacLength(mode)
    requires Accept(c, k, mode, cmd.ins, cmd.header.Value(), ProtectedData(c, Some(v), mode, cmd.data.Value()), mac)
          == Some(cmd.data.Value())
    ensures Receive(c, k, mode, cmd.header.Length(), Frame(c, Some(v), cmd, mode, mac))
         == Some(Order([cmd.cla, cmd.ins, cmd.p1, cmd.p2], cmd.header.Value(), cmd.data.Value()))
  {
    var p := ProtectedData(c, Some(v), mode, cmd.data.Value());
    FrameSplits(c, Some(v), cmd, mode, mac);
    ReceiveSplits(c, k, mode, Frame(c, Some(v), cmd, mode, mac), cmd.ins, cmd.header.Value(), p, mac, cmd.data.Value());
  }

  lemma AcceptsInStep(c: Cipher, v: View, k: Card, cmd: Command, mode: byte)
    requires Synced(v, k) && InDomain(cmd, mode)
    ensures Accept(c, k, mode, cmd.ins, cmd.header.Value(), ProtectedData(c, Some(v), mode, cmd.data.Value()),
                   HostMac(c, v, cmd, mode))
         == Some(cmd.data.Value())
  {
    SyncedVectors(v, k);
    var h, p := cmd.header.Value(), ProtectedData(c, Some(v), mode, cmd.data.Value());
    CommandsSigned(v, k, cmd.ins, h, p);
    MacsAgree(c, k.keyMac, SignedCommand(k, cmd.ins, h, p));
    if mode == FULL && cmd.data.Value() != [] {
      DataRoundTrip(c, v, k, cmd.data.Value());
    }
  }

  lemma ReceiveSplits(c: Cipher, k: Card, mode: byte, apdu: seq<byte>, ins: byte, h: seq<byte>, p: seq<byte>,
      mac: seq<byte>, data: seq<byte>)
    requires ApduBody(apdu) == Some(h + p + mac) && |mac| == TagLength(mode) && apdu[1] == ins
    requires Accept(c, k, mode, ins, h, p, mac) == Some(data)
    ensures Receive(c, k, mode, |h|, apdu) == Some(Order(apdu[..4], h, data))
  {
    var body := h + p + mac;
    assert body[..|h|] == h && body[|h|..|body| - |mac|] == p && body[|body| - |mac|..] == mac;
  }

  lemma DataRoundTrip(c: Cipher, v: View, k: Card, d: seq<byte>)
    requires v.ti == k.ti && v.keyEnc == k.keyEnc && CounterBytes(v.counter) == CounterBytes(k.counter) && d != []
    ensures Decrypt(c, k, ProtectedData(c, Some(v), FULL, d)) == Some(d)
  {
    VectorsAgree(c, v, k);
    CbcInverse(c.e, c.d, k.keyEnc, CommandIv(c, v), Pad(d, 16));
    UnpadUndoesPad(d);
  }

  // ---- Response round trip ----------------------------------------------------------------------

  /** What the host hands to its caller: the plaintext in FULL mode, and otherwise the raw response with
      the MAC bytes still in it. */
  function HandedOver(c: Cipher, k: Card, p: Profile): seq<byte> {
    if p.mode == FULL && p.reply != [] then p.reply + [0x91, p.sw2] else Reply(c, k, p)
  }

  /** A host in step with the card opens every reply of at most 80 bytes, and no longer one. */
  lemma ReplyRoundTrip(c: Cipher, v: View, k: Card, p: Profile)
    requires v.ti == k.ti && v.keyEnc == k.keyEnc && v.keyMac == k.keyMac
    requires CounterBytes(v.counter + 1) == CounterBytes(k.counter)
    requires p.mode == PLAIN || Secured(p.mode)
    ensures Opened(c, Some(v), p.mode, Reply(c, k, p))
         == if ReplyFits(p) then Some(HandedOver(c, k, p)) else None
  {
    if Secured(p.mode) {
      ReplyVerifies(c, v, k, p);
      if p.mode == FULL && p.reply != [] {
        FullReplyOpens(c, v, k, p);
      }
    }
  }

  lemma FullReplyOpens(c: Cipher, v: View, k: Card, p: Profile)
    requires v.ti == k.ti && v.keyEnc == k.keyEnc && v.keyMac == k.keyMac
    requires CounterBytes(v.counter + 1) == CounterBytes(k.counter)
    requires p.mode == FULL && p.reply != []
    ensures var r := Reply(c, k, p); |r| > 10 && Decrypted(c, v, r) == Some(p.reply + [0x91, p.sw2])
  {
    ReplyOfWholeBlocks(c, k, p);
    ReplyVerifies(c, v, k, p);
    ReplyDecrypts(c, v, k, p);
    DecryptedIs(c, v, Reply(c, k, p), ReplyData(c, k, p), p.reply, [0x91, p.sw2]);
  }

  lemma ReplyOfWholeBlocks(c: Cipher, k: Card, p: Profile)
    requires p.mode == FULL && p.reply != []
    ensures |ReplyData(c, k, p)| > 0 && |ReplyData(c, k, p)| % 16 == 0
  {
  }

  lemma DecryptedIs(c: Cipher, v: View, r: seq<byte>, data: seq<byte>, reply: seq<byte>, sw: seq<byte>)
    requires |data| > 0 && |data| % 16 == 0 && |r| == |data| + 10 && r[..|r| - 10] == data && r[|r| - 2..] == sw
    requires var plain := CbcDecrypt(c.d, v.keyEnc, ResponseIv(c, v), data); plain[..StripLength(plain)] == reply
    ensures Decrypted(c, v, r) == Some(reply + sw)
  {
  }

  lemma ReplyVerifies(c: Cipher, v: View, k: Card, p: Profile)
    requires v.ti == k.ti && v.keyMac == k.keyMac && CounterBytes(v.counter + 1) == CounterBytes(k.counter)
    requires Secured(p.mode)
    ensures var r := Reply(c, k, p);
            && |r| == |ReplyData(c, k, p)| + 10 && r[..|r| - 10] == ReplyData(c, k, p) && r[|r| - 2..] == [0x91, p.sw2]
            && MacVerifies(c, v, r)
  {
    var data := ReplyData(c, k, p);
    RepliesSigned(v, k, p.sw2, data);
    MacsAgree(c, k.keyMac, SignedReply(k, p.sw2, data));
    ReplySplits(data, MacBytes(c, k.keyMac, SignedReply(k, p.sw2, data)), p.sw2);
  }

  lemma ReplyDecrypts(c: Cipher, v: View, k: Card, p: Profile)
    requires v.ti == k.ti && v.keyEnc == k.keyEnc && CounterBytes(v.counter + 1) == CounterBytes(k.counter)
    requires p.mode == FULL && p.reply != []
    ensures var plain := CbcDecrypt(c.d, v.keyEnc, ResponseIv(c, v), ReplyData(c, k, p));
            plain[..StripLength(plain)] == p.reply
  {
    VectorsAgree(c, v, k);
    PadIs(p.reply);
    StripUndoesPadThroughCbc(c.e, c.d, k.keyEnc, ResponseIv(c, v), p.reply);
  }

  lemma PadIs(s: seq<byte>)
    ensures Pad(s, 16) == s + [0x80] + Zeros(15 - |s| % 16)
  {
  }

  lemma ReplySplits(data: seq<byte>, mac: seq<byte>, sw2: byte)
    requires |mac| == 8
    ensures var r := data + mac + [0x91, sw2];
            r[..|r| - 10] == data && r[|r| - 10..|r| - 2] == mac && r[|r| - 2..] == [0x91, sw2] && r[|r| - 1] == sw2
  {
  }

  /** Replies that fit the host's 80-byte response limit: 63, 70 or 78 bytes. */
  predicate ReplyFits(p: Profile) {
    |p.reply| <= if p.mode == FULL then 63 else if p.mode == MAC then 70 else 78
  }

  /** The same as lengths on the wire. */
  lemma ReplyFitsIff(c: Cipher, k: Card, p: Profile)
    requires p.mode == PLAIN || Secured(p.mode)
    ensures ReplyFits(p) <==> |Reply(c, k, p)| <= MAX_APDU
  {
  }
}
