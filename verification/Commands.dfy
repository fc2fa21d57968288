/** The short command helpers of ntag424_apdu.cpp: status words, the FULL-mode read of a fixed value, and
    selecting a file. */
module Commands {
  import opened Octets
  import opened Bytes
  import opened CipherSuite
  import opened Sessions
  import opened Apdu
  import opened Readers
  import opened Core
  import C = Card

  /** The data in front of an expected status word. */
  function DataIf(r: seq<byte>, sw1: byte, sw2: byte): seq<byte> {
    if HasStatus(r, sw1, sw2) then r[..|r| - 2] else []
  }

  /** `ntag424_copy_response_data_if_status`. */
  method CopyResponseDataIfStatus(response: array<byte>, length: nat, sw1: byte, sw2: byte, buffer: array?<byte>)
    returns (n: nat)
    requires length <= response.Length && (buffer != null ==> length <= buffer.Length + 2)
    modifies if buffer == null then {} else {buffer}
    ensures n == |DataIf(old(response[..length]), sw1, sw2)|
    ensures buffer != null
        ==> buffer[..n] == DataIf(old(response[..length]), sw1, sw2) && buffer[n..] == old(buffer[n..])
  {
    if !HasStatus(response[..length], sw1, sw2) {
      return 0;
    }
    n := length - 2;
    assert response[..length][..n] == response[..n];
    if n > 0 && buffer != null {
      Memcpy(buffer, 0, response[..n]);
    }
  }

  function SimpleCommand(command: byte): Command {
    Command(0x90, command, 0x00, 0x00, Null(0), Null(0), 0)
  }

  /** A FULL-mode read without parameters: the peer's and the session's new states, and the data. */
  function SimpleRead<S>(c: Cipher, step: Peer<S>, state: S, v: Option<View>, command: byte, mac: seq<byte>):
    (S, Option<View>, seq<byte>)
  {
    var cmd := SimpleCommand(command);
    if !Buildable(v, cmd, FULL) then (state, v, []) else
      var (state', v', out) := Finished(c, step, state, v, FULL, Frame(c, v, cmd, FULL, mac), 34, 34);
      (state', v', DataIf(out, 0x91, 0x00))
  }

  /** `ntag424_read_simple_full_response`, which serves GetCardUID and GetTTStatus. */
  method ReadSimpleFullResponse<S>(c: Cipher, reader: Reader?<S>, command: byte, session: Session?,
      buffer: array?<byte>)
    returns (n: nat, ghost mac: seq<byte>)
    requires buffer != null ==> buffer.Length >= 32
    modifies if reader == null then {} else {reader}
    modifies if session == null then {} else {session}
    modifies if buffer == null then {} else {buffer}
    ensures reader == null ==> n == 0 && Snap(session) == old(Snap(session))
    ensures MacOf(c, old(Snap(session)), SimpleCommand(command), FULL, mac)
    ensures reader != null
        ==> var (state, v, value) := SimpleRead(c, reader.step, old(reader.state), old(Snap(session)), command, mac);
            && reader.state == state && Snap(session) == v && n == |value| <= 32
            && (buffer != null ==> buffer[..n] == value)
  {
    if reader == null {
      mac := AnyMac(c, Snap(session), SimpleCommand(command), FULL);
      return 0, mac;
    }
    var apdu := new byte[MAX_APDU];
    var apduLength: nat;
    apduLength, mac := BuildApdu(c, SimpleCommand(command), FULL, session, apdu);
    if apduLength == 0 {
      return 0, mac;
    }
    var processed := new byte[34];
    var processedLength := Exchange(c, reader, session, apdu, apduLength, FULL, 34, processed, 34);
    n := CopyResponseDataIfStatus(processed, processedLength, 0x91, 0x00, buffer);
  }

  /** The card behind a reader that cuts an answer for which there is no room, or refuses it. */
  function Behind(c: Cipher, p: C.Profile, cuts: bool): Peer<C.Card> {
    if cuts then Cuts(CardPeer(c, p)) else CardPeer(c, p)
  }

  /** What a read against a card in step hands to its caller. */
  function SimpleValue(c: Cipher, v: View, k: C.Card, command: byte, value: seq<byte>, cuts: bool): seq<byte> {
    SimpleRead(c, Behind(c, C.Profile(FULL, 0, value, 0x00), cuts), k, Some(v), command,
               C.HostMac(c, v, SimpleCommand(command), FULL)).2
  }

  /** Behind either kind of reader, the read returns the card's value exactly when it has at least one byte and
      at most 15. A longer one does not fit the 34-byte response buffer, and cut to that it has no whole blocks;
      for an empty one the caller gets the eight MAC bytes. */
  lemma SimpleReadIff(c: Cipher, v: View, k: C.Card, command: byte, value: seq<byte>, cuts: bool)
    requires C.Synced(v, k)
    ensures SimpleValue(c, v, k, command, value, cuts) == value <==> 1 <= |value| <= 15
    ensures |SimpleValue(c, v, k, command, value, cuts)|
         == if value == [] then 8 else if |value| <= 15 then |value| else 0
  {
    var t := SimpleTrip(command, value);
    if |value| <= 15 {
      ShortValue(c, v, k, command, value, cuts);
      HandedOverCarries(c, Moved(k, t), t.profile);
      DataOfHandedOver(C.HandedOver(c, Moved(k, t), t.profile), t.profile);
      ReplyLengths(c, Moved(k, t), t.profile);
    } else {
      LongValue(c, v, k, command, value, cuts);
    }
  }

  /** And the card has received that instruction, with nothing else in it, once. */
  lemma SimpleReadDelivers(c: Cipher, v: View, k: C.Card, command: byte, value: seq<byte>, cuts: bool)
    requires C.Synced(v, k)
    ensures SimpleRead(c, Behind(c, C.Profile(FULL, 0, value, 0x00), cuts), k, Some(v), command,
                       C.HostMac(c, v, SimpleCommand(command), FULL)).0.inbox
         == k.inbox + [C.Order([0x90, command, 0x00, 0x00], [], [])]
  {
    BehindBrings(c, v, k, SimpleTrip(command, value), cuts);
  }

  function SimpleTrip(command: byte, value: seq<byte>): Trip {
    Trip(SimpleCommand(command), C.Profile(FULL, 0, value, 0x00))
  }

  lemma ReplyLengths(c: Cipher, k: C.Card, p: C.Profile)
    requires p.mode == FULL
    ensures |C.Reply(c, k, p)| == ProtectedLength(FULL, |p.reply|) + 10
    ensures |C.HandedOver(c, k, p)| == if p.reply == [] then 10 else |p.reply| + 2
  {
  }

  lemma ReplyRoom(c: Cipher, k: C.Card, p: C.Profile)
    requires p.mode == FULL
    ensures |C.Reply(c, k, p)| <= 34 <==> |p.reply| <= 15
  {
    ReplyLengths(c, k, p);
  }

  function SentFrame(c: Cipher, v: View, t: Trip): seq<byte> {
    Frame(c, Some(v), t.cmd, FULL, C.HostMac(c, v, t.cmd, FULL))
  }

  /** What either reader brings of the reply: all of it, or too much, or 34 bytes. */
  lemma BehindBrings(c: Cipher, v: View, k: C.Card, t: Trip, cuts: bool)
    requires C.Synced(v, k) && CommandFits(t) && t.profile.mode == FULL
    ensures var (k', r) := Behind(c, t.profile, cuts)(k, SentFrame(c, v, t), 34);
            && k' == Moved(k, t)
            && (if |t.profile.reply| <= 15 then r == C.Reply(c, Moved(k, t), t.profile) && |r| <= 34
                else if cuts then |r| == 34 else |r| > 34)
  {
    CardMoves(c, v, k, t);
    ReplyRoom(c, Moved(k, t), t.profile);
    if cuts {
      CutsBrings(CardPeer(c, t.profile), k, SentFrame(c, v, t), 34);
    }
  }

  lemma CutsBrings<S>(step: Peer<S>, state: S, send: seq<byte>, room: nat)
    ensures Cuts(step)(state, send, room) == (step(state, send, room).0, Cut(step(state, send, room).1, room))
  {
  }

  /** A reply of at most 15 bytes fits the 34 bytes there are for it. */
  lemma ShortFinished(c: Cipher, v: View, k: C.Card, t: Trip, cuts: bool)
    requires C.Synced(v, k) && Fits(t) && t.profile.mode == FULL && |t.profile.reply| <= 15
    ensures Finished(c, Behind(c, t.profile, cuts), k, Some(v), FULL, SentFrame(c, v, t), 34, 34)
         == (Moved(k, t), Advanced(Some(v)), C.HandedOver(c, Moved(k, t), t.profile))
  {
    BehindBrings(c, v, k, t, cuts);
    HostOpens(c, v, k, t);
    ReplyLengths(c, Moved(k, t), t.profile);
    FinishedWith(c, Behind(c, t.profile, cuts), k, Some(v), FULL, SentFrame(c, v, t), 34, 34,
                 Moved(k, t), C.Reply(c, Moved(k, t), t.profile));
  }

  lemma LongFinished(c: Cipher, v: View, k: C.Card, t: Trip, cuts: bool)
    requires C.Synced(v, k) && CommandFits(t) && t.profile.mode == FULL && |t.profile.reply| > 15
    ensures Finished(c, Behind(c, t.profile, cuts), k, Some(v), FULL, SentFrame(c, v, t), 34, 34).2 == []
  {
    BehindBrings(c, v, k, t, cuts);
    var (k', r) := Behind(c, t.profile, cuts)(k, SentFrame(c, v, t), 34);
    NothingTaken(c, Behind(c, t.profile, cuts), k, v, SentFrame(c, v, t), k', r);
  }

  /** In FULL mode a response of 34 bytes has no whole blocks of data, and a longer one no room. */
  lemma NothingTaken<S>(c: Cipher, step: Peer<S>, state: S, v: View, frame: seq<byte>, state': S, r: seq<byte>)
    requires step(state, frame, 34) == (state', r) && |r| >= 34
    ensures Finished(c, step, state, Some(v), FULL, frame, 34, 34).2 == []
  {
    if |r| == 34 {
      AcceptedIff(c, v, FULL, r);
      FinishedRefused(c, step, state, Some(v), FULL, frame, 34, 34, state', r);
    } else {
      FinishedWithout(c, step, state, Some(v), FULL, frame, 34, 34, state', r);
    }
  }

  lemma ReadOf<S>(c: Cipher, step: Peer<S>, state: S, v: Option<View>, command: byte, mac: seq<byte>, out: seq<byte>)
    requires Buildable(v, SimpleCommand(command), FULL)
    requires Finished(c, step, state, v, FULL, Frame(c, v, SimpleCommand(command), FULL, mac), 34, 34).2 == out
    ensures SimpleRead(c, step, state, v, command, mac).2 == DataIf(out, 0x91, 0x00)
  {
  }

  lemma ShortValue(c: Cipher, v: View, k: C.Card, command: byte, value: seq<byte>, cuts: bool)
    requires C.Synced(v, k) && |value| <= 15
    ensures SimpleValue(c, v, k, command, value, cuts)
         == DataIf(C.HandedOver(c, Moved(k, SimpleTrip(command, value)),
                                  SimpleTrip(command, value).profile), 0x91, 0x00)
  {
    var t := SimpleTrip(command, value);
    ShortFinished(c, v, k, t, cuts);
    ReadOf(c, Behind(c, t.profile, cuts), k, Some(v), command, C.HostMac(c, v, t.cmd, FULL),
           C.HandedOver(c, Moved(k, t), t.profile));
  }

  lemma LongValue(c: Cipher, v: View, k: C.Card, command: byte, value: seq<byte>, cuts: bool)
    requires C.Synced(v, k) && |value| > 15
    ensures SimpleValue(c, v, k, command, value, cuts) == []
  {
    var t := SimpleTrip(command, value);
    LongFinished(c, v, k, t, cuts);
    ReadOf(c, Behind(c, t.profile, cuts), k, Some(v), command, C.HostMac(c, v, t.cmd, FULL), []);
  }

  lemma DataOfHandedOver(out: seq<byte>, p: C.Profile)
    requires p.mode == FULL && p.sw2 == 0x00 && Carries(out, p)
    ensures |DataIf(out, 0x91, 0x00)| == |out| - 2
    ensures p.reply != [] ==> DataIf(out, 0x91, 0x00) == p.reply
  {
    assert out[|out| - 2..][0] == 0x91 && out[|out| - 2..][1] == 0x00;
  }

  // ---- Selecting a file -------------------------------------------------------------------------

  function SelectCommand(p1: byte, data: Input): Command {
    Command(0x00, 0xA4, p1, 0x00, Null(0), data, 0)
  }

  /** A PLAIN-mode select: whether the answer ends in 90 00. An authenticated session counts it. */
  function Selected<S>(c: Cipher, step: Peer<S>, state: S, v: Option<View>, p1: byte, data: Input):
    (S, Option<View>, bool)
  {
    var cmd := SelectCommand(p1, data);
    if !Buildable(v, cmd, PLAIN) then (state, v, false) else
      var (state', v', out) := Finished(c, step, state, v, PLAIN, Frame(c, v, cmd, PLAIN, []), 12, 12);
      (state', v', HasStatus(out, 0x90, 0x00))
  }

  /** A PLAIN exchange in twelve bytes, for any peer: it succeeds exactly if the answer ends in the status word and has
      at most ten bytes in front of it. */
  lemma SelectedIff<S>(c: Cipher, step: Peer<S>, state: S, p1: byte, data: seq<byte>, state': S, r: seq<byte>)
    requires |data| <= 74
    requires step(state, Frame(c, None, SelectCommand(p1, Data(data)), PLAIN, []), 12) == (state', r)
    ensures var (last, v, ok) := Selected(c, step, state, None, p1, Data(data));
            last == state' && v == None && (ok <==> |r| - 2 <= 10 && HasStatus(r, 0x90, 0x00))
  {
  }

  /** `ntag424_iso_select_file`. */
  method IsoSelectFile<S>(c: Cipher, reader: Reader?<S>, p1: byte, data: Input, session: Session?)
    returns (ok: bool)
    requires data.Length() < 256 && (reader == null || data.Missing() || data.Length() <= MAX_APDU)
    modifies if reader == null then {} else {reader}
    modifies if session == null then {} else {session}
    ensures reader == null ==> !ok && Snap(session) == old(Snap(session))
    ensures reader != null
        ==> (reader.state, Snap(session), ok)
            == Selected(c, reader.step, old(reader.state), old(Snap(session)), p1, data)
  {
    if reader == null {
      return false;
    }
    var apdu := new byte[MAX_APDU];
    var apduLength, mac := BuildApdu(c, SelectCommand(p1, data), PLAIN, session, apdu);
    if apduLength == 0 {
      return false;
    }
    var processed := new byte[12];
    var processedLength := Exchange(c, reader, session, apdu, apduLength, PLAIN, 12, processed, 12);
    ok := HasStatus(processed[..processedLength], 0x90, 0x00);
  }

  /** `ntag424_ISOSelectNDEFFile`: the application by name, then the file by number. */
  function SelectedNdef<S>(c: Cipher, step: Peer<S>, state: S): (S, bool) {
    var (state1, v1, ok1) := Selected(c, step, state, None, 0x04, Data([0xD2, 0x76, 0x00, 0x00, 0x85, 0x01, 0x01]));
    if !ok1 then (state1, false) else
      var (state2, v2, ok2) := Selected(c, step, state1, None, 0x00, Data([0xE1, 0x04]));
      (state2, ok2)
  }

  method SelectNdefFile<S>(c: Cipher, reader: Reader?<S>) returns (ok: bool)
    modifies if reader == null then {} else {reader}
    ensures reader == null ==> !ok
    ensures reader != null ==> (reader.state, ok) == SelectedNdef(c, reader.step, old(reader.state))
  {
    ok := IsoSelectFile(c, reader, 0x04, Data([0xD2, 0x76, 0x00, 0x00, 0x85, 0x01, 0x01]), null);
    if ok {
      ok := IsoSelectFile(c, reader, 0x00, Data([0xE1, 0x04]), null);
    }
  }
}
