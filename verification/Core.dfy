/** Commands over a reader (ntag424_core.cpp, ntag424_apdu.cpp), and whole runs of them against the card. */
module Core {
  import opened Bytes
  import opened Octets
  import opened CipherSuite
  import opened Sessions
  import opened Apdu
  import opened Readers
  import C = Card

  /** What a caller with `room` bytes gets of a response: nothing when any step fails. */
  function Taken(plain: Option<seq<byte>>, room: nat): (r: seq<byte>)
    ensures |r| <= room
  {
    if plain.Some? && |plain.value| <= room then plain.value else []
  }

  /** The reader's and the session's new states after a frame has been sent, and what the caller gets. */
  function Finished<S>(c: Cipher, step: Peer<S>, state: S, v: Option<View>, mode: byte, frame: seq<byte>,
                       responseRoom: nat, room: nat): (S, Option<View>, seq<byte>)
  {
    var (state', response) := Answer(step, state, frame, responseRoom);
    if response == [] then (state', v, []) else
      var plain := Opened(c, v, mode, response);
      (state', if plain.Some? then Advanced(v) else v, Taken(plain, room))
  }

  /** What sending a command amounts to. */
  function Sent<S>(c: Cipher, step: Peer<S>, state: S, v: Option<View>, cmd: Command, mode: byte, mac: seq<byte>,
                   room: nat): (S, Option<View>, seq<byte>)
  {
    if Buildable(v, cmd, mode) then Finished(c, step, state, v, mode, Frame(c, v, cmd, mode, mac), MAX_APDU, room)
    else (state, v, [])
  }

  /** The MAC of a command that is sent: eight bytes that sign it whenever it fits the MAC buffer. */
  ghost predicate MacOf(c: Cipher, v: Option<View>, cmd: Command, mode: byte, mac: seq<byte>) {
    Buildable(v, cmd, mode)
    ==> && |mac| == MacLength(mode)
        && (Secured(mode) ==> Signs(c, v.value, cmd, ProtectedData(c, v, mode, cmd.data.Value()), mac))
  }

  /** The part of `ntag424_send_apdu` after the APDU is built; the short commands do the same with smaller
      buffers. */
  method Exchange<S>(c: Cipher, reader: Reader<S>, session: Session?, apdu: array<byte>, apduLength: nat, mode: byte,
                     responseSize: nat, processed: array<byte>, processedSize: nat) returns (n: nat)
    requires apduLength <= apdu.Length && responseSize <= MAX_APDU && processedSize <= processed.Length
    modifies reader, processed, if session == null then {} else {session}
    ensures n <= processedSize
    ensures (reader.state, Snap(session), processed[..n])
         == Finished(c, reader.step, old(reader.state), old(Snap(session)), mode,
                     old(apdu[..apduLength]), responseSize, processedSize)
    ensures processed[n..] == old(processed[n..])
  {
    var response := new byte[MAX_APDU](_ => 0);
    var responseLength := reader.Transceive(apdu[..apduLength], response, responseSize);
    if responseLength == 0 {
      return 0;
    }
    var decoded := new byte[MAX_APDU](_ => 0);
    var decodedLength := ProcessResponse(c, response, responseLength, mode, session, decoded);
    if decodedLength == 0 || decodedLength > processedSize {
      return 0;
    }
    Memcpy(processed, 0, decoded[..decodedLength]);
    n := decodedLength;
    assert processed[..n] == decoded[..n];
  }

  /** `ntag424_send_apdu`. A failed call leaves `processed` alone. */
  method SendApdu<S>(c: Cipher, reader: Reader?<S>, session: Session?, cmd: Command, mode: byte,
                     processed: array?<byte>, processedSize: nat) returns (n: nat, ghost mac: seq<byte>)
    requires Sized(cmd)
    requires reader != null && processed != null && processedSize > 0 ==> InBounds(Snap(session), cmd, mode)
    requires processed != null ==> processedSize <= processed.Length
    modifies if reader == null then {} else {reader}
    modifies if session == null then {} else {session}
    modifies if processed == null then {} else {processed}
    ensures MacOf(c, old(Snap(session)), cmd, mode, mac)
    ensures reader == null || processed == null || processedSize == 0
        ==> n == 0 && Snap(session) == old(Snap(session)) && (reader != null ==> reader.state == old(reader.state))
    ensures reader != null && processed != null && processedSize > 0
        ==> n <= processedSize
            && (reader.state, Snap(session), processed[..n])
               == Sent(c, reader.step, old(reader.state), old(Snap(session)), cmd, mode, mac, processedSize)
    ensures processed != null ==> processed[n..] == old(processed[n..])
  {
    if reader == null || processed == null || processedSize == 0 {
      mac := AnyMac(c, Snap(session), cmd, mode);
      return 0, mac;
    }
    var apdu := new byte[MAX_APDU](_ => 0);
    var apduLength: nat;
    apduLength, mac := BuildApdu(c, cmd, mode, session, apdu);
    n := 0;
    if apduLength != 0 {
      n := Exchange(c, reader, session, apdu, apduLength, mode, MAX_APDU, processed, processedSize);
    }
  }

  ghost function AnyMac(c: Cipher, v: Option<View>, cmd: Command, mode: byte): (mac: seq<byte>)
    ensures MacOf(c, v, cmd, mode, mac)
  {
    if Secured(mode) && v.Some? then C.HostMac(c, v.value, cmd, mode) else []
  }

  /** Within the domain in which a MAC is written, the MAC a command is sent with is the one the runs below
      speak of. */
  lemma SentWithHostMac(c: Cipher, v: View, cmd: Command, mode: byte, mac: seq<byte>)
    requires C.InDomain(cmd, mode) && v.authenticated && MacOf(c, Some(v), cmd, mode, mac)
    ensures mac == C.HostMac(c, v, cmd, mode)
  {
  }

  // ---- Whole runs -------------------------------------------------------------------------------

  /** One command of the host and the card's prescription for it. */
  datatype Trip = Trip(cmd: Command, profile: C.Profile)

  /** Both sides agree on mode and header length, and the lengths are within the buffers. */
  predicate Fits(t: Trip) {
    CommandFits(t) && C.ReplyFits(t.profile)
  }

  /** The command is one that both sides can handle; its reply may be of any length. */
  predicate CommandFits(t: Trip) {
    C.InDomain(t.cmd, t.profile.mode) && t.profile.headerLength == t.cmd.header.Length()
  }

  /** The card behind a reader. */
  function CardPeer(c: Cipher, p: C.Profile): Peer<C.Card> {
    (k: C.Card, apdu: seq<byte>, room: nat) => C.Step(c, p, k, apdu)
  }

  /** The state of host and card together, with everything handed to the caller so far. */
  datatype World = World(host: View, card: C.Card, outbox: seq<seq<byte>>)

  /** One lossless exchange, as the host sends it. */
  function SendOf(c: Cipher): (World, Trip) -> (C.Card, Option<View>, seq<byte>) {
    (w: World, t: Trip) =>
      Sent(c, CardPeer(c, t.profile), w.card, Some(w.host), t.cmd, t.profile.mode,
           C.HostMac(c, w.host, t.cmd, t.profile.mode), MAX_APDU)
  }

  function Landed(send: (World, Trip) -> (C.Card, Option<View>, seq<byte>), w: World, t: Trip): World {
    var (k, v, out) := send(w, t);
    World(if v.Some? then v.value else w.host, k, w.outbox + [out])
  }

  function Rounds(c: Cipher): (World, Trip) -> World {
    (w: World, t: Trip) => Landed(SendOf(c), w, t)
  }

  /** Exchanges one after the other. */
  function RunOf<X>(round: (World, X) -> World, w: World, trips: seq<X>): World {
    if trips == [] then w else round(RunOf(round, w, trips[..|trips| - 1]), trips[|trips| - 1])
  }

  /** A run of lossless exchanges. */
  function Run(c: Cipher, w: World, trips: seq<Trip>): World {
    RunOf(Rounds(c), w, trips)
  }

  /** What the card is to have received. */
  function Delivered(t: Trip): C.Order {
    C.Order([t.cmd.cla, t.cmd.ins, t.cmd.p1, t.cmd.p2], t.cmd.header.Value(), t.cmd.data.Value())
  }

  /** What the caller is to have received: in FULL mode the reply itself, otherwise the reply with whatever
      MAC bytes follow it, and in every mode the status word last. */
  predicate Carries(out: seq<byte>, p: C.Profile) {
    && |p.reply| + 2 <= |out|
    && out[..|p.reply|] == p.reply
    && out[|out| - 2..] == [0x91, p.sw2]
    && ((p.mode == FULL && p.reply != []) || p.mode == PLAIN ==> out == p.reply + [0x91, p.sw2])
  }

  lemma HandedOverCarries(c: Cipher, k: C.Card, p: C.Profile)
    requires p.mode == PLAIN || Secured(p.mode)
    ensures Carries(C.HandedOver(c, k, p), p)
  {
  }

  /** A response that is neither empty nor too long is opened once. */
  lemma FinishedWith<S>(c: Cipher, step: Peer<S>, state: S, v: Option<View>, mode: byte, frame: seq<byte>,
                        responseRoom: nat, room: nat, state': S, response: seq<byte>)
    requires step(state, frame, responseRoom) == (state', response) && 0 < |response| <= responseRoom
    requires Opened(c, v, mode, response).Some?
    ensures Finished(c, step, state, v, mode, frame, responseRoom, room)
         == (state', Advanced(v), Taken(Opened(c, v, mode, response), room))
  {
  }

  /** A response that is not accepted is as good as none. */
  lemma FinishedRefused<S>(c: Cipher, step: Peer<S>, state: S, v: Option<View>, mode: byte, frame: seq<byte>,
                           responseRoom: nat, room: nat, state': S, response: seq<byte>)
    requires step(state, frame, responseRoom) == (state', response) && 0 < |response| <= responseRoom
    requires Opened(c, v, mode, response).None?
    ensures Finished(c, step, state, v, mode, frame, responseRoom, room) == (state', v, [])
  {
  }

  /** A response that is too long for its buffer is as good as none. */
  lemma FinishedWithout<S>(c: Cipher, step: Peer<S>, state: S, v: Option<View>, mode: byte, frame: seq<byte>,
                           responseRoom: nat, room: nat, state': S, response: seq<byte>)
    requires step(state, frame, responseRoom) == (state', response) && |response| > responseRoom
    ensures Finished(c, step, state, v, mode, frame, responseRoom, room) == (state', v, [])
  {
  }

  /** The state of the card after it has accepted a command. */
  function Moved(k: C.Card, t: Trip): C.Card {
    k.(counter := (k.counter + 1) % 0x1_0000, inbox := k.inbox + [Delivered(t)])
  }

  /** A card in step accepts the command and answers it. */
  lemma CardMoves(c: Cipher, v: View, k: C.Card, t: Trip)
    requires C.Synced(v, k) && CommandFits(t)
    ensures C.Step(c, t.profile, k, Frame(c, Some(v), t.cmd, t.profile.mode, C.HostMac(c, v, t.cmd, t.profile.mode)))
         == (Moved(k, t), C.Reply(c, Moved(k, t), t.profile))
  {
    C.CommandRoundTrip(c, v, k, t.cmd, t.profile.mode);
  }

  /** The host can open the answer. */
  lemma HostOpens(c: Cipher, v: View, k: C.Card, t: Trip)
    requires C.Synced(v, k) && Fits(t)
    ensures var r := C.Reply(c, Moved(k, t), t.profile);
            0 < |r| <= MAX_APDU
            && Opened(c, Some(v), t.profile.mode, r) == Some(C.HandedOver(c, Moved(k, t), t.profile))
  {
    C.SyncedVectors(v, k);
    C.ReplyRoundTrip(c, v, Moved(k, t), t.profile);
    C.ReplyFitsIff(c, Moved(k, t), t.profile);
  }

  /** A card in step accepts the command and answers it, and the host can open the answer. */
  lemma CardAnswers(c: Cipher, v: View, k: C.Card, t: Trip, room: nat)
    requires C.Synced(v, k) && Fits(t)
    ensures var mode := t.profile.mode;
            var r := C.Reply(c, Moved(k, t), t.profile);
            && CardPeer(c, t.profile)(k, Frame(c, Some(v), t.cmd, mode, C.HostMac(c, v, t.cmd, mode)), room)
               == (Moved(k, t), r)
            && 0 < |r| <= MAX_APDU
            && Opened(c, Some(v), mode, r) == Some(C.HandedOver(c, Moved(k, t), t.profile))
  {
    CardMoves(c, v, k, t);
    HostOpens(c, v, k, t);
  }

  lemma SentInStep(c: Cipher, v: View, k: C.Card, t: Trip)
    requires C.Synced(v, k) && Fits(t)
    ensures Sent(c, CardPeer(c, t.profile), k, Some(v), t.cmd, t.profile.mode,
                 C.HostMac(c, v, t.cmd, t.profile.mode), MAX_APDU)
         == (Moved(k, t), Advanced(Some(v)), C.HandedOver(c, Moved(k, t), t.profile))
  {
    var mode := t.profile.mode;
    CardAnswers(c, v, k, t, MAX_APDU);
    FinishedWith(c, CardPeer(c, t.profile), k, Some(v), mode,
                 Frame(c, Some(v), t.cmd, mode, C.HostMac(c, v, t.cmd, mode)),
                 MAX_APDU, MAX_APDU, Moved(k, t), C.Reply(c, Moved(k, t), t.profile));
    HandedOverFits(c, Moved(k, t), t.profile);
  }

  /** A reply that the host opens and its caller has no room for: the caller gets nothing, and host and card stay in
      step all the same. */
  lemma DroppedInStep(c: Cipher, v: View, k: C.Card, t: Trip, room: nat)
    requires C.Synced(v, k) && Fits(t) && room < |C.HandedOver(c, Moved(k, t), t.profile)|
    ensures Sent(c, CardPeer(c, t.profile), k, Some(v), t.cmd, t.profile.mode,
                 C.HostMac(c, v, t.cmd, t.profile.mode), room)
         == (Moved(k, t), Some(v.(counter := ToInt16(v.counter + 1))), [])
    ensures C.Synced(v.(counter := ToInt16(v.counter + 1)), Moved(k, t))
  {
    var mode := t.profile.mode;
    CardAnswers(c, v, k, t, MAX_APDU);
    SentOpened(c, CardPeer(c, t.profile), k, v, t.cmd, mode, C.HostMac(c, v, t.cmd, mode), room, Moved(k, t),
               C.Reply(c, Moved(k, t), t.profile), C.HandedOver(c, Moved(k, t), t.profile));
    SyncedMoves(v, k, t);
  }

  /** A command that is answered with something that the host opens. */
  lemma SentOpened<S>(c: Cipher, step: Peer<S>, state: S, v: View, cmd: Command, mode: byte, mac: seq<byte>, room: nat,
    state': S, r: seq<byte>, plain: seq<byte>)
    requires v.authenticated && Buildable(Some(v), cmd, mode)
    requires step(state, Frame(c, Some(v), cmd, mode, mac), MAX_APDU) == (state', r) && 0 < |r| <= MAX_APDU
    requires Opened(c, Some(v), mode, r) == Some(plain)
    ensures Sent(c, step, state, Some(v), cmd, mode, mac, room)
         == (state', Some(v.(counter := ToInt16(v.counter + 1))), if |plain| <= room then plain else [])
  {
    FinishedWith(c, step, state, Some(v), mode, Frame(c, Some(v), cmd, mode, mac), MAX_APDU, room, state', r);
  }

  lemma HandedOverFits(c: Cipher, k: C.Card, p: C.Profile)
    requires (p.mode == PLAIN || Secured(p.mode)) && C.ReplyFits(p)
    ensures |C.HandedOver(c, k, p)| <= MAX_APDU
  {
  }

  /** The world after an exchange in step: the card has the command, the caller the reply, and both counters
      have moved. */
  function After(c: Cipher, w: World, t: Trip): World {
    World(w.host.(counter := ToInt16(w.host.counter + 1)), Moved(w.card, t),
          w.outbox + [C.HandedOver(c, Moved(w.card, t), t.profile)])
  }

  lemma LandsAfter(send: (World, Trip) -> (C.Card, Option<View>, seq<byte>), c: Cipher, w: World, t: Trip)
    requires w.host.authenticated
    requires send(w, t) == (Moved(w.card, t), Advanced(Some(w.host)), C.HandedOver(c, Moved(w.card, t), t.profile))
    ensures Landed(send, w, t) == After(c, w, t)
  {
  }

  lemma RoundAgrees(c: Cipher, w: World, t: Trip)
    requires C.Synced(w.host, w.card) && Fits(t)
    ensures Rounds(c)(w, t) == After(c, w, t)
  {
    SentInStep(c, w.host, w.card, t);
    LandsAfter(SendOf(c), c, w, t);
  }

  lemma SyncedMoves(v: View, k: C.Card, t: Trip)
    requires C.Synced(v, k)
    ensures C.Synced(v.(counter := ToInt16(v.counter + 1)), Moved(k, t))
  {
    StillInStep(v.counter, k.counter);
  }

  lemma StillInStep(h: Int16, k: nat)
    requires (h - k) % 0x1_0000 == 0
    ensures (ToInt16(h + 1) - (k + 1) % 0x1_0000) % 0x1_0000 == 0
  {
  }

  /** A run that went as it should from `w` to `w'`. */
  ghost predicate RanInStep(w: World, w': World, trips: seq<Trip>) {
    && C.Synced(w'.host, w'.card)
    && w'.host.counter == ToInt16(w.host.counter + |trips|)
    && w'.card.counter == (w.card.counter + |trips|) % 0x1_0000
    && |w'.card.inbox| == |w.card.inbox| + |trips|
    && w'.card.inbox[..|w.card.inbox|] == w.card.inbox
    && (forall i :: 0 <= i < |trips| ==> w'.card.inbox[|w.card.inbox| + i] == Delivered(trips[i]))
    && |w'.outbox| == |trips|
    && (forall i :: 0 <= i < |trips| ==> Carries(w'.outbox[i], trips[i].profile))
  }

  /** Exchanges that take every run in step one further. */
  ghost predicate KeepsStep(round: (World, Trip) -> World, w: World) {
    forall w1, front, last {:trigger RanInStep(w, round(w1, last), front + [last])} ::
      RanInStep(w, w1, front) && Fits(last) ==> RanInStep(w, round(w1, last), front + [last])
  }

  lemma {:induction false} RunsInStep(round: (World, Trip) -> World, w: World, trips: seq<Trip>)
    requires KeepsStep(round, w) && RanInStep(w, w, [])
    requires forall t :: t in trips ==> Fits(t)
    ensures RanInStep(w, RunOf(round, w, trips), trips)
  {
    if trips != [] {
      var front, last := trips[..|trips| - 1], trips[|trips| - 1];
      RunsInStep(round, w, front);
      assert RanInStep(w, round(RunOf(round, w, front), last), front + [last]);
      assert front + [last] == trips;
    }
  }

  /** Over every run, in any mix of modes and past any wrap of the signed counter, host and card stay in
      step: every command arrives, every reply comes back, and both counters count the run. */
  lemma RunAgrees(c: Cipher, w: World, trips: seq<Trip>)
    requires C.Synced(w.host, w.card) && w.outbox == []
    requires forall t :: t in trips ==> Fits(t)
    ensures RanInStep(w, Run(c, w, trips), trips)
  {
    RoundsKeepStep(c, w);
    CountsFrom(w.host.counter, w.card.counter);
    RunsInStep(Rounds(c), w, trips);
  }

  lemma RoundsKeepStep(c: Cipher, w: World)
    ensures KeepsStep(Rounds(c), w)
  {
    forall w1, front, last | RanInStep(w, w1, front) && Fits(last)
      ensures RanInStep(w, Rounds(c)(w1, last), front + [last])
    {
      RoundAgrees(c, w1, last);
      RunGrows(c, w, w1, front, last);
    }
  }

  lemma RunGrows(c: Cipher, w: World, w1: World, front: seq<Trip>, last: Trip)
    requires RanInStep(w, w1, front) && Fits(last)
    ensures RanInStep(w, After(c, w1, last), front + [last])
  {
    SyncedMoves(w1.host, w1.card, last);
    HandedOverCarries(c, Moved(w1.card, last), last.profile);
    HostCountsOn(w.host.counter, |front|);
    CardCountsOn(w.card.counter, |front|);
  }

  lemma CountsFrom(h: Int16, k: nat)
    requires k < 0x1_0000
    ensures ToInt16(h) == h && k % 0x1_0000 == k
  {
  }

  lemma ToInt16Congruent(a: int, b: int)
    requires (a - b) % 0x1_0000 == 0
    ensures ToInt16(a) == ToInt16(b)
  {
  }

  lemma HostCountsOn(h: int, n: nat)
    ensures ToInt16(ToInt16(h + n) + 1) == ToInt16(h + (n + 1))
  {
    assert (ToInt16(h + n) + 1 - (h + (n + 1))) % 0x1_0000 == 0;
    ToInt16Congruent(ToInt16(h + n) + 1, h + (n + 1));
  }

  lemma CardCountsOn(k: nat, n: nat)
    ensures ((k + n) % 0x1_0000 + 1) % 0x1_0000 == (k + (n + 1)) % 0x1_0000
  {
  }
}
