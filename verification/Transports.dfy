/** Secure messaging over the two transports: the PN532's frames (pn532_ntag424_adapter.cpp:14-57) and ISO-DEP calls
    of the MFRC522 (mfrc522_ntag424_adapter.cpp:7-55). */
module Transports {
  import opened Bytes
  import opened Octets
  import opened CipherSuite
  import opened Sessions
  import opened Apdu
  import opened Readers
  import opened Core
  import opened LossyRuns
  import C = Card
  import P = Pn532
  import T = IsoDep
  import A = Picc
  import R = IsoDepRuns
  import opened Mfrc522

  /** An exchange depends on the transport only by what becomes of its frame. */
  lemma SentAlike<S>(c: Cipher, step1: Peer<S>, step2: Peer<S>, k: S, v: View, cmd: Command, mode: byte,
      mac: seq<byte>)
    requires var frame := Frame(c, Some(v), cmd, mode, mac); step1(k, frame, MAX_APDU) == step2(k, frame, MAX_APDU)
    requires Buildable(Some(v), cmd, mode)
    ensures Sent(c, step1, k, Some(v), cmd, mode, mac, MAX_APDU) == Sent(c, step2, k, Some(v), cmd, mode, mac, MAX_APDU)
  {
  }

  // ---- Over a PN532 --------------------------------------------------------------------------------

  /** A card behind chip and adapter. */
  function OverPn532<S>(card: Peer<S>, filler: P.Raw): Peer<S> {
    (state: S, apdu: seq<byte>, room: nat) => P.Carried(P.ChipFor(card, filler), state, apdu, room)
  }

  /** The bytes of a reply as the card sends it. */
  function WireLength(p: C.Profile): nat {
    (if p.mode == FULL && p.reply != [] then |p.reply| / 16 * 16 + 16 else |p.reply|) + C.TagLength(p.mode) + 2
  }

  lemma WireLengthIs(c: Cipher, k: C.Card, p: C.Profile)
    requires p.mode == PLAIN || Secured(p.mode)
    ensures |C.Reply(c, k, p)| == WireLength(p)
    ensures C.ReplyFits(p) <==> WireLength(p) <= MAX_APDU
  {
    C.ReplyFitsIff(c, k, p);
  }

  /** What the chip's frames make of an exchange: a reply of more than 54 bytes is dropped. */
  function PassageOver(t: Trip): Passage {
    if WireLength(t.profile) <= 54 then Through else ReplyLost
  }

  /** A command and a reply that the chip has frames for. */
  predicate FramesFit(t: Trip) {
    CommandFits(t) && WireLength(t.profile) <= 252
  }

  function Pn532Send(c: Cipher, filler: P.Raw): (World, Trip) -> (C.Card, Option<View>, seq<byte>) {
    (w: World, t: Trip) =>
      Sent(c, OverPn532(CardPeer(c, t.profile), filler), w.card, Some(w.host), t.cmd, t.profile.mode,
           C.HostMac(c, w.host, t.cmd, t.profile.mode), MAX_APDU)
  }

  function Pn532Rounds(c: Cipher, filler: P.Raw): (World, Trip) -> World {
    (w: World, t: Trip) => Landed(Pn532Send(c, filler), w, t)
  }

  lemma FrameShort(c: Cipher, v: View, t: Trip)
    requires CommandFits(t)
    ensures |Frame(c, Some(v), t.cmd, t.profile.mode, C.HostMac(c, v, t.cmd, t.profile.mode))| <= MAX_APDU
  {
  }

  lemma Pn532Passes(c: Cipher, filler: P.Raw, w: World, t: Trip)
    requires FramesFit(t) && Understood(c, w.host, w.card, t)
    ensures Landed(Pn532Send(c, filler), w, t) == Landed(LossySend(c, PassageOver(t)), w, t)
  {
    var mode, v := t.profile.mode, w.host;
    var frame, card := Frame(c, Some(v), t.cmd, mode, C.HostMac(c, v, t.cmd, mode)), CardPeer(c, t.profile);
    FrameShort(c, v, t);
    WireLengthIs(c, Moved(w.card, t), t.profile);
    P.AdapterCarries(card, w.card, frame, MAX_APDU, filler);
    SentAlike(c, OverPn532(card, filler), LossyPeer(c, t.profile, PassageOver(t)), w.card, v, t.cmd, mode,
              C.HostMac(c, v, t.cmd, mode));
  }

  /** Over a PN532, host and card are in step before each exchange of a run and at the end exactly if no reply has
      more than 54 bytes on the wire. */
  lemma Pn532InStepIff(c: Cipher, filler: P.Raw, w: World, trips: seq<Trip>)
    requires C.Synced(w.host, w.card) && forall t <- trips :: FramesFit(t)
    ensures Throughout(Pn532Rounds(c, filler), InStep, w, trips)
       <==> forall t <- trips :: WireLength(t.profile) <= 54
  {
    forall w: World, t: Trip | InStep(w) && FramesFit(t)
      ensures InStep(Pn532Rounds(c, filler)(w, t)) <==> WireLength(t.profile) <= 54
    {
      Pn532RoundIff(c, filler, w, t);
    }
    ThroughoutIff(Pn532Rounds(c, filler), InStep, FramesFit, (t: Trip) => WireLength(t.profile) <= 54, w, trips);
  }

  lemma Pn532RoundIff(c: Cipher, filler: P.Raw, w: World, t: Trip)
    requires InStep(w) && FramesFit(t)
    ensures InStep(Pn532Rounds(c, filler)(w, t)) <==> WireLength(t.profile) <= 54
  {
    SyncedUnderstood(c, w.host, w.card, t);
    Pn532Passes(c, filler, w, t);
    SyncedAfterIff(c, w, t, PassageOver(t));
    WireLengthIs(c, w.card, t.profile);
  }

  /** And then the run is what it is without the frames: every command arrives, and every reply comes back. */
  lemma Pn532RunAgrees(c: Cipher, filler: P.Raw, w: World, trips: seq<Trip>)
    requires C.Synced(w.host, w.card) && w.outbox == []
    requires forall t <- trips :: CommandFits(t) && WireLength(t.profile) <= 54
    ensures RanInStep(w, RunOf(Pn532Rounds(c, filler), w, trips), trips)
  {
    Pn532RunIs(c, filler, w, trips);
    forall t <- trips ensures Fits(t) {
      WireLengthIs(c, w.card, t.profile);
    }
    RunAgrees(c, w, trips);
  }

  lemma {:induction false} Pn532RunIs(c: Cipher, filler: P.Raw, w: World, trips: seq<Trip>)
    requires C.Synced(w.host, w.card) && w.outbox == []
    requires forall t <- trips :: CommandFits(t) && WireLength(t.profile) <= 54
    ensures RunOf(Pn532Rounds(c, filler), w, trips) == Run(c, w, trips)
  {
    if trips != [] {
      var front, last := trips[..|trips| - 1], trips[|trips| - 1];
      assert last in trips && forall t <- front :: t in trips;
      Pn532RunIs(c, filler, w, front);
      forall t <- trips ensures Fits(t) {
        WireLengthIs(c, w.card, t.profile);
      }
      RunAgrees(c, w, front);
      SameRound(c, filler, Run(c, w, front), last);
    }
  }

  lemma SameRound(c: Cipher, filler: P.Raw, w: World, t: Trip)
    requires InStep(w) && CommandFits(t) && WireLength(t.profile) <= 54
    ensures Pn532Rounds(c, filler)(w, t) == Rounds(c)(w, t)
  {
    SyncedUnderstood(c, w.host, w.card, t);
    WireLengthIs(c, w.card, t.profile);
    Pn532Passes(c, filler, w, t);
    LossyRound(c, w, t, Through);
    RoundAgrees(c, w, t);
  }

  // ---- Over ISO-DEP --------------------------------------------------------------------------------

  /** A tag behind the reader's calls: what a call brings, or nothing if it fails. */
  function OverIsoDep<S>(env: T.Env, program: A.Program<S>, losses: nat -> A.Event, cid: bool): Peer<R.World<S>> {
    (world: R.World<S>, apdu: seq<byte>, room: nat) =>
      var (world', r, status) := R.Call(env, A.FieldOf(env, program, losses), cid, world, apdu, room);
      (world', Brought(r, status))
  }

  function Brought(r: T.Result, status: Status): seq<byte> {
    if status == Ok && r.Reply? then r.inf else []
  }

  /** How a card treats a command, by its instruction byte and by what it has received so far. */
  type Rules = (C.Card, byte) -> C.Profile

  /** The secure card as a program on the tag. */
  function Secure(c: Cipher, rules: Rules): A.Program<C.Card> {
    (k: C.Card, apdu: seq<byte>) =>
      var (k', r) := C.Step(c, rules(k, if |apdu| < 2 then 0 else apdu[1]), k, apdu);
      (k', r, [])
  }

  /** The host's session and the tag's world. */
  datatype Link = Link(host: View, world: R.World<C.Card>) {
    function App(): C.Card {
      R.CardOf(world).app
    }

    /** In step at both levels. */
    ghost predicate Sound() {
      C.Synced(host, App()) && world.Apart()
    }
  }

  function TripOf(rules: Rules, k: C.Card, cmd: Command): Trip {
    Trip(cmd, rules(k, cmd.ins))
  }

  function FrameOf(c: Cipher, v: View, t: Trip): seq<byte> {
    Frame(c, Some(v), t.cmd, t.profile.mode, C.HostMac(c, v, t.cmd, t.profile.mode))
  }

  /** A command sent over a link, in the mode that the card prescribes: the new link, and what the caller gets. */
  function LinkOver(c: Cipher, rules: Rules, peer: Peer<R.World<C.Card>>): (Link, Command) -> (Link, seq<byte>) {
    (link: Link, cmd: Command) => Relayed(c, peer, link, TripOf(rules, link.App(), cmd))
  }

  function LinkSend(c: Cipher, env: T.Env, rules: Rules, losses: nat -> A.Event, cid: bool):
    (Link, Command) -> (Link, seq<byte>)
  {
    LinkOver(c, rules, OverIsoDep(env, Secure(c, rules), losses, cid))
  }

  function Relayed(c: Cipher, peer: Peer<R.World<C.Card>>, link: Link, t: Trip): (Link, seq<byte>) {
    var (world', v', out) := Sent(c, peer, link.world, Some(link.host), t.cmd, t.profile.mode,
                                  C.HostMac(c, link.host, t.cmd, t.profile.mode), MAX_APDU);
    (Link(if v'.Some? then v'.value else link.host, world'), out)
  }

  lemma SecureAnswers(c: Cipher, rules: Rules, v: View, k: C.Card, t: Trip)
    requires C.Synced(v, k) && CommandFits(t) && t.profile == rules(k, t.cmd.ins)
    ensures Secure(c, rules)(k, FrameOf(c, v, t)) == (Moved(k, t), C.Reply(c, Moved(k, t), t.profile), [])
  {
    C.FrameSplits(c, Some(v), t.cmd, t.profile.mode, C.HostMac(c, v, t.cmd, t.profile.mode));
    CardMoves(c, v, k, t);
  }

  /** The program on the tag has run once, and its answer is what was brought; or nothing was brought. */
  lemma CallBrings<S(!new)>(env: T.Env, program: A.Program<S>, losses: nat -> A.Event, cid: bool, world: R.World<S>,
    cmd: seq<byte>, capacity: nat)
    requires world.Apart()
    ensures var (world', got) := OverIsoDep(env, program, losses, cid)(world, cmd, capacity);
            got != [] ==>
              && world'.Apart() && got == program(R.CardOf(world).app, cmd).1 && |got| <= capacity
              && R.CardOf(world').app == program(R.CardOf(world).app, cmd).0
  {
    R.AnsweredCall(env, program, losses, cid, world, cmd, capacity);
  }

  lemma RelayedOpened(c: Cipher, peer: Peer<R.World<C.Card>>, link: Link, t: Trip, world': R.World<C.Card>,
    got: seq<byte>, plain: seq<byte>)
    requires link.host.authenticated && CommandFits(t)
    requires peer(link.world, FrameOf(c, link.host, t), MAX_APDU) == (world', got) && 0 < |got| <= MAX_APDU
    requires Opened(c, Some(link.host), t.profile.mode, got) == Some(plain) && |plain| <= MAX_APDU
    ensures Relayed(c, peer, link, t)
         == (Link(link.host.(counter := ToInt16(link.host.counter + 1)), world'), plain)
  {
    FinishedWith(c, peer, link.world, Some(link.host), t.profile.mode, FrameOf(c, link.host, t), MAX_APDU, MAX_APDU,
                 world', got);
  }

  /** The reply to a command is opened as that to any command of the same mode: neither its MAC nor its vector says
      which command it answers. */
  lemma RelayedReply(c: Cipher, peer: Peer<R.World<C.Card>>, link: Link, t: Trip, world': R.World<C.Card>, k: C.Card,
    answered: Trip)
    requires C.Synced(link.host, k) && CommandFits(t)
    requires CommandFits(answered) && t.profile.mode == answered.profile.mode
    requires peer(link.world, FrameOf(c, link.host, t), MAX_APDU)
          == (world', C.Reply(c, Moved(k, answered), answered.profile))
    requires |C.Reply(c, Moved(k, answered), answered.profile)| <= MAX_APDU
    ensures Relayed(c, peer, link, t)
         == (Link(link.host.(counter := ToInt16(link.host.counter + 1)), world'),
             C.HandedOver(c, Moved(k, answered), answered.profile))
  {
    C.ReplyFitsIff(c, Moved(k, answered), answered.profile);
    HostOpens(c, link.host, k, answered);
    HandedOverFits(c, Moved(k, answered), answered.profile);
    RelayedOpened(c, peer, link, t, world', C.Reply(c, Moved(k, answered), answered.profile),
                  C.HandedOver(c, Moved(k, answered), answered.profile));
  }

  lemma RelayedNothing(c: Cipher, peer: Peer<R.World<C.Card>>, link: Link, t: Trip)
    requires link.host.authenticated && CommandFits(t)
    requires peer(link.world, FrameOf(c, link.host, t), MAX_APDU).1 == []
    ensures Relayed(c, peer, link, t)
         == (Link(link.host, peer(link.world, FrameOf(c, link.host, t), MAX_APDU).0), [])
  {
    FinishedSilent(c, peer, link.world, Some(link.host), t.profile.mode, FrameOf(c, link.host, t), MAX_APDU,
                   peer(link.world, FrameOf(c, link.host, t), MAX_APDU).0);
  }

  /** The command has been carried out once, in step, and the caller has its own answer. */
  ghost predicate Served(c: Cipher, link: Link, t: Trip, link': Link, out: seq<byte>) {
    && link'.Sound() && link'.App() == Moved(link.App(), t)
    && out == C.HandedOver(c, Moved(link.App(), t), t.profile)
  }

  /** Whatever is lost on the air, a command that brings its caller something was carried out once, the bytes are its
      own answer, and the counters and the block numbers are in step. */
  lemma AnsweredLink(c: Cipher, env: T.Env, rules: Rules, losses: nat -> A.Event, cid: bool, link: Link, cmd: Command)
    requires link.Sound() && CommandFits(TripOf(rules, link.App(), cmd))
    ensures var (link', out) := LinkSend(c, env, rules, losses, cid)(link, cmd);
            out != [] ==> Served(c, link, TripOf(rules, link.App(), cmd), link', out)
  {
    var t := TripOf(rules, link.App(), cmd);
    CallBrings(env, Secure(c, rules), losses, cid, link.world, FrameOf(c, link.host, t), MAX_APDU);
    SecureAnswers(c, rules, link.host, link.App(), t);
    AnsweredOver(c, OverIsoDep(env, Secure(c, rules), losses, cid), link, t);
  }

  lemma AnsweredOver(c: Cipher, peer: Peer<R.World<C.Card>>, link: Link, t: Trip)
    requires link.Sound() && CommandFits(t)
    requires var (world', got) := peer(link.world, FrameOf(c, link.host, t), MAX_APDU);
             got != [] ==>
               && world'.Apart() && R.CardOf(world').app == Moved(link.App(), t)
               && got == C.Reply(c, Moved(link.App(), t), t.profile) && |got| <= MAX_APDU
    ensures Relayed(c, peer, link, t).1 != [] ==>
              Served(c, link, t, Relayed(c, peer, link, t).0, Relayed(c, peer, link, t).1)
  {
    var (world', got) := peer(link.world, FrameOf(c, link.host, t), MAX_APDU);
    if got == [] {
      RelayedNothing(c, peer, link, t);
    } else {
      RelayedReply(c, peer, link, t, world', link.App(), t);
      SyncedMoves(link.host, link.App(), t);
    }
  }

  /** A run of commands, and what the caller gets for each. */
  function LinkRun(send: (Link, Command) -> (Link, seq<byte>), link: Link, cmds: seq<Command>)
    : (r: (Link, seq<seq<byte>>))
    ensures |r.1| == |cmds|
    decreases |cmds|
  {
    if cmds == [] then (link, []) else
      var (link', out) := send(link, cmds[0]);
      var (last, outs) := LinkRun(send, link', cmds[1..]);
      (last, [out] + outs)
  }

  /** What the run is meant to do: the card's program carries out every command, and the caller gets its reply. */
  function Intended(c: Cipher, rules: Rules, k: C.Card, cmds: seq<Command>): (C.Card, seq<seq<byte>>)
    decreases |cmds|
  {
    if cmds == [] then (k, []) else
      var t := TripOf(rules, k, cmds[0]);
      var (last, outs) := Intended(c, rules, Moved(k, t), cmds[1..]);
      (last, [C.HandedOver(c, Moved(k, t), t.profile)] + outs)
  }

  ghost predicate Acceptable(rules: Rules, cmd: Command) {
    forall k: C.Card {:trigger TripOf(rules, k, cmd)} :: CommandFits(TripOf(rules, k, cmd))
  }

  ghost predicate ServesLinks(c: Cipher, rules: Rules, send: (Link, Command) -> (Link, seq<byte>)) {
    forall link: Link, cmd: Command {:trigger send(link, cmd)} ::
      link.Sound() && Acceptable(rules, cmd) && send(link, cmd).1 != [] ==>
        Served(c, link, TripOf(rules, link.App(), cmd), send(link, cmd).0, send(link, cmd).1)
  }

  lemma {:induction false} ServedLinkRun(c: Cipher, rules: Rules, send: (Link, Command) -> (Link, seq<byte>),
    link: Link, cmds: seq<Command>)
    requires ServesLinks(c, rules, send) && link.Sound()
    requires forall cmd <- cmds :: Acceptable(rules, cmd)
    requires forall out <- LinkRun(send, link, cmds).1 :: out != []
    ensures var (link', outs) := LinkRun(send, link, cmds);
            link'.Sound() && (link'.App(), outs) == Intended(c, rules, link.App(), cmds)
    decreases |cmds|
  {
    if cmds != [] {
      var (link', out) := send(link, cmds[0]);
      var outs := LinkRun(send, link', cmds[1..]).1;
      var all := LinkRun(send, link, cmds).1;
      assert all == [out] + outs;
      assert all[0] in all && forall x <- outs :: x in all;
      assert cmds[0] in cmds && forall x <- cmds[1..] :: x in cmds;
      ServedLinkRun(c, rules, send, link', cmds[1..]);
    }
  }

  /** Over every run of commands in any modes, and every schedule of losses on the air: if each brings its caller
      something, then the card has carried out exactly these commands, in order, and each answer is its command's; and
      counters and block numbers are in step at the end. */
  lemma AnsweredLinkRun(c: Cipher, env: T.Env, rules: Rules, losses: nat -> A.Event, cid: bool, link: Link,
    cmds: seq<Command>)
    requires link.Sound() && forall cmd <- cmds :: Acceptable(rules, cmd)
    requires forall out <- LinkRun(LinkSend(c, env, rules, losses, cid), link, cmds).1 :: out != []
    ensures var (link', outs) := LinkRun(LinkSend(c, env, rules, losses, cid), link, cmds);
            link'.Sound() && (link'.App(), outs) == Intended(c, rules, link.App(), cmds)
  {
    var send := LinkSend(c, env, rules, losses, cid);
    forall link: Link, cmd: Command | link.Sound() && Acceptable(rules, cmd) && send(link, cmd).1 != []
      ensures Served(c, link, TripOf(rules, link.App(), cmd), send(link, cmd).0, send(link, cmd).1)
    {
      assert CommandFits(TripOf(rules, link.App(), cmd));
      AnsweredLink(c, env, rules, losses, cid, link, cmd);
    }
    ServedLinkRun(c, rules, send, link, cmds);
  }

  function OrderOf(cmd: Command): C.Order {
    C.Order([cmd.cla, cmd.ins, cmd.p1, cmd.p2], cmd.header.Value(), cmd.data.Value())
  }

  /** All commands of such a run are on the card. */
  lemma {:induction false} IntendedReceives(c: Cipher, rules: Rules, k: C.Card, cmds: seq<Command>)
    ensures var k' := Intended(c, rules, k, cmds).0;
            && |k'.inbox| == |k.inbox| + |cmds| && k'.inbox[..|k.inbox|] == k.inbox
            && forall i :: 0 <= i < |cmds|
                 ==> k'.inbox[|k.inbox| + i] == OrderOf(cmds[i])
    decreases |cmds|
  {
    if cmds != [] {
      var k1 := Moved(k, TripOf(rules, k, cmds[0]));
      var k' := Intended(c, rules, k1, cmds[1..]).0;
      IntendedReceives(c, rules, k1, cmds[1..]);
      assert k'.inbox[|k.inbox|] == k'.inbox[..|k1.inbox|][|k.inbox|];
      assert k'.inbox[..|k.inbox|] == k'.inbox[..|k1.inbox|][..|k.inbox|];
      forall i | 0 <= i < |cmds|
        ensures k'.inbox[|k.inbox| + i] == OrderOf(cmds[i])
      {
        if i > 0 {
          assert k'.inbox[|k1.inbox| + (i - 1)] == OrderOf(cmds[1..][i - 1]);
        }
      }
    }
  }

  // ---- The stale answer ----------------------------------------------------------------------------

  /** The first command fails at its caller; the second brings the answer to the first, and never gets to the card;
      and both ends agree on the counter. */
  ghost predicate Mistaken(c: Cipher, rules: Rules, send: (Link, Command) -> (Link, seq<byte>), link: Link,
      cmd1: Command, cmd2: Command) {
    var t1 := TripOf(rules, link.App(), cmd1);
    var (link1, out1) := send(link, cmd1);
    var (link2, out2) := send(link1, cmd2);
    && out1 == [] && link1.host == link.host
    && out2 == C.HandedOver(c, Moved(link.App(), t1), t1.profile)
    && link2.App() == Moved(link.App(), t1) && C.Synced(link2.host, link2.App())
  }

  lemma FirstCall(env: T.Env, program: A.Program<C.Card>, losses: nat -> A.Event, cid: bool, world: R.World<C.Card>,
    cmd1: seq<byte>, cmd2: seq<byte>, capacity: nat)
    requires world.Apart() && R.Ready(env) && R.Sendable(env, cid, cmd1) && R.Sendable(env, cid, cmd2)
    requires R.Noticed(losses) && R.FailsThenLoses(losses, world.line.state.time)
    requires var (_, answer, waits) := program(R.CardOf(world).app, cmd1);
             R.Fits(env, cid, answer) && |answer| <= capacity && waits == []
    ensures var peer := OverIsoDep(env, program, losses, cid);
            var (world1, got1) := peer(world, cmd1, capacity);
            var (world2, got2) := peer(world1, cmd2, capacity);
            && got1 == [] && R.CardOf(world1).app == program(R.CardOf(world).app, cmd1).0
            && got2 == program(R.CardOf(world).app, cmd1).1 && R.CardOf(world2) == R.CardOf(world1)
  {
    R.IBlockIs(world.number, cid, cmd1);
    R.CommandFrame(env, T.IBlock(world.number, cid, cmd1));
    R.NumbersStayApartIff(env, program, losses, cid, world, cmd1, capacity);
    R.StaleRun(env, program, losses, cid, world, cmd1, cmd2, capacity);
  }

  /** Secure messaging does not tell: if the answers to a command are lost and then the I-block of the next command
      of the same mode, the host takes the answer to the first, with its MAC verified, for that to the second. */
  lemma StaleLink(c: Cipher, env: T.Env, rules: Rules, losses: nat -> A.Event, cid: bool, link: Link, cmd1: Command,
    cmd2: Command)
    requires link.Sound() && R.Ready(env) && R.Noticed(losses)
    requires R.FailsThenLoses(losses, link.world.line.state.time)
    requires var t1 := TripOf(rules, link.App(), cmd1);
             var t2 := TripOf(rules, Moved(link.App(), t1), cmd2);
             && CommandFits(t1) && CommandFits(t2) && t2.profile.mode == t1.profile.mode
             && R.Sendable(env, cid, FrameOf(c, link.host, t1)) && R.Sendable(env, cid, FrameOf(c, link.host, t2))
             && R.Fits(env, cid, C.Reply(c, Moved(link.App(), t1), t1.profile))
    ensures Mistaken(c, rules, LinkSend(c, env, rules, losses, cid), link, cmd1, cmd2)
  {
    var t1 := TripOf(rules, link.App(), cmd1);
    var t2 := TripOf(rules, Moved(link.App(), t1), cmd2);
    SecureAnswers(c, rules, link.host, link.App(), t1);
    FirstCall(env, Secure(c, rules), losses, cid, link.world, FrameOf(c, link.host, t1), FrameOf(c, link.host, t2),
              MAX_APDU);
    MistakenOver(c, rules, OverIsoDep(env, Secure(c, rules), losses, cid), link, cmd1, t1, cmd2, t2);
  }

  lemma MistakenOver(c: Cipher, rules: Rules, peer: Peer<R.World<C.Card>>, link: Link, cmd1: Command, t1: Trip,
    cmd2: Command, t2: Trip)
    requires link.Sound() && t1 == TripOf(rules, link.App(), cmd1) && t2 == TripOf(rules, Moved(link.App(), t1), cmd2)
    requires CommandFits(t1) && CommandFits(t2) && t2.profile.mode == t1.profile.mode
    requires var k1 := Moved(link.App(), t1);
             var (world1, got1) := peer(link.world, FrameOf(c, link.host, t1), MAX_APDU);
             var (world2, got2) := peer(world1, FrameOf(c, link.host, t2), MAX_APDU);
             && got1 == [] && R.CardOf(world1).app == k1
             && got2 == C.Reply(c, k1, t1.profile) && |got2| <= MAX_APDU && R.CardOf(world2) == R.CardOf(world1)
    ensures Mistaken(c, rules, LinkOver(c, rules, peer), link, cmd1, cmd2)
  {
    var world1 := peer(link.world, FrameOf(c, link.host, t1), MAX_APDU).0;
    var world2 := peer(world1, FrameOf(c, link.host, t2), MAX_APDU).0;
    RelayedNothing(c, peer, link, t1);
    RelayedReply(c, peer, Link(link.host, world1), t2, world2, link.App(), t1);
    SyncedMoves(link.host, link.App(), t1);
  }
}
