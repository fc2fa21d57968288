/** Secure messaging when commands or replies are lost (ntag424_core.cpp:61-75, ntag424_apdu.cpp:265-273): the
    host counts a command when it has opened the reply, the card when it has accepted the command. */
module LossyRuns {
  import opened Bytes
  import opened Octets
  import opened CipherSuite
  import opened Sessions
  import opened Apdu
  import opened Readers
  import opened Core
  import C = Card

  datatype Passage = Through | CommandLost | ReplyLost

  /** The card behind a reader that may lose what passes. */
  function LossyPeer(c: Cipher, p: C.Profile, passage: Passage): Peer<C.Card> {
    (k: C.Card, apdu: seq<byte>, room: nat) =>
      if passage.CommandLost? then (k, []) else
        var (k', r) := C.Step(c, p, k, apdu);
        (k', if passage.ReplyLost? then [] else r)
  }

  /** The reply gets back to the host, and is short enough to be taken. */
  predicate ReplyOpened(t: Trip, passage: Passage) {
    passage.Through? && C.ReplyFits(t.profile)
  }

  /** One exchange, as the host sends it. */
  function LossySend(c: Cipher, passage: Passage): (World, Trip) -> (C.Card, Option<View>, seq<byte>) {
    (w: World, t: Trip) =>
      Sent(c, LossyPeer(c, t.profile, passage), w.card, Some(w.host), t.cmd, t.profile.mode,
           C.HostMac(c, w.host, t.cmd, t.profile.mode), MAX_APDU)
  }

  /** An answer that is lost is an exchange that failed. */
  lemma FinishedSilent<S>(c: Cipher, step: Peer<S>, state: S, v: Option<View>, mode: byte, frame: seq<byte>, room: nat,
      state': S)
    requires step(state, frame, MAX_APDU) == (state', [])
    ensures Finished(c, step, state, v, mode, frame, MAX_APDU, room) == (state', v, [])
  {
  }

  /** The card accepts the command from this host, and the host would open any reply that is short enough. */
  ghost predicate Understood(c: Cipher, v: View, k: C.Card, t: Trip) {
    var mode, r := t.profile.mode, C.Reply(c, Moved(k, t), t.profile);
    && v.authenticated
    && C.Step(c, t.profile, k, Frame(c, Some(v), t.cmd, mode, C.HostMac(c, v, t.cmd, mode))) == (Moved(k, t), r)
    && (C.ReplyFits(t.profile) ==> Opened(c, Some(v), mode, r) == Some(C.HandedOver(c, Moved(k, t), t.profile)))
  }

  lemma SyncedUnderstood(c: Cipher, v: View, k: C.Card, t: Trip)
    requires C.Synced(v, k) && CommandFits(t)
    ensures Understood(c, v, k, t)
  {
    CardMoves(c, v, k, t);
    if C.ReplyFits(t.profile) {
      HostOpens(c, v, k, t);
    }
  }

  /** PLAIN commands and replies are understood however far apart the counters are. */
  lemma PlainUnderstood(c: Cipher, v: View, k: C.Card, t: Trip)
    requires v.authenticated && CommandFits(t) && t.profile.mode == PLAIN
    ensures Understood(c, v, k, t)
  {
    PlainAccepted(c, v, k, t);
    C.ReplyFitsIff(c, Moved(k, t), t.profile);
    if C.ReplyFits(t.profile) {
      PlainOpened(c, v, Moved(k, t), t.profile);
    }
  }

  lemma PlainAccepted(c: Cipher, v: View, k: C.Card, t: Trip)
    requires CommandFits(t) && t.profile.mode == PLAIN
    ensures C.Receive(c, k, PLAIN, t.profile.headerLength,
                      Frame(c, Some(v), t.cmd, PLAIN, C.HostMac(c, v, t.cmd, PLAIN)))
         == Some(Delivered(t))
  {
    var mac := C.HostMac(c, v, t.cmd, PLAIN);
    PlainAsIs(c, v, k, t.cmd.ins, t.cmd.header.Value(), t.cmd.data.Value(), mac);
    C.FrameReceived(c, v, k, t.cmd, PLAIN, mac);
  }

  lemma PlainAsIs(c: Cipher, v: View, k: C.Card, ins: byte, header: seq<byte>, data: seq<byte>, mac: seq<byte>)
    ensures ProtectedData(c, Some(v), PLAIN, data) == data
    ensures C.Accept(c, k, PLAIN, ins, header, data, mac) == Some(data)
  {
  }

  lemma PlainOpened(c: Cipher, v: View, k: C.Card, p: C.Profile)
    requires p.mode == PLAIN && |C.Reply(c, k, p)| <= MAX_APDU
    ensures Opened(c, Some(v), PLAIN, C.Reply(c, k, p)) == Some(C.HandedOver(c, k, p))
  {
  }

  /** A command, or its reply, is lost, or the reply is too long: the host learns nothing. */
  lemma NotOpened(c: Cipher, w: World, t: Trip, passage: Passage)
    requires Understood(c, w.host, w.card, t) && CommandFits(t) && !ReplyOpened(t, passage)
    ensures LossySend(c, passage)(w, t)
         == (if passage.CommandLost? then w.card else Moved(w.card, t), Some(w.host), [])
  {
    var mode, v := t.profile.mode, w.host;
    var frame := Frame(c, Some(v), t.cmd, mode, C.HostMac(c, v, t.cmd, mode));
    var peer := LossyPeer(c, t.profile, passage);
    if passage.CommandLost? {
      FinishedSilent(c, peer, w.card, Some(v), mode, frame, MAX_APDU, w.card);
    } else if passage.ReplyLost? {
      FinishedSilent(c, peer, w.card, Some(v), mode, frame, MAX_APDU, Moved(w.card, t));
    } else {
      C.ReplyFitsIff(c, Moved(w.card, t), t.profile);
      FinishedWithout(c, peer, w.card, Some(v), mode, frame, MAX_APDU, MAX_APDU, Moved(w.card, t),
                      C.Reply(c, Moved(w.card, t), t.profile));
    }
  }

  lemma OpenedThrough(c: Cipher, w: World, t: Trip)
    requires Understood(c, w.host, w.card, t) && CommandFits(t) && C.ReplyFits(t.profile)
    ensures LossySend(c, Through)(w, t)
         == (Moved(w.card, t), Advanced(Some(w.host)), C.HandedOver(c, Moved(w.card, t), t.profile))
  {
    var mode, v := t.profile.mode, w.host;
    C.ReplyFitsIff(c, Moved(w.card, t), t.profile);
    FinishedWith(c, LossyPeer(c, t.profile, Through), w.card, Some(v), mode,
                 Frame(c, Some(v), t.cmd, mode, C.HostMac(c, v, t.cmd, mode)), MAX_APDU, MAX_APDU, Moved(w.card, t),
                 C.Reply(c, Moved(w.card, t), t.profile));
    HandedOverFits(c, Moved(w.card, t), t.profile);
  }

  /** The world after an exchange. */
  function AfterPassage(c: Cipher, w: World, t: Trip, passage: Passage): World {
    if ReplyOpened(t, passage) then After(c, w, t)
    else World(w.host, if passage.CommandLost? then w.card else Moved(w.card, t), w.outbox + [[]])
  }

  lemma LandsAs(send: (World, Trip) -> (C.Card, Option<View>, seq<byte>), w: World, t: Trip, k: C.Card)
    requires send(w, t) == (k, Some(w.host), [])
    ensures Landed(send, w, t) == World(w.host, k, w.outbox + [[]])
  {
  }

  lemma LossyRound(c: Cipher, w: World, t: Trip, passage: Passage)
    requires Understood(c, w.host, w.card, t) && CommandFits(t)
    ensures Landed(LossySend(c, passage), w, t) == AfterPassage(c, w, t, passage)
  {
    if ReplyOpened(t, passage) {
      OpenedThrough(c, w, t);
      LandsAfter(LossySend(c, passage), c, w, t);
    } else {
      NotOpened(c, w, t, passage);
      LandsAs(LossySend(c, passage), w, t, if passage.CommandLost? then w.card else Moved(w.card, t));
    }
  }

  /** In step exactly if the command was lost or the reply opened; otherwise the card is one ahead. */
  ghost predicate InStepIff(w: World, t: Trip, passage: Passage) {
    && (C.Synced(w.host, w.card) <==> passage.CommandLost? || ReplyOpened(t, passage))
    && (!C.Synced(w.host, w.card) ==> (w.card.counter - w.host.counter) % 0x1_0000 == 1)
  }

  lemma PassageInStep(c: Cipher, w: World, t: Trip, passage: Passage)
    requires C.Synced(w.host, w.card)
    ensures InStepIff(AfterPassage(c, w, t, passage), t, passage)
  {
    if ReplyOpened(t, passage) {
      SyncedMoves(w.host, w.card, t);
    } else if !passage.CommandLost? {
      OneAhead(w.host.counter, w.card.counter);
    }
  }

  /** After an exchange in which anything may be lost, host and card are in step exactly if the command was lost
      or the host opened the reply; otherwise the card is one ahead. */
  lemma SyncedAfterIff(c: Cipher, w: World, t: Trip, passage: Passage)
    requires C.Synced(w.host, w.card) && CommandFits(t)
    ensures InStepIff(Landed(LossySend(c, passage), w, t), t, passage)
  {
    SyncedUnderstood(c, w.host, w.card, t);
    LossyRound(c, w, t, passage);
    PassageInStep(c, w, t, passage);
  }

  lemma OneAhead(h: Int16, k: nat)
    requires (h - k) % 0x1_0000 == 0
    ensures ((k + 1) % 0x1_0000 - h) % 0x1_0000 == 1 && (h - (k + 1) % 0x1_0000) % 0x1_0000 != 0
  {
  }

  // ---- Runs --------------------------------------------------------------------------------------

  type LossyTrip = (Trip, Passage)

  function LossyRounds(c: Cipher): (World, LossyTrip) -> World {
    (w: World, x: LossyTrip) => Landed(LossySend(c, x.1), w, x.0)
  }

  /** The commands that reach the card. */
  function Arriving(trips: seq<LossyTrip>): seq<C.Order> {
    if trips == [] then [] else
      Arriving(trips[..|trips| - 1])
      + if trips[|trips| - 1].1.CommandLost? then [] else [Delivered(trips[|trips| - 1].0)]
  }

  /** Commands may be lost, replies may not. */
  predicate RepliesKept(x: LossyTrip) {
    CommandFits(x.0) && (x.1.CommandLost? || ReplyOpened(x.0, x.1))
  }

  /** In step, with exactly the commands that were not lost received and counted. */
  ghost predicate CountedInStep(w: World, w': World, arrived: seq<C.Order>) {
    && C.Synced(w'.host, w'.card)
    && w'.card.inbox == w.card.inbox + arrived
    && w'.host.counter == ToInt16(w.host.counter + |arrived|)
    && w'.card.counter == (w.card.counter + |arrived|) % 0x1_0000
  }

  lemma PassageCounts(c: Cipher, w: World, w1: World, arrived: seq<C.Order>, x: LossyTrip)
    requires CountedInStep(w, w1, arrived) && RepliesKept(x)
    ensures CountedInStep(w, AfterPassage(c, w1, x.0, x.1), arrived + if x.1.CommandLost? then [] else [Delivered(x.0)])
  {
    if x.1.CommandLost? {
      assert arrived + [] == arrived;
    } else {
      SyncedMoves(w1.host, w1.card, x.0);
      HostCountsOn(w.host.counter, |arrived|);
      CardCountsOn(w.card.counter, |arrived|);
      assert w.card.inbox + arrived + [Delivered(x.0)] == w.card.inbox + (arrived + [Delivered(x.0)]);
    }
  }

  lemma RoundCounts(c: Cipher, w: World, w1: World, arrived: seq<C.Order>, x: LossyTrip)
    requires CountedInStep(w, w1, arrived) && RepliesKept(x)
    ensures CountedInStep(w, LossyRounds(c)(w1, x), arrived + if x.1.CommandLost? then [] else [Delivered(x.0)])
  {
    SyncedUnderstood(c, w1.host, w1.card, x.0);
    LossyRound(c, w1, x.0, x.1);
    PassageCounts(c, w, w1, arrived, x);
  }

  ghost predicate KeepsCount(round: (World, LossyTrip) -> World, w: World) {
    forall w1, arrived, x {:trigger CountedInStep(w, w1, arrived), round(w1, x)} ::
      CountedInStep(w, w1, arrived) && RepliesKept(x)
      ==> CountedInStep(w, round(w1, x), arrived + if x.1.CommandLost? then [] else [Delivered(x.0)])
  }

  lemma {:induction false} RunCounts(round: (World, LossyTrip) -> World, w: World, trips: seq<LossyTrip>)
    requires KeepsCount(round, w) && CountedInStep(w, w, [])
    requires forall x <- trips :: RepliesKept(x)
    ensures CountedInStep(w, RunOf(round, w, trips), Arriving(trips))
  {
    if trips != [] {
      var front, last := trips[..|trips| - 1], trips[|trips| - 1];
      RunCounts(round, w, front);
      assert RepliesKept(last);
      assert CountedInStep(w, round(RunOf(round, w, front), last), Arriving(trips));
    }
  }

  lemma RoundsCount(c: Cipher, w: World)
    ensures KeepsCount(LossyRounds(c), w)
  {
    var round := LossyRounds(c);
    forall w1, arrived, x {:trigger CountedInStep(w, w1, arrived), round(w1, x)}
      | CountedInStep(w, w1, arrived) && RepliesKept(x)
      ensures CountedInStep(w, round(w1, x), arrived + if x.1.CommandLost? then [] else [Delivered(x.0)])
    {
      RoundCounts(c, w, w1, arrived, x);
    }
  }

  /** Over every run in which commands are lost but no reply is: host and card stay in step, and the card has
      exactly the commands that were not lost. */
  lemma LossyRunAgrees(c: Cipher, w: World, trips: seq<LossyTrip>)
    requires C.Synced(w.host, w.card) && forall x <- trips :: RepliesKept(x)
    ensures CountedInStep(w, RunOf(LossyRounds(c), w, trips), Arriving(trips))
  {
    RoundsCount(c, w);
    CountsFrom(w.host.counter, w.card.counter);
    assert w.card.inbox + [] == w.card.inbox;
    RunCounts(LossyRounds(c), w, trips);
  }

  // ---- Runs in which replies are missed ------------------------------------------------------------

  /** A property of the world before each exchange of a run and after the last. */
  ghost predicate Throughout<X>(round: (World, X) -> World, good: World -> bool, w: World, trips: seq<X>) {
    if trips == [] then good(w) else
      Throughout(round, good, w, trips[..|trips| - 1]) && good(RunOf(round, w, trips))
  }

  /** An exchange from a good world ends in a good world exactly if it is a fine one. */
  ghost predicate StaysIff<X(!new)>(round: (World, X) -> World, good: World -> bool, fits: X -> bool, fine: X -> bool) {
    forall w: World, x: X {:trigger round(w, x)} :: good(w) && fits(x) ==> (good(round(w, x)) <==> fine(x))
  }

  lemma {:induction false} ThroughoutIff<X(!new)>(round: (World, X) -> World, good: World -> bool, fits: X -> bool,
    fine: X -> bool, w: World, trips: seq<X>)
    requires StaysIff(round, good, fits, fine) && good(w)
    requires forall x <- trips :: fits(x)
    ensures Throughout(round, good, w, trips) <==> forall x <- trips :: fine(x)
    ensures Throughout(round, good, w, trips) ==> good(RunOf(round, w, trips))
  {
    if trips != [] {
      var front, last := trips[..|trips| - 1], trips[|trips| - 1];
      assert trips == front + [last];
      ThroughoutIff(round, good, fits, fine, w, front);
      if Throughout(round, good, w, front) {
        assert good(round(RunOf(round, w, front), last)) <==> fine(last);
      }
    }
  }

  ghost predicate InStep(w: World) {
    C.Synced(w.host, w.card)
  }

  /** Over every run, whatever is lost: host and card are in step before each exchange and at the end exactly if
      the reply to every command that arrives is opened. */
  lemma InStepThroughoutIff(c: Cipher, w: World, trips: seq<LossyTrip>)
    requires C.Synced(w.host, w.card) && forall x <- trips :: CommandFits(x.0)
    ensures Throughout(LossyRounds(c), InStep, w, trips) <==> forall x <- trips :: RepliesKept(x)
  {
    forall w: World, x: LossyTrip | InStep(w) && CommandFits(x.0)
      ensures InStep(LossyRounds(c)(w, x)) <==> RepliesKept(x)
    {
      SyncedAfterIff(c, w, x.0, x.1);
    }
    ThroughoutIff(LossyRounds(c), InStep, (x: LossyTrip) => CommandFits(x.0), RepliesKept, w, trips);
  }

  predicate IsPlain(x: LossyTrip) {
    CommandFits(x.0) && x.0.profile.mode == PLAIN
  }

  /** The replies that the host does not get although the card has counted the command. */
  function Missed(trips: seq<LossyTrip>): nat {
    if trips == [] then 0 else
      Missed(trips[..|trips| - 1])
      + if trips[|trips| - 1].1.CommandLost? || ReplyOpened(trips[|trips| - 1].0, trips[|trips| - 1].1) then 0 else 1
  }

  /** How far the card is ahead of the host. */
  function Ahead(w: World): nat {
    (w.card.counter - w.host.counter) % 0x1_0000
  }

  /** The card has the commands that arrived, and is as many further ahead as replies were missed. */
  ghost predicate RanAhead(w: World, w': World, trips: seq<LossyTrip>) {
    && w'.host == w.host.(counter := w'.host.counter)
    && w'.card.inbox == w.card.inbox + Arriving(trips)
    && Ahead(w') == (Ahead(w) + Missed(trips)) % 0x1_0000
  }

  lemma PlainPassage(c: Cipher, w: World, w1: World, front: seq<LossyTrip>, x: LossyTrip)
    requires RanAhead(w, w1, front) && IsPlain(x)
    ensures RanAhead(w, AfterPassage(c, w1, x.0, x.1), front + [x])
  {
    assert (front + [x])[..|front|] == front;
    var h, k := w1.host.counter, w1.card.counter;
    if ReplyOpened(x.0, x.1) {
      BothMove(h, k);
    } else if !x.1.CommandLost? {
      CardMovesOn(h, k, Ahead(w) + Missed(front));
    }
  }

  lemma BothMove(h: int, k: nat)
    ensures ((k + 1) % 0x1_0000 - ToInt16(h + 1)) % 0x1_0000 == (k - h) % 0x1_0000
  {
    assert (h + 1 - ToInt16(h + 1)) % 0x1_0000 == 0;
  }

  lemma CardMovesOn(h: int, k: nat, n: nat)
    requires (k - h) % 0x1_0000 == n % 0x1_0000
    ensures ((k + 1) % 0x1_0000 - h) % 0x1_0000 == (n + 1) % 0x1_0000
  {
  }

  /** Over every run of PLAIN commands, from any counters and whatever is lost: the card has exactly the commands
      that arrived, in order, and is as many further ahead as replies were missed, modulo 2^16. */
  lemma {:induction false} PlainRunAhead(c: Cipher, w: World, trips: seq<LossyTrip>)
    requires w.host.authenticated && forall x <- trips :: IsPlain(x)
    ensures RanAhead(w, RunOf(LossyRounds(c), w, trips), trips)
  {
    if trips == [] {
      assert w.card.inbox + [] == w.card.inbox;
    } else {
      var front, x := trips[..|trips| - 1], trips[|trips| - 1];
      assert trips == front + [x] && x in trips && IsPlain(x);
      PlainRunAhead(c, w, front);
      var w1 := RunOf(LossyRounds(c), w, front);
      PlainUnderstood(c, w1.host, w1.card, x.0);
      LossyRound(c, w1, x.0, x.1);
      PlainPassage(c, w, w1, front, x);
    }
  }

  // ---- Commands that are refused -----------------------------------------------------------------------

  /** The card does not accept what this host sends. */
  predicate Refused(c: Cipher, w: World, t: Trip) {
    var mode := t.profile.mode;
    C.Receive(c, w.card, mode, t.profile.headerLength,
              Frame(c, Some(w.host), t.cmd, mode, C.HostMac(c, w.host, t.cmd, mode))).None?
  }

  /** A command that the card refuses is counted by the host, which takes the bare 91 1E for an answer, and not
      by the card: the card is one less ahead. */
  lemma RefusalCounted(c: Cipher, w: World, t: Trip)
    requires w.host.authenticated && CommandFits(t) && Refused(c, w, t)
    ensures Landed(LossySend(c, Through), w, t) == AfterRefusal(w)
    ensures Ahead(AfterRefusal(w)) == (Ahead(w) - 1) % 0x1_0000
  {
    RefusalSent(c, w, t);
    HostMovesOn(w.host.counter, w.card.counter);
  }

  function AfterRefusal(w: World): World {
    World(w.host.(counter := ToInt16(w.host.counter + 1)), w.card, w.outbox + [[0x91, 0x1E]])
  }

  lemma RefusalSent(c: Cipher, w: World, t: Trip)
    requires w.host.authenticated && CommandFits(t) && Refused(c, w, t)
    ensures Landed(LossySend(c, Through), w, t) == AfterRefusal(w)
  {
    var mode := t.profile.mode;
    FinishedWith(c, LossyPeer(c, t.profile, Through), w.card, Some(w.host), mode,
                 Frame(c, Some(w.host), t.cmd, mode, C.HostMac(c, w.host, t.cmd, mode)), MAX_APDU, MAX_APDU, w.card,
                 [0x91, 0x1E]);
  }

  lemma HostMovesOn(h: int, k: nat)
    ensures (k - ToInt16(h + 1)) % 0x1_0000 == ((k - h) % 0x1_0000 - 1) % 0x1_0000
  {
    assert (h + 1 - ToInt16(h + 1)) % 0x1_0000 == 0;
  }

  /** One command delivered, and host and card in step. */
  ghost predicate Mended(w: World, w': World, t: Trip) {
    C.Synced(w'.host, w'.card) && w'.card.inbox == w.card.inbox + [Delivered(t)]
  }

  lemma RefusedOneAhead(c: Cipher, w: World, w1: World, t1: Trip, t2: Trip)
    requires C.Synced(w.host, w.card) && w1.host == w.host && w1.card == Moved(w.card, t1)
    requires CommandFits(t2) && Refused(c, w1, t2)
    ensures Mended(w, Landed(LossySend(c, Through), w1, t2), t1)
  {
    RefusalCounted(c, w1, t2);
    MovedInStep(w.host, w.card, t1);
  }

  lemma MovedInStep(v: View, k: C.Card, t: Trip)
    requires C.Synced(v, k)
    ensures C.Synced(v.(counter := ToInt16(v.counter + 1)), Moved(k, t))
    ensures Moved(k, t).inbox == k.inbox + [Delivered(t)]
  {
    SyncedMoves(v, k, t);
  }

  lemma MissedOneAhead(c: Cipher, w: World, t: Trip, passage: Passage)
    requires C.Synced(w.host, w.card) && CommandFits(t) && !passage.CommandLost? && !ReplyOpened(t, passage)
    ensures Landed(LossySend(c, passage), w, t) == World(w.host, Moved(w.card, t), w.outbox + [[]])
  {
    SyncedUnderstood(c, w.host, w.card, t);
    LossyRound(c, w, t, passage);
  }

  /** So a missed reply and then a refused command leave host and card in step, with the first command on the
      card, and the second not. */
  lemma RefusalMends(c: Cipher, w: World, t1: Trip, passage: Passage, t2: Trip)
    requires C.Synced(w.host, w.card) && CommandFits(t1) && CommandFits(t2)
    requires !passage.CommandLost? && !ReplyOpened(t1, passage)
    requires Refused(c, Landed(LossySend(c, passage), w, t1), t2)
    ensures Mended(w, Landed(LossySend(c, Through), Landed(LossySend(c, passage), w, t1), t2), t1)
  {
    MissedOneAhead(c, w, t1, passage);
    RefusedOneAhead(c, w, Landed(LossySend(c, passage), w, t1), t1, t2);
  }
}
