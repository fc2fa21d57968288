/** The other end of an ISO-DEP exchange: a card that keeps the block handling rules of section 7.5.4 of
    ISO/IEC 14443-4 with unchained replies, behind a field that loses frames. */
module Picc {
  import opened Octets
  import opened Bytes
  import opened IsoDep
  import opened Mfrc522

  /** What runs on the card: a command gives its new state, its answer, and the requests for more time it
      makes first. */
  type Program<!C> = (C, seq<byte>) -> (C, seq<byte>, seq<byte>)

  /** The card: block number, block sent last, requests for more time and answer not sent yet, and all
      commands carried out. */
  datatype Card<C> = Card(
    app: C, number: bool, last: Option<Block>, waits: seq<byte>, answer: seq<byte>, executed: seq<seq<byte>>)

  // ---- Blocks on the card's side ----------------------------------------------------------------------

  function AckBlock(cid: bool, id: byte, number: bool): Block {
    Block(if cid then (if number then 0xAB else 0xAA) else if number then 0xA3 else 0xA2, if cid then id else 0, 0, [])
  }

  function AnswerBlock(cid: bool, id: byte, number: bool, answer: seq<byte>): Block {
    Block(if cid then (if number then 0x0B else 0x0A) else if number then 0x03 else 0x02,
          if cid then id else 0, 0, answer)
  }

  function WaitBlock(cid: bool, id: byte, multiplier: byte): Block {
    Block(if cid then 0xFA else 0xF2, if cid then id else 0, 0, [multiplier])
  }

  // ---- The coding -----------------------------------------------------------------------------------------

  /** The prologues of the reader's I-blocks and R(NAK), byte by byte. */
  lemma BlocksCoded(number: bool, cid: bool, data: seq<byte>)
    ensures var n: byte := if number then 1 else 0;
            && Prologue(IBlock(number, cid, data)) == (if cid then [0x0A + n, 0x00] else [0x02 + n])
            && Prologue(Rnak(IBlock(number, cid, data))) == (if cid then [0xBA + n, 0x00] else [0xB2 + n])
  {
  }

  /** Where the information field of a block begins: behind its PCB, the CID that bit 4 announces, and the node address
      that bit 3 announces. */
  function FieldStart(pcb: byte): nat {
    1 + (if pcb & 0x08 != 0 then 1 else 0) + (if pcb & 0x04 != 0 then 1 else 0)
  }

  /** What the reader makes of a block, by the coding of ISO/IEC 14443-4: the field of an I-block, an R(ACK) or an
      S(DESELECT) is a reply, an R(NAK) an error, and an S(WTX) is granted under its CID what it asks for. */
  lemma BlocksTold(body: seq<byte>)
    requires |body| >= 2 && |body| >= FieldStart(body[0])
    ensures var pcb, inf := body[0], body[FieldStart(body[0])..];
            && (pcb & 0xE2 == 0x02 || pcb & 0xF6 == 0xA2 || pcb & 0xF7 == 0xC2 ==>
                  Interpret(pcb, body) == Final(pcb, inf))
            && (pcb & 0xF6 == 0xB2 ==> Interpret(pcb, body) == Bad(MifareNack))
            && (pcb == 0xF2 && |inf| == 1 ==> Interpret(pcb, body) == Parsed.Wait(Block(0xF2, 0, 0, inf)))
            && (pcb == 0xFA && |inf| == 1 ==> Interpret(pcb, body) == Parsed.Wait(Block(0xFA, body[1], 0, inf)))
  {
  }

  /** The next request for more time, or the answer. */
  function Respond<C>(card: Card<C>, cid: bool, id: byte): (Card<C>, Option<Block>) {
    if card.waits == [] then
      var b := AnswerBlock(cid, id, card.number, card.answer);
      (card.(last := Some(b)), Some(b))
    else
      var b := WaitBlock(cid, id, card.waits[0]);
      (card.(last := Some(b), waits := card.waits[1..]), Some(b))
  }

  /** The coding of section 7.1.2.1 of ISO/IEC 14443-4, with its fixed bits: 000xxx1x is an I-block, 1011x01x an
      R(NAK), and 1111x010 an S(WTX). */
  predicate IsIBlock(pcb: byte) {
    pcb & 0xE2 == 0x02
  }

  predicate IsNak(pcb: byte) {
    pcb & 0xF6 == 0xB2
  }

  predicate IsWait(pcb: byte) {
    pcb & 0xF7 == 0xF2
  }

  predicate Waits<C>(card: Card<C>) {
    card.last.Some? && IsWait(card.last.value.pcb)
  }

  /** A block of the reader, and what the card sends back, if anything. An I-block is carried out and changes
      the card's number (rule D of section 7.5.3.2); an R(NAK) with that number repeats the last block (rule
      11), any other brings an R(ACK) (rule 12); an answer to a request for more time, which must grant what was asked
      for, brings the next block. */
  function Step<C>(program: Program<C>, card: Card<C>, b: Block): (Card<C>, Option<Block>) {
    if IsIBlock(b.pcb) then
      var (app', answer, waits) := program(card.app, b.inf);
      Respond(card.(app := app', number := !card.number,
                    waits := waits, answer := answer, executed := card.executed + [b.inf]),
        HasCid(b.pcb), b.cid)
    else if IsNak(b.pcb) && Number(b.pcb) == card.number then (card, card.last)
    else if IsNak(b.pcb) then
      var ack := AckBlock(HasCid(b.pcb), b.cid, card.number);
      (card.(last := Some(ack)), Some(ack))
    else if IsWait(b.pcb) && Waits(card) && b.inf == card.last.value.inf then Respond(card, HasCid(b.pcb), b.cid)
    else (card, None)
  }

  // ---- The field ----------------------------------------------------------------------------------------

  /** One frame in the field: both ways arrive, or the frame of the reader is lost, or the card's is. What a
      loss looks like to the reader is any status, with nothing received. */
  datatype Event = Arrives | LostDown(status: Status) | LostUp(status: Status)

  datatype Air<C> = Air(card: Card<C>, time: nat)

  function Encode(b: Block): seq<byte> {
    Prologue(b) + b.inf
  }

  predicate Canonical(b: Block) {
    (!HasCid(b.pcb) ==> b.cid == 0) && (!HasNad(b.pcb) ==> b.nad == 0)
  }

  function Decode(s: seq<byte>): Option<Block> {
    if |s| == 0 || |s| < Offset(s[0]) then None
    else Some(Block(s[0], if HasCid(s[0]) then s[1] else 0,
                    if HasNad(s[0]) then s[Offset(s[0]) - 1] else 0, s[Offset(s[0])..]))
  }

  lemma DecodeEncode(b: Block)
    requires Canonical(b)
    ensures Decode(Encode(b)) == Some(b)
  {
    assert Encode(b)[Offset(b.pcb)..] == b.inf;
  }

  /** The CRC, where the chip does not take care of it. */
  function Seal(byChip: bool, crc: seq<byte> -> Crc, s: seq<byte>): seq<byte> {
    if byChip then s else s + crc(s)
  }

  function Unseal(byChip: bool, crc: seq<byte> -> Crc, f: seq<byte>): Option<seq<byte>> {
    if byChip then Some(f)
    else if |f| < 2 || crc(f[..|f| - 2]) != f[|f| - 2..] then None
    else Some(f[..|f| - 2])
  }

  lemma UnsealSeal(byChip: bool, crc: seq<byte> -> Crc, s: seq<byte>)
    ensures Unseal(byChip, crc, Seal(byChip, crc, s)) == Some(s)
  {
    if !byChip {
      var f := s + crc(s);
      assert f[..|f| - 2] == s && f[|f| - 2..] == crc(s);
    }
  }

  /** The card's reply as the reader receives it. */
  function Heard(env: Env, reply: Option<Block>): (Status, Received) {
    if reply.None? || |Seal(env.rxCrc, env.coprocessor.crc, Encode(reply.value))| > FIFO_SIZE then (Timeout, [])
    else (Ok, Seal(env.rxCrc, env.coprocessor.crc, Encode(reply.value)))
  }

  /** A block in the field. */
  function Carry<C>(env: Env, program: Program<C>, event: Event, card: Card<C>, b: Block): (Card<C>, Status, Received) {
    if event.LostDown? then (card, event.status, []) else
      var (card', reply) := Step(program, card, b);
      if event.LostUp? then (card', event.status, []) else
        var (status, data) := Heard(env, reply);
        (card', status, data)
  }

  /** A frame in the field; one that is not a block finds no one. */
  function Pass<C>(env: Env, program: Program<C>, losses: nat -> Event, air: Air<C>, frame: seq<byte>)
    : (Air<C>, Status, Received)
  {
    var body := Unseal(env.txCrc, env.coprocessor.crc, frame);
    var b := if body.None? then None else Decode(body.value);
    if b.None? then (Air(air.card, air.time + 1), Timeout, []) else
      var (card', status, data) := Carry(env, program, losses(air.time), air.card, b.value);
      (Air(card', air.time + 1), status, data)
  }

  function FieldOf<C>(env: Env, program: Program<C>, losses: nat -> Event): Field<Air<C>> {
    (air: Air<C>, frame: seq<byte>) => Pass(env, program, losses, air, frame)
  }

  /** A block that is sent as a frame is carried as a block. */
  lemma FrameCarries<C>(env: Env, program: Program<C>, losses: nat -> Event, line: Line<Air<C>>, b: Block)
    requires Canonical(b) && Wire(env, b).Frame?
    ensures Transceive(FieldOf(env, program, losses), line, Wire(env, b).bytes)
         == (var (card', status, data) := Carry(env, program, losses(line.state.time), line.state.card, b);
             (Line(Air(card', line.state.time + 1), line.sent + [Wire(env, b).bytes]), status, data))
  {
    DecodeEncode(b);
    UnsealSeal(env.txCrc, env.coprocessor.crc, Encode(b));
    assert Wire(env, b).bytes == Seal(env.txCrc, env.coprocessor.crc, Encode(b));
  }

  // ---- What the reader makes of a reply --------------------------------------------------------------

  lemma InterpretEncoded(b: Block)
    requires !(b.pcb & 0xC0 == 0x80 && b.pcb & 0x10 != 0)
    ensures Interpret(b.pcb, Encode(b))
         == if IsWtx(b.pcb, b.inf) then Parsed.Wait(WtxAnswer(b.pcb, Encode(b)[1], b.inf)) else Final(b.pcb, b.inf)
  {
    assert Encode(b)[Offset(b.pcb)..] == b.inf;
  }

  /** The reader understands a reply that it received, unless its coprocessor fails. */
  lemma ParseSealed(env: Env, b: Block)
    ensures var p := Parse(env, Seal(env.rxCrc, env.coprocessor.crc, Encode(b)));
            p == if env.rxCrc || env.coprocessor.works then Interpret(b.pcb, Encode(b)) else Bad(Timeout)
  {
    var s := Encode(b);
    if !env.rxCrc {
      var f := s + env.coprocessor.crc(s);
      assert f[..|f| - 2] == s && f[|f| - 2..] == env.coprocessor.crc(s);
    }
  }

  // ---- A call against the card ----------------------------------------------------------------------

  /** Nothing has happened since `before`, except that the card may have sent an R(ACK). */
  ghost predicate Idle<C>(before: Card<C>, card: Card<C>) {
    card.(last := before.last) == before
  }

  predicate IsRequest(b: Block) {
    (b.pcb == 0xF2 || b.pcb == 0xFA) && Canonical(b) && |b.inf| == 1
  }

  predicate IsAnswer(b: Block, answer: seq<byte>) {
    IsIBlock(b.pcb) && b.pcb & 0x10 == 0 && !HasNad(b.pcb) && b.inf == answer
  }

  /** The command has been carried out, once, and the last block is its answer or a request for more time. */
  ghost predicate Running<C>(program: Program<C>, before: Card<C>, send: Block, card: Card<C>) {
    && card.app == program(before.app, send.inf).0
    && card.answer == program(before.app, send.inf).1
    && card.number == !before.number
    && card.executed == before.executed + [send.inf]
    && card.last.Some? && HasCid(card.last.value.pcb) == HasCid(send.pcb)
    && (IsRequest(card.last.value) || (card.waits == [] && IsAnswer(card.last.value, card.answer)))
  }

  /** Requests for more time the reader has yet to answer. */
  function Remaining<C>(card: Card<C>): nat {
    if Waits(card) then 1 + |card.waits| else 0
  }

  lemma Responds<C>(card: Card<C>, cid: bool, id: byte)
    ensures var (card', reply) := Respond(card, cid, id);
            && card' == card.(last := card'.last, waits := card'.waits)
            && reply == card'.last && reply.Some? && HasCid(reply.value.pcb) == cid
            && (IsRequest(reply.value) || (card'.waits == [] && IsAnswer(reply.value, card.answer)))
            && Remaining(card') == |card.waits|
  {
  }

  lemma CommandRuns<C>(program: Program<C>, before: Card<C>, card: Card<C>, send: Block)
    requires Idle(before, card) && IsIBlock(send.pcb)
    ensures var (card', reply) := Step(program, card, send);
            && Running(program, before, send, card') && reply == card'.last
            && Remaining(card') == |program(before.app, send.inf).2|
  {
    var (app', answer, waits) := program(card.app, send.inf);
    Responds(card.(app := app', number := !card.number,
                   waits := waits, answer := answer, executed := card.executed + [send.inf]),
      HasCid(send.pcb), send.cid);
  }

  lemma NakBits(send: Block)
    ensures var pcb := Rnak(send).pcb;
            IsNak(pcb) && !IsIBlock(pcb) && Number(pcb) == Number(send.pcb)
            && HasCid(pcb) == HasCid(send.pcb) && !HasNad(pcb)
  {
  }

  /** An R(NAK) repeats the last block once the command runs; before that it brings an R(ACK). */
  lemma NakRepeats<C>(program: Program<C>, before: Card<C>, card: Card<C>, send: Block)
    requires before.number != Number(send.pcb)
    ensures Running(program, before, send, card) ==> Step(program, card, Rnak(send)) == (card, card.last)
    ensures Idle(before, card) ==>
              var (card', reply) := Step(program, card, Rnak(send));
              Idle(before, card') && reply == Some(AckBlock(HasCid(send.pcb), Rnak(send).cid, before.number))
  {
    NakBits(send);
  }

  lemma WaitStep<C>(program: Program<C>, before: Card<C>, send: Block, card: Card<C>, b: Block)
    requires Running(program, before, send, card) && IsRequest(b) && card.last == Some(b)
    ensures var (card', reply) := Step(program, card, b);
            && Running(program, before, send, card')
            && Waits(card) && reply == card'.last && Remaining(card') == Remaining(card) - 1
  {
    Responds(card, HasCid(b.pcb), b.cid);
  }

  /** What the reader may understand: nothing of use, the answer of a running command, or its request for
      more time. */
  ghost predicate Says<C>(program: Program<C>, before: Card<C>, send: Block, card: Card<C>, p: Parsed) {
    match p
    case Bad(_) => true
    case Final(pcb, inf) =>
      pcb & 0x10 == 0 && (inf == [] || (Running(program, before, send, card) && inf == card.answer))
    case Wait(b) => Running(program, before, send, card) && IsRequest(b) && card.last == Some(b)
  }

  lemma RequestRead(b: Block)
    requires IsRequest(b)
    ensures Interpret(b.pcb, Encode(b)) == Parsed.Wait(b)
  {
    InterpretEncoded(b);
  }

  lemma AnswerRead(b: Block, answer: seq<byte>)
    requires IsAnswer(b, answer)
    ensures Interpret(b.pcb, Encode(b)) == Final(b.pcb, answer)
  {
    InterpretEncoded(b);
  }

  lemma AckRead(cid: bool, id: byte, number: bool)
    ensures var b := AckBlock(cid, id, number);
            Interpret(b.pcb, Encode(b)) == Final(b.pcb, []) && b.pcb & 0x10 == 0
  {
    InterpretEncoded(AckBlock(cid, id, number));
  }

  lemma NothingRead(env: Env)
    ensures Parse(env, []) == if env.rxCrc then Final(0, []) else Bad(CrcWrong)
  {
  }

  /** What a running card sent last is understood as what it is. */
  lemma LastRead<C>(program: Program<C>, before: Card<C>, send: Block, card: Card<C>, env: Env)
    requires Running(program, before, send, card)
    ensures var p := Parse(env, Seal(env.rxCrc, env.coprocessor.crc, Encode(card.last.value)));
            && Says(program, before, send, card, p)
            && (env.rxCrc || env.coprocessor.works ==>
                if Waits(card) then p == Parsed.Wait(card.last.value) else p == Final(card.last.value.pcb, card.answer))
  {
    var b := card.last.value;
    ParseSealed(env, b);
    if IsRequest(b) {
      RequestRead(b);
    } else {
      AnswerRead(b, card.answer);
    }
  }

  // ---- Safety: for every schedule of losses -----------------------------------------------------------

  lemma CarryNak<C>(env: Env, program: Program<C>, event: Event, before: Card<C>, card: Card<C>, send: Block)
    requires before.number != Number(send.pcb)
    requires Running(program, before, send, card) || Idle(before, card)
    ensures var (card', status, data) := Carry(env, program, event, card, Rnak(send));
            && (Running(program, before, send, card) ==> card' == card)
            && (Idle(before, card) ==> Idle(before, card'))
            && (status == Ok ==> Says(program, before, send, card', Parse(env, data)))
  {
    NothingRead(env);
    NakRepeats(program, before, card, send);
    if Idle(before, card) {
      var (card', reply) := Step(program, card, Rnak(send));
      AckRead(HasCid(send.pcb), Rnak(send).cid, before.number);
      ParseSealed(env, reply.value);
    } else {
      LastRead(program, before, send, card, env);
    }
  }

  lemma RnakCanonical(send: Block)
    ensures Canonical(Rnak(send))
  {
    NakBits(send);
  }

  lemma {:induction false} RecoverKeeps<C>(env: Env, program: Program<C>, losses: nat -> Event, before: Card<C>,
    line: Line<Air<C>>, send: Block, retries: nat)
    requires before.number != Number(send.pcb) && retries > 0
    requires Running(program, before, send, line.state.card) || Idle(before, line.state.card)
    ensures var (line', t) := Recover(env, FieldOf(env, program, losses), line, Rnak(send), retries);
            && (Running(program, before, send, line.state.card) ==> line'.state.card == line.state.card)
            && (Idle(before, line.state.card) ==> Idle(before, line'.state.card))
            && (t.Heard? ==> Says(program, before, send, line'.state.card, Parse(env, t.data)))
    decreases retries
  {
    if Wire(env, Rnak(send)).Frame? {
      RnakCanonical(send);
      FrameCarries(env, program, losses, line, Rnak(send));
      CarryNak(env, program, losses(line.state.time), before, line.state.card, send);
      if retries > 1 {
        var line' := Transceive(FieldOf(env, program, losses), line, Wire(env, Rnak(send)).bytes).0;
        RecoverKeeps(env, program, losses, before, line', send, retries - 1);
      }
    }
  }

  /** Whether the frame of a block reaches the card. */
  predicate Reaches<C>(env: Env, losses: nat -> Event, line: Line<Air<C>>, b: Block) {
    Wire(env, b).Frame? && !losses(line.state.time).LostDown?
  }

  lemma CarryCommand<C>(env: Env, program: Program<C>, event: Event, before: Card<C>, send: Block)
    requires IsIBlock(send.pcb)
    ensures var (card', status, data) := Carry(env, program, event, before, send);
            && (if event.LostDown? then card' == before else Running(program, before, send, card'))
            && (status == Ok ==> Says(program, before, send, card', Parse(env, data)))
  {
    NothingRead(env);
    if !event.LostDown? {
      CommandRuns(program, before, before, send);
      LastRead(program, before, send, Step(program, before, send).0, env);
    }
  }

  lemma CarryAnswer<C>(env: Env, program: Program<C>, event: Event, before: Card<C>, send: Block, card: Card<C>,
      b: Block)
    requires Running(program, before, send, card) && IsRequest(b) && card.last == Some(b)
    ensures var (card', status, data) := Carry(env, program, event, card, b);
            && Running(program, before, send, card')
            && (status == Ok ==> Says(program, before, send, card', Parse(env, data)))
  {
    NothingRead(env);
    if !event.LostDown? {
      WaitStep(program, before, send, card, b);
      LastRead(program, before, send, Step(program, card, b).0, env);
    }
  }

  /** The first attempt: the command runs exactly if its frame reaches the card. */
  lemma FirstTurn<C>(env: Env, program: Program<C>, losses: nat -> Event, line: Line<Air<C>>, send: Block)
    requires IsIBlock(send.pcb) && Canonical(send) && line.state.card.number != Number(send.pcb)
    ensures var before := line.state.card;
            var (line', p) := Turn(env, FieldOf(env, program, losses), send, line, send);
            && (if Reaches(env, losses, line, send) then Running(program, before, send, line'.state.card)
                else Idle(before, line'.state.card))
            && Says(program, before, send, line'.state.card, p)
  {
    var before := line.state.card;
    if Wire(env, send).Frame? {
      FrameCarries(env, program, losses, line, send);
      CarryCommand(env, program, losses(line.state.time), before, send);
      var (line', status, data) := Transceive(FieldOf(env, program, losses), line, Wire(env, send).bytes);
      if status != Ok {
        RecoverKeeps(env, program, losses, before, line', send, MAX_RETRIES);
      }
    }
  }

  lemma NextTurn<C>(env: Env, program: Program<C>, losses: nat -> Event, before: Card<C>, line: Line<Air<C>>,
    send: Block, b: Block)
    requires before.number != Number(send.pcb) && Running(program, before, send, line.state.card)
    requires IsRequest(b) && line.state.card.last == Some(b)
    ensures var (line', p) := Turn(env, FieldOf(env, program, losses), send, line, b);
            Running(program, before, send, line'.state.card) && Says(program, before, send, line'.state.card, p)
  {
    if Wire(env, b).Frame? {
      FrameCarries(env, program, losses, line, b);
      CarryAnswer(env, program, losses(line.state.time), before, send, line.state.card, b);
      var (line', status, data) := Transceive(FieldOf(env, program, losses), line, Wire(env, b).bytes);
      if status != Ok {
        RecoverKeeps(env, program, losses, before, line', send, MAX_RETRIES);
      }
    }
  }

  lemma LaterTurns<C(!new)>(env: Env, program: Program<C>, losses: nat -> Event, before: Card<C>,
    line: Line<Air<C>>, send: Block, b: Block, left: nat)
    requires before.number != Number(send.pcb) && Running(program, before, send, line.state.card)
    requires IsRequest(b) && line.state.card.last == Some(b)
    ensures var (line', r) := Attempts(Turns(env, FieldOf(env, program, losses), send), line, b, left);
            && Running(program, before, send, line'.state.card)
            && (r.Reply? ==> Says(program, before, send, line'.state.card, Final(r.pcb, r.inf)))
  {
    ghost var kept := (l: Line<Air<C>>, p: Parsed, n: nat) =>
      Running(program, before, send, l.state.card) && Says(program, before, send, l.state.card, p);
    var turn := Turns(env, FieldOf(env, program, losses), send);
    forall l, b, n: nat | n > 0 && kept(l, Parsed.Wait(b), n) ensures kept(turn(l, b).0, turn(l, b).1, n - 1) {
      NextTurn(env, program, losses, before, l, send, b);
    }
    var p, rest := AttemptsKeep(turn, kept, line, b, left);
  }

  /** For every schedule of losses, a call with a number other than the card's has the command carried out
      exactly if its frame reaches the card, and then once; and a reply that is not empty is the answer of
      that one run. */
  lemma ExactlyOnce<C(!new)>(env: Env, program: Program<C>, losses: nat -> Event, line: Line<Air<C>>, send: Block)
    requires IsIBlock(send.pcb) && Canonical(send) && line.state.card.number != Number(send.pcb)
    ensures var before := line.state.card;
            var (line', r) := Exchange(env, FieldOf(env, program, losses), line, send);
            && (if Reaches(env, losses, line, send) then Running(program, before, send, line'.state.card)
                else Idle(before, line'.state.card))
            && (r.Reply? ==> r.pcb & 0x10 == 0)
            && (r.Reply? && r.inf != [] ==>
                  Reaches(env, losses, line, send) && r.inf == program(before.app, send.inf).1)
  {
    FirstTurn(env, program, losses, line, send);
    var (line', p) := Turn(env, FieldOf(env, program, losses), send, line, send);
    if p.Wait? {
      LaterTurns(env, program, losses, line.state.card, line', send, p.answer, ATTEMPTS - 1);
    }
  }
}
