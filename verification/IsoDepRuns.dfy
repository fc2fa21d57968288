/** Whole runs of ISO-DEP calls: the block numbers of reader and card, the answers of a run, the stale answer
    that a wrong number brings, and how many losses and requests for more time a call survives. */
module IsoDepRuns {
  import opened Octets
  import opened Bytes
  import opened IsoDep
  import opened Mfrc522
  import opened Picc

  // ---- Block numbers -----------------------------------------------------------------------------------

  /** The reader's number beside the card's, and the field between them. */
  datatype World<C> = World(number: bool, line: Line<Air<C>>) {
    predicate Apart() {
      number != line.state.card.number
    }
  }

  /** One call of the tag-level transceive: the world after it, what the exchange brought, and its status. */
  function Call<C>(env: Env, field: Field<Air<C>>, cid: bool, world: World<C>, cmd: seq<byte>, capacity: nat)
    : (World<C>, Result, Status)
  {
    var (line', r) := Exchange(env, field, world.line, IBlock(world.number, cid, cmd));
    var status := if r.Aborted? then r.status else Delivery(r.inf, true, Some(capacity));
    (World(world.number != (status == Ok), line'), r, status)
  }

  lemma IBlockIs(number: bool, cid: bool, data: seq<byte>)
    ensures var b := IBlock(number, cid, data);
            IsIBlock(b.pcb) && Canonical(b) && Number(b.pcb) == number && HasCid(b.pcb) == cid && !HasNad(b.pcb)
  {
  }

  /** An exchange that is aborted is not reported as a success. */
  lemma ExchangeAborts<S>(env: Env, field: Field<S>, line: Line<S>, send: Block)
    ensures var r := Exchange(env, field, line, send).1; r.Aborted? ==> r.status != Ok
  {
    AttemptsAbort(env, field, line, send, send, ATTEMPTS);
  }

  lemma {:induction false} AttemptsAbort<S>(env: Env, field: Field<S>, line: Line<S>, send: Block, current: Block,
      left: nat)
    ensures var r := Attempts(Turns(env, field, send), line, current, left).1; r.Aborted? ==> r.status != Ok
    decreases left
  {
    if left > 0 {
      var (line', p) := Turn(env, field, send, line, current);
      if p.Wait? {
        AttemptsAbort(env, field, line', send, p.answer, left - 1);
      }
    }
  }

  /** The card has carried out nothing. */
  ghost predicate Same<C>(before: Card<C>, card: Card<C>) {
    card.app == before.app && card.number == before.number && card.executed == before.executed
  }

  /** The card has carried out the command once, if it `runs`, and otherwise nothing. */
  ghost predicate Advances<C>(program: Program<C>, before: Card<C>, cmd: seq<byte>, runs: bool, card: Card<C>) {
    if runs then
      && card.app == program(before.app, cmd).0 && card.number == !before.number
      && card.executed == before.executed + [cmd]
    else Same(before, card)
  }

  /** Only the frame of an I-block has anything carried out. */
  lemma OtherFrame<C>(env: Env, program: Program<C>, losses: nat -> Event, line: Line<Air<C>>, frame: seq<byte>)
    requires |frame| > 0 && !IsIBlock(frame[0])
    ensures Same(line.state.card, Transceive(FieldOf(env, program, losses), line, frame).0.state.card)
  {
    var body := Unseal(env.txCrc, env.coprocessor.crc, frame);
    if body.Some? && Decode(body.value).Some? {
      FirstByteKept(env.txCrc, env.coprocessor.crc, frame);
      OtherBlock(program, line.state.card, Decode(body.value).value);
    }
  }

  lemma FirstByteKept(byChip: bool, crc: seq<byte> -> Crc, frame: seq<byte>)
    requires |frame| > 0 && Unseal(byChip, crc, frame).Some? && Decode(Unseal(byChip, crc, frame).value).Some?
    ensures Decode(Unseal(byChip, crc, frame).value).value.pcb == frame[0]
  {
  }

  lemma OtherBlock<C>(program: Program<C>, card: Card<C>, b: Block)
    requires !IsIBlock(b.pcb)
    ensures Same(card, Step(program, card, b).0)
  {
  }

  lemma {:induction false} RecoverRunsNothing<C>(env: Env, program: Program<C>, losses: nat -> Event,
    line: Line<Air<C>>, send: Block, retries: nat)
    requires retries > 0
    ensures Same(line.state.card,
                 Recover(env, FieldOf(env, program, losses), line, Rnak(send), retries).0.state.card)
    decreases retries
  {
    NakBits(send);
    if Wire(env, Rnak(send)).Frame? {
      OtherFrame(env, program, losses, line, Wire(env, Rnak(send)).bytes);
      if retries > 1 {
        var line' := Transceive(FieldOf(env, program, losses), line, Wire(env, Rnak(send)).bytes).0;
        RecoverRunsNothing(env, program, losses, line', send, retries - 1);
      }
    }
  }

  lemma OtherTurn<C>(env: Env, program: Program<C>, losses: nat -> Event, line: Line<Air<C>>, send: Block,
    current: Block)
    requires !IsIBlock(current.pcb)
    ensures Same(line.state.card, Turn(env, FieldOf(env, program, losses), send, line, current).0.state.card)
  {
    if Wire(env, current).Frame? {
      OtherFrame(env, program, losses, line, Wire(env, current).bytes);
      var line' := Transceive(FieldOf(env, program, losses), line, Wire(env, current).bytes).0;
      RecoverRunsNothing(env, program, losses, line', send, MAX_RETRIES);
    }
  }

  lemma CarryAdvances<C>(env: Env, program: Program<C>, event: Event, card: Card<C>, send: Block)
    requires IsIBlock(send.pcb)
    ensures Advances(program, card, send.inf, !event.LostDown?, Carry(env, program, event, card, send).0)
  {
    CommandRuns(program, card, card, send);
  }

  lemma CommandTurn<C>(env: Env, program: Program<C>, losses: nat -> Event, line: Line<Air<C>>, send: Block)
    requires IsIBlock(send.pcb) && Canonical(send)
    ensures Advances(program, line.state.card, send.inf, Reaches(env, losses, line, send),
                     Turn(env, FieldOf(env, program, losses), send, line, send).0.state.card)
  {
    if Wire(env, send).Frame? {
      FrameCarries(env, program, losses, line, send);
      CarryAdvances(env, program, losses(line.state.time), line.state.card, send);
      var line' := Transceive(FieldOf(env, program, losses), line, Wire(env, send).bytes).0;
      RecoverRunsNothing(env, program, losses, line', send, MAX_RETRIES);
    }
  }

  /** Whatever the numbers are and whatever is lost, an exchange has its command carried out exactly if its
      I-block arrives, and then once. */
  lemma ExchangeAdvances<C(!new)>(env: Env, program: Program<C>, losses: nat -> Event, line: Line<Air<C>>,
    send: Block)
    requires IsIBlock(send.pcb) && Canonical(send)
    ensures Advances(program, line.state.card, send.inf, Reaches(env, losses, line, send),
                     Exchange(env, FieldOf(env, program, losses), line, send).0.state.card)
  {
    CommandTurn(env, program, losses, line, send);
    LaterTurnsRunNothing(env, program, losses, line, send, ATTEMPTS - 1);
  }

  lemma LaterTurnsRunNothing<C(!new)>(env: Env, program: Program<C>, losses: nat -> Event, line: Line<Air<C>>,
    send: Block, left: nat)
    ensures var turn := Turns(env, FieldOf(env, program, losses), send);
            Same(turn(line, send).0.state.card, Attempts(turn, line, send, left + 1).0.state.card)
  {
    var turn := Turns(env, FieldOf(env, program, losses), send);
    var first := turn(line, send).0.state.card;
    ghost var kept := (l: Line<Air<C>>, p: Parsed, n: nat) =>
      Same(first, l.state.card) && (p.Wait? ==> !IsIBlock(p.answer.pcb));
    TurnsRunNothing(env, program, losses, first, send, kept, turn);
    var p, rest := AttemptsReach(turn, kept, line, send, left);
  }

  lemma TurnsRunNothing<C(!new)>(env: Env, program: Program<C>, losses: nat -> Event, first: Card<C>, send: Block,
    kept: (Line<Air<C>>, Parsed, nat) -> bool, turn: (Line<Air<C>>, Block) -> (Line<Air<C>>, Parsed))
    requires turn == Turns(env, FieldOf(env, program, losses), send)
    requires forall l, p, n {:trigger kept(l, p, n)} ::
      kept(l, p, n) <==> Same(first, l.state.card) && (p.Wait? ==> !IsIBlock(p.answer.pcb))
    ensures KeptByTurns(turn, kept)
  {
    forall l, b, n: nat | n > 0 && kept(l, Parsed.Wait(b), n) ensures kept(turn(l, b).0, turn(l, b).1, n - 1) {
      OtherTurn(env, program, losses, l, send, b);
    }
  }

  /** After a call from any world the numbers are apart, exactly if they were and the call succeeded and its
      I-block arrived, or neither; or they were not, and it was one of the two. */
  lemma NumbersStayApartIff<C(!new)>(env: Env, program: Program<C>, losses: nat -> Event, cid: bool, world: World<C>,
    cmd: seq<byte>, capacity: nat)
    ensures var (world', r, status) := Call(env, FieldOf(env, program, losses), cid, world, cmd, capacity);
            var reaches := Reaches(env, losses, world.line, IBlock(world.number, cid, cmd));
            && (world'.Apart() <==> (world.Apart() <==> (status == Ok <==> reaches)))
            && Advances(program, CardOf(world), cmd, reaches, CardOf(world'))
  {
    IBlockIs(world.number, cid, cmd);
    ExchangeAdvances(env, program, losses, world.line, IBlock(world.number, cid, cmd));
  }

  /** A call that succeeds with something to show for it keeps the numbers apart, and carried out the command,
      once, and its answer is the one shown. */
  lemma AnsweredCall<C(!new)>(env: Env, program: Program<C>, losses: nat -> Event, cid: bool, world: World<C>,
    cmd: seq<byte>, capacity: nat)
    requires world.Apart()
    ensures var (world', r, status) := Call(env, FieldOf(env, program, losses), cid, world, cmd, capacity);
            var card, card' := world.line.state.card, world'.line.state.card;
            status == Ok && r.Reply? && r.inf != [] ==>
              && world'.Apart()
              && card'.app == program(card.app, cmd).0 && card'.executed == card.executed + [cmd]
              && r.inf == program(card.app, cmd).1 && r.pcb & 0x10 == 0
  {
    IBlockIs(world.number, cid, cmd);
    ExactlyOnce(env, program, losses, world.line, IBlock(world.number, cid, cmd));
  }

  // ---- Runs --------------------------------------------------------------------------------------------

  /** A sequence of calls, and what each brought. */
  function Run<W>(call: (W, seq<byte>) -> (W, Result, Status), world: W, cmds: seq<seq<byte>>)
    : (W, seq<(Result, Status)>)
    decreases |cmds|
  {
    if cmds == [] then (world, []) else
      var (world', r, status) := call(world, cmds[0]);
      var (last, rest) := Run(call, world', cmds[1..]);
      (last, [(r, status)] + rest)
  }

  /** The card's program alone: what it makes of commands, each carried out once. */
  function Alone<C>(program: Program<C>, app: C, cmds: seq<seq<byte>>): (r: (C, seq<seq<byte>>))
    ensures |r.1| == |cmds|
    decreases |cmds|
  {
    if cmds == [] then (app, []) else
      var (app', answer, _) := program(app, cmds[0]);
      var (last, rest) := Alone(program, app', cmds[1..]);
      (last, [answer] + rest)
  }

  predicate Answered(r: Result, status: Status) {
    status == Ok && r.Reply? && r.inf != []
  }

  /** A way of calling that, of every answered call from a good world, keeps the world good and shows the
      answer of one run of the command. */
  ghost predicate Serves<W(!new), C(!new)>(call: (W, seq<byte>) -> (W, Result, Status), good: W -> bool,
    card: W -> Card<C>, program: Program<C>)
  {
    forall w, cmd {:trigger call(w, cmd)} ::
      var (w', r, status) := call(w, cmd);
      good(w) && Answered(r, status) ==>
        && good(w')
        && card(w').app == program(card(w).app, cmd).0 && card(w').executed == card(w).executed + [cmd]
        && r.inf == program(card(w).app, cmd).1
  }

  predicate Matches(replies: seq<(Result, Status)>, answers: seq<seq<byte>>) {
    |replies| == |answers| && forall i :: 0 <= i < |replies| ==> replies[i].0.Reply? && replies[i].0.inf == answers[i]
  }

  lemma {:induction false} ServedRun<W(!new), C(!new)>(call: (W, seq<byte>) -> (W, Result, Status), good: W -> bool,
    card: W -> Card<C>, program: Program<C>, world: W, cmds: seq<seq<byte>>)
    requires Serves(call, good, card, program) && good(world)
    requires forall r <- Run(call, world, cmds).1 :: Answered(r.0, r.1)
    ensures var (world', replies) := Run(call, world, cmds);
            var (app', answers) := Alone(program, card(world).app, cmds);
            && good(world') && card(world').executed == card(world).executed + cmds && card(world').app == app'
            && Matches(replies, answers)
    decreases |cmds|
  {
    if cmds == [] {
      assert card(world).executed + cmds == card(world).executed;
    } else {
      var (world', r, status) := call(world, cmds[0]);
      var rest := Run(call, world', cmds[1..]).1;
      var replies := Run(call, world, cmds).1;
      assert replies == [(r, status)] + rest;
      assert replies[0] in replies;
      assert forall x <- rest :: x in replies;
      ServedRun(call, good, card, program, world', cmds[1..]);
      assert card(world).executed + [cmds[0]] + cmds[1..] == card(world).executed + cmds;
    }
  }

  function Calls<C>(env: Env, field: Field<Air<C>>, cid: bool, capacity: nat)
    : (World<C>, seq<byte>) -> (World<C>, Result, Status)
  {
    (world: World<C>, cmd: seq<byte>) => Call(env, field, cid, world, cmd, capacity)
  }

  function CardOf<C>(world: World<C>): Card<C> {
    world.line.state.card
  }

  lemma CallsServe<C(!new)>(env: Env, program: Program<C>, losses: nat -> Event, cid: bool, capacity: nat)
    ensures Serves(Calls(env, FieldOf(env, program, losses), cid, capacity),
                   (w: World<C>) => w.Apart(), CardOf, program)
  {
    var call := Calls(env, FieldOf(env, program, losses), cid, capacity);
    forall w: World<C>, cmd: seq<byte> | w.Apart()
      ensures var (w', r, status) := call(w, cmd);
              Answered(r, status) ==>
                && w'.Apart()
                && CardOf(w').app == program(CardOf(w).app, cmd).0 && CardOf(w').executed == CardOf(w).executed + [cmd]
                && r.inf == program(CardOf(w).app, cmd).1
    {
      AnsweredCall(env, program, losses, cid, w, cmd, capacity);
    }
  }

  /** From numbers that are apart, and whatever is lost: if every call of a run succeeds with a reply that is
      not empty, then the card carried out exactly these commands, in order, and every reply is the answer to
      its command. */
  lemma RunsAgree<C(!new)>(env: Env, program: Program<C>, losses: nat -> Event, cid: bool, world: World<C>,
    cmds: seq<seq<byte>>, capacity: nat)
    requires world.Apart()
    requires forall r <- Run(Calls(env, FieldOf(env, program, losses), cid, capacity), world, cmds).1 ::
      Answered(r.0, r.1)
    ensures var (world', replies) := Run(Calls(env, FieldOf(env, program, losses), cid, capacity), world, cmds);
            var (app', answers) := Alone(program, CardOf(world).app, cmds);
            && world'.Apart() && CardOf(world').executed == CardOf(world).executed + cmds && CardOf(world').app == app'
            && Matches(replies, answers)
  {
    CallsServe(env, program, losses, cid, capacity);
    ServedRun(Calls(env, FieldOf(env, program, losses), cid, capacity), (w: World<C>) => w.Apart(), CardOf, program,
      world, cmds);
  }

  /** Every call of a run succeeds and its I-block arrives. */
  ghost predicate AllArrive<W>(call: (W, seq<byte>) -> (W, Result, Status), arrives: (W, seq<byte>) -> bool, world: W,
    cmds: seq<seq<byte>>)
    decreases |cmds|
  {
    cmds == [] || (call(world, cmds[0]).2 == Ok && arrives(world, cmds[0])
        && AllArrive(call, arrives, call(world, cmds[0]).0, cmds[1..]))
  }

  /** Every call of a run succeeds exactly if its I-block arrives. */
  ghost predicate AllInStep<W>(call: (W, seq<byte>) -> (W, Result, Status), arrives: (W, seq<byte>) -> bool, world: W,
    cmds: seq<seq<byte>>)
    decreases |cmds|
  {
    cmds == []
    || ((call(world, cmds[0]).2 == Ok <==> arrives(world, cmds[0]))
        && AllInStep(call, arrives, call(world, cmds[0]).0, cmds[1..]))
  }

  /** A property of the world before each call of a run and after the last. */
  ghost predicate Always<W>(call: (W, seq<byte>) -> (W, Result, Status), good: W -> bool, world: W,
      cmds: seq<seq<byte>>)
    decreases |cmds|
  {
    good(world) && (cmds == [] || Always(call, good, call(world, cmds[0]).0, cmds[1..]))
  }

  /** A call from a good world ends in one exactly if it succeeds and its I-block arrives, or neither. */
  ghost predicate KeepsIff<W(!new)>(call: (W, seq<byte>) -> (W, Result, Status), arrives: (W, seq<byte>) -> bool,
      good: W -> bool) {
    forall w, cmd {:trigger call(w, cmd)} ::
      good(w) ==> (good(call(w, cmd).0) <==> (call(w, cmd).2 == Ok <==> arrives(w, cmd)))
  }

  /** A call from a good world carries out its command, once, if its I-block arrives. */
  ghost predicate RunsOnArrival<W(!new), C(!new)>(call: (W, seq<byte>) -> (W, Result, Status),
    arrives: (W, seq<byte>) -> bool, good: W -> bool, card: W -> Card<C>, program: Program<C>)
  {
    forall w, cmd {:trigger call(w, cmd)} ::
      good(w) && arrives(w, cmd) ==>
        && card(call(w, cmd).0).app == program(card(w).app, cmd).0
        && card(call(w, cmd).0).executed == card(w).executed + [cmd]
  }

  lemma {:induction false} AlwaysIff<W(!new)>(call: (W, seq<byte>) -> (W, Result, Status),
    arrives: (W, seq<byte>) -> bool, good: W -> bool, world: W, cmds: seq<seq<byte>>)
    requires KeepsIff(call, arrives, good) && good(world)
    ensures Always(call, good, world, cmds) <==> AllInStep(call, arrives, world, cmds)
    decreases |cmds|
  {
    if cmds != [] {
      var world' := call(world, cmds[0]).0;
      if good(world') {
        AlwaysIff(call, arrives, good, world', cmds[1..]);
      }
    }
  }

  lemma {:induction false} ArrivedRun<W(!new), C(!new)>(call: (W, seq<byte>) -> (W, Result, Status),
    arrives: (W, seq<byte>) -> bool, good: W -> bool, card: W -> Card<C>, program: Program<C>,
    world: W, cmds: seq<seq<byte>>)
    requires KeepsIff(call, arrives, good) && RunsOnArrival(call, arrives, good, card, program)
    requires good(world) && AllArrive(call, arrives, world, cmds)
    ensures var world' := Run(call, world, cmds).0;
            && Always(call, good, world, cmds) && card(world').executed == card(world).executed + cmds
            && card(world').app == Alone(program, card(world).app, cmds).0
    decreases |cmds|
  {
    if cmds == [] {
      assert card(world).executed + cmds == card(world).executed;
    } else {
      ArrivedRun(call, arrives, good, card, program, call(world, cmds[0]).0, cmds[1..]);
      assert card(world).executed + [cmds[0]] + cmds[1..] == card(world).executed + cmds;
    }
  }

  function Arrivals<C>(env: Env, losses: nat -> Event, cid: bool): (World<C>, seq<byte>) -> bool {
    (world: World<C>, cmd: seq<byte>) => Reaches(env, losses, world.line, IBlock(world.number, cid, cmd))
  }

  function IsApart<C>(world: World<C>): bool {
    world.Apart()
  }

  lemma CallsKeep<C(!new)>(env: Env, program: Program<C>, losses: nat -> Event, cid: bool, capacity: nat)
    ensures KeepsIff(Calls(env, FieldOf(env, program, losses), cid, capacity), Arrivals(env, losses, cid), IsApart<C>)
  {
    var call := Calls(env, FieldOf(env, program, losses), cid, capacity);
    forall w: World<C>, cmd: seq<byte> | IsApart(w)
      ensures IsApart(call(w, cmd).0) <==> (call(w, cmd).2 == Ok <==> Arrivals(env, losses, cid)(w, cmd))
    {
      NumbersStayApartIff(env, program, losses, cid, w, cmd, capacity);
    }
  }

  lemma CallsRun<C(!new)>(env: Env, program: Program<C>, losses: nat -> Event, cid: bool, capacity: nat)
    ensures RunsOnArrival(Calls(env, FieldOf(env, program, losses), cid, capacity),
                          Arrivals(env, losses, cid), IsApart<C>,
              CardOf, program)
  {
    var call := Calls(env, FieldOf(env, program, losses), cid, capacity);
    forall w: World<C>, cmd: seq<byte> | IsApart(w) && Arrivals(env, losses, cid)(w, cmd)
      ensures CardOf(call(w, cmd).0).app == program(CardOf(w).app, cmd).0
      ensures CardOf(call(w, cmd).0).executed == CardOf(w).executed + [cmd]
    {
      NumbersStayApartIff(env, program, losses, cid, w, cmd, capacity);
    }
  }

  /** Over every run, whatever is lost: the numbers differ before each call and at the end exactly if every
      call succeeds when its I-block arrives and fails when it does not. */
  lemma NumbersStayApartOverRunsIff<C(!new)>(env: Env, program: Program<C>, losses: nat -> Event, cid: bool,
    world: World<C>, cmds: seq<seq<byte>>, capacity: nat)
    requires world.Apart()
    ensures Always(Calls(env, FieldOf(env, program, losses), cid, capacity), IsApart, world, cmds)
       <==> AllInStep(Calls(env, FieldOf(env, program, losses), cid, capacity), Arrivals(env, losses, cid), world, cmds)
  {
    CallsKeep(env, program, losses, cid, capacity);
    AlwaysIff(Calls(env, FieldOf(env, program, losses), cid, capacity), Arrivals(env, losses, cid), IsApart, world,
      cmds);
  }

  /** Over every run of successful calls whose I-blocks arrive, with replies that may be empty: the numbers
      differ before each call, and the card carries out exactly the commands, in order. */
  lemma ArrivedRunsAgree<C(!new)>(env: Env, program: Program<C>, losses: nat -> Event, cid: bool, world: World<C>,
    cmds: seq<seq<byte>>, capacity: nat)
    requires world.Apart()
    requires AllArrive(Calls(env, FieldOf(env, program, losses), cid, capacity),
                       Arrivals(env, losses, cid), world, cmds)
    ensures Always(Calls(env, FieldOf(env, program, losses), cid, capacity), IsApart, world, cmds)
    ensures var world' := Run(Calls(env, FieldOf(env, program, losses), cid, capacity), world, cmds).0;
            CardOf(world').executed == CardOf(world).executed + cmds
            && CardOf(world').app == Alone(program, CardOf(world).app, cmds).0
  {
    CallsKeep(env, program, losses, cid, capacity);
    CallsRun(env, program, losses, cid, capacity);
    ArrivedRun(Calls(env, FieldOf(env, program, losses), cid, capacity),
               Arrivals(env, losses, cid), IsApart, CardOf, program,
      world, cmds);
  }

  /** The commands of a run whose I-blocks arrive. */
  ghost function Arrived<W>(call: (W, seq<byte>) -> (W, Result, Status), arrives: (W, seq<byte>) -> bool, world: W,
    cmds: seq<seq<byte>>): seq<seq<byte>>
    decreases |cmds|
  {
    if cmds == [] then [] else
      (if arrives(world, cmds[0]) then [cmds[0]] else [])
      + Arrived(call, arrives, call(world, cmds[0]).0, cmds[1..])
  }

  /** The calls of a run that succeed without their I-block having arrived, or fail although it has. */
  ghost function Slips<W>(call: (W, seq<byte>) -> (W, Result, Status), arrives: (W, seq<byte>) -> bool, world: W,
    cmds: seq<seq<byte>>): nat
    decreases |cmds|
  {
    if cmds == [] then 0 else
      (if call(world, cmds[0]).2 == Ok <==> arrives(world, cmds[0]) then 0 else 1)
      + Slips(call, arrives, call(world, cmds[0]).0, cmds[1..])
  }

  /** A call from any world that runs its command, once, exactly if its I-block arrives, and changes whether the
      world is good exactly if it slips. */
  ghost predicate Tallies<W(!new), C(!new)>(call: (W, seq<byte>) -> (W, Result, Status),
    arrives: (W, seq<byte>) -> bool, good: W -> bool, card: W -> Card<C>, program: Program<C>)
  {
    forall w, cmd {:trigger call(w, cmd)} ::
      && Advances(program, card(w), cmd, arrives(w, cmd), card(call(w, cmd).0))
      && (good(call(w, cmd).0) <==> (good(w) <==> (call(w, cmd).2 == Ok <==> arrives(w, cmd))))
  }

  lemma {:induction false} TalliedRun<W(!new), C(!new)>(call: (W, seq<byte>) -> (W, Result, Status),
    arrives: (W, seq<byte>) -> bool, good: W -> bool, card: W -> Card<C>, program: Program<C>,
    world: W, cmds: seq<seq<byte>>)
    requires Tallies(call, arrives, good, card, program)
    ensures Tallied(program, card(world), Arrived(call, arrives, world, cmds), card(Run(call, world, cmds).0))
    decreases |cmds|
  {
    if cmds == [] {
      assert card(world).executed + cmds == card(world).executed;
    } else {
      var world1 := call(world, cmds[0]).0;
      var rest := Arrived(call, arrives, world1, cmds[1..]);
      TalliedRun(call, arrives, good, card, program, world1, cmds[1..]);
      TalliedFrom(program, card(world), cmds[0], arrives(world, cmds[0]), card(world1), rest,
                  card(Run(call, world1, cmds[1..]).0));
    }
  }

  /** The card has carried out these commands, in order. */
  ghost predicate Tallied<C>(program: Program<C>, before: Card<C>, cmds: seq<seq<byte>>, card: Card<C>) {
    card.executed == before.executed + cmds && card.app == Alone(program, before.app, cmds).0
  }

  lemma AloneFrom<C>(program: Program<C>, app: C, cmd: seq<byte>, rest: seq<seq<byte>>)
    ensures Alone(program, app, [cmd] + rest).0 == Alone(program, program(app, cmd).0, rest).0
  {
    assert ([cmd] + rest)[1..] == rest;
  }

  lemma TalliedFrom<C>(program: Program<C>, before: Card<C>, cmd: seq<byte>, runs: bool, card1: Card<C>,
    rest: seq<seq<byte>>, card: Card<C>)
    requires Advances(program, before, cmd, runs, card1) && Tallied(program, card1, rest, card)
    ensures Tallied(program, before, (if runs then [cmd] else []) + rest, card)
  {
    if runs {
      AloneFrom(program, before.app, cmd, rest);
      ghost var executed := before.executed;
      assert executed + [cmd] + rest == executed + ([cmd] + rest);
    } else {
      assert (if runs then [cmd] else []) + rest == rest;
    }
  }

  lemma {:induction false} SlipsCount<W(!new), C(!new)>(call: (W, seq<byte>) -> (W, Result, Status),
    arrives: (W, seq<byte>) -> bool, good: W -> bool, card: W -> Card<C>, program: Program<C>,
    world: W, cmds: seq<seq<byte>>)
    requires Tallies(call, arrives, good, card, program)
    ensures good(Run(call, world, cmds).0) <==> (good(world) <==> Slips(call, arrives, world, cmds) % 2 == 0)
    decreases |cmds|
  {
    if cmds != [] {
      var world1 := call(world, cmds[0]).0;
      SlipsCount(call, arrives, good, card, program, world1, cmds[1..]);
      assert good(world1) <==> (good(world) <==> (call(world, cmds[0]).2 == Ok <==> arrives(world, cmds[0])));
    }
  }

  /** Over every run, from any numbers and whatever is lost or reported: the card carries out exactly the commands
      whose I-blocks arrive, once each and in order. The numbers change between apart and equal with every call that
      slips: a success without arrival, or an arrival without success. */
  lemma RunsTally<C(!new)>(env: Env, program: Program<C>, losses: nat -> Event, cid: bool, world: World<C>,
    cmds: seq<seq<byte>>, capacity: nat)
    ensures var call := Calls(env, FieldOf(env, program, losses), cid, capacity);
            var world' := Run(call, world, cmds).0;
            && Tallied(program, CardOf(world), Arrived(call, Arrivals(env, losses, cid), world, cmds), CardOf(world'))
            && (world'.Apart()
                <==> (world.Apart() <==> Slips(call, Arrivals(env, losses, cid), world, cmds) % 2 == 0))
  {
    CallsTally(env, program, losses, cid, capacity);
    TalliedRun(Calls(env, FieldOf(env, program, losses), cid, capacity), Arrivals(env, losses, cid), IsApart, CardOf,
               program, world, cmds);
    SlipsCount(Calls(env, FieldOf(env, program, losses), cid, capacity), Arrivals(env, losses, cid), IsApart, CardOf,
               program, world, cmds);
  }

  lemma CallsTally<C(!new)>(env: Env, program: Program<C>, losses: nat -> Event, cid: bool, capacity: nat)
    ensures Tallies(Calls(env, FieldOf(env, program, losses), cid, capacity),
                    Arrivals(env, losses, cid), IsApart<C>, CardOf, program)
  {
    var call := Calls(env, FieldOf(env, program, losses), cid, capacity);
    forall w: World<C>, cmd: seq<byte>
      ensures Advances(program, CardOf(w), cmd, Arrivals(env, losses, cid)(w, cmd), CardOf(call(w, cmd).0))
      ensures IsApart(call(w, cmd).0)
         <==> (IsApart(w) <==> (call(w, cmd).2 == Ok <==> Arrivals(env, losses, cid)(w, cmd)))
    {
      NumbersStayApartIff(env, program, losses, cid, w, cmd, capacity);
    }
  }

  /** Where runs begin: the reader's number is 0, that of a new `TagInfo`, and the card's is 1 (section 7.5.3 of
      ISO/IEC 14443-4). */
  function Activated<C>(app: C): (world: World<C>)
    ensures world.Apart()
  {
    World(false, Line(Air(Card(app, true, None, [], [], []), 0), []))
  }

  // ---- The wrong number --------------------------------------------------------------------------------

  /** The reader notices every loss. */
  ghost predicate Noticed(losses: nat -> Event) {
    forall i: nat {:trigger losses(i)} :: !losses(i).Arrives? ==> losses(i).status != Ok
  }

  /** Every frame of the reader can be sent and every answer of the card understood. */
  predicate Ready(env: Env) {
    (env.txCrc && env.rxCrc) || env.coprocessor.works
  }

  predicate Fits(env: Env, cid: bool, answer: seq<byte>) {
    1 + (if cid then 1 else 0) + |answer| + (if env.rxCrc then 0 else 2) <= 64
  }

  predicate Sendable(env: Env, cid: bool, cmd: seq<byte>) {
    1 + (if cid then 1 else 0) + |cmd| + (if env.txCrc then 0 else 2) <= 64
  }

  lemma SmallFrames(env: Env, b: Block)
    requires Ready(env) && |b.inf| <= 1
    ensures Wire(env, b).Frame?
  {
  }

  /** A block without node address becomes a frame exactly if it has at most 64 bytes with its CRC. */
  lemma CommandFrame(env: Env, send: Block)
    requires Ready(env) && !HasNad(send.pcb)
    ensures Wire(env, send).Frame? <==> Sendable(env, HasCid(send.pcb), send.inf)
  {
  }

  /** An R(NAK) that reaches a card with the number of `send` brings the block that the card sent last. */
  lemma NakBrings<C>(env: Env, program: Program<C>, losses: nat -> Event, line: Line<Air<C>>, send: Block)
    requires Ready(env) && losses(line.state.time).Arrives?
    requires var card := line.state.card;
             card.number == Number(send.pcb) && card.last.Some?
             && |Seal(env.rxCrc, env.coprocessor.crc, Encode(card.last.value))| <= FIFO_SIZE
    ensures Wire(env, Rnak(send)).Frame?
    ensures Transceive(FieldOf(env, program, losses), line, Wire(env, Rnak(send)).bytes)
         == (Line(Air(line.state.card, line.state.time + 1), line.sent + [Wire(env, Rnak(send)).bytes]), Ok,
             Seal(env.rxCrc, env.coprocessor.crc, Encode(line.state.card.last.value)))
  {
    SmallFrames(env, Rnak(send));
    RnakCanonical(send);
    NakBits(send);
    FrameCarries(env, program, losses, line, Rnak(send));
  }

  /** The first frame is lost and the rest arrive. */
  function FirstLost(from: nat, status: Status): nat -> Event {
    t => if t == from then LostDown(status) else Arrives
  }

  /** The frame of the reader is lost, and the R(NAK) behind it and its answer are not. */
  predicate OnlyNakArrives(losses: nat -> Event, i: nat) {
    losses(i).LostDown? && losses(i).status != Ok && losses(i + 1).Arrives?
  }

  lemma LostTurn<C>(env: Env, program: Program<C>, losses: nat -> Event, line: Line<Air<C>>, send: Block)
    requires Ready(env) && Canonical(send) && Wire(env, send).Frame? && OnlyNakArrives(losses, line.state.time)
    requires var card := line.state.card;
             card.number == Number(send.pcb) && card.last.Some?
             && |Seal(env.rxCrc, env.coprocessor.crc, Encode(card.last.value))| <= FIFO_SIZE
    ensures var (line', t) := Once(env, FieldOf(env, program, losses), send, line, send);
            && line'.state.card == line.state.card
            && t == IsoDep.Heard(Seal(env.rxCrc, env.coprocessor.crc, Encode(line.state.card.last.value)))
  {
    FrameCarries(env, program, losses, line, send);
    var line1 := Transceive(FieldOf(env, program, losses), line, Wire(env, send).bytes).0;
    NakBrings(env, program, losses, line1, send);
  }

  /** If reader and card have the same number and the I-block is lost, the R(NAK) brings the answer to an
      earlier command, and the call passes it off as its own. */
  lemma StaleAnswer<C>(env: Env, program: Program<C>, losses: nat -> Event, line: Line<Air<C>>, send: Block,
      earlier: seq<byte>)
    requires Ready(env) && Canonical(send) && Wire(env, send).Frame? && OnlyNakArrives(losses, line.state.time)
    requires var card := line.state.card;
             card.number == Number(send.pcb) && card.last.Some? && IsAnswer(card.last.value, earlier)
             && Fits(env, HasCid(card.last.value.pcb), earlier)
    ensures var (line', r) := Exchange(env, FieldOf(env, program, losses), line, send);
            line'.state.card == line.state.card && r == Reply(line.state.card.last.value.pcb, earlier)
  {
    var b := line.state.card.last.value;
    LostTurn(env, program, losses, line, send);
    ParseSealed(env, b);
    AnswerRead(b, earlier);
    assert Turn(env, FieldOf(env, program, losses), send, line, send).1 == Final(b.pcb, earlier);
  }

  /** Whatever is lost, a reply that is not empty belongs to a run of the command. */
  ghost predicate Sound<C(!new)>(env: Env, program: Program<C>, line: Line<Air<C>>, send: Block) {
    forall losses: nat -> Event ::
      var (line', r) := Exchange(env, FieldOf(env, program, losses), line, send);
      r.Reply? && r.inf != [] ==> line'.state.card.executed == line.state.card.executed + [send.inf]
  }

  /** A card that has answered something before is called soundly exactly if its number is not the reader's. */
  lemma SoundIff<C(!new)>(env: Env, program: Program<C>, line: Line<Air<C>>, number: bool, cid: bool, cmd: seq<byte>,
    earlier: seq<byte>)
    requires Ready(env) && Sendable(env, cid, cmd)
    requires var card := line.state.card;
             && card.last.Some? && IsAnswer(card.last.value, earlier) && earlier != []
             && Fits(env, HasCid(card.last.value.pcb), earlier)
    ensures Sound(env, program, line, IBlock(number, cid, cmd)) <==> line.state.card.number != number
  {
    var send := IBlock(number, cid, cmd);
    IBlockIs(number, cid, cmd);
    CommandFrame(env, send);
    if line.state.card.number != number {
      forall losses: nat -> Event
        ensures var (line', r) := Exchange(env, FieldOf(env, program, losses), line, send);
                r.Reply? && r.inf != [] ==> line'.state.card.executed == line.state.card.executed + [send.inf]
      {
        ExactlyOnce(env, program, losses, line, send);
      }
    } else {
      var losses := FirstLost(line.state.time, Timeout);
      StaleAnswer(env, program, losses, line, send, earlier);
      var (line', r) := Exchange(env, FieldOf(env, program, losses), line, send);
      assert |line'.state.card.executed| == |line.state.card.executed|;
    }
  }

  // ---- Recovery ------------------------------------------------------------------------------------------

  /** Of the up to three frames of an attempt that starts at time `i`, one arrives. */
  predicate Survivable(losses: nat -> Event, i: nat) {
    losses(i).Arrives? || losses(i + 1).Arrives? || losses(i + 2).Arrives?
  }

  /** When that attempt ends. */
  function After(losses: nat -> Event, i: nat): nat {
    if losses(i).Arrives? then i + 1 else if losses(i + 1).Arrives? then i + 2 else i + 3
  }

  /** Requests for more time that are still to be answered after an attempt: one fewer, unless the answer to
      one is lost and it comes again. */
  function Fewer(losses: nat -> Event, i: nat, waits: nat): nat
    requires waits > 0
  {
    if losses(i).LostDown? then waits else waits - 1
  }

  /** How many requests for more time the reader hears from time `i` on, repetitions included, up to `most`. */
  function Requests(losses: nat -> Event, i: nat, waits: nat, most: nat): nat
    decreases most
  {
    if waits == 0 || most == 0 then 0 else 1 + Requests(losses, After(losses, i), Fewer(losses, i, waits), most - 1)
  }

  /** Every attempt that answers one of them, up to `left` of them, is survivable. */
  predicate Bearable(losses: nat -> Event, i: nat, waits: nat, left: nat)
    decreases left
  {
    waits == 0 || left == 0
    || (Survivable(losses, i) && Bearable(losses, After(losses, i), Fewer(losses, i, waits), left - 1))
  }

  datatype Fate = Replied | OutOfTries | Lost

  /** What becomes of a call that has heard the first of `waits` requests, with `left` attempts left. */
  function FateOf(losses: nat -> Event, i: nat, waits: nat, left: nat): Fate
    decreases left
  {
    if waits == 0 then Replied
    else if left == 0 then OutOfTries
    else if !Survivable(losses, i) then Lost
    else FateOf(losses, After(losses, i), Fewer(losses, i, waits), left - 1)
  }

  lemma {:induction false} FateIff(losses: nat -> Event, i: nat, waits: nat, left: nat)
    ensures FateOf(losses, i, waits, left) == Lost <==> !Bearable(losses, i, waits, left)
    ensures Bearable(losses, i, waits, left) ==>
              (FateOf(losses, i, waits, left) == Replied <==> Requests(losses, i, waits, left + 1) <= left)
    decreases left
  {
    if waits > 0 && left > 0 && Survivable(losses, i) {
      FateIff(losses, After(losses, i), Fewer(losses, i, waits), left - 1);
    }
  }

  /** What the card sent last, as the reader understands it. */
  function Understood<C>(card: Card<C>): Parsed
    requires card.last.Some?
  {
    if Waits(card) then Parsed.Wait(card.last.value) else Final(card.last.value.pcb, card.answer)
  }

  /** The command runs, and the reader knows what the card sent last. */
  ghost predicate Caught<C>(program: Program<C>, before: Card<C>, send: Block, card: Card<C>, p: Parsed) {
    Running(program, before, send, card) && p == Understood(card)
  }

  lemma LastFits<C>(program: Program<C>, before: Card<C>, send: Block, card: Card<C>, env: Env)
    requires Running(program, before, send, card) && Fits(env, HasCid(send.pcb), card.answer)
    ensures |Seal(env.rxCrc, env.coprocessor.crc, Encode(card.last.value))| <= FIFO_SIZE
  {
  }

  /** An R(NAK) that is lost, or whose answer is, leaves the card as it is. */
  lemma NakLost<C>(env: Env, program: Program<C>, losses: nat -> Event, before: Card<C>, line: Line<Air<C>>,
      send: Block)
    requires Ready(env) && before.number != Number(send.pcb) && Running(program, before, send, line.state.card)
    requires Noticed(losses) && !losses(line.state.time).Arrives?
    ensures Wire(env, Rnak(send)).Frame?
    ensures var (line', status, data) := Transceive(FieldOf(env, program, losses), line, Wire(env, Rnak(send)).bytes);
            line'.state == Air(line.state.card, line.state.time + 1) && status != Ok
  {
    SmallFrames(env, Rnak(send));
    RnakCanonical(send);
    FrameCarries(env, program, losses, line, Rnak(send));
    NakRepeats(program, before, line.state.card, send);
  }

  /** The R(NAK) bring what the card sent last exactly if one of the two arrives. */
  lemma RecoverBrings<C>(env: Env, program: Program<C>, losses: nat -> Event, before: Card<C>, line: Line<Air<C>>,
      send: Block)
    requires Ready(env) && before.number != Number(send.pcb) && Running(program, before, send, line.state.card)
    requires Noticed(losses) && Fits(env, HasCid(send.pcb), line.state.card.answer)
    ensures var (line', t) := Recover(env, FieldOf(env, program, losses), line, Rnak(send), MAX_RETRIES);
            var now := line.state.time;
            && line'.state == Air(line.state.card, if losses(now).Arrives? then now + 1 else now + 2)
            && (if losses(now).Arrives? || losses(now + 1).Arrives?
                then t == IsoDep.Heard(Seal(env.rxCrc, env.coprocessor.crc, Encode(line.state.card.last.value)))
                else t.Failed?)
  {
    LastFits(program, before, send, line.state.card, env);
    if losses(line.state.time).Arrives? {
      NakBrings(env, program, losses, line, send);
    } else {
      NakLost(env, program, losses, before, line, send);
      var line1 := Transceive(FieldOf(env, program, losses), line, Wire(env, Rnak(send)).bytes).0;
      if losses(line1.state.time).Arrives? {
        NakBrings(env, program, losses, line1, send);
      } else {
        NakLost(env, program, losses, before, line1, send);
      }
    }
  }

  /** An attempt whose first frame leaves the card running: the reader catches up exactly if it is survivable. */
  lemma TurnCatches<C>(env: Env, program: Program<C>, losses: nat -> Event, before: Card<C>, line: Line<Air<C>>,
    send: Block, b: Block)
    requires Ready(env) && before.number != Number(send.pcb) && Canonical(b) && Wire(env, b).Frame?
    requires Noticed(losses) && Fits(env, HasCid(send.pcb), program(before.app, send.inf).1)
    requires var t := line.state.time;
             var (card', status, data) := Carry(env, program, losses(t), line.state.card, b);
             && Running(program, before, send, card')
             && (losses(t).Arrives? ==> Step(program, line.state.card, b).1 == card'.last)
    ensures var (line', p) := Turn(env, FieldOf(env, program, losses), send, line, b);
            && line'.state.card == Carry(env, program, losses(line.state.time), line.state.card, b).0
            && line'.state.time == After(losses, line.state.time)
            && (if Survivable(losses, line.state.time) then Caught(program, before, send, line'.state.card, p)
                else p.Bad?)
  {
    var field := FieldOf(env, program, losses);
    FrameCarries(env, program, losses, line, b);
    var (card', status, data) := Carry(env, program, losses(line.state.time), line.state.card, b);
    LastFits(program, before, send, card', env);
    LastRead(program, before, send, card', env);
    if !losses(line.state.time).Arrives? {
      RecoverBrings(env, program, losses, before, Transceive(field, line, Wire(env, b).bytes).0, send);
    }
  }

  /** One more request answered, unless the answer is lost. */
  lemma NextCatches<C>(env: Env, program: Program<C>, losses: nat -> Event, before: Card<C>, line: Line<Air<C>>,
    send: Block, b: Block)
    requires Ready(env) && before.number != Number(send.pcb)
    requires Noticed(losses) && Fits(env, HasCid(send.pcb), program(before.app, send.inf).1)
    requires Caught(program, before, send, line.state.card, Parsed.Wait(b))
    ensures var (line', p) := Turn(env, FieldOf(env, program, losses), send, line, b);
            && line'.state.time == After(losses, line.state.time)
            && (if Survivable(losses, line.state.time) then Caught(program, before, send, line'.state.card, p)
                else p.Bad?)
            && Remaining(line'.state.card) == Fewer(losses, line.state.time, Remaining(line.state.card))
  {
    SmallFrames(env, b);
    WaitStep(program, before, send, line.state.card, b);
    TurnCatches(env, program, losses, before, line, send, b);
  }

  /** The first attempt, when the I-block arrives. */
  lemma FirstCatches<C>(env: Env, program: Program<C>, losses: nat -> Event, line: Line<Air<C>>, send: Block)
    requires Ready(env) && IsIBlock(send.pcb) && Canonical(send) && line.state.card.number != Number(send.pcb)
    requires Noticed(losses) && Reaches(env, losses, line, send)
    requires Fits(env, HasCid(send.pcb), program(line.state.card.app, send.inf).1)
    ensures var before := line.state.card;
            var (line', p) := Turn(env, FieldOf(env, program, losses), send, line, send);
            && line'.state.time == After(losses, line.state.time)
            && (if Survivable(losses, line.state.time) then Caught(program, before, send, line'.state.card, p)
                else p.Bad?)
            && Remaining(line'.state.card) == |program(before.app, send.inf).2|
  {
    CommandRuns(program, line.state.card, line.state.card, send);
    TurnCatches(env, program, losses, line.state.card, line, send, send);
  }

  /** A call on its way to a fate: the reader knows what the card sent last, or has given up. */
  ghost predicate Bound<C>(program: Program<C>, losses: nat -> Event, before: Card<C>, send: Block, fate: Fate,
    line: Line<Air<C>>, p: Parsed, left: nat)
  {
    if p.Bad? then fate == Lost
    else
      && Caught(program, before, send, line.state.card, p)
      && fate == FateOf(losses, line.state.time, Remaining(line.state.card), left)
  }

  lemma NextBound<C>(env: Env, program: Program<C>, losses: nat -> Event, before: Card<C>, send: Block, fate: Fate,
    line: Line<Air<C>>, b: Block, left: nat)
    requires Ready(env) && before.number != Number(send.pcb) && Noticed(losses)
    requires Fits(env, HasCid(send.pcb), program(before.app, send.inf).1)
    requires left > 0 && Bound(program, losses, before, send, fate, line, Parsed.Wait(b), left)
    ensures var (line', p) := Turn(env, FieldOf(env, program, losses), send, line, b);
            Bound(program, losses, before, send, fate, line', p, left - 1)
  {
    NextCatches(env, program, losses, before, line, send, b);
    var (line', p) := Turn(env, FieldOf(env, program, losses), send, line, b);
    StaysBound(program, losses, before, send, fate, line, line', b, p, left);
  }

  lemma StaysBound<C>(program: Program<C>, losses: nat -> Event, before: Card<C>, send: Block, fate: Fate,
    line: Line<Air<C>>, line': Line<Air<C>>, b: Block, p: Parsed, left: nat)
    requires left > 0 && Bound(program, losses, before, send, fate, line, Parsed.Wait(b), left)
    requires line'.state.time == After(losses, line.state.time)
    requires if Survivable(losses, line.state.time) then Caught(program, before, send, line'.state.card, p) else p.Bad?
    requires Remaining(line'.state.card) == Fewer(losses, line.state.time, Remaining(line.state.card))
    ensures Bound(program, losses, before, send, fate, line', p, left - 1)
  {
  }

  lemma BoundEnds<C>(program: Program<C>, losses: nat -> Event, before: Card<C>, send: Block, fate: Fate,
    line: Line<Air<C>>, p: Parsed, left: nat, r: Result)
    requires Bound(program, losses, before, send, fate, line, p, left)
    requires Ends(p, r) && (p.Wait? ==> left == 0)
    ensures Fulfilled(fate, program(before.app, send.inf).1, r)
  {
  }

  /** The result that goes with a fate. */
  predicate Fulfilled(fate: Fate, answer: seq<byte>, r: Result) {
    match fate
    case Replied => r.Reply? && r.inf == answer
    case OutOfTries => r == Aborted(Timeout)
    case Lost => r.Aborted?
  }

  lemma TurnsBound<C(!new)>(env: Env, program: Program<C>, losses: nat -> Event, before: Card<C>, send: Block,
    fate: Fate, kept: (Line<Air<C>>, Parsed, nat) -> bool, turn: (Line<Air<C>>, Block) -> (Line<Air<C>>, Parsed))
    requires Ready(env) && before.number != Number(send.pcb) && Noticed(losses)
    requires Fits(env, HasCid(send.pcb), program(before.app, send.inf).1)
    requires turn == Turns(env, FieldOf(env, program, losses), send)
    requires forall l, p, n {:trigger kept(l, p, n)} ::
      kept(l, p, n) <==> Bound(program, losses, before, send, fate, l, p, n)
    ensures KeptByTurns(turn, kept)
  {
    forall l, c, n: nat | n > 0 && kept(l, Parsed.Wait(c), n) ensures kept(turn(l, c).0, turn(l, c).1, n - 1) {
      NextBound(env, program, losses, before, send, fate, l, c, n);
    }
  }

  /** What becomes of a call whose I-block arrives, decided by the losses and the card's requests alone. */
  function CallFate(losses: nat -> Event, i: nat, waits: nat, left: nat): Fate {
    if Survivable(losses, i) then FateOf(losses, After(losses, i), waits, left) else Lost
  }

  lemma CallFulfils<C(!new)>(env: Env, program: Program<C>, losses: nat -> Event, line: Line<Air<C>>, send: Block,
      left: nat)
    requires Ready(env) && IsIBlock(send.pcb) && Canonical(send) && line.state.card.number != Number(send.pcb)
    requires Noticed(losses) && Reaches(env, losses, line, send)
    requires Fits(env, HasCid(send.pcb), program(line.state.card.app, send.inf).1)
    ensures var r := Attempts(Turns(env, FieldOf(env, program, losses), send), line, send, left + 1).1;
            var (app', answer, waits) := program(line.state.card.app, send.inf);
            Fulfilled(CallFate(losses, line.state.time, |waits|, left), answer, r)
  {
    var turn := Turns(env, FieldOf(env, program, losses), send);
    var before, waits := line.state.card, |program(line.state.card.app, send.inf).2|;
    var fate := CallFate(losses, line.state.time, waits, left);
    ghost var kept := (l: Line<Air<C>>, p: Parsed, n: nat) => Bound(program, losses, before, send, fate, l, p, n);
    TurnsBound(env, program, losses, before, send, fate, kept, turn);
    FirstCatches(env, program, losses, line, send);
    var p, rest := AttemptsReach(turn, kept, line, send, left);
    var (line', r) := Attempts(turn, line, send, left + 1);
    BoundEnds(program, losses, before, send, fate, line', p, rest, r);
  }

  /** An I-block that arrives, and losses that are noticed: if one frame of every attempt arrives, the call
      brings the card's answer exactly if the reader hears at most five requests for more time, repetitions
      included, and ends in a timeout exactly if it hears a sixth. If all frames of an attempt are lost, the
      call fails. */
  lemma RecoveryIff<C(!new)>(env: Env, program: Program<C>, losses: nat -> Event, line: Line<Air<C>>, send: Block)
    requires Ready(env) && IsIBlock(send.pcb) && Canonical(send) && line.state.card.number != Number(send.pcb)
    requires Noticed(losses) && Reaches(env, losses, line, send)
    requires Fits(env, HasCid(send.pcb), program(line.state.card.app, send.inf).1)
    ensures var r := Exchange(env, FieldOf(env, program, losses), line, send).1;
            var (app', answer, waits) := program(line.state.card.app, send.inf);
            var now := line.state.time;
            if Survivable(losses, now) && Bearable(losses, After(losses, now), |waits|, 5) then
              && (r.Reply? && r.inf == answer <==> Requests(losses, After(losses, now), |waits|, 6) <= 5)
              && (r == Aborted(Timeout) <==> Requests(losses, After(losses, now), |waits|, 6) == 6)
            else r.Aborted?
  {
    var now, waits := line.state.time, |program(line.state.card.app, send.inf).2|;
    CallFulfils(env, program, losses, line, send, ATTEMPTS - 1);
    FateIff(losses, After(losses, now), waits, ATTEMPTS - 1);
    RequestsBounded(losses, After(losses, now), waits, ATTEMPTS);
  }

  lemma {:induction false} RequestsBounded(losses: nat -> Event, i: nat, waits: nat, most: nat)
    ensures Requests(losses, i, waits, most) <= most
    decreases most
  {
    if waits > 0 && most > 0 {
      RequestsBounded(losses, After(losses, i), Fewer(losses, i, waits), most - 1);
    }
  }

  lemma {:induction false} NothingLost(losses: nat -> Event, i: nat, waits: nat, n: nat)
    requires forall j: nat :: losses(j).Arrives?
    ensures Bearable(losses, i, waits, n) && Requests(losses, i, waits, n) == if waits < n then waits else n
    decreases n
  {
    if waits > 0 && n > 0 {
      NothingLost(losses, After(losses, i), waits - 1, n - 1);
    }
  }

  /** With nothing lost, a call brings the answer exactly if the card asks for more time at most five times. */
  lemma LosslessIff<C(!new)>(env: Env, program: Program<C>, line: Line<Air<C>>, send: Block)
    requires Ready(env) && IsIBlock(send.pcb) && Canonical(send) && line.state.card.number != Number(send.pcb)
    requires !HasNad(send.pcb) && Sendable(env, HasCid(send.pcb), send.inf)
    requires Fits(env, HasCid(send.pcb), program(line.state.card.app, send.inf).1)
    ensures var r := Exchange(env, FieldOf(env, program, _ => Arrives), line, send).1;
            var (app', answer, waits) := program(line.state.card.app, send.inf);
            (r.Reply? && r.inf == answer <==> |waits| <= 5) && (r == Aborted(Timeout) <==> |waits| >= 6)
  {
    var losses: nat -> Event := _ => Arrives;
    var waits := |program(line.state.card.app, send.inf).2|;
    CommandFrame(env, send);
    RecoveryIff(env, program, losses, line, send);
    NothingLost(losses, After(losses, line.state.time), waits, 5);
    NothingLost(losses, After(losses, line.state.time), waits, 6);
  }

  // ---- Successful calls --------------------------------------------------------------------------------

  /** Before the command has arrived, an R(NAK) that arrives brings an R(ACK). */
  lemma NakAcked<C>(env: Env, program: Program<C>, losses: nat -> Event, before: Card<C>, line: Line<Air<C>>,
      send: Block)
    requires Ready(env) && before.number != Number(send.pcb) && Idle(before, line.state.card)
    requires losses(line.state.time).Arrives?
    ensures Wire(env, Rnak(send)).Frame?
    ensures var (line', status, data) := Transceive(FieldOf(env, program, losses), line, Wire(env, Rnak(send)).bytes);
            && Idle(before, line'.state.card) && status == Ok && data != []
            && Parse(env, data).Final? && Parse(env, data).inf == []
  {
    SmallFrames(env, Rnak(send));
    RnakCanonical(send);
    FrameCarries(env, program, losses, line, Rnak(send));
    NakRepeats(program, before, line.state.card, send);
    var b := AckBlock(HasCid(send.pcb), Rnak(send).cid, before.number);
    AckRead(HasCid(send.pcb), Rnak(send).cid, before.number);
    ParseSealed(env, b);
  }

  lemma NakUnheard<C>(env: Env, program: Program<C>, losses: nat -> Event, before: Card<C>, line: Line<Air<C>>,
      send: Block)
    requires Ready(env) && before.number != Number(send.pcb) && Idle(before, line.state.card)
    requires Noticed(losses) && !losses(line.state.time).Arrives?
    ensures Wire(env, Rnak(send)).Frame?
    ensures var (line', status, data) := Transceive(FieldOf(env, program, losses), line, Wire(env, Rnak(send)).bytes);
            Idle(before, line'.state.card) && line'.state.time == line.state.time + 1 && status != Ok
  {
    SmallFrames(env, Rnak(send));
    RnakCanonical(send);
    FrameCarries(env, program, losses, line, Rnak(send));
    NakRepeats(program, before, line.state.card, send);
  }

  lemma RecoverAcked<C>(env: Env, program: Program<C>, losses: nat -> Event, before: Card<C>, line: Line<Air<C>>,
      send: Block)
    requires Ready(env) && before.number != Number(send.pcb) && Idle(before, line.state.card) && Noticed(losses)
    ensures var (line', t) := Recover(env, FieldOf(env, program, losses), line, Rnak(send), MAX_RETRIES);
            var now := line.state.time;
            && Idle(before, line'.state.card)
            && (if losses(now).Arrives? || losses(now + 1).Arrives?
                then t.Heard? && Parse(env, t.data).Final? && Parse(env, t.data).inf == [] else t.Failed?)
  {
    if losses(line.state.time).Arrives? {
      NakAcked(env, program, losses, before, line, send);
    } else {
      NakUnheard(env, program, losses, before, line, send);
      var line1 := Transceive(FieldOf(env, program, losses), line, Wire(env, Rnak(send)).bytes).0;
      if losses(line1.state.time).Arrives? {
        NakAcked(env, program, losses, before, line1, send);
      } else {
        NakUnheard(env, program, losses, before, line1, send);
      }
    }
  }

  /** An I-block that is lost: the call brings a reply all the same, and an empty one, exactly if one of its
      R(NAK) arrives; the card carries out nothing. */
  lemma LostBlockIff<C>(env: Env, program: Program<C>, losses: nat -> Event, line: Line<Air<C>>, send: Block)
    requires Ready(env) && Canonical(send) && !HasNad(send.pcb) && Sendable(env, HasCid(send.pcb), send.inf)
    requires line.state.card.number != Number(send.pcb) && Noticed(losses) && losses(line.state.time).LostDown?
    ensures var (line', r) := Exchange(env, FieldOf(env, program, losses), line, send);
            && (r.Reply? <==> NakArrives(losses, line.state.time))
            && (r.Reply? ==> r.inf == [])
            && Idle(line.state.card, line'.state.card)
  {
    UnheardTurn(env, program, losses, line, send);
    EndsAtOnce(Turns(env, FieldOf(env, program, losses), send), line, send, ATTEMPTS);
  }

  lemma UnheardTurn<C>(env: Env, program: Program<C>, losses: nat -> Event, line: Line<Air<C>>, send: Block)
    requires Ready(env) && Canonical(send) && !HasNad(send.pcb) && Sendable(env, HasCid(send.pcb), send.inf)
    requires line.state.card.number != Number(send.pcb) && Noticed(losses) && losses(line.state.time).LostDown?
    ensures var (line', p) := Turn(env, FieldOf(env, program, losses), send, line, send);
            && !p.Wait? && (p.Final? <==> NakArrives(losses, line.state.time)) && (p.Final? ==> p.inf == [])
            && Idle(line.state.card, line'.state.card)
  {
    CommandFrame(env, send);
    FrameCarries(env, program, losses, line, send);
    var line1 := Transceive(FieldOf(env, program, losses), line, Wire(env, send).bytes).0;
    RecoverAcked(env, program, losses, line.state.card, line1, send);
  }

  /** An attempt that brings no request for more time is the last. */
  lemma EndsAtOnce<L>(turn: (L, Block) -> (L, Parsed), line: L, send: Block, left: nat)
    requires left > 0 && !turn(line, send).1.Wait?
    ensures Attempts(turn, line, send, left).0 == turn(line, send).0
    ensures Ends(turn(line, send).1, Attempts(turn, line, send, left).1)
  {
  }

  /** With equal numbers it is the other way round: an I-block that arrives, and of which the answer is lost, has
      its command carried out; and the call ends in a success with nothing to show exactly if an R(NAK) arrives. */
  lemma EmptyThoughRun<C(!new)>(env: Env, program: Program<C>, losses: nat -> Event, cid: bool, world: World<C>,
    cmd: seq<byte>, capacity: nat)
    requires !world.Apart() && Ready(env) && Noticed(losses)
    requires Sendable(env, cid, cmd) && losses(world.line.state.time).LostUp?
    ensures var (world', r, status) := Call(env, FieldOf(env, program, losses), cid, world, cmd, capacity);
            var heard := NakArrives(losses, world.line.state.time);
            && (status == Ok <==> heard) && EmptyIff(CardOf(world), cmd, heard, CardOf(world'), r)
  {
    var send := IBlock(world.number, cid, cmd);
    IBlockIs(world.number, cid, cmd);
    EmptyExchange(env, program, losses, world.line, send);
    ExchangeAborts(env, FieldOf(env, program, losses), world.line, send);
    EmptyDelivered(Exchange(env, FieldOf(env, program, losses), world.line, send).1,
                   NakArrives(losses, world.line.state.time), capacity);
  }

  /** One of the two R(NAK) after a frame sent now arrives. */
  predicate NakArrives(losses: nat -> Event, now: nat) {
    losses(now + 1).Arrives? || losses(now + 2).Arrives?
  }

  lemma EmptyDelivered(r: Result, heard: bool, capacity: nat)
    requires (r.Reply? <==> heard) && (r.Reply? ==> r.inf == []) && (r.Aborted? ==> r.status != Ok)
    ensures (if r.Aborted? then r.status else Delivery(r.inf, true, Some(capacity))) == Ok <==> heard
  {
  }

  /** The command has been carried out; the result is empty, or a failure. */
  ghost predicate EmptyIff<C>(before: Card<C>, cmd: seq<byte>, heard: bool, card: Card<C>, r: Result) {
    (r.Reply? <==> heard) && (r.Reply? ==> r.inf == []) && card.executed == before.executed + [cmd]
  }

  lemma EmptyExchange<C(!new)>(env: Env, program: Program<C>, losses: nat -> Event, line: Line<Air<C>>, send: Block)
    requires Ready(env) && IsIBlock(send.pcb) && Canonical(send) && !HasNad(send.pcb)
    requires Sendable(env, HasCid(send.pcb), send.inf)
    requires line.state.card.number == Number(send.pcb) && Noticed(losses) && losses(line.state.time).LostUp?
    ensures var (line', r) := Exchange(env, FieldOf(env, program, losses), line, send);
            EmptyIff(line.state.card, send.inf, NakArrives(losses, line.state.time), line'.state.card, r)
  {
    CommandFrame(env, send);
    ExchangeAdvances(env, program, losses, line, send);
    AckedExchange(env, program, losses, line, send);
  }

  lemma AckedExchange<C>(env: Env, program: Program<C>, losses: nat -> Event, line: Line<Air<C>>, send: Block)
    requires Ready(env) && IsIBlock(send.pcb) && Canonical(send) && Wire(env, send).Frame?
    requires line.state.card.number == Number(send.pcb) && Noticed(losses) && losses(line.state.time).LostUp?
    ensures var r := Exchange(env, FieldOf(env, program, losses), line, send).1;
            (r.Reply? <==> NakArrives(losses, line.state.time)) && (r.Reply? ==> r.inf == [])
  {
    FrameCarries(env, program, losses, line, send);
    CarryAdvances(env, program, losses(line.state.time), line.state.card, send);
    var line1 := Transceive(FieldOf(env, program, losses), line, Wire(env, send).bytes).0;
    RecoverAcked(env, program, losses, line1.state.card, line1, send);
  }

  /** If every loss is noticed, a reply is the card's answer if the command has run, once, and empty if not. */
  lemma ReplyTells<C(!new)>(env: Env, program: Program<C>, losses: nat -> Event, line: Line<Air<C>>, send: Block)
    requires Ready(env) && IsIBlock(send.pcb) && Canonical(send) && line.state.card.number != Number(send.pcb)
    requires Noticed(losses) && !HasNad(send.pcb) && Sendable(env, HasCid(send.pcb), send.inf)
    requires Fits(env, HasCid(send.pcb), program(line.state.card.app, send.inf).1)
    ensures var (line', r) := Exchange(env, FieldOf(env, program, losses), line, send);
            r.Reply? ==>
              Tells(program, line.state.card, send.inf, Reaches(env, losses, line, send), line'.state.card, r.inf)
  {
    CommandFrame(env, send);
    if Reaches(env, losses, line, send) {
      ExactlyOnce(env, program, losses, line, send);
      CallFulfils(env, program, losses, line, send, ATTEMPTS - 1);
    } else {
      LostBlockIff(env, program, losses, line, send);
      assert line.state.card.executed + [] == line.state.card.executed;
    }
  }

  ghost predicate Tells<C>(program: Program<C>, before: Card<C>, cmd: seq<byte>, arrives: bool, card: Card<C>,
      inf: seq<byte>) {
    && card.executed == before.executed + (if arrives then [cmd] else [])
    && inf == if arrives then program(before.app, cmd).1 else []
  }

  /** What a successful call says about its command, if every loss is noticed: the reply is the card's answer
      if the command ran, once, and empty if it did not run. */
  lemma SuccessfulCall<C(!new)>(env: Env, program: Program<C>, losses: nat -> Event, cid: bool, world: World<C>,
    cmd: seq<byte>, capacity: nat)
    requires world.Apart() && Ready(env) && Noticed(losses)
    requires Sendable(env, cid, cmd) && Fits(env, cid, program(CardOf(world).app, cmd).1)
    ensures var (world', r, status) := Call(env, FieldOf(env, program, losses), cid, world, cmd, capacity);
            var arrives := Reaches(env, losses, world.line, IBlock(world.number, cid, cmd));
            status == Ok ==> r.Reply? && Tells(program, CardOf(world), cmd, arrives, CardOf(world'), r.inf)
  {
    IBlockIs(world.number, cid, cmd);
    ReplyTells(env, program, losses, world.line, IBlock(world.number, cid, cmd));
    ExchangeAborts(env, FieldOf(env, program, losses), world.line, IBlock(world.number, cid, cmd));
  }

  /** So the caller of a command that has an answer can tell: a successful call ran it, once, exactly if the
      reply is not empty, and otherwise did not run it. */
  lemma SuccessRanIff<C(!new)>(env: Env, program: Program<C>, losses: nat -> Event, cid: bool, world: World<C>,
    cmd: seq<byte>, capacity: nat)
    requires world.Apart() && Ready(env) && Noticed(losses)
    requires Sendable(env, cid, cmd) && Fits(env, cid, program(CardOf(world).app, cmd).1)
    requires program(CardOf(world).app, cmd).1 != []
    ensures var (world', r, status) := Call(env, FieldOf(env, program, losses), cid, world, cmd, capacity);
            status == Ok ==> r.Reply? && RanIff(CardOf(world), cmd, CardOf(world'), r.inf != [])
  {
    SuccessfulCall(env, program, losses, cid, world, cmd, capacity);
    var executed := CardOf(world).executed;
    assert |executed + [cmd]| == |executed| + 1 && executed + [] == executed;
  }

  /** The card has run the command, once, exactly if `ran`, and otherwise nothing. */
  ghost predicate RanIff<C>(before: Card<C>, cmd: seq<byte>, card: Card<C>, ran: bool) {
    && (card.executed == before.executed + [cmd] <==> ran)
    && (card.executed == before.executed <==> !ran)
  }

  // ---- A stale answer in two calls -----------------------------------------------------------------------

  /** Three answers to the first call are lost, then the I-block of the second. */
  predicate FailsThenLoses(losses: nat -> Event, i: nat) {
    && losses(i).LostUp? && !losses(i + 1).Arrives? && !losses(i + 2).Arrives?
    && OnlyNakArrives(losses, i + 3)
  }

  /** The first of the two calls: it fails, although the card has carried out its command and would answer. */
  lemma FailedCall<C(!new)>(env: Env, program: Program<C>, losses: nat -> Event, line: Line<Air<C>>, send: Block)
    requires Ready(env) && IsIBlock(send.pcb) && Canonical(send) && line.state.card.number != Number(send.pcb)
    requires Noticed(losses) && FailsThenLoses(losses, line.state.time) && Reaches(env, losses, line, send)
    requires Fits(env, HasCid(send.pcb), program(line.state.card.app, send.inf).1)
    requires program(line.state.card.app, send.inf).2 == []
    ensures var (line', r) := Exchange(env, FieldOf(env, program, losses), line, send);
            var card := line'.state.card;
            && r.Aborted? && r.status != Ok && line'.state.time == line.state.time + 3
            && Running(program, line.state.card, send, card) && IsAnswer(card.last.value, card.answer)
  {
    FirstCatches(env, program, losses, line, send);
    ExactlyOnce(env, program, losses, line, send);
    var (line', p) := Turn(env, FieldOf(env, program, losses), send, line, send);
    assert p.Bad? && line'.state.time == line.state.time + 3 && Remaining(line'.state.card) == 0;
  }

  /** The same at the level of calls. */
  lemma FirstFails<C(!new)>(env: Env, program: Program<C>, losses: nat -> Event, cid: bool, world: World<C>,
    cmd: seq<byte>, capacity: nat)
    requires world.Apart() && Ready(env) && Sendable(env, cid, cmd)
    requires Noticed(losses) && FailsThenLoses(losses, world.line.state.time)
    requires var (_, answer, waits) := program(CardOf(world).app, cmd); Fits(env, cid, answer) && waits == []
    ensures var (world', _, status) := Call(env, FieldOf(env, program, losses), cid, world, cmd, capacity);
            && status != Ok && !world'.Apart() && world'.line.state.time == world.line.state.time + 3
            && Keeps(program, CardOf(world), cid, cmd, CardOf(world'))
  {
    IBlockIs(world.number, cid, cmd);
    CommandFrame(env, IBlock(world.number, cid, cmd));
    FailedCall(env, program, losses, world.line, IBlock(world.number, cid, cmd));
  }

  /** The card has run the command and keeps its answer as the block sent last. */
  ghost predicate Keeps<C>(program: Program<C>, before: Card<C>, cid: bool, cmd: seq<byte>, card: Card<C>) {
    && card.executed == before.executed + [cmd]
    && card.last.Some? && IsAnswer(card.last.value, program(before.app, cmd).1) && HasCid(card.last.value.pcb) == cid
  }

  lemma SecondIsStale<C(!new)>(env: Env, program: Program<C>, losses: nat -> Event, cid: bool, world: World<C>,
    cmd: seq<byte>, capacity: nat, earlier: seq<byte>)
    requires !world.Apart() && Ready(env) && Sendable(env, cid, cmd) && OnlyNakArrives(losses, world.line.state.time)
    requires CardOf(world).last.Some? && IsAnswer(CardOf(world).last.value, earlier)
    requires Fits(env, HasCid(CardOf(world).last.value.pcb), earlier) && |earlier| <= capacity
    ensures var (world', r, status) := Call(env, FieldOf(env, program, losses), cid, world, cmd, capacity);
            status == Ok && r.Reply? && r.inf == earlier && CardOf(world') == CardOf(world)
  {
    IBlockIs(world.number, cid, cmd);
    CommandFrame(env, IBlock(world.number, cid, cmd));
    StaleAnswer(env, program, losses, world.line, IBlock(world.number, cid, cmd), earlier);
  }

  /** From numbers that are apart, two calls: the first fails because all its answers are lost; the I-block of
      the second is lost, and the call succeeds with the answer to the first. Its own command never runs. */
  lemma StaleRun<C(!new)>(env: Env, program: Program<C>, losses: nat -> Event, cid: bool, world: World<C>,
    cmd1: seq<byte>, cmd2: seq<byte>, capacity: nat)
    requires world.Apart() && Ready(env) && Sendable(env, cid, cmd1) && Sendable(env, cid, cmd2)
    requires Noticed(losses) && FailsThenLoses(losses, world.line.state.time)
    requires var (_, answer, waits) := program(CardOf(world).app, cmd1);
             Fits(env, cid, answer) && |answer| <= capacity && waits == []
    ensures Stale(Calls(env, FieldOf(env, program, losses), cid, capacity), program, world, cmd1, cmd2)
  {
    FirstFails(env, program, losses, cid, world, cmd1, capacity);
    var world1 := Calls(env, FieldOf(env, program, losses), cid, capacity)(world, cmd1).0;
    SecondIsStale(env, program, losses, cid, world1, cmd2, capacity, program(CardOf(world).app, cmd1).1);
  }

  /** A first call fails, and the second succeeds with its answer and without having run. */
  ghost predicate Stale<C>(call: (World<C>, seq<byte>) -> (World<C>, Result, Status), program: Program<C>,
    world: World<C>, cmd1: seq<byte>, cmd2: seq<byte>)
  {
    var (world1, r1, status1) := call(world, cmd1);
    var (world2, r2, status2) := call(world1, cmd2);
    && status1 != Ok && CardOf(world1).executed == CardOf(world).executed + [cmd1]
    && status2 == Ok && r2.Reply? && r2.inf == program(CardOf(world).app, cmd1).1
    && CardOf(world2) == CardOf(world1)
  }
}
