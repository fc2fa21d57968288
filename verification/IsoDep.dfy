/** One ISO-DEP exchange as the reader carries it out (MFRC522_I2C_Extended.cpp:207-399): up to six attempts,
    in each the block and up to two R(NAK), and an S(WTX) answer after every request for more time. */
module IsoDep {
  import opened Octets
  import opened Bytes
  import opened Mfrc522

  const FIFO_SIZE := 64
  const MAX_RETRIES := 2
  const ATTEMPTS := 6

  datatype Block = Block(pcb: byte, cid: byte, nad: byte, inf: seq<byte>)

  predicate HasCid(pcb: byte) {
    pcb & 0x08 != 0
  }

  predicate HasNad(pcb: byte) {
    pcb & 0x04 != 0
  }

  predicate Number(pcb: byte) {
    pcb & 0x01 != 0
  }

  /** The chip: whether it adds and checks the CRC itself, and its coprocessor. */
  datatype Env = Env(txCrc: bool, rxCrc: bool, coprocessor: Coprocessor)

  /** At most what fits in the chip's buffer. */
  type Received = s: seq<byte> | |s| <= FIFO_SIZE witness []

  /** The field: its state and a frame sent give its new state, a status and what was received. */
  type Field<!S> = (S, seq<byte>) -> (S, Status, Received)

  /** The state of the field and all frames sent into it. */
  datatype Line<S> = Line(state: S, sent: seq<seq<byte>>)

  function Transceive<S>(field: Field<S>, line: Line<S>, frame: seq<byte>): (Line<S>, Status, Received) {
    var (state', status, data) := field(line.state, frame);
    (Line(state', line.sent + [frame]), status, data)
  }

  // ---- Frames ---------------------------------------------------------------------------------------

  function Prologue(b: Block): (s: seq<byte>)
    ensures 1 <= |s| <= 3 && s[0] == b.pcb
  {
    [b.pcb] + (if HasCid(b.pcb) then [b.cid] else []) + (if HasNad(b.pcb) then [b.nad] else [])
  }

  /** Whether the copy of an information field of `n` bytes behind `p` bytes of prologue is let through; the
      length is computed in 8 bits. */
  predicate RoomPasses(p: nat, n: nat) {
    (p + n) % 256 <= FIFO_SIZE
  }

  /** The check tells whether the field fits the buffer, exactly if the length does not wrap. */
  lemma RoomIsExactIff(p: nat, n: nat)
    requires 1 <= p <= 3 && 0 < n < 256
    ensures (RoomPasses(p, n) <==> p + n <= 64) <==> p + n <= 255
  {
    if p + n > 255 {
      assert (p + n) % 256 == p + n - 256;
    }
  }

  /** A block whose length does not wrap. */
  predicate Measurable(b: Block) {
    |Prologue(b)| + |b.inf| <= 255
  }

  /** 255 bytes pass the check behind the shortest prologue, and run past the buffer. */
  lemma RoomOverruns(data: seq<byte>)
    requires |data| == 255
    ensures var b := IBlock(false, false, data);
            !Measurable(b) && RoomPasses(|Prologue(b)|, |b.inf|) && |Prologue(b)| + |b.inf| > 64
  {
  }

  datatype Wired = Frame(bytes: seq<byte>) | Unsent(status: Status)

  /** The frame of a block, or why there is none. */
  function Wire(env: Env, b: Block): (w: Wired)
    ensures w.Frame? ==> 1 <= |w.bytes| <= FIFO_SIZE && w.bytes[0] == b.pcb
    ensures w.Unsent? ==> w.status != Ok
  {
    var out := Prologue(b) + b.inf;
    if |out| > FIFO_SIZE then Unsent(NoRoom)
    else if env.txCrc then Frame(out)
    else if |out| + 2 > FIFO_SIZE then Unsent(NoRoom)
    else if env.coprocessor.Checksum(out).None? then Unsent(Timeout)
    else Frame(out + env.coprocessor.Checksum(out).value)
  }

  /** The R(NAK) for a block: its number and its CID. */
  function Rnak(send: Block): Block {
    Block(0xB2 | (send.pcb & 0x08) | (send.pcb & 0x01), if HasCid(send.pcb) then send.cid else 0, 0, [])
  }

  // ---- What was heard -------------------------------------------------------------------------------

  datatype Parsed = Wait(answer: Block) | Final(pcb: byte, inf: seq<byte>) | Bad(status: Status)

  predicate IsWtx(pcb: byte, inf: seq<byte>) {
    pcb & 0xC0 == 0xC0 && pcb & 0x30 == 0x30 && |inf| == 1
  }

  function WtxAnswer(pcb: byte, cid: byte, inf: seq<byte>): Block {
    Block(if HasCid(pcb) then 0xFA else 0xF2, if HasCid(pcb) then cid else 0, 0, inf)
  }

  function Offset(pcb: byte): nat {
    1 + (if HasCid(pcb) then 1 else 0) + (if HasNad(pcb) then 1 else 0)
  }

  /** The first byte of a buffer of zeros into which `data` was received. */
  function FirstByte(data: seq<byte>): byte {
    if data == [] then 0 else data[0]
  }

  /** What was received, without its CRC if the chip leaves it there. */
  function Checked(env: Env, data: seq<byte>): (w: Wired)
    ensures w.Unsent? ==> w.status != Ok
  {
    if env.rxCrc then Frame(data)
    else if |data| < Offset(FirstByte(data)) + 2 then Unsent(CrcWrong)
    else
      var body := data[..|data| - 2];
      if env.coprocessor.Checksum(body).None? then Unsent(Timeout)
      else if env.coprocessor.Checksum(body).value != data[|data| - 2..] then Unsent(CrcWrong)
      else Frame(body)
  }

  function Interpret(pcb: byte, body: seq<byte>): (p: Parsed)
    ensures p.Bad? ==> p.status != Ok
    ensures p.Wait? ==> (p.answer.pcb == 0xF2 || p.answer.pcb == 0xFA) && |p.answer.inf| == 1
  {
    var inf := if |body| > Offset(pcb) then body[Offset(pcb)..] else [];
    if pcb & 0xC0 == 0x80 && pcb & 0x10 != 0 then Bad(MifareNack)
    else if IsWtx(pcb, inf) then Wait(WtxAnswer(pcb, body[1], inf))
    else Final(pcb, inf)
  }

  function Parse(env: Env, data: seq<byte>): (p: Parsed)
    ensures p.Bad? ==> p.status != Ok
    ensures p.Wait? ==> (p.answer.pcb == 0xF2 || p.answer.pcb == 0xFA) && |p.answer.inf| == 1
  {
    var c := Checked(env, data);
    if c.Unsent? then Bad(c.status) else Interpret(FirstByte(data), c.bytes)
  }

  // ---- The exchange ---------------------------------------------------------------------------------

  datatype Try = Heard(data: Received) | Failed(status: Status)

  /** Up to `retries` R(NAK), until one brings an answer. */
  function Recover<S>(env: Env, field: Field<S>, line: Line<S>, nak: Block, retries: nat): (r: (Line<S>, Try))
    requires retries > 0
    ensures r.1.Failed? ==> r.1.status != Ok
    ensures r.1.Heard? ==> r.1.data != []
    decreases retries
  {
    var w := Wire(env, nak);
    if w.Unsent? then (line, Failed(w.status)) else
      var (line', status, data) := Transceive(field, line, w.bytes);
      if status == Ok && data != [] then (line', Heard(data))
      else if retries > 1 then Recover(env, field, line', nak, retries - 1)
      else (line', Failed(if status == Ok then Error else status))
  }

  /** One attempt. */
  function Once<S>(env: Env, field: Field<S>, send: Block, line: Line<S>, current: Block): (r: (Line<S>, Try))
    ensures r.1.Failed? ==> r.1.status != Ok
  {
    var w := Wire(env, current);
    if w.Unsent? then (line, Failed(w.status)) else
      var (line', status, data) := Transceive(field, line, w.bytes);
      if status == Ok then (line', Heard(data)) else Recover(env, field, line', Rnak(send), MAX_RETRIES)
  }

  /** What one attempt brings. */
  function Turn<S>(env: Env, field: Field<S>, send: Block, line: Line<S>, current: Block): (r: (Line<S>, Parsed))
    ensures r.1.Bad? ==> r.1.status != Ok
    ensures r.1.Wait? ==> (r.1.answer.pcb == 0xF2 || r.1.answer.pcb == 0xFA) && |r.1.answer.inf| == 1
  {
    var (line', t) := Once(env, field, send, line, current);
    (line', if t.Failed? then Bad(t.status) else Parse(env, t.data))
  }

  datatype Result = Reply(pcb: byte, inf: seq<byte>) | Aborted(status: Status)

  /** The attempts that are left; every request for more time takes one. */
  function Attempts<L>(turn: (L, Block) -> (L, Parsed), line: L, current: Block, left: nat): (L, Result)
    decreases left
  {
    if left == 0 then (line, Aborted(Timeout)) else
      var (line', p) := turn(line, current);
      match p
      case Bad(status) => (line', Aborted(status))
      case Final(pcb, inf) => (line', Reply(pcb, inf))
      case Wait(answer) => Attempts(turn, line', answer, left - 1)
  }

  /** One attempt of those that are left. */
  lemma AttemptsNext<L>(turn: (L, Block) -> (L, Parsed), line: L, current: Block, left: nat, line': L, p: Parsed)
    requires left > 0 && turn(line, current) == (line', p)
    ensures Attempts(turn, line, current, left)
         == match p
            case Bad(status) => (line', Aborted(status))
            case Final(pcb, inf) => (line', Reply(pcb, inf))
            case Wait(answer) => Attempts(turn, line', answer, left - 1)
  {
  }

  /** What the last attempt brought becomes the result; a request for more time is one too many. */
  predicate Ends(p: Parsed, r: Result) {
    match p
    case Bad(status) => r == Aborted(status)
    case Final(pcb, inf) => r == Reply(pcb, inf)
    case Wait(_) => r == Aborted(Timeout)
  }

  /** What holds of a request for more time holds, one attempt fewer, of what its answer brings. */
  ghost predicate KeptByTurns<L(!new)>(turn: (L, Block) -> (L, Parsed), kept: (L, Parsed, nat) -> bool) {
    forall l, b, n: nat {:trigger kept(l, Wait(b), n)} ::
      n > 0 && kept(l, Wait(b), n) ==> kept(turn(l, b).0, turn(l, b).1, n - 1)
  }

  /** What every attempt keeps, the whole loop keeps. */
  lemma {:induction false} AttemptsKeep<L(!new)>(turn: (L, Block) -> (L, Parsed), kept: (L, Parsed, nat) -> bool,
    line: L, current: Block, left: nat) returns (p: Parsed, rest: nat)
    requires KeptByTurns(turn, kept) && kept(line, Wait(current), left)
    ensures var (line', r) := Attempts(turn, line, current, left);
            kept(line', p, rest) && Ends(p, r) && (p.Wait? ==> rest == 0)
    decreases left
  {
    if left == 0 {
      return Wait(current), 0;
    }
    p, rest := AttemptsReach(turn, kept, line, current, left - 1);
  }

  lemma {:induction false} AttemptsReach<L(!new)>(turn: (L, Block) -> (L, Parsed), kept: (L, Parsed, nat) -> bool,
    line: L, current: Block, left: nat) returns (p: Parsed, rest: nat)
    requires KeptByTurns(turn, kept) && kept(turn(line, current).0, turn(line, current).1, left)
    ensures var (line', r) := Attempts(turn, line, current, left + 1);
            kept(line', p, rest) && Ends(p, r) && (p.Wait? ==> rest == 0)
    decreases left
  {
    var (line', p') := turn(line, current);
    p, rest := p', left;
    if p'.Wait? {
      if left == 0 {
        return p', 0;
      }
      p, rest := AttemptsReach(turn, kept, line', p'.answer, left - 1);
    }
  }

  function Turns<S>(env: Env, field: Field<S>, send: Block): (Line<S>, Block) -> (Line<S>, Parsed) {
    (line: Line<S>, current: Block) => Turn(env, field, send, line, current)
  }

  function Exchange<S>(env: Env, field: Field<S>, line: Line<S>, send: Block): (Line<S>, Result) {
    Attempts(Turns(env, field, send), line, send, ATTEMPTS)
  }

  // ---- What is sent, whatever the field does --------------------------------------------------------

  /** A frame that carries an R(NAK) with the number of `send`, or the answer to a request for more time. */
  predicate FollowsUp(send: Block, frame: seq<byte>) {
    |frame| > 0 && (frame[0] == Rnak(send).pcb || frame[0] == 0xF2 || frame[0] == 0xFA)
  }

  /** `more` has at most `n` frames more than `less`, all of them R(NAK) or S(WTX) answers. */
  predicate Extends(send: Block, less: seq<seq<byte>>, more: seq<seq<byte>>, n: nat) {
    && |less| <= |more| <= |less| + n
    && more[..|less|] == less
    && forall i :: |less| <= i < |more| ==> FollowsUp(send, more[i])
  }

  lemma ExtendsOn(send: Block, a: seq<seq<byte>>, b: seq<seq<byte>>, c: seq<seq<byte>>, m: nat, n: nat)
    requires Extends(send, a, b, m) && Extends(send, b, c, n)
    ensures Extends(send, a, c, m + n)
  {
    assert c[..|a|] == c[..|b|][..|a|];
    forall i | |a| <= i < |c| ensures FollowsUp(send, c[i]) {
      if i < |b| {
        assert c[i] == c[..|b|][i];
      }
    }
  }

  lemma {:induction false} RecoverSends<S>(env: Env, field: Field<S>, line: Line<S>, send: Block, retries: nat)
    requires retries > 0
    ensures Extends(send, line.sent, Recover(env, field, line, Rnak(send), retries).0.sent, retries)
    decreases retries
  {
    var w := Wire(env, Rnak(send));
    if w.Frame? {
      var (line', status, data) := Transceive(field, line, w.bytes);
      assert Extends(send, line.sent, line'.sent, 1);
      if !(status == Ok && data != []) && retries > 1 {
        RecoverSends(env, field, line', send, retries - 1);
        ExtendsOn(send, line.sent, line'.sent, Recover(env, field, line', Rnak(send), retries - 1).0.sent, 1,
          retries - 1);
      }
    }
  }

  /** An attempt sends its own frame first, and then at most two R(NAK). */
  lemma TurnSends<S>(env: Env, field: Field<S>, send: Block, line: Line<S>, current: Block)
    ensures var w, sent := Wire(env, current), Turn(env, field, send, line, current).0.sent;
            if w.Frame? then Extends(send, line.sent + [w.bytes], sent, MAX_RETRIES) else sent == line.sent
  {
    var w := Wire(env, current);
    if w.Frame? {
      var (line', status, data) := Transceive(field, line, w.bytes);
      if status != Ok {
        RecoverSends(env, field, line', send, MAX_RETRIES);
      }
    }
  }

  lemma {:induction false} AnswersSend<S>(env: Env, field: Field<S>, send: Block, line: Line<S>, current: Block,
      left: nat)
    requires current.pcb == 0xF2 || current.pcb == 0xFA
    ensures Extends(send, line.sent, Attempts(Turns(env, field, send), line, current, left).0.sent, 3 * left)
    decreases left
  {
    if left > 0 {
      TurnSends(env, field, send, line, current);
      var w := Wire(env, current);
      var (line', p) := Turn(env, field, send, line, current);
      if w.Frame? {
        assert Extends(send, line.sent, line.sent + [w.bytes], 1);
        ExtendsOn(send, line.sent, line.sent + [w.bytes], line'.sent, 1, 2);
      }
      if p.Wait? {
        AnswersSend(env, field, send, line', p.answer, left - 1);
        ExtendsOn(send, line.sent, line'.sent,
          Attempts(Turns(env, field, send), line', p.answer, left - 1).0.sent, 3, 3 * (left - 1));
      }
    }
  }

  /** Whatever the field answers, an exchange sends the frame of its block first, then at most 17 others,
      each an R(NAK) with the same number or an S(WTX) answer; an I-block, therefore, exactly once. */
  lemma BlockSentOnce<S>(env: Env, field: Field<S>, line: Line<S>, send: Block)
    ensures var w, sent := Wire(env, send), Exchange(env, field, line, send).0.sent;
            if w.Frame? then Extends(send, line.sent + [w.bytes], sent, 17) else sent == line.sent
    ensures var w, sent := Wire(env, send), Exchange(env, field, line, send).0.sent;
            w.Frame? && send.pcb & 0xC0 == 0x00 ==> forall i :: |line.sent| < i < |sent| ==> sent[i] != w.bytes
  {
    var w := Wire(env, send);
    TurnSends(env, field, send, line, send);
    var (line', p) := Turn(env, field, send, line, send);
    if p.Wait? {
      AnswersSend(env, field, send, line', p.answer, ATTEMPTS - 1);
      ExtendsOn(send, line.sent + [w.bytes], line'.sent,
        Attempts(Turns(env, field, send), line', p.answer, ATTEMPTS - 1).0.sent, 2, 15);
    }
  }

  // ---- The reader -----------------------------------------------------------------------------------

  class Pcd<S> {
    const env: Env
    const field: Field<S>
    var state: S
    var sent: seq<seq<byte>>

    constructor (env: Env, field: Field<S>, state: S)
      ensures this.env == env && this.field == field && this.state == state && sent == []
    {
      this.env := env;
      this.field := field;
      this.state := state;
      sent := [];
    }

    function Now(): Line<S>
      reads this
    {
      Line(state, sent)
    }

    /** `PCD_TransceiveData`: whatever was received is in the buffer. */
    method TransceiveData(outBuffer: array<byte>, outLength: nat, inBuffer: array<byte>)
      returns (status: Status, inLength: nat)
      requires outLength <= outBuffer.Length && inBuffer.Length == FIFO_SIZE && inBuffer != outBuffer
      modifies this`state, this`sent, inBuffer
      ensures inLength <= FIFO_SIZE
      ensures (Now(), status, inBuffer[..inLength]) == Transceive(field, old(Now()), outBuffer[..outLength])
      ensures forall i :: inLength <= i < FIFO_SIZE ==> inBuffer[i] == old(inBuffer[i])
    {
      var (line, st, data) := Transceive(field, Now(), outBuffer[..outLength]);
      state, sent, status := line.state, line.sent, st;
      inLength := |data|;
      Memcpy(inBuffer, 0, data);
      assert inBuffer[..inLength] == data;
    }

    /** The prologue, the information field and, in software, the CRC. A length that wraps runs past the
        buffer, so callers must not pass such a block. */
    method PutFrame(b: Block, outBuffer: array<byte>) returns (status: Status, outLength: nat)
      requires outBuffer.Length == FIFO_SIZE && Measurable(b)
      modifies outBuffer
      ensures status == Ok ==> outLength <= FIFO_SIZE && Wire(env, b) == Frame(outBuffer[..outLength])
      ensures status != Ok ==> Wire(env, b) == Unsent(status)
    {
      outLength := PutPrologue(b, outBuffer);
      ghost var prologue := outBuffer[..outLength];
      if |b.inf| > 0 {
        if !RoomPasses(outLength, |b.inf|) {
          return NoRoom, outLength;
        }
        Memcpy(outBuffer, outLength, b.inf);
        outLength := outLength + |b.inf|;
      }
      assert outBuffer[..outLength] == prologue + b.inf;
      status := Ok;
      if !env.txCrc {
        status, outLength := PutCrc(outBuffer, outLength);
      }
    }

    method PutPrologue(b: Block, outBuffer: array<byte>) returns (outLength: nat)
      requires outBuffer.Length == FIFO_SIZE
      modifies outBuffer
      ensures outLength <= 3 && outBuffer[..outLength] == Prologue(b)
    {
      outLength := 1;
      outBuffer[0] := b.pcb;
      if b.pcb & 0x08 != 0 {
        outBuffer[outLength], outLength := b.cid, outLength + 1;
      }
      if b.pcb & 0x04 != 0 {
        outBuffer[outLength], outLength := b.nad, outLength + 1;
      }
    }

    /** `PCD_CalculateCRC` into the two bytes behind the frame. */
    method PutCrc(outBuffer: array<byte>, outLength: nat) returns (status: Status, length: nat)
      requires outLength <= FIFO_SIZE == outBuffer.Length
      modifies outBuffer
      ensures outLength + 2 > FIFO_SIZE ==> status == NoRoom
      ensures var crc := env.coprocessor.Checksum(old(outBuffer[..outLength]));
              status == (if outLength + 2 > FIFO_SIZE then NoRoom else if crc.None? then Timeout else Ok)
              && (status == Ok ==>
                    length == outLength + 2 && outBuffer[..length] == old(outBuffer[..outLength]) + crc.value)
    {
      length := outLength;
      if outLength + 2 > FIFO_SIZE {
        return NoRoom, length;
      }
      var crc := env.coprocessor.Checksum(outBuffer[..outLength]);
      if crc.None? {
        return Timeout, length;
      }
      Memcpy(outBuffer, outLength, crc.value);
      return Ok, outLength + 2;
    }

    /** The loop of R(NAK) after a failure. */
    method SendNaks(send: Block, inBuffer: array<byte>) returns (status: Status, inLength: nat)
      requires inBuffer.Length == FIFO_SIZE
      modifies this`state, this`sent, inBuffer
      ensures inLength <= FIFO_SIZE
      ensures (Now(), if status == Ok then Heard(inBuffer[..inLength]) else Failed(status))
           == Recover(env, field, old(Now()), Rnak(send), MAX_RETRIES)
    {
      var retries := 0;
      status, inLength := Error, 0;
      while retries < MAX_RETRIES
        invariant 0 <= retries <= MAX_RETRIES && inLength <= FIFO_SIZE
        invariant Recover(env, field, old(Now()), Rnak(send), MAX_RETRIES)
               == if retries < MAX_RETRIES then Recover(env, field, Now(), Rnak(send), MAX_RETRIES - retries)
                  else (Now(), Failed(if status == Ok then Error else status))
      {
        retries := retries + 1;
        var rnakBuffer := new byte[FIFO_SIZE](_ => 0);
        var crcStatus, rnakLength := PutFrame(Rnak(send), rnakBuffer);
        if crcStatus != Ok {
          return crcStatus, inLength;
        }
        status, inLength := TransceiveData(rnakBuffer, rnakLength, inBuffer);
        if status == Ok && inLength > 0 {
          return;
        }
      }
      if status == Ok {
        status := Error;
      }
    }

    /** One attempt. */
    method SendOnce(send: Block, current: Block, inBuffer: array<byte>) returns (status: Status, inLength: nat)
      requires inBuffer.Length == FIFO_SIZE && Measurable(current)
      requires forall i :: 0 <= i < FIFO_SIZE ==> inBuffer[i] == 0
      modifies this`state, this`sent, inBuffer
      ensures inLength <= FIFO_SIZE
      ensures (Now(), if status == Ok then Heard(inBuffer[..inLength]) else Failed(status))
           == Once(env, field, send, old(Now()), current)
      ensures status == Ok ==> inBuffer[0] == FirstByte(inBuffer[..inLength])
    {
      var outBuffer := new byte[FIFO_SIZE](_ => 0);
      var outLength;
      inLength := 0;
      status, outLength := PutFrame(current, outBuffer);
      if status != Ok {
        return;
      }
      status, inLength := TransceiveData(outBuffer, outLength, inBuffer);
      if status != Ok {
        status, inLength := SendNaks(send, inBuffer);
      }
    }

    /** The CRC at the end of what was received, if the chip leaves it there. */
    method CheckCrc(inBuffer: array<byte>, received: nat, offset: nat) returns (status: Status, inLength: nat)
      requires received <= inBuffer.Length && offset == Offset(FirstByte(inBuffer[..received]))
      ensures inLength <= received
      ensures Checked(env, inBuffer[..received]) == if status == Ok then Frame(inBuffer[..inLength]) else Unsent(status)
    {
      inLength := received;
      if !env.rxCrc {
        if inLength < offset + 2 {
          return CrcWrong, inLength;
        }
        var crc := env.coprocessor.Checksum(inBuffer[..inLength - 2]);
        ghost var data := inBuffer[..received];
        assert data[..|data| - 2] == inBuffer[..received - 2];
        ghost var tail := data[|data| - 2..];
        assert tail == [inBuffer[inLength - 2], inBuffer[inLength - 1]];
        if crc.None? {
          return Timeout, inLength;
        }
        assert crc.value == [crc.value[0], crc.value[1]];
        if crc.value[0] != inBuffer[inLength - 2] || crc.value[1] != inBuffer[inLength - 1] {
          assert crc.value[0] != tail[0] || crc.value[1] != tail[1];
          return CrcWrong, inLength;
        }
        assert crc.value == tail;
        inLength := inLength - 2;
      }
      return Ok, inLength;
    }

    /** Offsets, CRC and block type of what was received. */
    method Examine(inBuffer: array<byte>, received: nat) returns (p: Parsed)
      requires inBuffer.Length == FIFO_SIZE && received <= FIFO_SIZE
      requires inBuffer[0] == FirstByte(inBuffer[..received])
      ensures p == Parse(env, inBuffer[..received])
    {
      var offset := 1;
      var hasCid := inBuffer[0] & 0x08 != 0;
      if hasCid {
        offset := offset + 1;
      }
      if inBuffer[0] & 0x04 != 0 {
        offset := offset + 1;
      }
      var status, inLength := CheckCrc(inBuffer, received, offset);
      if status != Ok {
        return Bad(status);
      }
      p := Classify(inBuffer, inLength, offset, hasCid);
    }

    /** R(NAK), a request for more time, or an answer. */
    method Classify(inBuffer: array<byte>, inLength: nat, offset: nat, hasCid: bool) returns (p: Parsed)
      requires 2 <= inBuffer.Length && inLength <= inBuffer.Length
      requires offset == Offset(inBuffer[0]) && hasCid == HasCid(inBuffer[0])
      ensures p == Interpret(inBuffer[0], inBuffer[..inLength])
    {
      if inBuffer[0] & 0xC0 == 0x80 && inBuffer[0] & 0x10 != 0 {
        return Bad(MifareNack);
      }
      var inf := if inLength > offset then inBuffer[offset..inLength] else [];
      assert inLength > offset ==> inBuffer[..inLength][offset..] == inf;
      if IsWtx(inBuffer[0], inf) {
        return Wait(Block(0xF2 | (if hasCid then 0x08 else 0x00), if hasCid then inBuffer[1] else 0x00, 0x00, inf));
      }
      return Final(inBuffer[0], inf);
    }

    /** One attempt and what it brings. */
    method TakeTurn(send: Block, current: Block) returns (p: Parsed)
      requires Measurable(current)
      modifies this`state, this`sent
      ensures (Now(), p) == Turns(env, field, send)(old(Now()), current)
      ensures p.Bad? ==> p.status != Ok
      ensures p.Wait? ==> Measurable(p.answer)
    {
      var inBuffer := new byte[FIFO_SIZE](_ => 0);
      var status, inLength := SendOnce(send, current, inBuffer);
      if status != Ok {
        return Bad(status);
      }
      p := Examine(inBuffer, inLength);
    }

    /** The loop of attempts. */
    method TryAttempts(send: Block, attempts: nat) returns (r: Result)
      requires Measurable(send)
      modifies this`state, this`sent
      ensures (Now(), r) == Attempts(Turns(env, field, send), old(Now()), send, attempts)
      ensures r.Aborted? ==> r.status != Ok
    {
      ghost var turn := Turns(env, field, send);
      var current := send;
      var attempt := 0;
      while attempt < attempts
        invariant 0 <= attempt <= attempts && Measurable(current)
        invariant Attempts(turn, old(Now()), send, attempts) == Attempts(turn, Now(), current, attempts - attempt)
      {
        ghost var before := Now();
        var p := TakeTurn(send, current);
        AttemptsNext(turn, before, current, attempts - attempt, Now(), p);
        attempt := attempt + 1;
        match p
        case Bad(bad) => return Aborted(bad);
        case Wait(answer) => current := answer;
        case Final(pcb, inf) => return Reply(pcb, inf);
      }
      return Aborted(Timeout);
    }

    /** `TCL_Transceive` of one block. Of a reply, the information field goes to `backData` if the caller gave
        room for it. */
    method TclTransceive(send: Block, backData: array?<byte>, capacity: Option<nat>)
      returns (status: Status, backLength: nat, backPcb: byte, ghost r: Result)
      requires Measurable(send)
      requires backData != null && capacity.Some? ==> capacity.value <= backData.Length
      modifies this`state, this`sent, if backData == null then {} else {backData}
      ensures (Now(), r) == Exchange(env, field, old(Now()), send)
      ensures status == if r.Aborted? then r.status else Delivery(r.inf, backData != null, capacity)
      ensures status == Ok ==> r.Reply? && backPcb == r.pcb && Delivered(r.inf, backData, capacity, backLength)
    {
      backLength, backPcb := 0, 0;
      var result := TryAttempts(send, ATTEMPTS);
      r := result;
      match result
      case Aborted(aborted) => status := aborted;
      case Reply(pcb, inf) =>
        backPcb := pcb;
        status, backLength := Deliver(inf, backData, capacity);
    }
  }

  /** The status of a call that brought an answer. */
  function Delivery(inf: seq<byte>, wanted: bool, capacity: Option<nat>): Status {
    if capacity.Some? && ((!wanted && inf != []) || |inf| > capacity.value) then NoRoom else Ok
  }

  predicate Delivered(inf: seq<byte>, backData: array?<byte>, capacity: Option<nat>, backLength: nat)
    reads backData
  {
    capacity.Some? ==>
      backLength == |inf| && (backData != null ==> backLength <= backData.Length && backData[..backLength] == inf)
  }

  method Deliver(inf: seq<byte>, backData: array?<byte>, capacity: Option<nat>)
    returns (status: Status, backLength: nat)
    requires backData != null && capacity.Some? ==> capacity.value <= backData.Length
    modifies if backData == null then {} else {backData}
    ensures status == Delivery(inf, backData != null, capacity)
    ensures status == Ok ==> Delivered(inf, backData, capacity, backLength)
  {
    status, backLength := Ok, 0;
    if capacity.Some? {
      if (backData == null && inf != []) || |inf| > capacity.value {
        return NoRoom, 0;
      }
      if backData != null && inf != [] {
        Memcpy(backData, 0, inf);
        assert backData[..|inf|] == inf;
      }
      backLength := |inf|;
    }
  }

  // ---- A tag with its block number ----------------------------------------------------------------------

  function IBlock(number: bool, cid: bool, data: seq<byte>): Block {
    Block(if cid then (if number then 0x0B else 0x0A) else if number then 0x03 else 0x02, 0, 0, data)
  }

  class TagInfo {
    var blockNumber: bool
    var selected: bool
    const supportsCid: bool

    constructor (supportsCid: bool)
      ensures !blockNumber && !selected && this.supportsCid == supportsCid
    {
      blockNumber, selected := false, false;
      this.supportsCid := supportsCid;
    }

    /** `TCL_Transceive` of data to a tag, up to the loop that fetches the rest of a chained reply. The block
        number changes exactly if the call succeeds. */
    method TclTransceive<S>(pcd: Pcd<S>, data: seq<byte>, backData: array?<byte>, capacity: Option<nat>)
      returns (status: Status, backLength: nat, chained: bool, ghost r: Result)
      requires |data| < 256 && (selected ==> (if supportsCid then 2 else 1) + |data| <= 255)
      requires backData != null && capacity.Some? ==> capacity.value <= backData.Length
      modifies this`blockNumber, pcd`state, pcd`sent, if backData == null then {} else {backData}
      ensures !selected ==> status == Invalid && pcd.Now() == old(pcd.Now())
      ensures selected
          ==> (pcd.Now(), r)
              == Exchange(pcd.env, pcd.field, old(pcd.Now()), IBlock(old(blockNumber), supportsCid, data))
      ensures selected ==> status == if r.Aborted? then r.status else Delivery(r.inf, backData != null, capacity)
      ensures status == Ok ==> r.Reply? && Delivered(r.inf, backData, capacity, backLength)
      ensures status == Ok ==> chained == (capacity.Some? && r.pcb & 0x10 != 0)
      ensures blockNumber == (old(blockNumber) != (status == Ok))
    {
      backLength, chained := 0, false;
      if !selected {
        status, r := Invalid, Aborted(Invalid);
        return;
      }
      var pcb: byte := 0x02;
      if supportsCid {
        pcb := pcb | 0x08;
      }
      if blockNumber {
        pcb := pcb | 0x01;
      }
      assert Block(pcb, 0, 0, data) == IBlock(blockNumber, supportsCid, data);
      var backPcb;
      status, backLength, backPcb, r := pcd.TclTransceive(Block(pcb, 0, 0, data), backData, capacity);
      if status != Ok {
        return;
      }
      blockNumber := !blockNumber;
      chained := capacity.Some? && backPcb & 0x10 != 0;
    }
  }
}
