/** AuthenticateEV2 (ntag424_core.cpp:110-244): the handshake with its delay retries, and the agreement of
    host and card at its end. */
module Authentication {
  import opened Octets
  import opened Bytes
  import opened BlockCipher
  import opened CipherSuite
  import opened Sessions
  import opened Apdu
  import opened Readers
  import opened Core
  import C = Card

  const MAX_RETRIES := 50

  const SELECT_APPLICATION: seq<byte> :=
    [0x00, 0xA4, 0x04, 0x00, 0x07, 0xD2, 0x76, 0x00, 0x00, 0x85, 0x01, 0x01, 0x00]

  function Part1(cmd: byte, keyNo: byte): seq<byte> {
    [0x90, cmd, 0x00, 0x00, 0x05, keyNo, 0x03, 0x00, 0x00, 0x00, 0x00]
  }

  function Part2(token: seq<byte>): seq<byte> {
    [0x90, 0xAF, 0x00, 0x00, 0x20] + token + [0x00]
  }

  /** What the card grants a host that knows the key. */
  datatype Grant = Grant(ti: Ti, pdCap2: Capabilities, pcdCap2: Capabilities, rndB: Block)

  predicate AcceptsPart1(r: seq<byte>) {
    HasStatus(r, 0x91, 0xAF) && |r| - 2 == 16
  }

  /** Part 1 is repeated as long as the card answers 91 AD, and at most `tries` times in all. */
  function Ask<S>(step: Peer<S>, state: S, frame: seq<byte>, tries: nat): (r: (S, Option<seq<byte>>))
    ensures r.1.Some? ==> AcceptsPart1(r.1.value)
  {
    if tries == 0 then (state, None) else
      var (state', answer) := Answer(step, state, frame, 32);
      if AcceptsPart1(answer) then (state', Some(answer))
      else if HasStatus(answer, 0x91, 0xAD) then Ask(step, state', frame, tries - 1)
      else (state', None)
  }

  /** The proof of the key: RndA and the rotated RndB under it. */
  function Token(c: Cipher, key: Block, rndA: Block, rndB: Block): (r: seq<byte>)
    ensures |r| == 32
  {
    CbcEncrypt(c.e, key, Zeros(16), rndA + RotateLeft(rndB, 1))
  }

  function GrantOf(plain: seq<byte>, rndB: Block): Grant
    requires |plain| == 32
  {
    Grant(plain[..4], plain[20..26], plain[26..32], rndB)
  }

  /** Part 2: the token goes out, and a grant comes back. */
  function Prove<S>(c: Cipher, step: Peer<S>, state: S, key: Block, rndA: Block, rndB: Block): (S, Option<Grant>) {
    var (state', r) := Answer(step, state, Part2(Token(c, key, rndA, rndB)), 40);
    if HasStatus(r, 0x91, 0x00) && |r| - 2 == 32
    then (state', Some(GrantOf(CbcDecrypt(c.d, key, Zeros(16), r[..32]), rndB)))
    else (state', None)
  }

  /** The whole handshake. */
  function Handshake<S>(c: Cipher, step: Peer<S>, state: S, key: Block, keyNo: byte, cmd: byte, rndA: Block):
    (S, Option<Grant>)
  {
    var (state1, selected) := Answer(step, state, SELECT_APPLICATION, 16);
    if !HasStatus(selected, 0x90, 0x00) then (state1, None) else
      var (state2, challenge) := Ask(step, state1, Part1(cmd, keyNo), MAX_RETRIES + 1);
      if challenge.None? then (state2, None) else Prove(c, step, state2, key, rndA, c.d(key, challenge.value[..16]))
  }

  /** The session a grant opens. */
  function SessionOf(c: Cipher, key: Block, rndA: Block, g: Grant): View {
    View(true, 0, g.ti, rndA, g.pdCap2, g.pcdCap2,
         SessionKeyEnc(c, key, rndA, g.rndB), SessionKeyMac(c, key, rndA, g.rndB))
  }

  /** The delay-retry loop, lines 150-188 of the source. */
  method AskForChallenge<S>(reader: Reader<S>, frame: seq<byte>) returns (ok: bool, answer: seq<byte>)
    modifies reader
    ensures ok ==> AcceptsPart1(answer)
    ensures (reader.state, if ok then Some(answer) else None)
         == Ask(reader.step, old(reader.state), frame, MAX_RETRIES + 1)
  {
    var response := new byte[32](_ => 0);
    var length := 0;
    var delayRetry := 0;
    while delayRetry <= MAX_RETRIES
      invariant 0 <= delayRetry <= MAX_RETRIES + 1 && length <= 32
      invariant delayRetry > 0 ==> HasStatus(response[..length], 0x91, 0xAD)
      invariant delayRetry == 0 ==> length == 0
      invariant Ask(reader.step, reader.state, frame, MAX_RETRIES + 1 - delayRetry)
             == Ask(reader.step, old(reader.state), frame, MAX_RETRIES + 1)
    {
      length := reader.Transceive(frame, response, 32);
      if HasStatus(response[..length], 0x91, 0xAF) && length - 2 == 16 {
        break;
      }
      if length >= 2 && response[length - 2] == 0x91 && response[length - 1] == 0xAD {
        delayRetry := delayRetry + 1;
        continue;
      }
      return false, [];
    }
    if !HasStatus(response[..length], 0x91, 0xAF) || length - 2 != 16 {
      return false, [];
    }
    return true, response[..length];
  }

  /** Lines 192-207 of the source: decrypt the challenge, rotate it, and encrypt it behind RndA. */
  method BuildToken(c: Cipher, key: Block, rndA: Block, challenge: Block) returns (rndB: Block, token: seq<byte>)
    ensures rndB == c.d(key, challenge) && token == Token(c, key, rndA, rndB)
  {
    var rndBArray, rndBRotl := new byte[16](_ => 0), new byte[16](_ => 0);
    CbcOneBlock(c.e, c.d, key, challenge);
    var done := Decrypt(c.d, key, Zeros(16), 16, challenge, rndBArray);
    assert challenge[..16] == challenge;
    rndB := rndBArray[..16];
    done := Rotl(rndBArray, rndBRotl, 16, 1);
    var answer, answerEnc := new byte[32](_ => 0), new byte[32](_ => 0);
    Memcpy(answer, 0, rndA);
    Memcpy(answer, 16, rndBRotl[..16]);
    assert answer[..32] == rndA + RotateLeft(rndB, 1);
    done := Encrypt(c.e, key, Zeros(16), 32, answer[..32], answerEnc);
    assert answer[..32][..32] == answer[..32];
    token := answerEnc[..32];
  }

  /** Lines 213-230 of the source: answer the challenge and decrypt what the card grants. */
  method AnswerChallenge<S>(c: Cipher, reader: Reader<S>, key: Block, rndA: Block, challenge: seq<byte>)
    returns (ok: bool, rndB: Block, plain: seq<byte>)
    requires |challenge| >= 16
    modifies reader
    ensures rndB == c.d(key, challenge[..16])
    ensures ok ==> |plain| == 32
    ensures (reader.state, if ok then Some(GrantOf(plain, rndB)) else None)
         == Prove(c, reader.step, old(reader.state), key, rndA, rndB)
  {
    var token;
    rndB, token := BuildToken(c, key, rndA, challenge[..16]);
    var frame := new byte[40](_ => 0);
    var length := reader.Transceive(Part2(token), frame, 40);
    if !HasStatus(frame[..length], 0x91, 0x00) || length - 2 != 32 {
      return false, rndB, [];
    }
    assert frame[..length][..32] == frame[..32];
    var response := new byte[32](_ => 0);
    var done := Decrypt(c.d, key, Zeros(16), 32, frame[..32], response);
    assert frame[..32][..32] == frame[..32];
    return true, rndB, response[..32];
  }

  /** `ntag424_Authenticate`, with the random number it draws as a parameter. A failing call leaves the
      session as it was, whatever the reader answers. */
  method Authenticate<S>(c: Cipher, reader: Reader?<S>, session: Session?, key: Option<Block>, keyNo: byte, cmd: byte,
                         rndA: Block) returns (ok: bool)
    modifies if reader == null then {} else {reader}
    modifies if session == null then {} else {session}
    ensures reader == null || session == null || key.None?
        ==> !ok && (reader != null ==> reader.state == old(reader.state))
    ensures !ok ==> Snap(session) == old(Snap(session))
    ensures reader != null && session != null && key.Some?
        ==> var (state, grant) := Handshake(c, reader.step, old(reader.state), key.value, keyNo, cmd, rndA);
            reader.state == state && ok == grant.Some?
            && (ok ==> session.Snapshot() == SessionOf(c, key.value, rndA, grant.value))
  {
    if reader == null || session == null || key.None? {
      return false;
    }
    var rndB: Block;
    var plain: seq<byte>;
    ok, rndB, plain := ShakeHands(c, reader, key.value, keyNo, cmd, rndA);
    if ok {
      OpenSession(c, session, key.value, rndA, rndB, plain);
    }
  }

  /** Lines 121-230 of the source: everything that talks to the card. */
  method ShakeHands<S>(c: Cipher, reader: Reader<S>, key: Block, keyNo: byte, cmd: byte, rndA: Block)
    returns (ok: bool, rndB: Block, plain: seq<byte>)
    modifies reader
    ensures ok ==> |plain| == 32
    ensures (reader.state, if ok then Some(GrantOf(plain, rndB)) else None)
         == Handshake(c, reader.step, old(reader.state), key, keyNo, cmd, rndA)
  {
    plain, rndB := [], rndA;
    var response := new byte[16](_ => 0);
    var length := reader.Transceive(SELECT_APPLICATION, response, 16);
    if !HasStatus(response[..length], 0x90, 0x00) {
      return false, rndB, plain;
    }
    var challenge: seq<byte>;
    ok, challenge := AskForChallenge(reader, Part1(cmd, keyNo));
    if ok {
      ok, rndB, plain := AnswerChallenge(c, reader, key, rndA, challenge);
    }
  }

  /** Lines 232-242 of the source: only here is the session written. */
  method OpenSession(c: Cipher, session: Session, key: Block, rndA: Block, rndB: Block, plain: seq<byte>)
    requires |plain| == 32
    modifies session
    ensures session.Snapshot() == SessionOf(c, key, rndA, GrantOf(plain, rndB))
  {
    session.ti := plain[..4];
    session.rndA := rndA;
    session.pdCap2 := plain[20..26];
    session.pcdCap2 := plain[26..32];
    session.cmdCounter := 0;
    session.authenticated := true;
    DeriveSessionKeys(c, session, key, rndA, rndB);
  }

  // ---- The card's side --------------------------------------------------------------------------

  const EV2_FIRST: byte := 0x71
  const EV2_NON_FIRST: byte := 0x77

  /** A card with its keys by number, the file control information it answers a SELECT with, the key of the handshake
      that is under way, the random values it will draw, and the delays it will impose; `first` says which of the two
      forms was asked for last. */
  datatype AuthCard = AuthCard(keys: map<byte, Block>, fci: seq<byte>, key: Block, rndB: Block, ti: Ti,
                               pdCap2: Capabilities, pcdCap2: Capabilities, delays: nat, selected: bool,
                               challenged: bool, first: bool, session: Option<C.Card>)

  /** AuthenticateEV2 as the card reads it: CLA 90, the instruction, Lc 05, a key number, three bytes of capabilities
      announced by 03, and Le. */
  predicate IsPart1(frame: seq<byte>) {
    && |frame| == 11 && frame[0] == 0x90 && frame[1] in {0x71, 0x77} && frame[2] == 0x00 && frame[3] == 0x00
    && frame[4] == 0x05 && frame[6] == 0x03 && frame[7..10] == [0, 0, 0] && frame[10] == 0x00
  }

  predicate IsPart2(frame: seq<byte>) {
    |frame| == 38 && frame[..5] == [0x90, 0xAF, 0x00, 0x00, 0x20] && frame[37] == 0x00
  }

  function AuthStep(c: Cipher, a: AuthCard, frame: seq<byte>): (AuthCard, seq<byte>) {
    if frame == [0x00, 0xA4, 0x04, 0x00, 0x07, 0xD2, 0x76, 0x00, 0x00, 0x85, 0x01, 0x01, 0x00]
    then (a.(selected := true, challenged := false), a.fci + [0x90, 0x00])
    else if IsPart1(frame) && a.selected then
      if frame[1] == 0x77 && a.session.None? then (a, [0x91, 0xAE])
      else if frame[5] !in a.keys then (a, [0x91, 0x40])
      else if a.delays > 0 then (a.(delays := a.delays - 1), [0x91, 0xAD])
      else (a.(challenged := true, first := frame[1] == 0x71, key := a.keys[frame[5]]),
            c.e(a.keys[frame[5]], a.rndB) + [0x91, 0xAF])
    else if IsPart2(frame) && a.challenged then
      Verify(c, a.(challenged := false), CbcDecrypt(c.d, a.key, Zeros(16), frame[5..37]))
    else (a, [0x91, 0x1C])
  }

  /** A random number with its first byte moved to the end. */
  function Turned(r: Block): Block {
    r[1..] + [r[0]]
  }

  /** The card checks its own random number, opens its session and sends back RndA turned. The first form
      starts a new session and sends its identifier and capabilities too; the other keeps identifier and
      counter of the session there is. */
  function Verify(c: Cipher, a: AuthCard, proof: seq<byte>): (AuthCard, seq<byte>)
    requires |proof| == 32
  {
    var rndA: Block := proof[..16];
    if proof[16..] != Turned(a.rndB) then (a, [0x91, 0xAE])
    else if a.first || a.session.None? then
      (a.(session := Some(CardSession(c, a, rndA))),
       CbcEncrypt(c.e, a.key, Zeros(16), a.ti + Turned(rndA) + a.pdCap2 + a.pcdCap2) + [0x91, 0x00])
    else
      (a.(session := Some(CardSession(c, a, rndA).(ti := a.session.value.ti, counter := a.session.value.counter))),
       CbcEncrypt(c.e, a.key, Zeros(16), Turned(rndA)) + [0x91, 0x00])
  }

  /** The session vectors of section 9.1.7 of NT4H2421Gx, byte by byte. */
  function KeyVector(label0: byte, label1: byte, a: Block, b: Block): (v: seq<byte>)
    ensures |v| == 32
  {
    [label0, label1, 0x00, 0x01, 0x00, 0x80] + [a[0], a[1]]
    + [a[2] ^ b[0], a[3] ^ b[1], a[4] ^ b[2], a[5] ^ b[3], a[6] ^ b[4], a[7] ^ b[5]]
    + [b[6], b[7], b[8], b[9], b[10], b[11], b[12], b[13], b[14], b[15]]
    + [a[8], a[9], a[10], a[11], a[12], a[13], a[14], a[15]]
  }

  /** The card's session after the handshake. */
  function CardSession(c: Cipher, a: AuthCard, rndA: Block): C.Card {
    C.Card(a.ti, 0, c.mac(a.key, KeyVector(0xA5, 0x5A, rndA, a.rndB)),
           c.mac(a.key, KeyVector(0x5A, 0xA5, rndA, a.rndB)), [])
  }

  function AuthPeer(c: Cipher): Peer<AuthCard> {
    (a: AuthCard, frame: seq<byte>, room: nat) => AuthStep(c, a, frame)
  }

  // ---- Host and card lay out the same ------------------------------------------------------------

  lemma TurnedIs(r: Block)
    ensures RotateLeft(r, 1) == Turned(r)
  {
  }

  lemma KeyVectorIs(label0: byte, label1: byte, a: Block, b: Block)
    ensures SessionVector(label0, label1, a, b) == KeyVector(label0, label1, a, b)
  {
    MixedBytes(a, b);
    LastTen(b);
    LastEight(a);
    assert a[..2] == [a[0], a[1]];
  }

  lemma MixedBytes(a: Block, b: Block)
    ensures Xor(a[2..8], b[..6]) == [a[2] ^ b[0], a[3] ^ b[1], a[4] ^ b[2], a[5] ^ b[3], a[6] ^ b[4], a[7] ^ b[5]]
  {
  }

  lemma LastTen(b: Block)
    ensures b[6..] == [b[6], b[7], b[8], b[9], b[10], b[11], b[12], b[13], b[14], b[15]]
  {
  }

  lemma LastEight(a: Block)
    ensures a[8..] == [a[8], a[9], a[10], a[11], a[12], a[13], a[14], a[15]]
  {
  }

  lemma SessionKeysAgree(c: Cipher, a: AuthCard, rndA: Block)
    ensures var k := CardSession(c, a, rndA);
            k.keyEnc == SessionKeyEnc(c, a.key, rndA, a.rndB) && k.keyMac == SessionKeyMac(c, a.key, rndA, a.rndB)
  {
    KeyVectorIs(0xA5, 0x5A, rndA, a.rndB);
    KeyVectorIs(0x5A, 0xA5, rndA, a.rndB);
  }

  lemma Part1Read(cmd: byte, keyNo: byte)
    requires cmd in {EV2_FIRST, EV2_NON_FIRST}
    ensures var frame := Part1(cmd, keyNo); IsPart1(frame) && frame[1] == cmd && frame[5] == keyNo
  {
  }

  // ---- The challenge -----------------------------------------------------------------------------

  /** The card that answers under key `keyNo`. */
  function Under(a: AuthCard, keyNo: byte): AuthCard
    requires keyNo in a.keys
  {
    a.(key := a.keys[keyNo])
  }

  function Challenged(a: AuthCard, cmd: byte, keyNo: byte): AuthCard
    requires keyNo in a.keys
  {
    Under(a, keyNo).(delays := 0, challenged := true, first := cmd == 0x71)
  }

  function Challenge(c: Cipher, a: AuthCard, keyNo: byte): (r: seq<byte>)
    requires keyNo in a.keys
    ensures |r| == 18
  {
    var y: Block := c.e(a.keys[keyNo], a.rndB);
    y + [0x91, 0xAF]
  }

  /** The loop outlasts exactly the delays that are fewer than its tries. */
  lemma {:induction false} AskOutlasts(c: Cipher, a: AuthCard, cmd: byte, keyNo: byte, tries: nat)
    requires a.selected && keyNo in a.keys && (cmd == EV2_FIRST || (cmd == EV2_NON_FIRST && a.session.Some?))
    ensures Ask(AuthPeer(c), a, Part1(cmd, keyNo), tries)
         == if a.delays < tries then (Challenged(a, cmd, keyNo), Some(Challenge(c, a, keyNo)))
            else (a.(delays := a.delays - tries), None)
    decreases tries
  {
    Part1Read(cmd, keyNo);
    if tries > 0 {
      if a.delays > 0 {
        assert AuthStep(c, a, Part1(cmd, keyNo)) == (a.(delays := a.delays - 1), [0x91, 0xAD]);
        AskOutlasts(c, a.(delays := a.delays - 1), cmd, keyNo, tries - 1);
      } else {
        assert AuthStep(c, a, Part1(cmd, keyNo)) == (Challenged(a, cmd, keyNo), Challenge(c, a, keyNo));
        assert AcceptsPart1(Challenge(c, a, keyNo));
      }
    }
  }

  // ---- Any key on either side ------------------------------------------------------------------------

  /** The random number that a host with this key takes the challenge for. */
  function Guessed(c: Cipher, a: AuthCard, key: Block): Block {
    c.d(key, c.e(a.key, a.rndB))
  }

  /** What the card makes of the token of a host with this key. */
  function ProofOf(c: Cipher, a: AuthCard, key: Block, rndA: Block): (r: seq<byte>)
    ensures |r| == 32
  {
    CbcDecrypt(c.d, a.key, Zeros(16), Token(c, key, rndA, Guessed(c, a, key)))
  }

  /** The card's check of its own random number. */
  predicate Convinced(c: Cipher, a: AuthCard, key: Block, rndA: Block) {
    ProofOf(c, a, key, rndA)[16..] == Turned(a.rndB)
  }

  /** The session the card opens when it is convinced. */
  function CardOpens(c: Cipher, a: AuthCard, key: Block, rndA: Block): C.Card {
    CardSession(c, a, ProofOf(c, a, key, rndA)[..16])
  }

  lemma TokenArrives(c: Cipher, a: AuthCard, key: Block, rndA: Block)
    requires a.challenged
    ensures AuthStep(c, a, Part2(Token(c, key, rndA, Guessed(c, a, key))))
         == Verify(c, a.(challenged := false), ProofOf(c, a, key, rndA))
  {
    var token := Token(c, key, rndA, Guessed(c, a, key));
    var frame := Part2(token);
    assert frame[..5] == [0x90, 0xAF, 0x00, 0x00, 0x20] && frame[5..37] == token;
  }

  /** Part 2 of the first form, for any two keys: the host gets a grant exactly if the card is convinced. */
  lemma ProveIff(c: Cipher, a: AuthCard, key: Block, rndA: Block)
    requires a.challenged && a.first
    ensures var (a', grant) := Prove(c, AuthPeer(c), a, key, rndA, Guessed(c, a, key));
            && (grant.Some? <==> Convinced(c, a, key, rndA))
            && a' == a.(challenged := false,
                        session := if Convinced(c, a, key, rndA) then Some(CardOpens(c, a, key, rndA)) else a.session)
  {
    TokenArrives(c, a, key, rndA);
  }

  /** With the same key the card reads the host's numbers, and is convinced. */
  lemma SameKeyConvinces(c: Cipher, a: AuthCard, rndA: Block)
    ensures Guessed(c, a, a.key) == a.rndB && ProofOf(c, a, a.key, rndA) == rndA + Turned(a.rndB)
    ensures Convinced(c, a, a.key, rndA) && CardOpens(c, a, a.key, rndA) == CardSession(c, a, rndA)
  {
    assert c.d(a.key, c.e(a.key, a.rndB)) == a.rndB;
    TurnedIs(a.rndB);
    var proof := rndA + Turned(a.rndB);
    CbcInverse(c.e, c.d, a.key, Zeros(16), proof);
    assert proof[..16] == rndA && proof[16..] == Turned(a.rndB);
  }

  /** With the same key the host reads what the card grants. */
  lemma SameKeyGrants(c: Cipher, a: AuthCard, rndA: Block)
    requires a.challenged && a.first
    ensures Prove(c, AuthPeer(c), a, a.key, rndA, a.rndB).1 == Some(Grant(a.ti, a.pdCap2, a.pcdCap2, a.rndB))
  {
    TokenArrives(c, a, a.key, rndA);
    SameKeyConvinces(c, a, rndA);
    var plain := a.ti + Turned(rndA) + a.pdCap2 + a.pcdCap2;
    var cipher := CbcEncrypt(c.e, a.key, Zeros(16), plain);
    assert (cipher + [0x91, 0x00])[..32] == cipher;
    CbcInverse(c.e, c.d, a.key, Zeros(16), plain);
    assert plain[..4] == a.ti && plain[20..26] == a.pdCap2 && plain[26..32] == a.pcdCap2;
  }

  /** The card after the application has been selected. */
  function AtPart1(a: AuthCard): AuthCard {
    a.(selected := true, challenged := false)
  }

  lemma ApplicationSelected(c: Cipher, a: AuthCard)
    ensures AuthStep(c, a, SELECT_APPLICATION) == (AtPart1(a), a.fci + [0x90, 0x00])
    ensures var r := Answer(AuthPeer(c), a, SELECT_APPLICATION, 16).1; HasStatus(r, 0x90, 0x00) <==> |a.fci| <= 14
  {
  }

  lemma HandshakeFrom(c: Cipher, a: AuthCard, key: Block, keyNo: byte, cmd: byte, rndA: Block)
    requires |a.fci| <= 14 && keyNo in a.keys && (cmd == EV2_FIRST || (cmd == EV2_NON_FIRST && a.session.Some?))
    ensures Handshake(c, AuthPeer(c), a, key, keyNo, cmd, rndA)
         == if a.delays <= 50 then Prove(c, AuthPeer(c), Challenged(AtPart1(a), cmd, keyNo),
                                         key, rndA, Guessed(c, Under(a, keyNo), key))
            else (AtPart1(a).(delays := a.delays - 51), None)
  {
    ApplicationSelected(c, a);
    AskOutlasts(c, AtPart1(a), cmd, keyNo, MAX_RETRIES + 1);
    HandshakeOn(c, AuthPeer(c), a, key, keyNo, cmd, rndA, AtPart1(a), a.fci + [0x90, 0x00]);
    ChallengeIs(c, a, keyNo);
  }

  lemma ChallengeIs(c: Cipher, a: AuthCard, keyNo: byte)
    requires keyNo in a.keys
    ensures Challenge(c, a, keyNo)[..16] == c.e(a.keys[keyNo], a.rndB)
  {
  }

  /** Once the application is selected: the challenge, and the answer to it. */
  lemma HandshakeOn<S>(c: Cipher, step: Peer<S>, state: S, key: Block, keyNo: byte, cmd: byte, rndA: Block, state1: S,
    r: seq<byte>)
    requires Answer(step, state, SELECT_APPLICATION, 16) == (state1, r) && HasStatus(r, 0x90, 0x00)
    ensures var (state2, challenge) := Ask(step, state1, Part1(cmd, keyNo), MAX_RETRIES + 1);
            Handshake(c, step, state, key, keyNo, cmd, rndA)
            == if challenge.None? then (state2, None)
               else Prove(c, step, state2, key, rndA, c.d(key, challenge.value[..16]))
  {
  }

  lemma ConvincedStays(c: Cipher, a: AuthCard, key: Block, cmd: byte, keyNo: byte, rndA: Block)
    requires keyNo in a.keys
    ensures var b, u := Challenged(AtPart1(a), cmd, keyNo), Under(a, keyNo);
            && Guessed(c, b, key) == Guessed(c, u, key)
            && ProofOf(c, b, key, rndA) == ProofOf(c, u, key, rndA)
            && Convinced(c, b, key, rndA) == Convinced(c, u, key, rndA)
            && CardOpens(c, b, key, rndA) == CardOpens(c, u, key, rndA)
  {
  }

  /** Whether the card, if its answer to the SELECT can be read and it has key `keyNo`, finds its own random number in
      the token of a host with `key`. */
  predicate Accepts(c: Cipher, a: AuthCard, key: Block, keyNo: byte, rndA: Block) {
    |a.fci| <= 14 && keyNo in a.keys && Convinced(c, Under(a, keyNo), key, rndA)
  }

  /** For any keys on either side and all random values: the host opens a session exactly if the card does, and that
      is if the card answers the SELECT with at most 14 bytes and the status word, has a key of that number, delays at
      most 50 times, and finds its own random number in the host's token under that key. Otherwise the card keeps the
      session it had. */
  lemma HandshakeOpensIff(c: Cipher, a: AuthCard, key: Block, keyNo: byte, rndA: Block)
    ensures var (a', grant) := Handshake(c, AuthPeer(c), a, key, keyNo, EV2_FIRST, rndA);
            var opens := a.delays <= 50 && Accepts(c, a, key, keyNo, rndA);
            && (grant.Some? <==> opens)
            && a'.session == if opens then Some(CardOpens(c, Under(a, keyNo), key, rndA)) else a.session
  {
    if |a.fci| > 14 {
      NotSelected(c, a, key, keyNo, EV2_FIRST, rndA);
    } else if keyNo in a.keys {
      HandshakeFrom(c, a, key, keyNo, EV2_FIRST, rndA);
      ConvincedStays(c, a, key, EV2_FIRST, keyNo, rndA);
      if a.delays <= 50 {
        ProveIff(c, Challenged(AtPart1(a), EV2_FIRST, keyNo), key, rndA);
      }
    } else {
      NotAsked(c, a, key, keyNo, EV2_FIRST, rndA, 0x40);
    }
  }

  /** The session that a handshake with this card is to open on the host, field by field, and the card's own. */
  ghost predicate Opens(c: Cipher, a: AuthCard, rndA: Block, v: View, k: C.Card) {
    && v.authenticated && v.counter == 0 && v.ti == a.ti && v.rndA == rndA
    && v.pdCap2 == a.pdCap2 && v.pcdCap2 == a.pcdCap2
    && k == CardSession(c, a, rndA) && C.Synced(v, k)
  }

  lemma SessionOpens(c: Cipher, a: AuthCard, rndA: Block)
    ensures Opens(c, a, rndA, SessionOf(c, a.key, rndA, Grant(a.ti, a.pdCap2, a.pcdCap2, a.rndB)),
                  CardSession(c, a, rndA))
  {
    SessionKeysAgree(c, a, rndA);
  }

  /** A host with the card's key of that number, for every number the card has: both agree on identifier, counter and
      both session keys, and the host has the card's capabilities, for all random values, exactly when the card delays
      at most 50 times and its answer to the SELECT can be read; otherwise the host gives up and the card keeps the
      session it had, if any. */
  lemma AuthenticationAgreesIff(c: Cipher, a: AuthCard, keyNo: byte, rndA: Block)
    requires keyNo in a.keys
    ensures var (a', grant) := Handshake(c, AuthPeer(c), a, a.keys[keyNo], keyNo, EV2_FIRST, rndA);
            && (grant.Some? <==> a.delays <= 50 && |a.fci| <= 14)
            && (if grant.None? then a'.session == a.session
                else a'.session.Some? && Opens(c, Under(a, keyNo), rndA, SessionOf(c, a.keys[keyNo], rndA, grant.value),
                                               a'.session.value))
  {
    var key, u := a.keys[keyNo], Under(a, keyNo);
    HandshakeOpensIff(c, a, key, keyNo, rndA);
    SameKeyConvinces(c, u, rndA);
    SessionOpens(c, u, rndA);
    if a.delays <= 50 && |a.fci| <= 14 {
      HandshakeFrom(c, a, key, keyNo, EV2_FIRST, rndA);
      ConvincedStays(c, a, key, EV2_FIRST, keyNo, rndA);
      SameKeyGrants(c, Challenged(AtPart1(a), EV2_FIRST, keyNo), rndA);
    }
  }

  /** From the handshake on, through any run of commands, host and card stay in step and count it. */
  lemma AuthenticatedRunAgrees(c: Cipher, a: AuthCard, keyNo: byte, rndA: Block, trips: seq<Trip>)
    requires keyNo in a.keys && |a.fci| <= 14 && a.delays <= 50
    requires forall t :: t in trips ==> Fits(t)
    ensures var (a', grant) := Handshake(c, AuthPeer(c), a, a.keys[keyNo], keyNo, EV2_FIRST, rndA);
            && grant.Some? && a'.session.Some?
            && RunsFromZero(c, SessionOf(c, a.keys[keyNo], rndA, grant.value), a'.session.value, trips)
  {
    AuthenticationAgreesIff(c, a, keyNo, rndA);
    var (a', grant) := Handshake(c, AuthPeer(c), a, a.keys[keyNo], keyNo, EV2_FIRST, rndA);
    RunFromZero(c, SessionOf(c, a.keys[keyNo], rndA, grant.value), a'.session.value, trips);
  }

  /** The run goes as it should, and both counters end at its length. */
  ghost predicate RunsFromZero(c: Cipher, v: View, k: C.Card, trips: seq<Trip>) {
    var w := World(v, k, []);
    var w' := Run(c, w, trips);
    && RanInStep(w, w', trips)
    && w'.host.counter == ToInt16(|trips|) && w'.card.counter == |trips| % 0x1_0000
  }

  lemma RunFromZero(c: Cipher, v: View, k: C.Card, trips: seq<Trip>)
    requires C.Synced(v, k) && v.counter == 0 && k.counter == 0
    requires forall t :: t in trips ==> Fits(t)
    ensures RunsFromZero(c, v, k, trips)
  {
    RunAgrees(c, World(v, k, []), trips);
    CountedFromZero(World(v, k, []), Run(c, World(v, k, []), trips), trips);
  }

  lemma CountedFromZero(w: World, w': World, trips: seq<Trip>)
    requires RanInStep(w, w', trips) && w.host.counter == 0 && w.card.counter == 0
    ensures w'.host.counter == ToInt16(|trips|) && w'.card.counter == |trips| % 0x1_0000
  {
  }

  /** The other form, which the host sends as readily, never opens a session on the host, for any keys: a card without
      a session refuses it, and one with a session answers it with 16 bytes, where the host asks for 32. A card that is
      convinced takes the new keys all the same. */
  lemma NonFirstFails(c: Cipher, a: AuthCard, key: Block, keyNo: byte, rndA: Block)
    ensures var (a', grant) := Handshake(c, AuthPeer(c), a, key, keyNo, EV2_NON_FIRST, rndA);
            && grant.None?
            && a'.session == if a.session.Some? && a.delays <= 50 && Accepts(c, a, key, keyNo, rndA)
                             then Some(CardOpens(c, Under(a, keyNo), key, rndA).(ti := a.session.value.ti,
                                                                                 counter := a.session.value.counter))
                             else a.session
  {
    if |a.fci| > 14 {
      NotSelected(c, a, key, keyNo, EV2_NON_FIRST, rndA);
    } else if a.session.None? {
      NotAsked(c, a, key, keyNo, EV2_NON_FIRST, rndA, 0xAE);
    } else if keyNo !in a.keys {
      NotAsked(c, a, key, keyNo, EV2_NON_FIRST, rndA, 0x40);
    } else {
      HandshakeFrom(c, a, key, keyNo, EV2_NON_FIRST, rndA);
      ConvincedStays(c, a, key, EV2_NON_FIRST, keyNo, rndA);
      TokenArrives(c, Challenged(AtPart1(a), EV2_NON_FIRST, keyNo), key, rndA);
    }
  }

  /** A card that refuses the first part outright. */
  lemma NotAsked(c: Cipher, a: AuthCard, key: Block, keyNo: byte, cmd: byte, rndA: Block, sw2: byte)
    requires |a.fci| <= 14 && cmd in {EV2_FIRST, EV2_NON_FIRST} && sw2 !in {0xAD, 0xAF}
    requires AuthStep(c, AtPart1(a), Part1(cmd, keyNo)) == (AtPart1(a), [0x91, sw2])
    ensures Handshake(c, AuthPeer(c), a, key, keyNo, cmd, rndA) == (AtPart1(a), None)
  {
    ApplicationSelected(c, a);
    AskRefused(c, AtPart1(a), Part1(cmd, keyNo), MAX_RETRIES + 1, sw2);
  }

  /** A card whose answer to the SELECT does not fit. */
  lemma NotSelected(c: Cipher, a: AuthCard, key: Block, keyNo: byte, cmd: byte, rndA: Block)
    requires |a.fci| > 14
    ensures Handshake(c, AuthPeer(c), a, key, keyNo, cmd, rndA) == (AtPart1(a), None)
  {
    ApplicationSelected(c, a);
  }

  lemma AskRefused(c: Cipher, a: AuthCard, frame: seq<byte>, tries: nat, sw2: byte)
    requires tries > 0 && sw2 !in {0xAD, 0xAF} && AuthStep(c, a, frame) == (a, [0x91, sw2])
    ensures Ask(AuthPeer(c), a, frame, tries) == (a, None)
  {
  }

  // ---- A peer without any key --------------------------------------------------------------------------

  /** A peer that answers with the status words and lengths that are expected, and with any bytes. */
  function Impostor(challenge: Block, grant: seq<byte>): Peer<()> {
    (u: (), frame: seq<byte>, room: nat) =>
      ((), if |frame| == 13 then [0x90, 0x00]
           else if |frame| == 11 then challenge + [0x91, 0xAF] else grant + [0x91, 0x00])
  }

  /** The host opens a session with it, whatever the keys and the bytes are: it never looks at the random
      number that comes back. */
  lemma ImpostorSucceeds(c: Cipher, key: Block, keyNo: byte, cmd: byte, rndA: Block, challenge: Block, grant: seq<byte>)
    requires |grant| == 32
    ensures Handshake(c, Impostor(challenge, grant), (), key, keyNo, cmd, rndA).1
         == Some(GrantOf(CbcDecrypt(c.d, key, Zeros(16), grant), c.d(key, challenge)))
  {
    var peer := Impostor(challenge, grant);
    assert Answer(peer, (), SELECT_APPLICATION, 16) == ((), [0x90, 0x00]);
    ImpostorAsked(challenge, grant, Part1(cmd, keyNo), MAX_RETRIES + 1);
    ImpostorProves(c, key, rndA, c.d(key, challenge), challenge, grant);
    assert (challenge + [0x91, 0xAF])[..16] == challenge;
  }

  lemma ImpostorAsked(challenge: Block, grant: seq<byte>, frame: seq<byte>, tries: nat)
    requires |frame| == 11 && tries > 0
    ensures Ask(Impostor(challenge, grant), (), frame, tries) == ((), Some(challenge + [0x91, 0xAF]))
  {
    assert AcceptsPart1(challenge + [0x91, 0xAF]);
  }

  lemma ImpostorProves(c: Cipher, key: Block, rndA: Block, rndB: Block, challenge: Block, grant: seq<byte>)
    requires |grant| == 32
    ensures Prove(c, Impostor(challenge, grant), (), key, rndA, rndB).1
         == Some(GrantOf(CbcDecrypt(c.d, key, Zeros(16), grant), rndB))
  {
    assert (grant + [0x91, 0x00])[..32] == grant;
  }
}
