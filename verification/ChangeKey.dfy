/** Changing a key (ntag424_core.cpp:77-95, 379-403): the payload, what the card makes of it, and the
    whole exchange. */
module ChangeKey {
  import opened Octets
  import opened Bytes
  import opened BlockCipher
  import opened CipherSuite
  import opened Crc32
  import CrcPolynomial
  import opened Sessions
  import opened Apdu
  import opened Readers
  import opened Core
  import C = Card

  /** The new key itself for key 0; for another key its difference to the old one, and a check value. */
  function Payload(oldKey: Block, newKey: Block, keyNumber: byte, keyVersion: byte, jamCrc: word): (r: seq<byte>)
    ensures |r| == if keyNumber == 0 then 17 else 21
  {
    if keyNumber == 0 then newKey + [keyVersion]
    else Bytes.Xor(oldKey, newKey) + [keyVersion] + LeBytes(jamCrc)
  }

  /** `ntag424_build_changekey_payload_local`. */
  method BuildPayload(oldKey: Block, newKey: Block, keyNumber: byte, keyVersion: byte, jamCrc: word,
      keyData: array<byte>)
    returns (n: nat)
    requires keyData.Length >= 21
    modifies keyData
    ensures n == |Payload(oldKey, newKey, keyNumber, keyVersion, jamCrc)|
    ensures keyData[..n] == Payload(oldKey, newKey, keyNumber, keyVersion, jamCrc)
  {
    if keyNumber == 0 {
      Memcpy(keyData, 0, newKey);
      keyData[16] := keyVersion;
      assert keyData[..17] == keyData[..16] + [keyVersion];
      return 17;
    }
    var i := 0;
    while i < 16
      invariant 0 <= i <= 16
      invariant forall j :: 0 <= j < i ==> keyData[j] == oldKey[j] ^ newKey[j]
    {
      keyData[i] := oldKey[i] ^ newKey[i];
      i := i + 1;
    }
    assert keyData[..16] == Bytes.Xor(oldKey, newKey);
    keyData[16] := keyVersion;
    assert keyData[..17] == Bytes.Xor(oldKey, newKey) + [keyVersion];
    Memcpy(keyData, 17, LeBytes(jamCrc));
    n := 21;
  }

  // ---- The card's side --------------------------------------------------------------------------

  /** What a card that holds `trueKey` recovers: a new key and its version. It takes the check value to be right if
      the key with the check value behind it is divisible by the generator polynomial. */
  function Recover(trueKey: Block, keyNumber: byte, payload: seq<byte>): Option<(Block, byte)> {
    if keyNumber == 0 then
      if |payload| == 17 then Some((payload[..16], payload[16])) else None
    else if |payload| != 21 then None
    else
      var newKey: Block := Bytes.Xor(payload[..16], trueKey);
      if CrcPolynomial.Remainder(newKey + payload[17..]) == {} then Some((newKey, payload[16])) else None
  }

  /** The key a card computes from a payload made with some old key. */
  function Recovered(oldKey: Block, newKey: Block, trueKey: Block): Block {
    Bytes.Xor(Bytes.Xor(oldKey, newKey), trueKey)
  }

  /** The card takes a change exactly when the key it computes has the checksum of the new key. */
  lemma RecoverIff(oldKey: Block, newKey: Block, trueKey: Block, keyNumber: byte, keyVersion: byte)
    requires keyNumber != 0
    ensures Recover(trueKey, keyNumber, Payload(oldKey, newKey, keyNumber, keyVersion, JamCrc(newKey)))
         == if Crc(Recovered(oldKey, newKey, trueKey)) == Crc(newKey)
            then Some((Recovered(oldKey, newKey, trueKey), keyVersion))
            else None
  {
    PayloadParts(oldKey, newKey, keyNumber, keyVersion, JamCrc(newKey));
    CheckValueIff(Recovered(oldKey, newKey, trueKey), newKey);
    CrcPolynomial.DivisibleIff(Recovered(oldKey, newKey, trueKey) + LeBytes(JamCrc(newKey)));
  }

  lemma PayloadParts(oldKey: Block, newKey: Block, keyNumber: byte, keyVersion: byte, jamCrc: word)
    requires keyNumber != 0
    ensures var p := Payload(oldKey, newKey, keyNumber, keyVersion, jamCrc);
            p[..16] == Bytes.Xor(oldKey, newKey) && p[16] == keyVersion && p[17..] == LeBytes(jamCrc)
  {
  }

  /** With the true old key the card recovers the new key. */
  lemma RightOldKey(oldKey: Block, newKey: Block)
    ensures Recovered(oldKey, newKey, oldKey) == newKey
  {
    Bytes.XorCommutes(oldKey, newKey);
    Bytes.XorCancels(newKey, oldKey);
  }

  /** With an old key that is wrong only within four consecutive bytes the card computes a key that is
      wrong only there, so its checksum differs. */
  lemma WrongOldKeyWindow(before: seq<byte>, w: seq<byte>, w': seq<byte>, after: seq<byte>, newKey: Block)
    requires |before| + |w| + |after| == 16 && |w| == |w'| <= 4 && w != w'
    ensures Crc(Recovered(before + w + after, newKey, before + w' + after)) != Crc(newKey)
  {
    var oldKey: Block, trueKey: Block := before + w + after, before + w' + after;
    var i, j := |before|, |before| + |w|;
    var k := Recovered(oldKey, newKey, trueKey);
    KeyAgreesOutside(oldKey, newKey, trueKey, i, j);
    KeyDiffersInside(before, w, w', after, newKey);
    assert k == k[..i] + k[i..j] + k[j..] && newKey == newKey[..i] + newKey[i..j] + newKey[j..];
    BurstDetected(newKey[..i], k[i..j], newKey[i..j], newKey[j..]);
  }

  lemma KeyAgreesOutside(oldKey: Block, newKey: Block, trueKey: Block, i: nat, j: nat)
    requires i <= j <= 16 && oldKey[..i] == trueKey[..i] && oldKey[j..] == trueKey[j..]
    ensures var k := Recovered(oldKey, newKey, trueKey);
            k[..i] == newKey[..i] && k[j..] == newKey[j..]
  {
    forall n | 0 <= n < 16 && (n < i || j <= n) ensures Recovered(oldKey, newKey, trueKey)[n] == newKey[n] {
      assert oldKey[n] == trueKey[n] by {
        if n < i {
          assert oldKey[..i][n] == trueKey[..i][n];
        } else {
          assert oldKey[j..][n - j] == trueKey[j..][n - j];
        }
      }
      ByteCancels(oldKey[n], newKey[n], trueKey[n]);
    }
  }

  lemma KeyDiffersInside(before: seq<byte>, w: seq<byte>, w': seq<byte>, after: seq<byte>, newKey: Block)
    requires |before| + |w| + |after| == 16 && |w| == |w'| && w != w'
    ensures var i, j := |before|, |before| + |w|;
            Recovered(before + w + after, newKey, before + w' + after)[i..j] != newKey[i..j]
  {
    var oldKey: Block, trueKey: Block := before + w + after, before + w' + after;
    var n :| 0 <= n < |w| && w[n] != w'[n];
    var at := |before| + n;
    assert oldKey[at] == w[n] && trueKey[at] == w'[n];
    ByteCancels(oldKey[at], newKey[at], trueKey[at]);
    var k := Recovered(oldKey, newKey, trueKey);
    assert k[at] != newKey[at];
    assert k[|before|..|before| + |w|][n] == k[at] && newKey[|before|..|before| + |w|][n] == newKey[at];
  }

  lemma ByteCancels(a: byte, x: byte, b: byte)
    ensures (a ^ x) ^ b == x <==> a == b
  {
  }

  // ---- The whole exchange -----------------------------------------------------------------------

  function ChangeCommand(oldKey: Block, newKey: Block, keyNumber: byte, keyVersion: byte): Command {
    Command(0x90, 0xC4, 0x00, 0x00, Data([keyNumber]),
            Data(Payload(oldKey, newKey, keyNumber, keyVersion, JamCrc(newKey))), 0)
  }

  /** `ntag424_ChangeKey`. */
  method Change<S>(c: Cipher, reader: Reader?<S>, session: Session?, oldKey: Option<Block>, newKey: Option<Block>,
                   keyNumber: byte, keyVersion: byte) returns (ok: bool, ghost mac: seq<byte>)
    modifies if reader == null then {} else {reader}
    modifies if session == null then {} else {session}
    ensures oldKey.None? || newKey.None? || reader == null
        ==> !ok && Snap(session) == old(Snap(session)) && (reader != null ==> reader.state == old(reader.state))
    ensures oldKey.Some? && newKey.Some?
        ==> MacOf(c, old(Snap(session)), ChangeCommand(oldKey.value, newKey.value, keyNumber, keyVersion), FULL, mac)
    ensures oldKey.Some? && newKey.Some? && reader != null
        ==> var cmd := ChangeCommand(oldKey.value, newKey.value, keyNumber, keyVersion);
            var (state, v, out) := Sent(c, reader.step, old(reader.state), old(Snap(session)), cmd, FULL, mac, 50);
            reader.state == state && Snap(session) == v && ok == HasStatus(out, 0x91, 0x00)
  {
    mac := [];
    if oldKey.None? || newKey.None? {
      return false, mac;
    }
    var crc := Calc(newKey.value);
    var keyData := new byte[32](_ => 0);
    var keyDataLength := BuildPayload(oldKey.value, newKey.value, keyNumber, keyVersion, !crc, keyData);
    JamCrcOfCrc(newKey.value, crc);
    var cmd := Command(0x90, 0xC4, 0x00, 0x00, Data([keyNumber]), Data(keyData[..keyDataLength]), 0);
    assert cmd == ChangeCommand(oldKey.value, newKey.value, keyNumber, keyVersion);
    var result := new byte[50](_ => 0);
    var n: nat;
    n, mac := SendApdu(c, reader, session, cmd, FULL, result, 50);
    ok := HasStatus(result[..n], 0x91, 0x00);
  }

  /** Any peer that answers with the bare status word makes the call succeed and the host count it, whatever
      became of the key: a response of less than ten bytes carries no MAC, and none is asked for. */
  lemma BareStatusPasses<S>(c: Cipher, step: Peer<S>, state: S, v: View, oldKey: Block, newKey: Block, keyNumber: byte,
                            keyVersion: byte, mac: seq<byte>, state': S)
    requires v.authenticated
    requires step(state, Frame(c, Some(v), ChangeCommand(oldKey, newKey, keyNumber, keyVersion), FULL, mac), MAX_APDU)
          == (state', [0x91, 0x00])
    ensures Sent(c, step, state, Some(v), ChangeCommand(oldKey, newKey, keyNumber, keyVersion), FULL, mac, 50)
         == (state', Advanced(Some(v)), [0x91, 0x00])
    ensures HasStatus([0x91, 0x00], 0x91, 0x00)
  {
    var cmd := ChangeCommand(oldKey, newKey, keyNumber, keyVersion);
    ChangeFits(oldKey, newKey, keyNumber, keyVersion);
    AcceptedIff(c, v, FULL, [0x91, 0x00]);
    FinishedWith(c, step, state, Some(v), FULL, Frame(c, Some(v), cmd, FULL, mac), MAX_APDU, 50, state', [0x91, 0x00]);
  }

  /** A card with its keys. */
  datatype Vault = Vault(card: C.Card, keys: map<byte, Block>, versions: map<byte, byte>)

  /** The card's ChangeKey, for its own instruction only: 91 00 and the new key in place, or 91 1E and nothing
      changed. */
  function VaultStep(c: Cipher, w: Vault, apdu: seq<byte>): (Vault, seq<byte>) {
    var got := C.Receive(c, w.card, FULL, 1, apdu);
    if got.None? || got.value.head != [0x90, 0xC4, 0x00, 0x00] then (w, [0x91, 0x1E]) else
      var card := w.card.(counter := (w.card.counter + 1) % 0x1_0000, inbox := w.card.inbox + [got.value]);
      Decide(c, w.(card := card), got.value.header, got.value.data)
  }

  function Decide(c: Cipher, w: Vault, header: seq<byte>, data: seq<byte>): (Vault, seq<byte>) {
    if |header| == 1 && header[0] in w.keys && Recover(w.keys[header[0]], header[0], data).Some? then
      var (newKey, version) := Recover(w.keys[header[0]], header[0], data).value;
      (w.(keys := w.keys[header[0] := newKey], versions := w.versions[header[0] := version]),
       C.Reply(c, w.card, C.Profile(FULL, 1, [], 0x00)))
    else (w, C.Reply(c, w.card, C.Profile(FULL, 1, [], 0x1E)))
  }

  function VaultPeer(c: Cipher): Peer<Vault> {
    (w: Vault, apdu: seq<byte>, room: nat) => VaultStep(c, w, apdu)
  }

  lemma ChangeFits(oldKey: Block, newKey: Block, keyNumber: byte, keyVersion: byte)
    ensures C.InDomain(ChangeCommand(oldKey, newKey, keyNumber, keyVersion), FULL)
  {
  }

  /** An empty FULL reply comes through with its MAC bytes and the status word. */
  lemma EmptyReplyOpens(c: Cipher, v: View, k: C.Card, sw2: byte)
    requires v.ti == k.ti && v.keyEnc == k.keyEnc && v.keyMac == k.keyMac
    requires CounterBytes(v.counter + 1) == CounterBytes(k.counter)
    ensures var r := C.Reply(c, k, C.Profile(FULL, 1, [], sw2));
            |r| == 10 && Opened(c, Some(v), FULL, r) == Some(r) && HasStatus(r, 0x91, 0x00) == (sw2 == 0x00)
  {
    var p := C.Profile(FULL, 1, [], sw2);
    C.ReplyRoundTrip(c, v, k, p);
    C.ReplyVerifies(c, v, k, p);
    var r := C.Reply(c, k, p);
    assert r[|r| - 2..][0] == 0x91 && r[|r| - 2..][1] == sw2;
  }

  /** What a caller sees of a change, and the keys the card is left with. */
  function Outcome(c: Cipher, v: View, w: Vault, oldKey: Block, newKey: Block, keyNumber: byte, keyVersion: byte):
    (bool, map<byte, Block>, map<byte, byte>)
  {
    var cmd := ChangeCommand(oldKey, newKey, keyNumber, keyVersion);
    var (w', v', out) := Sent(c, VaultPeer(c), w, Some(v), cmd, FULL, C.HostMac(c, v, cmd, FULL), 50);
    (HasStatus(out, 0x91, 0x00), w'.keys, w'.versions)
  }

  /** The card after it has accepted the command and before it decides on it. */
  function Counted(w: Vault, cmd: Command): Vault {
    w.(card := w.card.(counter := (w.card.counter + 1) % 0x1_0000,
                       inbox := w.card.inbox + [C.Order([cmd.cla, cmd.ins, cmd.p1, cmd.p2], cmd.header.Value(),
                                                        cmd.data.Value())]))
  }

  lemma VaultAccepts(c: Cipher, v: View, w: Vault, cmd: Command)
    requires C.Synced(v, w.card) && C.InDomain(cmd, FULL) && cmd.header.Length() == 1
    requires cmd.cla == 0x90 && cmd.ins == 0xC4 && cmd.p1 == 0x00 && cmd.p2 == 0x00
    ensures VaultStep(c, w, Frame(c, Some(v), cmd, FULL, C.HostMac(c, v, cmd, FULL)))
         == Decide(c, Counted(w, cmd), cmd.header.Value(), cmd.data.Value())
  {
    C.CommandRoundTrip(c, v, w.card, cmd, FULL);
  }

  /** Whatever the card decides, its answer is an empty FULL reply that says so. */
  lemma DecisionOpens(c: Cipher, v: View, w: Vault, header: seq<byte>, data: seq<byte>)
    requires v.ti == w.card.ti && v.keyEnc == w.card.keyEnc && v.keyMac == w.card.keyMac
    requires CounterBytes(v.counter + 1) == CounterBytes(w.card.counter)
    requires |header| == 1 && header[0] in w.keys
    ensures var (w', r) := Decide(c, w, header, data);
            var taken := Recover(w.keys[header[0]], header[0], data);
            && |r| == 10 && Opened(c, Some(v), FULL, r) == Some(r) && HasStatus(r, 0x91, 0x00) == taken.Some?
            && w' == if taken.Some? then w.(keys := w.keys[header[0] := taken.value.0],
                                            versions := w.versions[header[0] := taken.value.1])
                     else w
  {
    EmptyReplyOpens(c, v, w.card, 0x00);
    EmptyReplyOpens(c, v, w.card, 0x1E);
  }

  lemma CountedInStep(v: View, w: Vault, cmd: Command)
    requires C.Synced(v, w.card)
    ensures var k := Counted(w, cmd).card;
            v.ti == k.ti && v.keyEnc == k.keyEnc && v.keyMac == k.keyMac
            && CounterBytes(v.counter + 1) == CounterBytes(k.counter)
  {
    C.SyncedVectors(v, w.card);
  }

  /** Success or failure, and the keys and versions that go with it. */
  function Verdict(w: Vault, keyNumber: byte, payload: seq<byte>): (bool, map<byte, Block>, map<byte, byte>)
    requires keyNumber in w.keys
  {
    var taken := Recover(w.keys[keyNumber], keyNumber, payload);
    if taken.Some? then (true, w.keys[keyNumber := taken.value.0], w.versions[keyNumber := taken.value.1])
    else (false, w.keys, w.versions)
  }

  /** A change in step: the caller is told the truth about what the card did, and what the card did depends
      only on whether the key it computes has the right checksum. */
  lemma ChangeAgrees(c: Cipher, v: View, w: Vault, oldKey: Block, newKey: Block, keyNumber: byte, keyVersion: byte)
    requires C.Synced(v, w.card) && keyNumber in w.keys
    ensures Outcome(c, v, w, oldKey, newKey, keyNumber, keyVersion)
         == Verdict(w, keyNumber, Payload(oldKey, newKey, keyNumber, keyVersion, JamCrc(newKey)))
  {
    var cmd := ChangeCommand(oldKey, newKey, keyNumber, keyVersion);
    var apdu := Frame(c, Some(v), cmd, FULL, C.HostMac(c, v, cmd, FULL));
    ChangeFits(oldKey, newKey, keyNumber, keyVersion);
    VaultAccepts(c, v, w, cmd);
    CountedInStep(v, w, cmd);
    DecisionOpens(c, v, Counted(w, cmd), [keyNumber], cmd.data.Value());
    var (w', r) := Decide(c, Counted(w, cmd), [keyNumber], cmd.data.Value());
    FinishedWith(c, VaultPeer(c), w, Some(v), FULL, apdu, MAX_APDU, 50, w', r);
  }

  /** With the right old key, and for key 0 with any, the change succeeds and the card holds the new key and
      its version. */
  lemma ChangeSucceeds(c: Cipher, v: View, w: Vault, oldKey: Block, newKey: Block, keyNumber: byte, keyVersion: byte)
    requires C.Synced(v, w.card) && keyNumber in w.keys
    requires keyNumber == 0 || w.keys[keyNumber] == oldKey
    ensures Outcome(c, v, w, oldKey, newKey, keyNumber, keyVersion)
         == (true, w.keys[keyNumber := newKey], w.versions[keyNumber := keyVersion])
  {
    ChangeAgrees(c, v, w, oldKey, newKey, keyNumber, keyVersion);
    if keyNumber != 0 {
      RightOldKey(oldKey, newKey);
      RecoverIff(oldKey, newKey, oldKey, keyNumber, keyVersion);
    } else {
      var p := Payload(oldKey, newKey, 0, keyVersion, JamCrc(newKey));
      assert p[..16] == newKey;
    }
  }

  /** With an old key that is wrong only within four consecutive bytes the change of key 1 to 4 fails, and
      leaves the card's keys alone. */
  lemma ChangeWithWrongKeyFails(c: Cipher, v: View, w: Vault, before: seq<byte>, part: seq<byte>, truePart: seq<byte>,
                                after: seq<byte>, newKey: Block, keyNumber: byte, keyVersion: byte)
    requires C.Synced(v, w.card) && keyNumber in w.keys && keyNumber != 0
    requires |before| + |part| + |after| == 16 && |part| == |truePart| <= 4 && part != truePart
    requires w.keys[keyNumber] == before + truePart + after
    ensures Outcome(c, v, w, before + part + after, newKey, keyNumber, keyVersion) == (false, w.keys, w.versions)
  {
    ChangeAgrees(c, v, w, before + part + after, newKey, keyNumber, keyVersion);
    WrongOldKeyWindow(before, part, truePart, after, newKey);
    RecoverIff(before + part + after, newKey, w.keys[keyNumber], keyNumber, keyVersion);
  }
}
