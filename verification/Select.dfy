/** Select and anticollision over up to three cascade levels (MFRC522_I2C.cpp:332-489), for every field. */
module Select {
  import opened Octets
  import opened Bytes
  import opened Mfrc522

  const CASCADE_TAG: byte := 0x88

  type Bytes10 = s: seq<byte> | |s| == 10 witness Zeros(10)

  datatype Uid = Uid(size: nat, bytes: Bytes10, sak: byte)

  /** What a transceive finds: its status, what is in the FIFO, and the collision register. */
  datatype Echo = Echo(status: Status, data: seq<byte>, collision: byte)

  /** The field: its state, a frame, and the bits of its last byte give its new state and an echo. */
  type Field<!S> = (S, seq<byte>, nat) -> (S, Echo)

  // ---- The buffer of one level ---------------------------------------------------------------------------

  /** SEL, NVB, four bytes of UID, their check byte, and room for a CRC. */
  type Buffer = s: seq<byte> | |s| == 9 witness Zeros(9)

  /** The bits from `align` on: what a receive into the middle of a byte leaves of the first byte. */
  function HighBits(align: nat): byte {
    match align
    case 0 => 0xFF case 1 => 0xFE case 2 => 0xFC case 3 => 0xF8
    case 4 => 0xF0 case 5 => 0xE0 case 6 => 0xC0 case _ => 0x80
  }

  function Bit(n: nat): byte {
    match n
    case 0 => 0x01 case 1 => 0x02 case 2 => 0x04 case 3 => 0x08
    case 4 => 0x10 case 5 => 0x20 case 6 => 0x40 case _ => 0x80
  }

  /** What arrives in the buffer: the first byte loses the bits below `align`. */
  function Aligned(data: seq<byte>, align: nat): (r: seq<byte>)
    ensures |r| == |data|
  {
    if data == [] || align == 0 then data else [data[0] & HighBits(align)] + data[1..]
  }

  function Put(buffer: Buffer, at: nat, data: seq<byte>): Buffer
    requires at + |data| <= 9
  {
    buffer[..at] + data + buffer[at + |data|..]
  }

  /** A transceive into the buffer; what does not fit behind `at` is refused. */
  function Receive(buffer: Buffer, at: nat, align: nat, echo: Echo): (r: (Status, Buffer))
    requires at <= 9
  {
    if at + |echo.data| > 9 then (NoRoom, buffer) else (echo.status, Put(buffer, at, Aligned(echo.data, align)))
  }

  // ---- The loop of one level -------------------------------------------------------------------------------

  datatype Level = Selected(buffer: Buffer) | Refused(status: Status)

  /** Number of valid bits, as the anticollision command states it. */
  function Nvb(index: nat, bits: nat): byte {
    ToByte(index * 16 + bits)
  }

  function CheckByte(b: Buffer): byte {
    b[2] ^ b[3] ^ b[4] ^ b[5]
  }

  function CollisionAt(collision: byte): (n: nat)
    ensures 1 <= n <= 32
  {
    if collision & 0x1F == 0 then 32 else (collision & 0x1F) as nat
  }

  /** The SELECT of a level whose 32 bits are known. */
  function SelectLevel<S>(c: Coprocessor, field: Field<S>, state: S, buffer: Buffer): (r: (S, Level))
    ensures r.1.Refused? ==> r.1.status != Ok
  {
    var ready := buffer[1 := 0x70][6 := CheckByte(buffer)];
    var sum := c.Checksum(ready[..7]);
    if sum.None? then (state, Refused(Timeout)) else
      var frame := ready[..7] + sum.value;
      var (state', echo) := field(state, frame, 0);
      var (status, b) := Receive(frame, 6, 0, echo);
      if status == Collision then (state', Refused(if echo.collision & 0x20 != 0 then Collision else InternalError))
      else if status != Ok then (state', Refused(status))
      else (state', Selected(b))
  }

  /** One anticollision frame: the buffer after it, and how many bits are known then. */
  datatype Round = Known(buffer: Buffer, bits: nat) | Stuck(status: Status)

  /** After a collision, the bit where it happened is taken as set. */
  function Resolved(b: Buffer, known: nat, status: Status, collision: byte): (r: Round)
    requires known < 32
    ensures r.Known? ==> known < r.bits <= 32
    ensures r.Stuck? ==> r.status != Ok
  {
    if status == Collision then
      var position := CollisionAt(collision);
      if collision & 0x20 != 0 then Stuck(Collision)
      else if position <= known then Stuck(InternalError)
      else
        var bit := (position - 1) % 8;
        var at := 1 + position / 8 + (if bit != 0 then 1 else 0);
        Known(b[at := b[at] | Bit(bit)], position)
    else if status != Ok then Stuck(status)
    else Known(b, 32)
  }

  function Anticollide<S>(field: Field<S>, state: S, buffer: Buffer, known: nat): (r: (S, Round))
    requires known < 32
    ensures r.1.Known? ==> known < r.1.bits <= 32
    ensures r.1.Stuck? ==> r.1.status != Ok
  {
    var bits, index := known % 8, 2 + known / 8;
    var asked := buffer[1 := Nvb(index, bits)];
    var (state', echo) := field(state, asked[..index + (if bits != 0 then 1 else 0)], bits);
    var (status, b) := Receive(asked, index, bits, echo);
    (state', Resolved(b, known, status, echo.collision))
  }

  /** Anticollision until 32 bits are known, then the SELECT. */
  function Rounds<S>(c: Coprocessor, field: Field<S>, state: S, buffer: Buffer, known: nat): (S, Level)
    decreases 32 - known
  {
    if known >= 32 then SelectLevel(c, field, state, buffer) else
      var (state', round) := Anticollide(field, state, buffer, known);
      match round
      case Stuck(status) => (state', Refused(status))
      case Known(b, bits) => Rounds(c, field, state', b, bits)
  }

  lemma {:induction false} RoundsFail<S>(c: Coprocessor, field: Field<S>, state: S, buffer: Buffer, known: nat)
    ensures var r := Rounds(c, field, state, buffer, known).1; r.Refused? ==> r.status != Ok
    decreases 32 - known
  {
    if known < 32 {
      var (state', round) := Anticollide(field, state, buffer, known);
      if round.Known? {
        RoundsFail(c, field, state', round.buffer, round.bits);
      }
    }
  }

  // ---- The cascade ---------------------------------------------------------------------------------------

  function Sel(level: nat): byte {
    if level == 1 then 0x93 else if level == 2 then 0x95 else 0x97
  }

  predicate StartsWithTag(level: nat, validBits: nat, size: nat) {
    validBits != 0 && ((level == 1 && size > 4) || (level == 2 && size > 7))
  }

  /** Bits of this level's part of the UID that the caller knows. */
  function Given(level: nat, validBits: nat): nat
    requires 1 <= level <= 3
  {
    if validBits < 24 * (level - 1) then 0 else validBits - 24 * (level - 1)
  }

  function BytesGiven(level: nat, validBits: nat, tag: bool): (n: nat)
    requires 1 <= level <= 3
    ensures n <= if tag then 3 else 4
  {
    var n := (Given(level, validBits) + 7) / 8;
    var most := if tag then 3 else 4;
    if n > most then most else n
  }

  /** The buffer at the start of a level, and how many of its bits are known. */
  function Start(level: nat, validBits: nat, uid: Uid): (r: (Buffer, nat))
    requires 1 <= level <= 3
  {
    var tag := StartsWithTag(level, validBits, uid.size);
    var from, n := 3 * (level - 1), BytesGiven(level, validBits, tag);
    (Opening(Sel(level), tag, uid.bytes[from..from + n]), Given(level, validBits) + (if tag then 8 else 0))
  }

  function Opening(sel: byte, tag: bool, given: seq<byte>): Buffer
    requires |given| <= if tag then 3 else 4
  {
    var known := (if tag then [CASCADE_TAG] else []) + given;
    [sel, 0] + known + Zeros(7 - |known|)
  }

  /** The bytes of a level, without the cascade tag, go into the UID. */
  function Picked(level: nat, uid: Uid, buffer: Buffer): (r: Uid)
    requires 1 <= level <= 3
  {
    var from := 3 * (level - 1);
    var part := if buffer[2] == CASCADE_TAG then buffer[3..6] else buffer[2..6];
    uid.(bytes := uid.bytes[..from] + part + uid.bytes[from + |part|..])
  }

  datatype Acknowledged = Complete(sak: byte) | More | Wrong(status: Status)

  /** The SAK at the end of a level. */
  function Acknowledge(c: Coprocessor, buffer: Buffer): (a: Acknowledged)
    ensures a.Wrong? ==> a.status != Ok
    ensures a.Complete? ==> a.sak & 0x04 == 0
  {
    if buffer[7] == 0 && buffer[8] == 0 then Wrong(Error)
    else
      var sum := c.Checksum(buffer[6..7]);
      if sum.None? then Wrong(Timeout)
      else if sum.value != buffer[7..] then Wrong(CrcWrong)
      else if buffer[6] & 0x04 != 0 then More
      else Complete(buffer[6])
  }

  /** One level. The UID is filled in even if the SAK is then refused. */
  function OneLevel<S>(c: Coprocessor, field: Field<S>, state: S, uid: Uid, validBits: nat, level: nat)
    : (r: (S, Uid, Acknowledged))
    requires 1 <= level <= 3
    ensures r.1.size == uid.size && r.1.sak == uid.sak
    ensures r.2.Wrong? ==> r.2.status != Ok
    ensures r.2.Complete? ==> r.2.sak & 0x04 == 0
  {
    var (buffer, known) := Start(level, validBits, uid);
    var (state', result) := Rounds(c, field, state, buffer, known);
    RoundsFail(c, field, state, buffer, known);
    if result.Refused? then (state', uid, Wrong(result.status))
    else (state', Picked(level, uid, result.buffer), Acknowledge(c, result.buffer))
  }

  /** What selects one level. */
  type Levels<!S> = (S, Uid, nat) -> (S, Uid, Acknowledged)

  function LevelsOf<S>(c: Coprocessor, field: Field<S>, validBits: nat): Levels<S> {
    (state: S, uid: Uid, level: nat) =>
      if 1 <= level <= 3 then OneLevel(c, field, state, uid, validBits, level) else (state, uid, Wrong(InternalError))
  }

  /** The levels from `level` on. */
  function Cascade<S>(select: Levels<S>, state: S, uid: Uid, level: nat): (S, Uid, Status)
    decreases 4 - level
  {
    var (state', uid', a) := select(state, uid, level);
    match a
    case Wrong(status) => (state', uid', status)
    case More => if level > 3 then (state', uid', InternalError) else Cascade(select, state', uid', level + 1)
    case Complete(sak) => (state', uid'.(sak := sak, size := 3 * level + 1), Ok)
  }

  /** Whatever the field answers: a UID that is selected has 4, 7 or 10 bytes, and its SAK does not say that
      it goes on; a failure leaves size and SAK as they were. */
  predicate Plausible(before: Uid, after: Uid, status: Status) {
    && (status == Ok ==> after.size in [4, 7, 10] && after.sak & 0x04 == 0)
    && (status != Ok ==> after.size == before.size && after.sak == before.sak)
  }

  lemma {:induction false} CascadePlausible<S(!new)>(select: Levels<S>, state: S, uid: Uid, level: nat)
    requires 1 <= level <= 4
    requires forall s, u, l {:trigger select(s, u, l)} ::
               var (s', u', a) := select(s, u, l);
               u'.size == u.size && u'.sak == u.sak && (a.Wrong? ==> a.status != Ok)
               && (a.Complete? ==> 1 <= l <= 3 && a.sak & 0x04 == 0)
    ensures var (state', uid', status) := Cascade(select, state, uid, level); Plausible(uid, uid', status)
    decreases 4 - level
  {
    var (state', uid', a) := select(state, uid, level);
    if a.More? && level <= 3 {
      CascadePlausible(select, state', uid', level + 1);
    }
  }

  /** `PICC_Select`. */
  function PiccSelected<S>(c: Coprocessor, field: Field<S>, state: S, uid: Uid, validBits: nat): (S, Uid, Status) {
    if validBits > 80 then (state, uid, Invalid) else Cascade(LevelsOf(c, field, validBits), state, uid, 1)
  }

  lemma SelectedUid<S(!new)>(c: Coprocessor, field: Field<S>, state: S, uid: Uid, validBits: nat)
    ensures var (state', uid', status) := PiccSelected(c, field, state, uid, validBits); Plausible(uid, uid', status)
  {
    CascadePlausible(LevelsOf(c, field, validBits), state, uid, 1);
  }

  // ---- The reader ------------------------------------------------------------------------------------------

  class UidRecord {
    var size: nat
    const uidByte: array<byte>
    var sak: byte

    constructor ()
      ensures fresh(uidByte) && Valid() && Value() == Uid(0, Zeros(10), 0)
    {
      size, sak := 0, 0;
      uidByte := new byte[10](_ => 0);
      new;
      assert uidByte[..] == Zeros(10);
    }

    predicate Valid() {
      uidByte.Length == 10
    }

    function Value(): Uid
      requires Valid()
      reads this, uidByte
    {
      Uid(size, uidByte[..], sak)
    }
  }

  class Pcd<S> {
    const coprocessor: Coprocessor
    const field: Field<S>
    var state: S
    var uid: Uid
    var tagSelected: bool

    constructor (coprocessor: Coprocessor, field: Field<S>, state: S)
      ensures this.coprocessor == coprocessor && this.field == field && this.state == state && !tagSelected
    {
      this.coprocessor := coprocessor;
      this.field := field;
      this.state := state;
      uid := Uid(0, Zeros(10), 0);
      tagSelected := false;
    }

    /** `PCD_TransceiveData` of the first bytes of the buffer, into the buffer. */
    method TransceiveData(buffer: array<byte>, used: nat, at: nat, bits: nat) returns (status: Status, collision: byte)
      requires buffer.Length == 9 && used <= 9 && at <= 9
      modifies this`state, buffer
      ensures var (state', echo) := field(old(state), old(buffer[..used]), bits);
              && state == state' && collision == echo.collision
              && (status, buffer[..]) == Receive(old(buffer[..]), at, bits, echo)
    {
      var (state', echo) := field(state, buffer[..used], bits);
      state, status, collision := state', echo.status, echo.collision;
      if at + |echo.data| > 9 {
        return NoRoom, collision;
      }
      Memcpy(buffer, at, Aligned(echo.data, bits));
      assert buffer[..] == buffer[..at + |echo.data|] + buffer[at + |echo.data|..];
    }

    /** The SELECT: check byte, CRC, and the SAK into the same place. */
    method SelectRound(buffer: array<byte>) returns (status: Status)
      requires buffer.Length == 9
      modifies this`state, buffer
      ensures (state, if status == Ok then Selected(buffer[..]) else Refused(status))
           == SelectLevel(coprocessor, field, old(state), old(buffer[..]))
    {
      buffer[1] := 0x70;
      buffer[6] := buffer[2] ^ buffer[3] ^ buffer[4] ^ buffer[5];
      assert buffer[..] == old(buffer[..])[1 := 0x70][6 := CheckByte(old(buffer[..]))];
      ghost var ready := buffer[..];
      assert buffer[..7] == ready[..7];
      var sum := coprocessor.Checksum(buffer[..7]);
      if sum.None? {
        return Timeout;
      }
      Memcpy(buffer, 7, sum.value);
      assert buffer[..9] == buffer[..] == ready[..7] + sum.value;
      var collision;
      status, collision := TransceiveData(buffer, 9, 6, 0);
      if status == Collision && collision & 0x20 == 0 {
        status := InternalError;
      }
    }

    /** An anticollision frame; after a collision the bit where it happened is taken as set. */
    method AnticollisionRound(buffer: array<byte>, known: nat) returns (status: Status, bits: nat)
      requires buffer.Length == 9 && known < 32
      modifies this`state, buffer
      ensures (state, if status == Ok then Known(buffer[..], bits) else Stuck(status))
           == Anticollide(field, old(state), old(buffer[..]), known)
    {
      bits := known;
      var txLastBits := known % 8;
      var index := 2 + known / 8;
      buffer[1] := Nvb(index, txLastBits);
      ghost var asked := buffer[..];
      assert asked == old(buffer[..])[1 := Nvb(index, txLastBits)];
      var used := index + (if txLastBits != 0 then 1 else 0);
      assert buffer[..used] == asked[..used];
      var collision;
      status, collision := TransceiveData(buffer, used, index, txLastBits);
      status, bits := Resolve(buffer, known, status, collision);
    }

    /** What a transceive of anticollision means for the bits that are known. */
    method Resolve(buffer: array<byte>, known: nat, found: Status, collision: byte) returns (status: Status, bits: nat)
      requires buffer.Length == 9 && known < 32
      modifies buffer
      ensures (if status == Ok then Known(buffer[..], bits) else Stuck(status))
           == Resolved(old(buffer[..]), known, found, collision)
    {
      bits := 32;
      if found == Collision {
        if collision & 0x20 != 0 {
          return Collision, bits;
        }
        var position := CollisionAt(collision);
        if position <= known {
          return InternalError, bits;
        }
        var bit := (position - 1) % 8;
        var at := 1 + position / 8 + (if bit != 0 then 1 else 0);
        buffer[at] := buffer[at] | Bit(bit);
        return Ok, position;
      }
      status := found;
    }

    /** The loop of one level: every round knows more bits than the last, or is the SELECT. */
    method SelectThisLevel(buffer: array<byte>, given: nat) returns (status: Status)
      requires buffer.Length == 9
      modifies this`state, buffer
      ensures (state, if status == Ok then Selected(buffer[..]) else Refused(status))
           == Rounds(coprocessor, field, old(state), old(buffer[..]), given)
    {
      RoundsFail(coprocessor, field, state, buffer[..], given);
      var known := given;
      var selectDone := false;
      status := Ok;
      while !selectDone
        invariant status == Ok
        invariant Rounds(coprocessor, field, old(state), old(buffer[..]), given)
               == if selectDone then (state, Selected(buffer[..]))
                  else Rounds(coprocessor, field, state, buffer[..], known)
        decreases !selectDone, if known < 32 then 32 - known else 0
      {
        if known >= 32 {
          status := SelectRound(buffer);
          if status != Ok {
            return;
          }
          selectDone := true;
        } else {
          status, known := AnticollisionRound(buffer, known);
          if status != Ok {
            return;
          }
        }
      }
    }

    /** The buffer at the start of a level. */
    method StartLevel(buffer: array<byte>, level: nat, validBits: nat, selectedUid: UidRecord) returns (known: nat)
      requires buffer.Length == 9 && selectedUid.Valid() && 1 <= level <= 3 && buffer != selectedUid.uidByte
      requires forall i :: 0 <= i < 9 ==> buffer[i] == 0
      modifies buffer
      ensures (buffer[..], known) == Start(level, validBits, selectedUid.Value())
    {
      var uidIndex := 3 * (level - 1);
      var useCascadeTag := StartsWithTag(level, validBits, selectedUid.size);
      known := if validBits < 8 * uidIndex then 0 else validBits - 8 * uidIndex;
      var bytesToCopy := known / 8 + (if known % 8 != 0 then 1 else 0);
      var maxBytes := if useCascadeTag then 3 else 4;
      if bytesToCopy > maxBytes {
        bytesToCopy := maxBytes;
      }
      assert bytesToCopy == BytesGiven(level, validBits, useCascadeTag);
      assert selectedUid.Value().bytes[uidIndex..uidIndex + bytesToCopy]
           == selectedUid.uidByte[uidIndex..uidIndex + bytesToCopy];
      FillBuffer(buffer, Sel(level), useCascadeTag, selectedUid.uidByte[uidIndex..uidIndex + bytesToCopy]);
      if useCascadeTag {
        known := known + 8;
      }
    }

    /** SEL, the cascade tag if it is known to come, and the bytes that are known. */
    method FillBuffer(buffer: array<byte>, sel: byte, useCascadeTag: bool, given: seq<byte>)
      requires buffer.Length == 9 && |given| <= if useCascadeTag then 3 else 4
      requires forall i :: 0 <= i < 9 ==> buffer[i] == 0
      modifies buffer
      ensures buffer[..] == Opening(sel, useCascadeTag, given)
    {
      buffer[0] := sel;
      var index := 2;
      if useCascadeTag {
        buffer[index], index := CASCADE_TAG, index + 1;
      }
      assert buffer[..index] == [sel, 0] + if useCascadeTag then [CASCADE_TAG] else [];
      Memcpy(buffer, index, given);
      index := index + |given|;
      assert buffer[index..] == Zeros(9 - index);
      assert buffer[..] == buffer[..index] + buffer[index..];
    }

    /** The bytes of a level go into the UID. */
    method TakeBytes(buffer: array<byte>, level: nat, selectedUid: UidRecord)
      requires buffer.Length == 9 && selectedUid.Valid() && 1 <= level <= 3 && buffer != selectedUid.uidByte
      modifies selectedUid.uidByte
      ensures selectedUid.Value() == Picked(level, old(selectedUid.Value()), buffer[..])
    {
      var index := if buffer[2] == CASCADE_TAG then 3 else 2;
      var bytesToCopy := if buffer[2] == CASCADE_TAG then 3 else 4;
      var uidIndex := 3 * (level - 1);
      ghost var before := selectedUid.uidByte[..];
      Memcpy(selectedUid.uidByte, uidIndex, buffer[index..index + bytesToCopy]);
      assert selectedUid.uidByte[..]
           == before[..uidIndex] + buffer[index..index + bytesToCopy] + before[uidIndex + bytesToCopy..];
    }

    /** What follows the loop of a level: both CRC bytes zero are refused outright, and then the SAK's CRC. */
    method CheckSak(buffer: array<byte>) returns (a: Acknowledged)
      requires buffer.Length == 9
      ensures a == Acknowledge(coprocessor, buffer[..])
    {
      if buffer[7] == 0 && buffer[8] == 0 {
        return Wrong(Error);
      }
      var crcBuffer := coprocessor.Checksum(buffer[6..7]);
      ghost var b := buffer[..];
      assert b[6..7] == buffer[6..7] && b[7..] == [buffer[7], buffer[8]];
      if crcBuffer.None? {
        return Wrong(Timeout);
      }
      assert crcBuffer.value == [crcBuffer.value[0], crcBuffer.value[1]];
      if crcBuffer.value[0] != buffer[7] || crcBuffer.value[1] != buffer[8] {
        assert crcBuffer.value[0] != b[7..][0] || crcBuffer.value[1] != b[7..][1];
        return Wrong(CrcWrong);
      }
      if buffer[6] & 0x04 != 0 {
        return More;
      }
      return Complete(buffer[6]);
    }

    /** One level. */
    method SelectOneLevel(level: nat, validBits: nat, selectedUid: UidRecord) returns (a: Acknowledged)
      requires selectedUid.Valid() && 1 <= level <= 3
      modifies this`state, selectedUid.uidByte
      ensures (state, selectedUid.Value(), a)
           == OneLevel(coprocessor, field, old(state), old(selectedUid.Value()), validBits, level)
    {
      var buffer := new byte[9](_ => 0);
      var known := StartLevel(buffer, level, validBits, selectedUid);
      var status := SelectThisLevel(buffer, known);
      if status != Ok {
        return Wrong(status);
      }
      TakeBytes(buffer, level, selectedUid);
      a := CheckSak(buffer);
    }

    /** The loop over the cascade levels. */
    method SelectLevels(selectedUid: UidRecord, validBits: nat, first: nat) returns (status: Status)
      requires selectedUid.Valid() && 1 <= first <= 4
      modifies this`state, this`uid, this`tagSelected, selectedUid, selectedUid.uidByte
      ensures (state, selectedUid.Value(), status)
           == Cascade(LevelsOf(coprocessor, field, validBits), old(state), old(selectedUid.Value()), first)
      ensures status == Ok ==> tagSelected && uid == selectedUid.Value()
      ensures status != Ok ==> tagSelected == old(tagSelected) && uid == old(uid)
    {
      ghost var select := LevelsOf(coprocessor, field, validBits);
      var uidComplete, cascadeLevel := false, first;
      while !uidComplete
        invariant 1 <= cascadeLevel <= 4 && !uidComplete && uid == old(uid) && tagSelected == old(tagSelected)
        invariant Cascade(select, old(state), old(selectedUid.Value()), first)
               == Cascade(select, state, selectedUid.Value(), cascadeLevel)
        decreases 4 - cascadeLevel
      {
        if cascadeLevel == 4 {
          return InternalError;
        }
        var a := SelectOneLevel(cascadeLevel, validBits, selectedUid);
        match a
        case Wrong(wrong) => return wrong;
        case More => cascadeLevel := cascadeLevel + 1;
        case Complete(sak) =>
          selectedUid.sak := sak;
          selectedUid.size := 3 * cascadeLevel + 1;
          uid, tagSelected := selectedUid.Value(), true;
          return Ok;
      }
    }

    /** `PICC_Select`. */
    method PiccSelect(selectedUid: UidRecord, validBits: nat) returns (status: Status)
      requires selectedUid.Valid() && validBits < 256
      modifies this`state, this`uid, this`tagSelected, selectedUid, selectedUid.uidByte
      ensures (state, selectedUid.Value(), status)
           == PiccSelected(coprocessor, field, old(state), old(selectedUid.Value()), validBits)
      ensures status == Ok ==> tagSelected && uid == selectedUid.Value()
      ensures status != Ok ==> tagSelected == old(tagSelected) && uid == old(uid)
    {
      if validBits > 80 {
        return Invalid;
      }
      status := SelectLevels(selectedUid, validBits, 1);
    }
  }
}
