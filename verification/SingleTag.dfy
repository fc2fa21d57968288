/** Select against one tag alone in the field, with a UID of 4, 7 or 10 bytes cascaded as in section 6.5.4 of
    ISO/IEC 14443-3, of which the caller may know some bits. The tag knows its commands by their own codes. */
module SingleTag {
  import opened Octets
  import opened Bytes
  import opened Mfrc522
  import opened Select

  type Four = s: seq<byte> | |s| == 4 witness Zeros(4)

  /** The UID, the SAK at the end, and the SAK of the levels before. */
  datatype Tag = Tag(uid: seq<byte>, sak: byte, more: byte) {
    predicate Valid() {
      |uid| in [4, 7, 10] && sak & 0x04 == 0 && more & 0x04 != 0
    }

    function Last(): nat {
      |uid| / 3
    }

    /** The four bytes of a level: the end of the UID, or the cascade tag and three more. */
    function Part(level: nat): Four
      requires Valid() && 1 <= level <= Last()
    {
      var from := 3 * (level - 1);
      if level == Last() then uid[from..] else [0x88] + uid[from..from + 3]
    }

    function SakAt(level: nat): byte {
      if level == Last() then sak else more
    }
  }

  function Checked(part: Four): seq<byte>
  {
    part + [part[0] ^ part[1] ^ part[2] ^ part[3]]
  }

  /** The SELECT codes of the three cascade levels. */
  function Code(level: nat): byte {
    match level
    case 1 => 0x93
    case 2 => 0x95
    case _ => 0x97
  }

  /** The bits of a byte from `bits` on. */
  function Upper(bits: nat): byte {
    match bits
    case 0 => 0xFF
    case 1 => 0xFE
    case 2 => 0xFC
    case 3 => 0xF8
    case 4 => 0xF0
    case 5 => 0xE0
    case 6 => 0xC0
    case _ => 0x80
  }

  predicate SameLow(a: byte, b: byte, bits: nat) {
    a & !Upper(bits) == b & !Upper(bits)
  }

  /** A frame of anticollision: the number of valid bits, and these bits of the level's bytes. */
  predicate Asks(sel: byte, part: Four, n: nat, frame: seq<byte>, bits: nat)
    requires n < 4 && bits < 8
  {
    && |frame| == 2 + n + (if bits == 0 then 0 else 1)
    && frame[0] == sel && frame[1] as int == 16 * (2 + n) + bits
    && frame[2..2 + n] == part[..n]
    && (bits != 0 ==> SameLow(frame[2 + n], part[n], bits))
  }

  /** The answer: the bits that are not known. In the first byte, the receiver has what it likes below them. */
  function Unknown(part: Four, n: nat, bits: nat, noise: byte): seq<byte>
    requires n < 4 && bits < 8
  {
    [Noisy(part[n], noise, Upper(bits))] + Checked(part)[n + 1..]
  }

  function Noisy(b: byte, noise: byte, m: byte): byte {
    (b & m) | (noise & !m)
  }

  /** The whole bytes that a frame of anticollision has behind its first two. */
  function Whole(frame: seq<byte>, bits: nat): nat
    requires |frame| >= 3
  {
    if bits == 0 then |frame| - 2 else |frame| - 3
  }

  function AnswerAt(sel: byte, part: Four, sak: byte, crc: seq<byte> -> Crc, noise: byte, done: nat,
    frame: seq<byte>, bits: nat): (nat, Echo)
  {
    var select := [sel, 0x70] + Checked(part);
    if bits == 0 && frame == select + crc(select) then (done + 1, Echo(Ok, [sak] + crc([sak]), 0))
    else if bits == 0 && frame == [sel, 0x20] then (done, Echo(Ok, Unknown(part, 0, 0, noise), 0))
    else if |frame| >= 3 && bits < 8 && Whole(frame, bits) < 4 && Asks(sel, part, Whole(frame, bits), frame, bits)
    then (done, Echo(Ok, Unknown(part, Whole(frame, bits), bits, noise), 0))
    else (done, Echo(Timeout, [], 0))
  }

  /** A tag with `done` levels behind it answers anticollision and SELECT of the next level, and nothing else. */
  function Answer(tag: Tag, crc: seq<byte> -> Crc, noise: byte, done: nat, frame: seq<byte>, bits: nat): (nat, Echo)
    requires tag.Valid()
  {
    if done >= tag.Last() then (done, Echo(Timeout, [], 0)) else
      AnswerAt(Code(done + 1), tag.Part(done + 1), tag.SakAt(done + 1), crc, noise, done, frame, bits)
  }

  type ValidTag = t: Tag | t.Valid() witness Tag(Zeros(4), 0, 4)

  function FieldOf(tag: ValidTag, crc: seq<byte> -> Crc, noise: byte): Field<nat> {
    (done: nat, frame: seq<byte>, bits: nat) => Answer(tag, crc, noise, done, frame, bits)
  }

  // ---- One level ----------------------------------------------------------------------------------------

  /** The buffer after a level has been selected. */
  function SelectedBuffer(sel: byte, part: Four, tail: seq<byte>): Buffer
    requires |tail| == 3
  {
    [sel, 0x70] + part + tail
  }

  /** The tag of this level: how it answers in one state. */
  ghost predicate Answers(field: Field<nat>, state: nat, c: Coprocessor, sel: byte, part: Four, sak: byte,
    noise: byte)
  {
    forall frame: seq<byte>, bits: nat {:trigger field(state, frame, bits)} ::
      field(state, frame, bits) == AnswerAt(sel, part, sak, c.crc, noise, state, frame, bits)
  }

  /** The bytes of a level of which `known` bits are known: whole bytes, and one that is right in its low bits. */
  predicate KnownBytes(given: seq<byte>, part: Four, known: nat)
    requires known < 32
  {
    var n, bits := known / 8, known % 8;
    && |given| == n + (if bits == 0 then 0 else 1) && given[..n] == part[..n]
    && (bits != 0 ==> SameLow(given[n], part[n], bits))
  }

  /** What anticollision makes of the level's bytes: where a byte was known in part, its known bits are gone. */
  function Garbled(part: Four, known: nat): Four
    requires known < 32
  {
    part[known / 8 := part[known / 8] & Upper(known % 8)]
  }

  lemma NvbIs(n: nat, bits: nat)
    requires n < 4 && bits < 8
    ensures Nvb(2 + n, bits) as int == 16 * (2 + n) + bits
  {
    ToByteSmall((2 + n) * 16 + bits);
  }

  lemma HighBitsIs(bits: nat)
    ensures HighBits(bits) == Upper(bits)
  {
  }

  lemma NoiseGone(b: byte, noise: byte, m: byte)
    ensures Noisy(b, noise, m) & m == b & m
  {
  }

  lemma NoNoise(b: byte, noise: byte)
    ensures Noisy(b, noise, 0xFF) == b && b & 0xFF == b
  {
  }

  lemma AlignedIs(first: byte, rest: seq<byte>, bits: nat)
    ensures Aligned([first] + rest, bits) == [if bits == 0 then first else first & HighBits(bits)] + rest
  {
  }

  /** What is received behind the known bits. */
  lemma ReceivedIs(part: Four, n: nat, bits: nat, noise: byte)
    requires n < 4 && bits < 8
    ensures Aligned(Unknown(part, n, bits, noise), bits) == [part[n] & Upper(bits)] + Checked(part)[n + 1..]
  {
    AlignedIs(Noisy(part[n], noise, Upper(bits)), Checked(part)[n + 1..], bits);
    HighBitsIs(bits);
    NoiseGone(part[n], noise, Upper(bits));
    if bits == 0 {
      NoNoise(part[n], noise);
    }
  }

  /** The buffer after anticollision: the bytes as received, and the check byte of what the tag sent. */
  function FoundBuffer(sel: byte, nvb: byte, part: Four, found: Four): Buffer
  {
    [sel, nvb] + found + Checked(part)[4..] + Zeros(2)
  }

  /** The buffer and the frame with some of the level's bytes in them. */
  function Opened(sel: byte, nvb: byte, given: seq<byte>): Buffer
    requires |given| <= 7
  {
    [sel, nvb] + given + Zeros(7 - |given|)
  }

  lemma Finds(c: Coprocessor, field: Field<nat>, state: nat, sel: byte, part: Four, sak: byte, noise: byte,
    given: seq<byte>, n: nat, bits: nat)
    requires n < 4 && bits < 8 && Answers(field, state, c, sel, part, sak, noise)
    requires KnownBytes(given, part, 8 * n + bits)
    ensures |given| <= 4
    ensures Anticollide(field, state, Opened(sel, 0, given), 8 * n + bits)
         == (state, Known(FoundBuffer(sel, Nvb(2 + n, bits), part, Garbled(part, 8 * n + bits)), 32))
  {
    var nvb := Nvb(2 + n, bits);
    EchoIs(c, field, state, sel, part, sak, noise, given, n, bits);
    ReceivedIs(part, n, bits, noise);
    PutBehind(sel, nvb, given, part, n, bits);
    AnticollideIs(field, state, sel, given, n, bits, Unknown(part, n, bits, noise));
  }

  lemma EchoIs(c: Coprocessor, field: Field<nat>, state: nat, sel: byte, part: Four, sak: byte, noise: byte,
    given: seq<byte>, n: nat, bits: nat)
    requires n < 4 && bits < 8 && Answers(field, state, c, sel, part, sak, noise)
    requires KnownBytes(given, part, 8 * n + bits)
    ensures |given| == n + (if bits == 0 then 0 else 1)
    ensures field(state, [sel, Nvb(2 + n, bits)] + given, bits) == (state, Echo(Ok, Unknown(part, n, bits, noise), 0))
  {
    SplitBits(n, bits);
    NvbIs(n, bits);
    FrameAnswered(sel, part, sak, c.crc, noise, state, Nvb(2 + n, bits), given, n, bits);
  }

  lemma SplitBits(n: nat, bits: nat)
    requires bits < 8
    ensures (8 * n + bits) / 8 == n && (8 * n + bits) % 8 == bits
  {
  }

  lemma AnticollideIs(field: Field<nat>, state: nat, sel: byte, given: seq<byte>, n: nat, bits: nat, data: seq<byte>)
    requires n < 4 && bits < 8 && |given| == n + (if bits == 0 then 0 else 1) && |data| == 5 - n
    requires var nvb := Nvb(2 + n, bits);
             field(state, [sel, nvb] + given, bits) == (state, Echo(Ok, data, 0))
    ensures Anticollide(field, state, Opened(sel, 0, given), 8 * n + bits)
         == (state, Known(Put(Opened(sel, Nvb(2 + n, bits), given), 2 + n, Aligned(data, bits)), 32))
  {
    var nvb := Nvb(2 + n, bits);
    SplitBits(n, bits);
    assert Opened(sel, 0, given)[1 := nvb] == Opened(sel, nvb, given);
    assert Opened(sel, nvb, given)[..2 + |given|] == [sel, nvb] + given;
  }

  lemma FrameAnswered(sel: byte, part: Four, sak: byte, crc: seq<byte> -> Crc, noise: byte, state: nat,
    nvb: byte, given: seq<byte>, n: nat, bits: nat)
    requires n < 4 && bits < 8 && KnownBytes(given, part, 8 * n + bits)
    requires nvb as int == 16 * (2 + n) + bits
    ensures AnswerAt(sel, part, sak, crc, noise, state, [sel, nvb] + given, bits)
         == (state, Echo(Ok, Unknown(part, n, bits, noise), 0))
  {
    var frame := [sel, nvb] + given;
    SplitBits(n, bits);
    if n == 0 && bits == 0 {
      assert given == [] && nvb == 0x20;
      assert frame == [sel, 0x20];
    } else {
      assert frame[2..2 + n] == given[..n];
      assert bits != 0 ==> frame[2 + n] == given[n];
    }
  }

  lemma PutBehind(sel: byte, nvb: byte, given: seq<byte>, part: Four, n: nat, bits: nat)
    requires n < 4 && bits < 8 && KnownBytes(given, part, 8 * n + bits)
    ensures |given| <= 4
    ensures Put(Opened(sel, nvb, given), 2 + n, [part[n] & Upper(bits)] + Checked(part)[n + 1..])
         == FoundBuffer(sel, nvb, part, Garbled(part, 8 * n + bits))
  {
    SplitBits(n, bits);
    var b := part[n] & Upper(bits);
    PutParts(sel, nvb, given, part, Checked(part), n, b);
  }

  lemma PutParts(sel: byte, nvb: byte, given: seq<byte>, part: Four, checked: seq<byte>, n: nat, b: byte)
    requires n < 4 && n <= |given| <= n + 1 && given[..n] == part[..n]
    requires |checked| == 5 && checked[..4] == part
    ensures Put(Opened(sel, nvb, given), 2 + n, [b] + checked[n + 1..])
         == [sel, nvb] + part[n := b] + checked[4..] + Zeros(2)
  {
    var asked := Opened(sel, nvb, given);
    assert asked[..2 + n] == [sel, nvb] + part[..n];
    assert asked[7..] == Zeros(2);
    assert part[n := b] == part[..n] + [b] + part[n + 1..];
    assert checked[n + 1..] == part[n + 1..] + checked[4..];
  }

  /** The SELECT of the bytes in the buffer: answered exactly if they are the tag's. */
  lemma SelectsIff(c: Coprocessor, field: Field<nat>, state: nat, sel: byte, part: Four, sak: byte, noise: byte,
    buffer: Buffer, found: Four)
    requires c.works && Answers(field, state, c, sel, part, sak, noise)
    requires buffer[0] == sel && buffer[2..6] == found
    ensures SelectLevel(c, field, state, buffer) == Verdict(c, state, sel, part, sak, found == part)
  {
    var select := [sel, 0x70] + Checked(found);
    ReadyIs(buffer, sel, found);
    SelectAnswered(sel, part, sak, c.crc, noise, state, found);
    if found == part {
      SelectTaken(c, field, state, buffer, select, state + 1, [sak] + c.crc([sak]));
      PutSak(sel, part, c.crc(select), [sak] + c.crc([sak]));
    } else {
      SelectUnheard(c, field, state, buffer, select);
    }
  }

  lemma ReadyIs(buffer: Buffer, sel: byte, found: Four)
    requires buffer[0] == sel && buffer[2..6] == found
    ensures buffer[1 := 0x70][6 := CheckByte(buffer)][..7] == [sel, 0x70] + Checked(found)
  {
    assert buffer[2] == found[0] && buffer[3] == found[1] && buffer[4] == found[2] && buffer[5] == found[3];
  }

  lemma SelectTaken(c: Coprocessor, field: Field<nat>, state: nat, buffer: Buffer, select: seq<byte>, state': nat,
    data: seq<byte>)
    requires c.works && |select| == 7 && |data| == 3
    requires buffer[1 := 0x70][6 := CheckByte(buffer)][..7] == select
    requires field(state, select + c.crc(select), 0) == (state', Echo(Ok, data, 0))
    ensures SelectLevel(c, field, state, buffer) == (state', Selected(Put(select + c.crc(select), 6, data)))
  {
  }

  lemma SelectUnheard(c: Coprocessor, field: Field<nat>, state: nat, buffer: Buffer, select: seq<byte>)
    requires c.works && |select| == 7 && buffer[1 := 0x70][6 := CheckByte(buffer)][..7] == select
    requires field(state, select + c.crc(select), 0) == (state, Echo(Timeout, [], 0))
    ensures SelectLevel(c, field, state, buffer) == (state, Refused(Timeout))
  {
  }

  lemma PutSak(sel: byte, part: Four, crc: Crc, tail: seq<byte>)
    requires |tail| == 3
    ensures Put([sel, 0x70] + Checked(part) + crc, 6, tail) == SelectedBuffer(sel, part, tail)
  {
  }

  lemma SelectAnswered(sel: byte, part: Four, sak: byte, crc: seq<byte> -> Crc, noise: byte, state: nat,
    found: Four)
    ensures var select := [sel, 0x70] + Checked(found);
            AnswerAt(sel, part, sak, crc, noise, state, select + crc(select), 0)
            == if found == part then (state + 1, Echo(Ok, [sak] + crc([sak]), 0)) else (state, Echo(Timeout, [], 0))
  {
    var select := [sel, 0x70] + Checked(found);
    var frame := select + crc(select);
    assert |frame| == 9 && frame[2..6] == found;
    if found != part {
      var own := [sel, 0x70] + Checked(part);
      assert (own + crc(own))[2..6] == part;
    }
  }

  /** The four bytes of a level put into a UID, without the cascade tag. */
  function With(uid: Uid, level: nat, part: Four): Uid
    requires 1 <= level <= 3 && |part| == 4
  {
    var from := 3 * (level - 1);
    if part[0] == 0x88 then uid.(bytes := uid.bytes[..from] + part[1..] + uid.bytes[from + 3..])
    else uid.(bytes := uid.bytes[..from] + part + uid.bytes[from + 4..])
  }

  lemma PartPicked(level: nat, uid: Uid, sel: byte, part: Four, tail: seq<byte>)
    requires 1 <= level <= 3 && |tail| == 3
    ensures Picked(level, uid, SelectedBuffer(sel, part, tail)) == With(uid, level, part)
  {
    var b := SelectedBuffer(sel, part, tail);
    assert b[3..6] == part[1..] && b[2..6] == part;
  }

  lemma SakAcknowledged(c: Coprocessor, sel: byte, part: Four, sak: byte)
    requires c.works && c.crc([sak]) != [0, 0]
    ensures Acknowledge(c, SelectedBuffer(sel, part, [sak] + c.crc([sak])))
         == if sak & 0x04 != 0 then More else Complete(sak)
  {
    var b, s := SelectedBuffer(sel, part, [sak] + c.crc([sak])), c.crc([sak]);
    assert b[6..7] == [sak] && b[7..] == s;
    assert b[7] == b[7..][0] == s[0] && b[8] == b[7..][1] == s[1];
    assert s == [s[0], s[1]];
  }

  /** The rounds of a level of which `known` bits are known: what is found is selected if it is the tag's. */
  lemma RoundsSelectIff(c: Coprocessor, field: Field<nat>, state: nat, sel: byte, part: Four, sak: byte,
    noise: byte, given: seq<byte>, known: nat)
    requires c.works && Answers(field, state, c, sel, part, sak, noise)
    requires if known < 32 then KnownBytes(given, part, known) else given == part
    ensures |given| <= 4
    ensures Rounds(c, field, state, Opened(sel, 0, given), known)
         == Verdict(c, state, sel, part, sak, known >= 32 || Garbled(part, known) == part)
  {
    if known < 32 {
      var n, bits := SplitKnown(known);
      RoundsFind(c, field, state, sel, part, sak, noise, given, n, bits, known);
    } else {
      RoundsNone(c, field, state, sel, part, sak, noise, known);
    }
  }

  lemma SplitKnown(known: nat) returns (n: nat, bits: nat)
    requires known < 32
    ensures n < 4 && bits < 8 && known == 8 * n + bits
  {
    n, bits := known / 8, known % 8;
  }

  lemma RoundsNone(c: Coprocessor, field: Field<nat>, state: nat, sel: byte, part: Four, sak: byte, noise: byte,
    known: nat)
    requires c.works && Answers(field, state, c, sel, part, sak, noise) && known >= 32
    ensures Rounds(c, field, state, Opened(sel, 0, part), known) == Verdict(c, state, sel, part, sak, true)
  {
    assert Opened(sel, 0, part)[2..6] == part;
    SelectsIff(c, field, state, sel, part, sak, noise, Opened(sel, 0, part), part);
  }

  /** A level whose SELECT is answered, or not. */
  function Verdict(c: Coprocessor, state: nat, sel: byte, part: Four, sak: byte, taken: bool): (nat, Level) {
    if taken then (state + 1, Selected(SelectedBuffer(sel, part, [sak] + c.crc([sak])))) else (state, Refused(Timeout))
  }

  lemma RoundsFind(c: Coprocessor, field: Field<nat>, state: nat, sel: byte, part: Four, sak: byte, noise: byte,
    given: seq<byte>, n: nat, bits: nat, known: nat)
    requires c.works && Answers(field, state, c, sel, part, sak, noise)
    requires n < 4 && bits < 8 && known == 8 * n + bits && KnownBytes(given, part, known)
    ensures |given| <= 4
    ensures Rounds(c, field, state, Opened(sel, 0, given), known)
         == Verdict(c, state, sel, part, sak, Garbled(part, known) == part)
  {
    var after := FoundBuffer(sel, Nvb(2 + n, bits), part, Garbled(part, known));
    Finds(c, field, state, sel, part, sak, noise, given, n, bits);
    RoundsFrom(c, field, state, Opened(sel, 0, given), known, after);
    FoundIs(sel, Nvb(2 + n, bits), part, Garbled(part, known));
    SelectsIff(c, field, state, sel, part, sak, noise, after, Garbled(part, known));
  }

  lemma FoundIs(sel: byte, nvb: byte, part: Four, found: Four)
    ensures FoundBuffer(sel, nvb, part, found)[0] == sel && FoundBuffer(sel, nvb, part, found)[2..6] == found
  {
  }

  lemma RoundsFrom(c: Coprocessor, field: Field<nat>, state: nat, buffer: Buffer, known: nat, after: Buffer)
    requires known < 32 && Anticollide(field, state, buffer, known) == (state, Known(after, 32))
    ensures Rounds(c, field, state, buffer, known) == SelectLevel(c, field, state, after)
  {
  }

  /** What the caller knows: its first `v` bits are the tag's, and if it knows any, the size. */
  predicate Knows(tag: ValidTag, uid: Uid, v: nat) {
    && v <= 8 * |tag.uid| && (v > 0 ==> uid.size == |tag.uid|)
    && uid.bytes[..v / 8] == tag.uid[..v / 8]
    && (v % 8 != 0 ==> SameLow(uid.bytes[v / 8], tag.uid[v / 8], v % 8))
  }

  /** The known bits of one level, with the cascade tag where it comes. */
  function KnownAt(tag: ValidTag, level: nat, v: nat): nat
    requires 1 <= level <= 3
  {
    (if v < 24 * (level - 1) then 0 else v - 24 * (level - 1)) + (if v != 0 && level < tag.Last() then 8 else 0)
  }

  /** The level can be selected: no byte of it is known in part, or its known bits are zero. */
  predicate Selectable(tag: ValidTag, level: nat, v: nat)
    requires 1 <= level <= tag.Last()
  {
    var known := KnownAt(tag, level, v);
    known >= 32 || Garbled(tag.Part(level), known) == tag.Part(level)
  }

  /** The bytes a level starts with: the cascade tag, if it is known to come, and what the caller knows. */
  function GivenAt(tag: ValidTag, uid: Uid, level: nat, v: nat): (given: seq<byte>)
    requires 1 <= level <= 3
    ensures |given| <= 4
  {
    var cascades := level < tag.Last() && v != 0;
    (if cascades then [0x88] else [])
    + uid.bytes[3 * (level - 1)..3 * (level - 1) + BytesGiven(level, v, cascades)]
  }

  /** The buffer a level starts with. */
  lemma StartsWithKnown(tag: ValidTag, uid: Uid, level: nat, v: nat)
    requires 1 <= level <= tag.Last() && Knows(tag, uid, v)
    ensures var given, known := GivenAt(tag, uid, level, v), KnownAt(tag, level, v);
            if known < 32 then KnownBytes(given, tag.Part(level), known) else given == tag.Part(level)
  {
    if v == 0 {
      NothingGiven(tag, uid, level, v);
    } else if v <= 24 * (level - 1) {
      OnlyTagGiven(tag, uid, level, v);
    } else {
      SomeGiven(tag, uid, level, v, v - 24 * (level - 1));
    }
  }

  /** A level starts with these bytes, of which `known` bits are those of `part`. */
  predicate StartsAs(uid: Uid, level: nat, v: nat, part: Four, given: seq<byte>, known: nat)
    requires 1 <= level <= 3
  {
    && |given| <= 4 && Start(level, v, uid) == (Opened(Code(level), 0, given), known)
    && (if known < 32 then KnownBytes(given, part, known) else given == part)
  }

  lemma Starts(tag: ValidTag, uid: Uid, level: nat, v: nat)
    requires 1 <= level <= tag.Last() && Knows(tag, uid, v)
    ensures StartsAs(uid, level, v, tag.Part(level), GivenAt(tag, uid, level, v), KnownAt(tag, level, v))
  {
    StartIs(tag, uid, level, v);
    StartsWithKnown(tag, uid, level, v);
  }

  lemma CodeIs(level: nat)
    requires 1 <= level <= 3
    ensures Sel(level) == Code(level)
  {
  }

  lemma CascadesIff(tag: ValidTag, size: nat, level: nat, v: nat)
    requires 1 <= level <= tag.Last() && (v > 0 ==> size == |tag.uid|)
    ensures StartsWithTag(level, v, size) <==> level < tag.Last() && v != 0
  {
  }

  lemma StartIs(tag: ValidTag, uid: Uid, level: nat, v: nat)
    requires 1 <= level <= tag.Last() && Knows(tag, uid, v)
    ensures Start(level, v, uid) == (Opened(Code(level), 0, GivenAt(tag, uid, level, v)), KnownAt(tag, level, v))
  {
    CascadesIff(tag, uid.size, level, v);
    CodeIs(level);
    StartOf(uid, level, v, level < tag.Last() && v != 0);
  }

  lemma StartOf(uid: Uid, level: nat, v: nat, cascades: bool)
    requires 1 <= level <= 3 && StartsWithTag(level, v, uid.size) == cascades
    ensures var n := BytesGiven(level, v, cascades);
            var given := (if cascades then [0x88] else []) + uid.bytes[3 * (level - 1)..3 * (level - 1) + n];
            |given| <= 4 && Start(level, v, uid).0 == Opened(Sel(level), 0, given)
    ensures Start(level, v, uid).1
         == (if v < 24 * (level - 1) then 0 else v - 24 * (level - 1)) + (if cascades then 8 else 0)
  {
  }

  lemma NothingGiven(tag: ValidTag, uid: Uid, level: nat, v: nat)
    requires 1 <= level <= tag.Last() && v == 0
    ensures GivenAt(tag, uid, level, v) == [] && KnownAt(tag, level, v) == 0
  {
  }

  lemma OnlyTagGiven(tag: ValidTag, uid: Uid, level: nat, v: nat)
    requires 1 <= level <= tag.Last() && 0 < v <= 24 * (level - 1)
    ensures var given, known := GivenAt(tag, uid, level, v), KnownAt(tag, level, v);
            known < 32 && KnownBytes(given, tag.Part(level), known)
  {
    if level < tag.Last() {
      assert GivenAt(tag, uid, level, v) == [0x88] && KnownAt(tag, level, v) == 8;
      assert tag.Part(level)[..1] == [0x88];
    } else {
      assert GivenAt(tag, uid, level, v) == [] && KnownAt(tag, level, v) == 0;
    }
  }

  /** The `g` bits that are known of this level's part of the UID, and perhaps of more. */
  lemma SomeGiven(tag: ValidTag, uid: Uid, level: nat, v: nat, g: nat)
    requires 1 <= level <= tag.Last() && Knows(tag, uid, v) && v == 24 * (level - 1) + g && g > 0
    ensures var given, known := GivenAt(tag, uid, level, v), KnownAt(tag, level, v);
            if known < 32 then KnownBytes(given, tag.Part(level), known) else given == tag.Part(level)
  {
    BitsBehind(v, level, g);
    KnownBehind(tag, uid, v, 3 * (level - 1), g);
    if level == tag.Last() {
      SomeGivenLast(tag, uid, level, v, g, uid.bytes[3 * (level - 1)..], tag.uid[3 * (level - 1)..]);
    } else {
      SomeGivenMore(tag, uid, level, v, g, uid.bytes[3 * (level - 1)..], tag.uid[3 * (level - 1)..]);
    }
  }

  lemma SomeGivenLast(tag: ValidTag, uid: Uid, level: nat, v: nat, g: nat, a: seq<byte>, b: seq<byte>)
    requires 1 <= level == tag.Last() && v == 24 * (level - 1) + g && 0 < g <= 32
    requires a == uid.bytes[3 * (level - 1)..] && b == tag.uid[3 * (level - 1)..]
    requires g / 8 <= |b| && a[..g / 8] == b[..g / 8]
    requires g % 8 != 0 ==> g / 8 < |b| && SameLow(a[g / 8], b[g / 8], g % 8)
    ensures var given, known := GivenAt(tag, uid, level, v), KnownAt(tag, level, v);
            if known < 32 then KnownBytes(given, tag.Part(level), known) else given == tag.Part(level)
  {
    GivenIs(a, b, g, 4);
    LastGiven(tag, uid, level, v, g);
  }

  lemma SomeGivenMore(tag: ValidTag, uid: Uid, level: nat, v: nat, g: nat, a: seq<byte>, b: seq<byte>)
    requires 1 <= level < tag.Last() && v == 24 * (level - 1) + g && 0 < g
    requires a == uid.bytes[3 * (level - 1)..] && b == tag.uid[3 * (level - 1)..]
    requires g / 8 <= |b| && g / 8 <= |a| && a[..g / 8] == b[..g / 8]
    requires g % 8 != 0 ==> g / 8 < |b| && g / 8 < |a| && SameLow(a[g / 8], b[g / 8], g % 8)
    ensures var given, known := GivenAt(tag, uid, level, v), KnownAt(tag, level, v);
            if known < 32 then KnownBytes(given, tag.Part(level), known) else given == tag.Part(level)
  {
    GivenIs(a, b, g, 3);
    TagGiven(tag, uid, level, v, g);
    BehindTag(a[..AtMost((g + 7) / 8, 3)], b[..3], g);
  }

  lemma KnownBehind(tag: ValidTag, uid: Uid, v: nat, from: nat, g: nat)
    requires Knows(tag, uid, v) && v / 8 == from + g / 8 && v % 8 == g % 8 && from <= |tag.uid|
    ensures g / 8 <= |tag.uid[from..]| && uid.bytes[from..][..g / 8] == tag.uid[from..][..g / 8]
    ensures g % 8 != 0 ==> g / 8 < |tag.uid[from..]| && SameLow(uid.bytes[from..][g / 8], tag.uid[from..][g / 8], g % 8)
  {
    SamePrefix(uid.bytes, tag.uid, from, v / 8);
  }

  lemma BitsBehind(v: nat, level: nat, g: nat)
    requires level >= 1 && v == 24 * (level - 1) + g
    ensures v / 8 == 3 * (level - 1) + g / 8 && v % 8 == g % 8
  {
  }

  lemma LastGiven(tag: ValidTag, uid: Uid, level: nat, v: nat, g: nat)
    requires 1 <= level == tag.Last() && v == 24 * (level - 1) + g && 0 < g <= 32
    ensures GivenAt(tag, uid, level, v) == uid.bytes[3 * (level - 1)..][..AtMost((g + 7) / 8, 4)]
    ensures tag.Part(level) == tag.uid[3 * (level - 1)..] && KnownAt(tag, level, v) == g
    ensures tag.Part(level) == tag.uid[3 * (level - 1)..][..4]
  {
  }

  lemma TagGiven(tag: ValidTag, uid: Uid, level: nat, v: nat, g: nat)
    requires 1 <= level < tag.Last() && v == 24 * (level - 1) + g && 0 < g
    ensures GivenAt(tag, uid, level, v) == [0x88] + uid.bytes[3 * (level - 1)..][..AtMost((g + 7) / 8, 3)]
    ensures tag.Part(level) == [0x88] + tag.uid[3 * (level - 1)..][..3] && KnownAt(tag, level, v) == g + 8
  {
  }

  function AtMost(n: nat, most: nat): nat {
    if n < most then n else most
  }

  lemma SamePrefix(a: seq<byte>, b: seq<byte>, from: nat, to: nat)
    requires from <= to <= |a| && to <= |b| && a[..to] == b[..to]
    ensures a[from..][..to - from] == b[from..][..to - from]
  {
    assert a[from..][..to - from] == a[..to][from..];
    assert b[from..][..to - from] == b[..to][from..];
  }

  /** The bytes copied for `g` known bits. */
  lemma GivenIs(a: seq<byte>, b: seq<byte>, g: nat, size: nat)
    requires size in {3, 4} && |a| >= size && |b| >= size && g / 8 <= |a| && g / 8 <= |b| && a[..g / 8] == b[..g / 8]
    requires g % 8 != 0 && g < 8 * size ==> SameLow(a[g / 8], b[g / 8], g % 8)
    ensures var given := a[..AtMost((g + 7) / 8, size)];
            if g >= 8 * size then given == b[..size]
            else |given| == g / 8 + (if g % 8 == 0 then 0 else 1) && given[..g / 8] == b[..g / 8]
                 && (g % 8 != 0 ==> SameLow(given[g / 8], b[g / 8], g % 8))
  {
    if g >= 8 * size {
      assert a[..size] == a[..g / 8][..size] && b[..size] == b[..g / 8][..size];
    }
  }

  lemma BehindTag(given: seq<byte>, three: seq<byte>, g: nat)
    requires |three| == 3
    requires if g >= 24 then given == three
             else |given| == g / 8 + (if g % 8 == 0 then 0 else 1) && given[..g / 8] == three[..g / 8]
                  && (g % 8 != 0 ==> SameLow(given[g / 8], three[g / 8], g % 8))
    ensures if g + 8 < 32 then KnownBytes([0x88] + given, [0x88] + three, g + 8)
            else [0x88] + given == [0x88] + three
  {
    assert (g + 8) / 8 == g / 8 + 1 && (g + 8) % 8 == g % 8;
    if g < 24 {
      assert ([0x88] + given)[..g / 8 + 1] == [0x88] + given[..g / 8];
      assert ([0x88] + three)[..g / 8 + 1] == [0x88] + three[..g / 8];
    }
  }

  lemma TagAnswers(c: Coprocessor, tag: ValidTag, noise: byte, level: nat)
    requires 1 <= level <= tag.Last()
    ensures Answers(FieldOf(tag, c.crc, noise), level - 1, c, Code(level), tag.Part(level), tag.SakAt(level), noise)
  {
  }

  /** A level of which the rounds bring this part and this SAK. */
  lemma LevelBrings(c: Coprocessor, uid: Uid, level: nat, part: Four, sak: byte)
    requires c.works && 1 <= level <= 3 && c.crc([sak]) != [0, 0]
    ensures var b := SelectedBuffer(Code(level), part, [sak] + c.crc([sak]));
            Picked(level, uid, b) == With(uid, level, part)
            && Acknowledge(c, b) == if sak & 0x04 != 0 then More else Complete(sak)
  {
    PartPicked(level, uid, Code(level), part, [sak] + c.crc([sak]));
    SakAcknowledged(c, Code(level), part, sak);
  }

  lemma OneLevelIs<S>(c: Coprocessor, field: Field<S>, state: S, uid: Uid, v: nat, level: nat, buffer: Buffer,
    known: nat)
    requires 1 <= level <= 3 && Start(level, v, uid) == (buffer, known)
    ensures var (state', result) := Rounds(c, field, state, buffer, known);
            OneLevel(c, field, state, uid, v, level)
            == if result.Refused? then (state', uid, Wrong(result.status))
               else (state', Picked(level, uid, result.buffer), Acknowledge(c, result.buffer))
  {
  }

  /** What becomes of a level whose SELECT is answered, or not. */
  function Over(state: nat, uid: Uid, level: nat, part: Four, sak: byte, taken: bool): (nat, Uid, Acknowledged)
    requires 1 <= level <= 3
  {
    if taken then (state + 1, With(uid, level, part), if sak & 0x04 != 0 then More else Complete(sak))
    else (state, uid, Wrong(Timeout))
  }

  /** One level: if it is selectable, the tag goes on to the next, its bytes are in the UID, and the SAK says whether
      there is more; if not, the SELECT is not answered. */
  lemma LevelSelectsIff(c: Coprocessor, tag: ValidTag, noise: byte, uid: Uid, level: nat, v: nat)
    requires c.works && 1 <= level <= tag.Last() && c.crc([tag.SakAt(level)]) != [0, 0] && Knows(tag, uid, v)
    ensures OneLevel<nat>(c, FieldOf(tag, c.crc, noise), level - 1, uid, v, level)
         == Over(level - 1, uid, level, tag.Part(level), tag.SakAt(level), Selectable(tag, level, v))
  {
    TagAnswers(c, tag, noise, level);
    Starts(tag, uid, level, v);
    LevelOver(c, FieldOf(tag, c.crc, noise), level - 1, uid, level, v, tag.Part(level), tag.SakAt(level), noise,
              GivenAt(tag, uid, level, v), KnownAt(tag, level, v));
  }

  lemma LevelOver(c: Coprocessor, field: Field<nat>, state: nat, uid: Uid, level: nat, v: nat, part: Four, sak: byte,
    noise: byte, given: seq<byte>, known: nat)
    requires c.works && 1 <= level <= 3 && c.crc([sak]) != [0, 0]
    requires Answers(field, state, c, Code(level), part, sak, noise)
    requires StartsAs(uid, level, v, part, given, known)
    ensures OneLevel<nat>(c, field, state, uid, v, level)
         == Over(state, uid, level, part, sak, known >= 32 || Garbled(part, known) == part)
  {
    RoundsSelectIff(c, field, state, Code(level), part, sak, noise, given, known);
    OneLevelIs<nat>(c, field, state, uid, v, level, Opened(Code(level), 0, given), known);
    LevelBrings(c, uid, level, part, sak);
  }

  // ---- All levels ----------------------------------------------------------------------------------------

  function Filled(tag: ValidTag, uid: Uid, level: nat): Uid
    requires 1 <= level <= tag.Last()
    decreases 4 - level
  {
    var uid' := With(uid, level, tag.Part(level));
    if level < tag.Last() then Filled(tag, uid', level + 1) else uid'
  }

  /** What one level makes of a UID about which enough is known: `selectable` decides. */
  ghost predicate SelectsLevels(select: Levels<nat>, tag: ValidTag, knows: Uid -> bool, selectable: nat -> bool) {
    forall u, l: nat {:trigger select(l - 1, u, l)} :: 1 <= l <= tag.Last() && knows(u) ==>
      select(l - 1, u, l) == Over(l - 1, u, l, tag.Part(l), tag.SakAt(l), selectable(l))
  }

  /** Enough is known after a level too. */
  ghost predicate StaysKnown(tag: ValidTag, knows: Uid -> bool) {
    forall u, l: nat {:trigger With(u, l, tag.Part(l))} ::
      1 <= l < tag.Last() && knows(u) ==> knows(With(u, l, tag.Part(l)))
  }

  /** The levels from `level` on can be selected. */
  predicate SelectableFrom(tag: ValidTag, level: nat, selectable: nat -> bool) {
    forall l: nat :: 1 <= l <= tag.Last() && l >= level ==> selectable(l)
  }

  lemma KnowsStill(tag: ValidTag, uid: Uid, level: nat, v: nat)
    requires 1 <= level < tag.Last() && Knows(tag, uid, v)
    ensures Knows(tag, With(uid, level, tag.Part(level)), v)
  {
    WithIs(tag, uid, level);
    KnownStays(tag.uid, uid.bytes, 3 * (level - 1), v / 8);
  }

  lemma WithIs(tag: ValidTag, uid: Uid, level: nat)
    requires 1 <= level < tag.Last()
    ensures var from := 3 * (level - 1);
            With(uid, level, tag.Part(level))
            == uid.(bytes := uid.bytes[..from] + tag.uid[from..from + 3] + uid.bytes[from + 3..])
  {
  }

  /** Three more bytes of the right string, anywhere. */
  lemma KnownStays(s: seq<byte>, bytes: Bytes10, from: nat, n: nat)
    requires from + 3 <= |s| <= 10 && n <= |s| && bytes[..n] == s[..n]
    ensures var bytes' := bytes[..from] + s[from..from + 3] + bytes[from + 3..];
            bytes'[..n] == s[..n] && (n < 10 && n < |s| ==> bytes'[n] == bytes[n] || bytes'[n] == s[n])
  {
    var bytes' := bytes[..from] + s[from..from + 3] + bytes[from + 3..];
    forall i | 0 <= i < n ensures bytes'[i] == s[i] {
      assert bytes[..n][i] == s[..n][i];
    }
  }

  /** All levels from `level` on have been gone through, or the SELECT of one was not answered. */
  predicate Through(tag: ValidTag, uid: Uid, level: nat, selectable: nat -> bool, done: nat, uid': Uid, status: Status)
    requires 1 <= level <= tag.Last()
  {
    if SelectableFrom(tag, level, selectable)
    then (done, uid', status) == (tag.Last(), Filled(tag, uid, level).(sak := tag.sak, size := |tag.uid|), Ok)
    else status == Timeout && uid'.size == uid.size && uid'.sak == uid.sak
  }

  predicate CascadesThrough(select: Levels<nat>, tag: ValidTag, uid: Uid, level: nat, selectable: nat -> bool)
    requires 1 <= level <= tag.Last()
  {
    var (done, uid', status) := Cascade<nat>(select, level - 1, uid, level);
    Through(tag, uid, level, selectable, done, uid', status)
  }

  lemma {:induction false} CascadeIff(select: Levels<nat>, tag: ValidTag, uid: Uid, level: nat, knows: Uid -> bool,
    selectable: nat -> bool)
    requires SelectsLevels(select, tag, knows, selectable) && StaysKnown(tag, knows)
    requires 1 <= level <= tag.Last() && knows(uid)
    ensures CascadesThrough(select, tag, uid, level, selectable)
    decreases 4 - level
  {
    var state, uid' := level - 1, With(uid, level, tag.Part(level));
    assert select(state, uid, level) == Over(state, uid, level, tag.Part(level), tag.SakAt(level), selectable(level));
    if selectable(level) && level < tag.Last() {
      CascadeIff(select, tag, uid', level + 1, knows, selectable);
    }
    CascadeOn(select, tag, uid, level, selectable);
  }

  lemma CascadeOn(select: Levels<nat>, tag: ValidTag, uid: Uid, level: nat, selectable: nat -> bool)
    requires 1 <= level <= tag.Last()
    requires select(level - 1, uid, level)
          == Over(level - 1, uid, level, tag.Part(level), tag.SakAt(level), selectable(level))
    requires selectable(level) && level < tag.Last() ==>
               CascadesThrough(select, tag, With(uid, level, tag.Part(level)), level + 1, selectable)
    ensures CascadesThrough(select, tag, uid, level, selectable)
  {
    var uid' := With(uid, level, tag.Part(level));
    if !selectable(level) {
      CascadeWrong(select, level - 1, uid, level, level - 1, uid, Timeout);
    } else if level < tag.Last() {
      CascadeMore(select, level - 1, uid, level, level, uid');
      var (done, last, status) := Cascade<nat>(select, level, uid', level + 1);
      OneLess(tag, uid, level, selectable, done, last, status);
    } else {
      CascadeComplete(select, level - 1, uid, level, level, uid', tag.sak);
    }
  }

  lemma CascadeMore(select: Levels<nat>, state: nat, uid: Uid, level: nat, state': nat, uid': Uid)
    requires 1 <= level <= 3 && select(state, uid, level) == (state', uid', More)
    ensures Cascade<nat>(select, state, uid, level) == Cascade<nat>(select, state', uid', level + 1)
  {
  }

  lemma CascadeComplete(select: Levels<nat>, state: nat, uid: Uid, level: nat, state': nat, uid': Uid, sak: byte)
    requires select(state, uid, level) == (state', uid', Complete(sak))
    ensures Cascade<nat>(select, state, uid, level) == (state', uid'.(sak := sak, size := 3 * level + 1), Ok)
  {
  }

  lemma CascadeWrong(select: Levels<nat>, state: nat, uid: Uid, level: nat, state': nat, uid': Uid, status: Status)
    requires select(state, uid, level) == (state', uid', Wrong(status))
    ensures Cascade<nat>(select, state, uid, level) == (state', uid', status)
  {
  }

  lemma OneLess(tag: ValidTag, uid: Uid, level: nat, selectable: nat -> bool, done: nat, uid': Uid, status: Status)
    requires 1 <= level < tag.Last() && selectable(level)
    requires Through(tag, With(uid, level, tag.Part(level)), level + 1, selectable, done, uid', status)
    ensures Through(tag, uid, level, selectable, done, uid', status)
  {
    assert SelectableFrom(tag, level, selectable) <==> SelectableFrom(tag, level + 1, selectable);
  }

  /** The tag's UID in front of what was there before. If the last level begins with the value of the cascade
      tag, its other three bytes move up, and the last byte stays what it was. */
  function Expected(tag: ValidTag, before: Bytes10): Bytes10 {
    var n := |tag.uid|;
    tag.uid[..n - 4]
    + (if tag.uid[n - 4] == 0x88 then tag.uid[n - 3..] + [before[n - 1]] else tag.uid[n - 4..])
    + before[n..]
  }

  lemma {:induction false} FilledExpected(tag: ValidTag, uid: Uid, level: nat)
    requires 1 <= level <= tag.Last() && uid.bytes[..3 * (level - 1)] == tag.uid[..3 * (level - 1)]
    ensures Filled(tag, uid, level) == uid.(bytes := Expected(tag, uid.bytes))
    decreases 4 - level
  {
    var from := 3 * (level - 1);
    var uid' := With(uid, level, tag.Part(level));
    if level < tag.Last() {
      PartIn(tag, uid, level);
      FilledExpected(tag, uid', level + 1);
    } else {
      LastPartIn(tag, uid);
    }
  }

  lemma PartIn(tag: ValidTag, uid: Uid, level: nat)
    requires 1 <= level < tag.Last() && uid.bytes[..3 * (level - 1)] == tag.uid[..3 * (level - 1)]
    ensures var uid' := With(uid, level, tag.Part(level));
            uid'.bytes[..3 * level] == tag.uid[..3 * level] && Expected(tag, uid'.bytes) == Expected(tag, uid.bytes)
            && uid' == uid.(bytes := uid'.bytes)
  {
    var from := 3 * (level - 1);
    WithIs(tag, uid, level);
    assert tag.uid[..from + 3] == tag.uid[..from] + tag.uid[from..from + 3];
    var bytes := With(uid, level, tag.Part(level)).bytes;
    assert bytes[from + 3..] == uid.bytes[from + 3..];
    SameBehind(bytes, uid.bytes, from + 3, |tag.uid|);
  }

  lemma SameBehind(a: Bytes10, b: Bytes10, from: nat, n: nat)
    requires from < n <= 10 && a[from..] == b[from..]
    ensures a[n - 1] == b[n - 1] && a[n..] == b[n..]
  {
    assert a[n - 1] == a[from..][n - 1 - from] && b[n - 1] == b[from..][n - 1 - from];
    assert a[n..] == a[from..][n - from..] && b[n..] == b[from..][n - from..];
  }

  lemma LastPartIn(tag: ValidTag, uid: Uid)
    requires uid.bytes[..|tag.uid| - 4] == tag.uid[..|tag.uid| - 4]
    ensures With(uid, tag.Last(), tag.Part(tag.Last())) == uid.(bytes := Expected(tag, uid.bytes))
  {
    var n := |tag.uid|;
    assert uid.bytes[n - 1..] == [uid.bytes[n - 1]] + uid.bytes[n..];
  }

  /** Whether the UID comes out as it is: the last level does not begin with the value of the cascade tag, or
      it is the one string of bytes that the move maps to itself. */
  predicate ComesOut(tag: ValidTag, before: Bytes10) {
    var n := |tag.uid|;
    tag.uid[n - 4] != 0x88
    || (tag.uid[n - 4..] == [0x88, 0x88, 0x88, 0x88] && before[n - 1] == 0x88)
  }

  lemma ExpectedIff(tag: ValidTag, before: Bytes10)
    ensures Expected(tag, before)[|tag.uid|..] == before[|tag.uid|..]
    ensures Expected(tag, before)[..|tag.uid|] == tag.uid <==> ComesOut(tag, before)
  {
    var n := |tag.uid|;
    var four := tag.uid[n - 4..];
    var last := if four[0] == 0x88 then four[1..] + [before[n - 1]] else four;
    assert tag.uid[n - 3..] == four[1..];
    assert Expected(tag, before) == tag.uid[..n - 4] + last + before[n..];
    assert tag.uid == tag.uid[..n - 4] + four;
    SameEnd(tag.uid[..n - 4], last, four, before[n..]);
    if four[0] == 0x88 {
      MovedIff(0x88, four, before[n - 1]);
    }
  }

  lemma SameEnd(start: seq<byte>, a: seq<byte>, b: seq<byte>, rest: seq<byte>)
    requires |a| == |b|
    ensures (start + a + rest)[|start| + |a|..] == rest
    ensures (start + a + rest)[..|start| + |a|] == start + b <==> a == b
  {
    assert (start + a + rest)[..|start| + |a|] == start + a;
    assert (start + a)[|start|..] == a && (start + b)[|start|..] == b;
  }

  lemma MovedIff(x: byte, four: seq<byte>, earlier: byte)
    requires |four| == 4 && four[0] == x
    ensures four[1..] + [earlier] == four <==> four == [x, x, x, x] && earlier == x
  {
    var moved := four[1..] + [earlier];
    assert moved[0] == four[1] && moved[1] == four[2] && moved[2] == four[3] && moved[3] == earlier;
  }

  /** The tag is selected over all its levels, with its size and its SAK, and its UID if that comes out. */
  predicate Outcome(tag: ValidTag, before: Uid, done: nat, after: Uid, status: Status) {
    var n := |tag.uid|;
    && done == tag.Last() && status == Ok && after.size == n && after.sak == tag.sak
    && after.bytes[n..] == before.bytes[n..]
    && (after.bytes[..n] == tag.uid <==> ComesOut(tag, before.bytes))
  }

  lemma FilledOutcome(tag: ValidTag, uid: Uid)
    ensures Outcome(tag, uid, tag.Last(), Filled(tag, uid, 1).(sak := tag.sak, size := |tag.uid|), Ok)
  {
    assert uid.bytes[..0] == tag.uid[..0];
    FilledExpected(tag, uid, 1);
    ExpectedIff(tag, uid.bytes);
  }

  function KnowsOf(tag: ValidTag, v: nat): Uid -> bool {
    (u: Uid) => Knows(tag, u, v)
  }

  function SelectableOf(tag: ValidTag, v: nat): nat -> bool {
    (l: nat) => 1 <= l <= tag.Last() && Selectable(tag, l, v)
  }

  lemma TagSelects(c: Coprocessor, tag: ValidTag, noise: byte, v: nat)
    requires c.works && c.crc([tag.sak]) != [0, 0] && c.crc([tag.more]) != [0, 0]
    ensures SelectsLevels(LevelsOf<nat>(c, FieldOf(tag, c.crc, noise), v), tag, KnowsOf(tag, v), SelectableOf(tag, v))
  {
    var select := LevelsOf<nat>(c, FieldOf(tag, c.crc, noise), v);
    forall u, l: nat | 1 <= l <= tag.Last() && KnowsOf(tag, v)(u)
      ensures select(l - 1, u, l) == Over(l - 1, u, l, tag.Part(l), tag.SakAt(l), SelectableOf(tag, v)(l))
    {
      LevelSelectsIff(c, tag, noise, u, l, v);
    }
  }

  lemma TagStaysKnown(tag: ValidTag, v: nat)
    ensures StaysKnown(tag, KnowsOf(tag, v))
  {
    forall u, l: nat | 1 <= l < tag.Last() && KnowsOf(tag, v)(u) ensures KnowsOf(tag, v)(With(u, l, tag.Part(l))) {
      KnowsStill(tag, u, l, v);
    }
  }

  /** The bits of a byte that is known in part are all zero. */
  predicate KnownPartZero(tag: ValidTag, v: nat)
    requires v <= 8 * |tag.uid|
  {
    v % 8 == 0 || SameLow(tag.uid[v / 8], 0, v % 8)
  }

  lemma GarbledIff(part: Four, known: nat)
    requires known < 32
    ensures Garbled(part, known) == part <==> SameLow(part[known / 8], 0, known % 8)
  {
    var b, m := part[known / 8], Upper(known % 8);
    LowZeroIff(b, m);
    assert Garbled(part, known)[known / 8] == b & m;
  }

  lemma LowZeroIff(b: byte, m: byte)
    ensures b & m == b <==> b & !m == 0 & !m
  {
  }

  lemma NothingKnownInPart(b: byte, bits: nat)
    requires bits == 0
    ensures SameLow(b, 0, bits)
  {
  }

  predicate Within(tag: ValidTag, level: nat, v: nat) {
    3 * (level - 1) <= v / 8 < if level < tag.Last() then 3 * level else |tag.uid|
  }

  /** The one level that a byte known in part belongs to decides. */
  lemma SelectableIff(tag: ValidTag, level: nat, v: nat)
    requires 1 <= level <= tag.Last() && v <= 8 * |tag.uid|
    ensures Selectable(tag, level, v) <==> KnownPartZero(tag, v) || !Within(tag, level, v)
  {
    var known, part := KnownAt(tag, level, v), tag.Part(level);
    if known < 32 {
      GarbledIff(part, known);
      if v > 24 * (level - 1) && v % 8 != 0 {
        var g := v - 24 * (level - 1);
        assert v / 8 == 3 * (level - 1) + g / 8 && v % 8 == g % 8;
        if level < tag.Last() {
          assert known / 8 == 1 + g / 8 && known % 8 == g % 8;
        }
        assert part[known / 8] == tag.uid[v / 8];
      } else {
        assert known % 8 == 0;
        NothingKnownInPart(part[known / 8], known % 8);
      }
    }
  }

  lemma SelectableFromIff(tag: ValidTag, v: nat, first: nat)
    requires v <= 8 * |tag.uid| && first == 1
    ensures SelectableFrom(tag, first, SelectableOf(tag, v)) <==> KnownPartZero(tag, v)
  {
    forall l: nat | 1 <= l <= tag.Last()
      ensures SelectableOf(tag, v)(l) <==> KnownPartZero(tag, v) || !Within(tag, l, v)
    {
      SelectableIff(tag, l, v);
    }
    if v % 8 != 0 {
      var l := LevelWith(tag, v);
      assert SelectableOf(tag, v)(l) <==> KnownPartZero(tag, v);
    }
  }

  lemma LevelWith(tag: ValidTag, v: nat) returns (l: nat)
    requires v < 8 * |tag.uid|
    ensures 1 <= l <= tag.Last() && Within(tag, l, v)
  {
    l := if v / 8 >= 3 * (tag.Last() - 1) then tag.Last() else v / 8 / 3 + 1;
  }

  /** A tag alone in the field, of which the caller knows the first `v` bits: it is selected over all its levels,
      with its size and its SAK, exactly if no byte is known in part, or the known bits of that byte are zero; for
      receiving the rest of the byte clears them. Otherwise the SELECT is not answered. */
  lemma KnownBitsIff(c: Coprocessor, tag: ValidTag, noise: byte, uid: Uid, v: nat)
    requires c.works && c.crc([tag.sak]) != [0, 0] && c.crc([tag.more]) != [0, 0] && Knows(tag, uid, v)
    ensures var (done, uid', status) := PiccSelected<nat>(c, FieldOf(tag, c.crc, noise), 0, uid, v);
            if KnownPartZero(tag, v) then Outcome(tag, uid, done, uid', status)
            else status == Timeout && uid'.size == uid.size && uid'.sak == uid.sak
  {
    TagSelects(c, tag, noise, v);
    TagStaysKnown(tag, v);
    CascadeFrom(LevelsOf<nat>(c, FieldOf(tag, c.crc, noise), v), tag, uid, KnowsOf(tag, v), SelectableOf(tag, v), 1);
    SelectableFromIff(tag, v, 1);
    FilledOutcome(tag, uid);
  }

  lemma CascadeFrom(select: Levels<nat>, tag: ValidTag, uid: Uid, knows: Uid -> bool, selectable: nat -> bool,
    first: nat)
    requires SelectsLevels(select, tag, knows, selectable) && StaysKnown(tag, knows) && knows(uid) && first == 1
    ensures CascadesThrough(select, tag, uid, first, selectable)
  {
    CascadeIff(select, tag, uid, first, knows, selectable);
  }

  /** Of which the caller knows nothing: it is always selected. Its UID comes out as it is exactly if the last level
      does not begin with the value of the cascade tag, but for the one string of bytes that the mistake maps to
      itself. */
  lemma SingleTagIff(c: Coprocessor, tag: ValidTag, noise: byte, uid: Uid)
    requires c.works && c.crc([tag.sak]) != [0, 0] && c.crc([tag.more]) != [0, 0]
    ensures var (done, uid', status) := PiccSelected<nat>(c, FieldOf(tag, c.crc, noise), 0, uid, 0);
            Outcome(tag, uid, done, uid', status)
  {
    assert uid.bytes[..0] == tag.uid[..0];
    KnownBitsIff(c, tag, noise, uid, 0);
  }

  // ---- Collisions ------------------------------------------------------------------------------------------

  function BitNumber(k: nat): byte {
    match k
    case 0 => 0x01 case 1 => 0x02 case 2 => 0x04 case 3 => 0x08
    case 4 => 0x10 case 5 => 0x20 case 6 => 0x40 case _ => 0x80
  }

  /** Bit `p` of the level's bytes, which begin behind SEL and NVB, counted from 1. */
  predicate HasBit(b: Buffer, p: nat)
    requires 1 <= p <= 32
  {
    b[2 + (p - 1) / 8] & BitNumber((p - 1) % 8) != 0
  }

  /** The position that the collision register reports; 0 stands for 32. */
  function Position(collision: byte): (p: nat)
    ensures 1 <= p <= 32
  {
    var n := (collision & 0x1F) as nat;
    if n == 0 then 32 else n
  }

  lemma BitSet(x: byte, k: nat)
    requires k < 8
    ensures (x | BitNumber(k)) & BitNumber(k) != 0
  {
  }

  lemma SameBits(k: nat)
    requires k < 8
    ensures Bit(k) == BitNumber(k)
  {
  }

  /** After a collision at bit `p`, that bit is to be set. It is, exactly if `p` is not a multiple of 8 nor one more
      than that, or the bit is set already: for a multiple the byte behind is changed, and for one more the byte in
      front, which for bit 1 is NVB. */
  lemma ResolvedIff(b: Buffer, known: nat, collision: byte)
    requires known < Position(collision) && collision & 0x20 == 0
    ensures var p := Position(collision);
            var r := Resolved(b, known, Collision, collision);
            && known < 32 && r.Known? && r.bits == p
            && (HasBit(r.buffer, p) <==> p % 8 > 1 || HasBit(b, p))
            && (forall i :: 0 <= i < 9 && i != 2 + (p - 1) / 8 && p % 8 > 1 ==> r.buffer[i] == b[i])
            && (p % 8 == 0 ==> r.buffer == b[3 + (p - 1) / 8 := b[3 + (p - 1) / 8] | 0x80])
            && (p % 8 == 1 ==> r.buffer == b[1 + (p - 1) / 8 := b[1 + (p - 1) / 8] | 0x01])
  {
    var p := Position(collision);
    PositionIs(collision);
    SameBits((p - 1) % 8);
    BitSet(b[2 + (p - 1) / 8], (p - 1) % 8);
  }

  lemma PositionIs(collision: byte)
    ensures CollisionAt(collision) == Position(collision)
  {
  }

  // ---- CRC_A -----------------------------------------------------------------------------------------------

  function Shift(r: bv16): bv16 {
    if r & 1 == 1 then (r >> 1) ^ 0x8408 else r >> 1
  }

  function CrcAStep(r: bv16, b: byte): bv16 {
    Shift(Shift(Shift(Shift(Shift(Shift(Shift(Shift(r ^ (b as bv16)))))))))
  }

  /** The CRC of a SAK, as in annex B of ISO/IEC 14443-3. */
  function CrcAOfOne(b: byte): bv16 {
    CrcAStep(0x6363, b)
  }

  /** No SAK has a CRC of zero, so refusing two zero bytes refuses no SAK. */
  lemma CrcANeverZero(b: byte)
    ensures CrcAOfOne(b) != 0
  {
  }
}
