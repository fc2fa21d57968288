/** Chunked transfers between host and card file (ntag424_core.cpp:638-665, 699-753, 871-886). */
module Files {
  import opened Octets
  import opened Bytes
  import opened CipherSuite
  import opened Sessions
  import opened Apdu
  import opened Readers
  import opened Core
  import opened Commands

  /** A file with `data` written at `offset`. */
  function Overwrite(file: seq<byte>, offset: nat, data: seq<byte>): (r: seq<byte>)
    requires offset + |data| <= |file|
    ensures |r| == |file|
  {
    file[..offset] + data + file[offset + |data|..]
  }

  // ---- Writing: ISO UPDATE BINARY ---------------------------------------------------------------

  const CHUNK := 25

  function UpdateCommand(offset: nat, chunk: seq<byte>): Command {
    Command(0x00, ISO_UPDATE_BINARY, 0x00, ToByte(offset), Data([]), Data(chunk), 0)
  }

  function ChunkEnd(at: nat, length: nat): nat {
    if at + CHUNK > length then length else at + CHUNK
  }

  /** Writing one chunk: the peer's new state, and whether it answered 90 00. */
  type Put<!S> = (S, nat, seq<byte>) -> (S, bool)

  function PutOf<S>(c: Cipher, step: Peer<S>): Put<S> {
    (state: S, at: nat, chunk: seq<byte>) =>
      var (state', v, out) := Sent(c, step, state, None, UpdateCommand(at, chunk), PLAIN, [], 12);
      (state', HasStatus(out, 0x90, 0x00))
  }

  /** The chunks from `at` on, up to the first that fails. */
  function UpdateFrom<S>(put: Put<S>, state: S, data: seq<byte>, at: nat): (S, bool)
    requires at <= |data|
    decreases |data| - at
  {
    if at == |data| then (state, true) else
      var (state', ok) := put(state, at, data[at..ChunkEnd(at, |data|)]);
      if ok then UpdateFrom(put, state', data, ChunkEnd(at, |data|)) else (state', false)
  }

  /** `ntag424_ISOUpdateBinary`. */
  method IsoUpdateBinary<S>(c: Cipher, reader: Reader?<S>, data: Option<seq<byte>>) returns (ok: bool)
    requires data.Some? ==> |data.value| < 256
    modifies if reader == null then {} else {reader}
    ensures reader == null || data.None? ==> !ok && (reader != null ==> reader.state == old(reader.state))
    ensures reader != null && data.Some?
        ==> (reader.state, ok) == UpdateFrom(PutOf(c, reader.step), old(reader.state), data.value, 0)
  {
    if reader == null || data.None? {
      return false;
    }
    var length := |data.value|;
    var result := new byte[12](_ => 0);
    var offset := 0;
    var dataLen := CHUNK;
    var i := 0;
    while i < length
      invariant 0 <= i == offset <= length
      invariant i < length ==> dataLen == CHUNK
      invariant UpdateFrom(PutOf(c, reader.step), reader.state, data.value, offset)
             == UpdateFrom(PutOf(c, reader.step), old(reader.state), data.value, 0)
    {
      if offset + dataLen > length {
        dataLen := length - offset;
      }
      if dataLen > 0 {
        var written := PutChunk(c, reader, data.value, offset, offset + dataLen, result);
        if !written {
          return false;
        }
      }
      offset := offset + dataLen;
      i := i + dataLen;
    }
    ok := true;
  }

  /** One chunk; what it does to the reader is one step of the update. */
  method PutChunk<S>(c: Cipher, reader: Reader<S>, data: seq<byte>, offset: nat, end: nat, result: array<byte>)
    returns (ok: bool)
    requires offset < |data| < 256 && end == ChunkEnd(offset, |data|) && result.Length == 12
    modifies reader, result
    ensures UpdateFrom(PutOf(c, reader.step), old(reader.state), data, offset)
         == if ok then UpdateFrom(PutOf(c, reader.step), reader.state, data, end) else (reader.state, false)
  {
    ghost var before := reader.state;
    var n, mac := SendApdu(c, reader, null, UpdateCommand(offset, data[offset..end]), PLAIN, result, 12);
    NoMac(c, UpdateCommand(offset, data[offset..end]), mac);
    ok := HasStatus(result[..n], 0x90, 0x00);
    UpdateNext(PutOf(c, reader.step), before, data, offset, reader.state, ok);
  }

  lemma UpdateNext<S>(put: Put<S>, state: S, data: seq<byte>, at: nat, state': S, ok: bool)
    requires at < |data| && put(state, at, data[at..ChunkEnd(at, |data|)]) == (state', ok)
    ensures UpdateFrom(put, state, data, at)
         == if ok then UpdateFrom(put, state', data, ChunkEnd(at, |data|)) else (state', false)
  {
  }

  /** A PLAIN command is sent the same whatever stands for its MAC, which is empty. */
  lemma NoMac(c: Cipher, cmd: Command, mac: seq<byte>)
    requires MacOf(c, None, cmd, PLAIN, mac)
    ensures Buildable(None, cmd, PLAIN) ==> mac == []
  {
  }

  /** What may happen to one command on its way: nothing, a refusal by the card, or a loss on either leg. */
  datatype Fault = Serve | Refuse(sw2: byte) | LoseCommand | LoseReply

  datatype FileCard = FileCard(file: seq<byte>, faults: seq<Fault>)

  function NextFault(k: FileCard): Fault {
    if k.faults == [] then Serve else k.faults[0]
  }

  /** The card's UPDATE BINARY on a frame, without any fault. */
  function Update(file: seq<byte>, frame: seq<byte>): Option<seq<byte>> {
    if |frame| < 5 || frame[..3] != [0x00, 0xD6, 0x00] || |frame| != 5 + frame[4] as int
       || frame[3] as int + frame[4] as int > |file| then None
    else Some(Overwrite(file, frame[3] as int, frame[5..]))
  }

  function FileStep(k: FileCard, frame: seq<byte>): (FileCard, seq<byte>) {
    var fault := NextFault(k);
    var k' := k.(faults := if k.faults == [] then [] else k.faults[1..]);
    var updated := Update(k.file, frame);
    if fault.LoseCommand? then (k', [])
    else if fault.Refuse? then (k', [0x6A, fault.sw2])
    else if updated.None? then (k', [0x6B, 0x00])
    else (k'.(file := updated.value), if fault.LoseReply? then [] else [0x90, 0x00])
  }

  function FilePeer(): Peer<FileCard> {
    (k: FileCard, frame: seq<byte>, room: nat) => FileStep(k, frame)
  }

  lemma UpdateFrame(c: Cipher, offset: nat, chunk: seq<byte>)
    requires offset < 256 && 0 < |chunk| <= CHUNK
    ensures Buildable(None, UpdateCommand(offset, chunk), PLAIN)
    ensures Frame(c, None, UpdateCommand(offset, chunk), PLAIN, [])
         == [0x00, 0xD6, 0x00, ToByte(offset)] + [ToByte(|chunk|)] + chunk
  {
    var cmd := UpdateCommand(offset, chunk);
    assert Lc(cmd, PLAIN) == |chunk|;
    assert [] + chunk == chunk && [0x00, 0xD6, 0x00, ToByte(offset)] + [ToByte(|chunk|)] + [] + chunk + [] + []
        == [0x00, 0xD6, 0x00, ToByte(offset)] + [ToByte(|chunk|)] + chunk;
  }

  lemma UpdateOfFrame(file: seq<byte>, offset: nat, chunk: seq<byte>)
    requires offset < 256 && 0 < |chunk| <= CHUNK
    ensures Update(file, [0x00, 0xD6, 0x00, ToByte(offset)] + [ToByte(|chunk|)] + chunk)
         == if offset + |chunk| <= |file| then Some(Overwrite(file, offset, chunk)) else None
  {
    ToByteSmall(offset);
    ToByteSmall(|chunk|);
    UpdateOf(file, ToByte(offset), ToByte(|chunk|), chunk);
  }

  lemma UpdateOf(file: seq<byte>, offset: byte, length: byte, chunk: seq<byte>)
    requires length as int == |chunk|
    ensures Update(file, [0x00, 0xD6, 0x00, offset] + [length] + chunk)
         == if offset as int + |chunk| <= |file| then Some(Overwrite(file, offset as int, chunk)) else None
  {
    var frame := [0x00, 0xD6, 0x00, offset] + [length] + chunk;
    assert frame[..3] == [0x00, 0xD6, 0x00] && frame[5..] == chunk;
  }

  /** The answers of this card are opened as they are. */
  lemma PlainAnswers(c: Cipher, r: seq<byte>)
    requires |r| <= 12
    ensures Taken(Opened(c, None, PLAIN, r), 12) == r
  {
  }

  /** A chunk is taken to be written, for any peer, exactly if the answer ends in 90 00 and has at most ten bytes in
      front of that. */
  lemma PutIff<S>(c: Cipher, step: Peer<S>, state: S, at: nat, chunk: seq<byte>, state': S, r: seq<byte>)
    requires at < 256 && 0 < |chunk| <= 25
    requires step(state, [0x00, 0xD6, 0x00, ToByte(at)] + [ToByte(|chunk|)] + chunk, MAX_APDU) == (state', r)
    ensures PutOf(c, step)(state, at, chunk) == (state', |r| - 2 <= 10 && HasStatus(r, 0x90, 0x00))
  {
    var frame := [0x00, 0xD6, 0x00, ToByte(at)] + [ToByte(|chunk|)] + chunk;
    UpdateFrame(c, at, chunk);
    if |r| > MAX_APDU {
      FinishedWithout(c, step, state, None, PLAIN, frame, MAX_APDU, 12, state', r);
    } else if r != [] {
      FinishedWith(c, step, state, None, PLAIN, frame, MAX_APDU, 12, state', r);
    }
  }

  /** What one chunk does to the card: it is written or it is not, and without a fault it is. */
  predicate ChunkOutcome(k: FileCard, at: nat, chunk: seq<byte>, k': FileCard, ok: bool) {
    && (k'.file == k.file || (at + |chunk| <= |k.file| && k'.file == Overwrite(k.file, at, chunk)))
    && (ok <==> NextFault(k).Serve? && at + |chunk| <= |k.file|)
    && (ok ==> k'.file == Overwrite(k.file, at, chunk))
    && (at + |chunk| <= |k.file| && NextFault(k).LoseReply? ==> k'.file == Overwrite(k.file, at, chunk))
    && (NextFault(k).Refuse? || NextFault(k).LoseCommand? ==> k'.file == k.file)
    && k'.faults == if k.faults == [] then [] else k.faults[1..]
  }

  ghost predicate Puts(put: Put<FileCard>) {
    forall k: FileCard, at: nat, chunk: seq<byte> ::
      at < 256 && 0 < |chunk| <= CHUNK ==> ChunkOutcome(k, at, chunk, put(k, at, chunk).0, put(k, at, chunk).1)
  }

  lemma ChunkPut(c: Cipher, k: FileCard, at: nat, chunk: seq<byte>)
    requires at < 256 && 0 < |chunk| <= CHUNK
    ensures ChunkOutcome(k, at, chunk, PutOf(c, FilePeer())(k, at, chunk).0, PutOf(c, FilePeer())(k, at, chunk).1)
  {
    UpdateFrame(c, at, chunk);
    UpdateOfFrame(k.file, at, chunk);
    PlainAnswers(c, FileStep(k, [0x00, 0xD6, 0x00, ToByte(at)] + [ToByte(|chunk|)] + chunk).1);
  }

  lemma FilePeerPuts(c: Cipher)
    ensures Puts(PutOf(c, FilePeer()))
  {
    forall k: FileCard, at: nat, chunk: seq<byte> | at < 256 && 0 < |chunk| <= CHUNK
      ensures ChunkOutcome(k, at, chunk, PutOf(c, FilePeer())(k, at, chunk).0, PutOf(c, FilePeer())(k, at, chunk).1)
    {
      ChunkPut(c, k, at, chunk);
    }
  }

  /** A file whose first bytes have become those of `data`. */
  function Begun(file: seq<byte>, data: seq<byte>, n: nat): seq<byte>
    requires n <= |data| && n <= |file|
  {
    data[..n] + file[n..]
  }

  lemma BegunGrows(file: seq<byte>, data: seq<byte>, at: nat, end: nat)
    requires at <= end <= |data| && end <= |file|
    ensures Overwrite(Begun(file, data, at), at, data[at..end]) == Begun(file, data, end)
  {
  }

  /** Whole chunks: a multiple of 25 bytes, or all of the data. */
  predicate WholeChunks(n: nat, length: nat) {
    n <= length && (n % 25 == 0 || n == length)
  }

  lemma {:induction false} UpdateFromWrites(put: Put<FileCard>, k: FileCard, file: seq<byte>, data: seq<byte>, at: nat)
    returns (n: nat)
    requires Puts(put)
    requires WholeChunks(at, |data|) && |data| < 256 && at <= |file| && k.file == Begun(file, data, at)
    ensures WholeChunks(n, |data|) && n <= |file|
    ensures UpdateFrom(put, k, data, at).0.file == Begun(file, data, n)
    ensures UpdateFrom(put, k, data, at).1 ==> n == |data|
    ensures |data| <= |file| && (forall f :: f in k.faults ==> f.Serve?) ==> UpdateFrom(put, k, data, at).1
    decreases |data| - at
  {
    n := at;
    if at < |data| {
      var end := ChunkEnd(at, |data|);
      var (k', ok) := put(k, at, data[at..end]);
      assert ChunkOutcome(k, at, data[at..end], k', ok);
      if end <= |file| {
        BegunGrows(file, data, at, end);
      }
      if ok {
        n := UpdateFromWrites(put, k', file, data, end);
      } else if k'.file != k.file {
        n := end;
      }
    }
  }

  /** The file after an update, for every schedule of faults: on success its first bytes are the data and the
      rest is untouched; on failure a prefix of whole chunks has been written and nothing else. Without
      faults, and with room in the file, it succeeds. */
  lemma UpdateWrites(c: Cipher, k: FileCard, data: seq<byte>) returns (n: nat)
    requires |data| < 256
    ensures var (k', ok) := UpdateFrom(PutOf(c, FilePeer()), k, data, 0);
            && WholeChunks(n, |data|) && n <= |k.file| && k'.file == data[..n] + k.file[n..]
            && (ok ==> n == |data|)
            && (|data| <= |k.file| && (forall f :: f in k.faults ==> f.Serve?) ==> ok)
  {
    FilePeerPuts(c);
    assert Begun(k.file, data, 0) == k.file;
    n := UpdateFromWrites(PutOf(c, FilePeer()), k, k.file, data, 0);
  }

  /** How many commands are served before the first that is not. */
  function Good(faults: seq<Fault>): (j: nat)
    ensures j <= |faults|
  {
    if faults != [] && faults[0].Serve? then 1 + Good(faults[1..]) else 0
  }

  function AtMost(n: nat, length: nat): nat {
    if n < length then n else length
  }

  /** How far an update gets: through the data, or to the chunk that fails, which is written if only its answer is
      lost. */
  function Reached(faults: seq<Fault>, at: nat, length: nat): nat {
    var j := Good(faults);
    if j == |faults| || at + 25 * j >= length then length
    else if faults[j].LoseReply? then AtMost(at + 25 * (j + 1), length) else at + 25 * j
  }

  lemma {:induction false} UpdateReaches(put: Put<FileCard>, k: FileCard, file: seq<byte>, data: seq<byte>, at: nat)
    requires Puts(put) && at <= |data| <= |file| && |data| < 256 && k.file == Begun(file, data, at)
    ensures var (k', ok) := UpdateFrom(put, k, data, at);
            && (ok <==> Good(k.faults) == |k.faults| || at + 25 * Good(k.faults) >= |data|)
            && Reached(k.faults, at, |data|) <= |data| && k'.file == Begun(file, data, Reached(k.faults, at, |data|))
    decreases |data| - at
  {
    if at < |data| {
      var end := ChunkEnd(at, |data|);
      var (k', ok) := put(k, at, data[at..end]);
      assert ChunkOutcome(k, at, data[at..end], k', ok);
      assert end == AtMost(at + 25, |data|);
      BegunGrows(file, data, at, end);
      if ok {
        UpdateReaches(put, k', file, data, end);
        ReachedNext(k.faults, at, end, |data|);
      }
    }
  }

  lemma ReachedNext(faults: seq<Fault>, at: nat, end: nat, length: nat)
    requires at < length && end == AtMost(at + 25, length) && (faults == [] || faults[0].Serve?)
    ensures var rest := if faults == [] then [] else faults[1..];
            && Reached(faults, at, length) == Reached(rest, end, length)
            && (Good(faults) == |faults| || at + 25 * Good(faults) >= length
                <==> Good(rest) == |rest| || end + 25 * Good(rest) >= length)
  {
  }

  /** The file after an update that it has room for, exactly, for every schedule of faults: with `j` commands served
      before the first fault, it succeeds if these carry all the data, and otherwise stops behind 25 bytes for each, or
      one chunk further if only an answer was lost. */
  lemma UpdateIff(c: Cipher, k: FileCard, data: seq<byte>)
    requires |data| < 256 && |data| <= |k.file|
    ensures var (k', ok) := UpdateFrom(PutOf(c, FilePeer()), k, data, 0);
            && (ok <==> Good(k.faults) == |k.faults| || 25 * Good(k.faults) >= |data|)
            && Reached(k.faults, 0, |data|) <= |data|
            && k'.file == data[..Reached(k.faults, 0, |data|)] + k.file[Reached(k.faults, 0, |data|)..]
  {
    FilePeerPuts(c);
    assert Begun(k.file, data, 0) == k.file;
    UpdateReaches(PutOf(c, FilePeer()), k, k.file, data, 0);
  }

  // ---- Reading: the NDEF message ----------------------------------------------------------------

  /** `ntag424_ISOReadBinary`, as the frame it sends. */
  function ReadFrame(offset: nat, le: nat): seq<byte> {
    [0x00, 0xB0, ToByte(offset / 256), ToByte(offset), ToByte(le)]
  }

  /** The Le of the next read: the remaining length in 8 bits, and at most 48. */
  function NextLe(remaining: nat): nat {
    if remaining % 256 > 48 then 48 else remaining % 256
  }

  /** Reading at an offset with some Le: the peer's new state and its answer. */
  type Fetch<!S> = (S, nat, nat) -> (S, seq<byte>)

  function FetchOf<S>(step: Peer<S>): Fetch<S> {
    (state: S, offset: nat, le: nat) => Answer(step, state, ReadFrame(offset, le), 56)
  }

  /** The page reads from what is already read, up to the first that fails. */
  function ReadFrom<S>(fetch: Fetch<S>, state: S, total: nat, done: seq<byte>): (S, Option<seq<byte>>)
    decreases total - |done|
  {
    if |done| >= total then (state, Some(done)) else
      var (state', r) := fetch(state, (2 + |done|) % 0x1_0000, NextLe(total - |done|));
      if |r| < 3 || !HasStatus(r, 0x90, 0x00) then (state', None)
      else ReadFrom(fetch, state', total, done + r[..|r| - 2])
  }

  lemma ReadFromNext<S>(fetch: Fetch<S>, state: S, total: nat, done: seq<byte>, offset: nat, le: nat, state': S,
      r: seq<byte>)
    requires |done| < total && offset == (2 + |done|) % 0x1_0000 && le == NextLe(total - |done|)
    requires fetch(state, offset, le) == (state', r)
    ensures ReadFrom(fetch, state, total, done)
         == if |r| < 3 || !HasStatus(r, 0x90, 0x00) then (state', None)
            else ReadFrom(fetch, state', total, done + r[..|r| - 2])
  {
  }

  /** The length field at the start of the file. */
  function Nlen(r: seq<byte>): nat
    requires |r| >= 2
  {
    r[0] as int * 256 + r[1] as int
  }

  /** The whole read: select, length, pages. */
  function NdefMessage<S>(c: Cipher, step: Peer<S>, state: S, maxSize: nat): (S, Option<seq<byte>>) {
    var (state1, selected) := SelectedNdef(c, step, state);
    if !selected then (state1, None) else
      var (state2, r) := Answer(step, state1, ReadFrame(0, 2), 8);
      if |r| < 4 || !HasStatus(r, 0x90, 0x00) then (state2, None) else
        ReadFrom(FetchOf(step), state2, if Nlen(r) > maxSize then maxSize else Nlen(r), [])
  }

  /** Every page that is read brings at most the bytes that are still missing. */
  predicate PagesStay<S>(fetch: Fetch<S>, state: S, total: nat, done: seq<byte>)
    decreases total - |done|
  {
    |done| >= total ||
    var (state', r) := fetch(state, (2 + |done|) % 0x1_0000, NextLe(total - |done|));
    |r| < 3 || !HasStatus(r, 0x90, 0x00)
    || (|r| - 2 <= total - |done| && PagesStay(fetch, state', total, done + r[..|r| - 2]))
  }

  /** The copies of all pages stay within the bytes that are wanted exactly if the read does not end with more
      than those. */
  lemma {:induction false} PagesStayIff<S>(fetch: Fetch<S>, state: S, total: nat, done: seq<byte>)
    requires |done| <= total
    ensures var m := ReadFrom(fetch, state, total, done).1;
            PagesStay(fetch, state, total, done) <==> (m.Some? ==> |m.value| <= total)
    decreases total - |done|
  {
    if |done| < total {
      var (state', r) := fetch(state, (2 + |done|) % 0x1_0000, NextLe(total - |done|));
      if |r| >= 3 && HasStatus(r, 0x90, 0x00) && |r| - 2 <= total - |done| {
        PagesStayIff(fetch, state', total, done + r[..|r| - 2]);
      }
    }
  }

  /** The bytes of a buffer that a 16-bit count reaches. */
  function Room(length: nat): nat {
    if length < 0x1_0000 then length else 0xFFFF
  }

  /** The read does not end with more bytes than the caller has room for. */
  predicate Contained(m: Option<seq<byte>>, room: nat) {
    m.Some? ==> |m.value| <= room
  }

  /** That `fetch` is what the reader does; the trigger keeps the frames folded elsewhere. */
  ghost predicate Fetches<S(!new)>(fetch: Fetch<S>, step: Peer<S>) {
    forall state: S, offset: nat, le: nat {:trigger Answer(step, state, ReadFrame(offset, le), 56)} ::
      Answer(step, state, ReadFrame(offset, le), 56) == fetch(state, offset, le)
  }

  /** One round of the page loop: `n` bytes more, or 0 for failure. */
  method ReadPage<S(!new)>(reader: Reader<S>, ghost fetch: Fetch<S>, buffer: array<byte>, total: nat, totalRead: nat)
    returns (n: nat)
    requires totalRead < total <= buffer.Length && Fetches(fetch, reader.step)
    requires Contained(ReadFrom(fetch, reader.state, total, buffer[..totalRead]).1, buffer.Length)
    modifies reader, buffer
    ensures totalRead + n <= buffer.Length
    ensures var was := ReadFrom(fetch, old(reader.state), total, old(buffer[..totalRead]));
            was == if n == 0 then (reader.state, None)
              else ReadFrom(fetch, reader.state, total, buffer[..totalRead + n])
  {
    var chunk := (total - totalRead) % 256;
    if chunk > 48 {
      chunk := 48;
    }
    var offset := (2 + totalRead) % 0x1_0000;
    ghost var done, before := buffer[..totalRead], reader.state;
    var page := new byte[56](_ => 0);
    var length := reader.Transceive(ReadFrame(offset, chunk), page, 56);
    ghost var r := page[..length];
    assert fetch(before, offset, chunk) == (reader.state, r);
    ReadFromNext(fetch, before, total, done, offset, chunk, reader.state, r);
    if length < 3 || !HasStatus(page[..length], 0x90, 0x00) {
      return 0;
    }
    n := length - 2;
    assert page[..n] == r[..|r| - 2];
    PageFits(fetch, reader.state, total, done + page[..n], buffer.Length);
    Memcpy(buffer, totalRead, page[..n]);
  }

  /** Whatever is read so far fits, if what is read in the end does. */
  lemma PageFits<S>(fetch: Fetch<S>, state: S, total: nat, done: seq<byte>, room: nat)
    requires total <= room && Contained(ReadFrom(fetch, state, total, done).1, room)
    ensures |done| <= room
  {
  }

  /** The page loop of `ntag424_ReadNDEFMessage`. */
  method ReadPages<S(!new)>(reader: Reader<S>, ghost fetch: Fetch<S>, buffer: array<byte>, total: nat)
    returns (ok: bool, totalRead: nat)
    requires total <= buffer.Length && Fetches(fetch, reader.step)
    requires Contained(ReadFrom(fetch, reader.state, total, []).1, buffer.Length)
    modifies reader, buffer
    ensures totalRead <= buffer.Length
    ensures (reader.state, if ok then Some(buffer[..totalRead]) else None)
         == ReadFrom(fetch, old(reader.state), total, [])
  {
    totalRead := 0;
    assert buffer[..0] == [];
    while totalRead < total
      invariant 0 <= totalRead <= buffer.Length
      invariant ReadFrom(fetch, reader.state, total, buffer[..totalRead])
           == ReadFrom(fetch, old(reader.state), total, [])
    {
      var n := ReadPage(reader, fetch, buffer, total, totalRead);
      if n == 0 {
        return false, totalRead;
      }
      totalRead := totalRead + n;
    }
    ok := true;
  }

  /** Lines 705-718 of the source: select the file and read its length field. */
  method ReadLength<S>(c: Cipher, reader: Reader<S>) returns (ok: bool, nlen: nat)
    modifies reader
    ensures var (state1, selected) := SelectedNdef(c, reader.step, old(reader.state));
            if !selected then !ok && reader.state == state1 else
            var (state2, r) := Answer(reader.step, state1, ReadFrame(0, 2), 8);
            && reader.state == state2 && (ok <==> |r| >= 4 && HasStatus(r, 0x90, 0x00))
            && (ok ==> nlen == Nlen(r))
  {
    nlen := 0;
    ok := SelectNdefFile(c, reader);
    if ok {
      var nlenResponse := new byte[8](_ => 0);
      var length := reader.Transceive(ReadFrame(0, 2), nlenResponse, 8);
      ok := length >= 4 && HasStatus(nlenResponse[..length], 0x90, 0x00);
      if ok {
        nlen := Nlen(nlenResponse[..length]);
      }
    }
  }

  /** `ntag424_ReadNDEFMessage`. It copies whatever comes back, so the read must not end with more bytes than
      the buffer has, or a copy runs past it. */
  method ReadNdefMessage<S(!new)>(c: Cipher, reader: Reader?<S>, buffer: array?<byte>, maxSize: nat) returns (r: int)
    requires maxSize < 0x1_0000 && (buffer != null ==> maxSize <= buffer.Length)
    requires reader != null && buffer != null
        ==> Contained(NdefMessage(c, reader.step, reader.state, maxSize).1, Room(buffer.Length))
    modifies if reader == null then {} else {reader}
    modifies if buffer == null then {} else {buffer}
    ensures reader == null || buffer == null || maxSize == 0 ==> r == -1
    ensures reader != null && buffer != null && maxSize > 0
        ==> var (state, message) := NdefMessage(c, reader.step, old(reader.state), maxSize);
            && reader.state == state
            && (message.None? ==> r == -1)
            && (message.Some? ==> |message.value| <= Room(buffer.Length) && r == ToInt16(|message.value|)
                                  && buffer[..|message.value|] == message.value)
  {
    if buffer == null || maxSize == 0 || reader == null {
      return -1;
    }
    var ok, nlen := ReadLength(c, reader);
    if !ok {
      return -1;
    }
    if nlen == 0 {
      assert buffer[..0] == [];
      return 0;
    }
    var totalToRead := if nlen > maxSize then maxSize else nlen;
    var totalRead: nat;
    ok, totalRead := ReadPages(reader, FetchOf(reader.step), buffer, totalToRead);
    r := if ok then ToInt16(totalRead) else -1;
  }

  // ---- Who keeps to the room there is -------------------------------------------------------------

  /** A peer of which no page that is taken, asked for with an Le of 1 to 48, has more bytes than that. */
  ghost predicate KeepsToLe<S(!new)>(fetch: Fetch<S>) {
    forall state: S, offset: nat, le: nat {:trigger fetch(state, offset, le)} :: offset < 0x1_0000 && 1 <= le <= 48 ==>
      PageWithin(fetch(state, offset, le).1, le)
  }

  /** An answer that is not taken as a page, or has at most `le` bytes of data. */
  predicate PageWithin(r: seq<byte>, le: nat) {
    |r| >= 3 && HasStatus(r, 0x90, 0x00) ==> |r| - 2 <= le
  }

  /** No read, from whatever state and of however many bytes, brings a page past the bytes that are wanted. */
  ghost predicate NeverOverruns<S(!new)>(fetch: Fetch<S>) {
    forall state: S, total: nat, done: seq<byte> {:trigger PagesStay(fetch, state, total, done)} ::
      PagesStay(fetch, state, total, done)
  }

  /** Whether a peer can make a copy run past the bytes that are wanted is decided by its single answers: it
      cannot exactly if it keeps to Le wherever that is 1 to 48. What it answers to any other Le, and
      what fails, does not matter, for the answer is received in 56 bytes. */
  lemma NeverOverrunsIff<S(!new)>(fetch: Fetch<S>)
    requires forall state: S, offset: nat, le: nat :: |fetch(state, offset, le).1| <= 56
    ensures NeverOverruns(fetch) <==> KeepsToLe(fetch)
  {
    if KeepsToLe(fetch) {
      forall state: S, total: nat, done: seq<byte> ensures PagesStay(fetch, state, total, done) {
        LeKeepsPages(fetch, state, total, done);
      }
    }
    if NeverOverruns(fetch) {
      forall state: S, offset: nat, le: nat | offset < 0x1_0000 && 1 <= le <= 48
        ensures PageWithin(fetch(state, offset, le).1, le)
      {
        OnePageStays(fetch, state, offset, le);
      }
    }
  }

  /** Any offset and any Le of 1 to 48 are those of the last page of some read. */
  lemma OnePageStays<S(!new)>(fetch: Fetch<S>, state: S, offset: nat, le: nat)
    requires NeverOverruns(fetch) && offset < 0x1_0000 && 1 <= le <= 48
    ensures PageWithin(fetch(state, offset, le).1, le)
  {
    var n := if offset >= 2 then offset - 2 else offset + 0xFFFE;
    var done := Zeros(n);
    assert (2 + |done|) % 0x1_0000 == offset && NextLe(n + le - |done|) == le;
    assert PagesStay(fetch, state, n + le, done);
  }

  /** A peer that keeps to Le never brings a page past the bytes that are wanted. */
  lemma {:induction false} LeKeepsPages<S(!new)>(fetch: Fetch<S>, state: S, total: nat, done: seq<byte>)
    requires forall state: S, offset: nat, le: nat :: |fetch(state, offset, le).1| <= 56
    requires KeepsToLe(fetch)
    ensures PagesStay(fetch, state, total, done)
    decreases total - |done|
  {
    if |done| < total {
      var offset, le := (2 + |done|) % 0x1_0000, NextLe(total - |done|);
      var (state', r) := fetch(state, offset, le);
      LeWithin(total - |done|, le);
      if |r| >= 3 && HasStatus(r, 0x90, 0x00) {
        LeKeepsPages(fetch, state', total, done + r[..|r| - 2]);
      }
    }
  }

  lemma LeWithin(remaining: nat, le: nat)
    requires remaining > 0 && le == NextLe(remaining)
    ensures le <= 48 && (if le == 0 then 256 <= remaining else le <= remaining)
  {
  }

  /** The whole read stays within `maxSize` for every peer that keeps to Le. */
  lemma LeKeepsMessage<S(!new)>(c: Cipher, step: Peer<S>, state: S, maxSize: nat)
    requires KeepsToLe(FetchOf(step))
    ensures Contained(NdefMessage(c, step, state, maxSize).1, maxSize)
  {
    var state1 := SelectedNdef(c, step, state).0;
    var (state2, r) := Answer(step, state1, ReadFrame(0, 2), 8);
    if |r| >= 2 {
      var total := if Nlen(r) > maxSize then maxSize else Nlen(r);
      LeKeepsPages(FetchOf(step), state2, total, []);
      PagesStayIff(FetchOf(step), state2, total, []);
    }
  }

  /** A card that says its message has `nlen` bytes, and gives out 54 bytes for every page, whatever Le is. */
  function Talkative(nlen: byte): Peer<()> {
    (u: (), frame: seq<byte>, room: nat) =>
      ((), if |frame| >= 2 && frame[1] == 0xA4 then [0x90, 0x00]
           else if room < 56 then [0x00, nlen, 0x90, 0x00] else Zeros(54) + [0x90, 0x00])
  }

  /** With it, a read of at most one byte ends with 54: the copy runs 53 bytes past the buffer. */
  lemma TalkativeOverruns(c: Cipher, nlen: byte)
    requires nlen as int > 0
    ensures NdefMessage(c, Talkative(nlen), (), 1).1 == Some(Zeros(54))
    ensures !Contained(NdefMessage(c, Talkative(nlen), (), 1).1, 1)
  {
    TalkativeSelects(c, nlen);
    assert [0x00, nlen, 0x90, 0x00] == [0x00, nlen] + [0x90, 0x00];
    assert ReadFrame(0, 2)[1] == 0xB0;
    StartsWith(c, Talkative(nlen), (), 1, (), 0x00, nlen);
    TalkativePage(nlen);
  }

  lemma TalkativeSelects(c: Cipher, nlen: byte)
    ensures SelectedNdef(c, Talkative(nlen), ()) == ((), true)
  {
    assert Frame(c, None, SelectCommand(0x04, Data([0xD2, 0x76, 0x00, 0x00, 0x85, 0x01, 0x01])), PLAIN, [])[1] == 0xA4;
    SelectsFrom(c, Talkative(nlen), (), 0x04, [0xD2, 0x76, 0x00, 0x00, 0x85, 0x01, 0x01], ());
    assert Frame(c, None, SelectCommand(0x00, Data([0xE1, 0x04])), PLAIN, [])[1] == 0xA4;
    SelectsFrom(c, Talkative(nlen), (), 0x00, [0xE1, 0x04], ());
  }

  lemma TalkativePage(nlen: byte)
    ensures ReadFrom(FetchOf(Talkative(nlen)), (), 1, []).1 == Some(Zeros(54))
  {
    var r := Zeros(54) + [0x90, 0x00];
    assert ReadFrame(2, 1)[1] == 0xB0;
    assert FetchOf(Talkative(nlen))((), 2, 1) == ((), r);
    ReadFromNext(FetchOf(Talkative(nlen)), (), 1, [], 2, 1, (), r);
    assert [] + r[..54] == Zeros(54);
  }

  /** A peer that answers a SELECT with 90 00. */
  lemma SelectsFrom<S>(c: Cipher, step: Peer<S>, state: S, p1: byte, data: seq<byte>, state': S)
    requires |data| <= 7
    requires step(state, Frame(c, None, SelectCommand(p1, Data(data)), PLAIN, []), 12) == (state', [0x90, 0x00])
    ensures Selected(c, step, state, None, p1, Data(data)) == (state', None, true)
  {
    FinishedWith(c, step, state, None, PLAIN, Frame(c, None, SelectCommand(p1, Data(data)), PLAIN, []), 12, 12, state',
      [0x90, 0x00]);
  }

  // ---- The card's file ------------------------------------------------------------------------------

  /** A card with a file that gives out, for each read, as many bytes as `serve` says: at least one, and at
      most what is asked for and what the file has. Le 0 asks for 256. */
  datatype NdefCard = NdefCard(file: seq<byte>, serve: (nat, nat) -> nat)

  function Asked(le: byte): nat {
    if le == 0 then 256 else le as int
  }

  function Given(k: NdefCard, offset: nat, asked: nat): (n: nat)
    requires 0 < asked && offset < |k.file|
    ensures 1 <= n <= asked && offset + n <= |k.file|
  {
    var n := k.serve(offset, asked);
    var m := if n < 1 then 1 else if n > asked then asked else n;
    if offset + m > |k.file| then |k.file| - offset else m
  }

  function FrameOffset(frame: seq<byte>): nat
    requires |frame| == 5
  {
    frame[2] as int * 256 + frame[3] as int
  }

  /** What is selected on the card. */
  datatype Chosen = Nothing | Application | NdefFile

  /** SELECT of the application by its name, of the NDEF file in it by its number E1 04, and READ BINARY of that. */
  function NdefStep(k: NdefCard, chosen: Chosen, frame: seq<byte>): (Chosen, seq<byte>) {
    if frame == [0x00, 0xA4, 0x04, 0x00, 0x07, 0xD2, 0x76, 0x00, 0x00, 0x85, 0x01, 0x01, 0x00]
    then (Application, [0x90, 0x00])
    else if frame == [0x00, 0xA4, 0x00, 0x00, 0x02, 0xE1, 0x04, 0x00] && !chosen.Nothing? then (NdefFile, [0x90, 0x00])
    else if |frame| == 5 && frame[0] == 0x00 && frame[1] == 0xB0 && chosen.NdefFile?
    then (chosen, FilePart(k, FrameOffset(frame), Asked(frame[4])))
    else (chosen, [0x6A, 0x82])
  }

  function FilePart(k: NdefCard, offset: nat, asked: nat): seq<byte>
    requires asked > 0
  {
    if offset >= |k.file| then [0x6B, 0x00]
    else k.file[offset..offset + Given(k, offset, asked)] + [0x90, 0x00]
  }

  function NdefPeer(k: NdefCard): Peer<Chosen> {
    (chosen: Chosen, frame: seq<byte>, room: nat) => NdefStep(k, chosen, frame)
  }

  lemma ReadFrameParses(offset: nat, le: nat)
    requires offset < 0x1_0000 && le < 256
    ensures FrameOffset(ReadFrame(offset, le)) == offset
    ensures Asked(ReadFrame(offset, le)[4]) == if le == 0 then 256 else le
  {
    OffsetBytes(offset);
    LeByte(le);
  }

  /** What a read of this card brings back. */
  ghost predicate FetchesFile(fetch: Fetch<Chosen>, k: NdefCard) {
    forall offset: nat, le: nat {:trigger fetch(NdefFile, offset, le)} :: offset < 0x1_0000 && le < 256
      ==> fetch(NdefFile, offset, le) == (NdefFile, Received(FilePart(k, offset, if le == 0 then 256 else le)))
  }

  /** An answer of more than 56 bytes does not get through. */
  function Received(r: seq<byte>): seq<byte> {
    if |r| <= 56 then r else []
  }

  lemma NdefCardFetches(k: NdefCard)
    ensures FetchesFile(FetchOf(NdefPeer(k)), k)
  {
    forall offset: nat, le: nat | offset < 0x1_0000 && le < 256
      ensures FetchOf(NdefPeer(k))(NdefFile, offset, le)
           == (NdefFile, Received(FilePart(k, offset, if le == 0 then 256 else le)))
    {
      ReadFrameParses(offset, le);
    }
  }

  lemma OffsetBytes(offset: nat)
    requires offset < 0x1_0000
    ensures ToByte(offset / 256) as int * 256 + ToByte(offset) as int == offset
  {
    ToByteModulo(offset / 256);
    ToByteModulo(offset);
    WholeFromBytes(offset);
  }

  lemma WholeFromBytes(n: nat)
    requires n < 0x1_0000
    ensures (n / 256) % 256 * 256 + n % 256 == n
  {
  }

  lemma LeByte(le: nat)
    requires le < 256
    ensures Asked(ToByte(le)) == if le == 0 then 256 else le
  {
    ToByteModulo(le);
  }

  lemma SmallOffset(offset: nat)
    requires offset < 0x1_0000
    ensures offset % 0x1_0000 == offset
  {
  }

  /** The bytes a page read asks for: an Le of 0 asks for 256. */
  function Wants(remaining: nat): (n: nat)
    requires remaining > 0
    ensures 1 <= n <= remaining && (n == 256 <==> remaining % 256 == 0)
  {
    if remaining % 256 == 0 then 256 else if remaining % 256 > 48 then 48 else remaining % 256
  }

  /** The bytes of the page that follows `done` bytes, if the file has any there. */
  function PageSize(k: NdefCard, total: nat, done: nat): (n: nat)
    requires done < total
    ensures done + n <= total && 2 + done + n <= if 2 + done < |k.file| then |k.file| else 2 + done
    ensures n == 0 <==> 2 + done >= |k.file|
  {
    if 2 + done < |k.file| then Given(k, 2 + done, Wants(total - done)) else 0
  }

  /** The page gets through: the file is not at its end, and where a multiple of 256 bytes is still wanted the card
      gives at most 54 of them. */
  predicate GoesOn(k: NdefCard, total: nat, done: nat)
    requires done < total
  {
    var n := PageSize(k, total, done);
    n > 0 && ((total - done) % 256 == 0 ==> n <= 54)
  }

  /** What the file has there. */
  function Page(k: NdefCard, total: nat, done: nat): seq<byte>
    requires done < total && 2 + done <= |k.file|
  {
    k.file[2 + done..2 + done + PageSize(k, total, done)]
  }

  lemma PageReceived(k: NdefCard, total: nat, done: nat)
    requires done < total && 2 + done <= |k.file|
    ensures IsPage(Received(FilePart(k, 2 + done, Wants(total - done))), GoesOn(k, total, done), Page(k, total, done))
  {
    var page := Page(k, total, done);
    if GoesOn(k, total, done) {
      assert (page + [0x90, 0x00])[..|page|] == page;
    }
  }

  /** An answer that is taken as this page, or not at all. */
  predicate IsPage(r: seq<byte>, taken: bool, page: seq<byte>) {
    if taken then |r| >= 3 && HasStatus(r, 0x90, 0x00) && r[..|r| - 2] == page else |r| < 3
  }

  ghost predicate ReadsOn(fetch: Fetch<Chosen>, total: nat, done: seq<byte>, taken: bool, page: seq<byte>) {
    ReadFrom(fetch, NdefFile, total, done)
    == if taken then ReadFrom(fetch, NdefFile, total, done + page) else (NdefFile, None)
  }

  lemma PageTaken(fetch: Fetch<Chosen>, total: nat, done: seq<byte>, offset: nat, le: nat, r: seq<byte>, taken: bool,
      page: seq<byte>)
    requires |done| < total && offset == (2 + |done|) % 0x1_0000 && le == NextLe(total - |done|)
    requires fetch(NdefFile, offset, le) == (NdefFile, r) && IsPage(r, taken, page)
    ensures ReadsOn(fetch, total, done, taken, page)
  {
    ReadFromNext(fetch, NdefFile, total, done, offset, le, NdefFile, r);
  }

  /** One page read of this card fails exactly if it does not go on, and otherwise brings what the file has next. */
  lemma PageIff(fetch: Fetch<Chosen>, k: NdefCard, total: nat, done: seq<byte>)
    requires FetchesFile(fetch, k) && |done| < total && 2 + total <= 0x1_0000 && 2 + |done| <= |k.file|
    ensures ReadsOn(fetch, total, done, GoesOn(k, total, |done|), Page(k, total, |done|))
  {
    var r := PageFetched(fetch, k, total, |done|);
    PageReceived(k, total, |done|);
    SmallOffset(2 + |done|);
    PageTaken(fetch, total, done, 2 + |done|, NextLe(total - |done|), r, GoesOn(k, total, |done|),
              Page(k, total, |done|));
  }

  lemma PageFetched(fetch: Fetch<Chosen>, k: NdefCard, total: nat, done: nat) returns (r: seq<byte>)
    requires FetchesFile(fetch, k) && done < total && 2 + total <= 0x1_0000
    ensures r == Received(FilePart(k, 2 + done, Wants(total - done)))
    ensures fetch(NdefFile, 2 + done, NextLe(total - done)) == (NdefFile, r)
  {
    r := Received(FilePart(k, 2 + done, Wants(total - done)));
  }

  /** Every page that is reached goes on. */
  predicate Served(k: NdefCard, total: nat, done: nat)
    requires done <= total
    decreases total - done
  {
    done == total || (GoesOn(k, total, done) && Served(k, total, done + PageSize(k, total, done)))
  }

  lemma {:induction false} ReadsIff(fetch: Fetch<Chosen>, k: NdefCard, total: nat, done: seq<byte>)
    requires FetchesFile(fetch, k) && 2 + total <= 0x1_0000
    requires |done| <= total && 2 + |done| <= |k.file| && done == k.file[2..2 + |done|]
    ensures Served(k, total, |done|) ==> 2 + total <= |k.file|
    ensures ReadFrom(fetch, NdefFile, total, done).1
         == if Served(k, total, |done|) then Some(Message(k, total)) else None
    decreases total - |done|
  {
    if |done| == total {
      ReadEnds(fetch, total, done);
    } else {
      PageIff(fetch, k, total, done);
      if GoesOn(k, total, |done|) {
        SliceGrows(k.file, 2, 2 + |done|, 2 + |done| + PageSize(k, total, |done|));
        ReadsIff(fetch, k, total, done + Page(k, total, |done|));
      }
    }
  }

  lemma ReadEnds(fetch: Fetch<Chosen>, total: nat, done: seq<byte>)
    requires |done| == total
    ensures ReadFrom(fetch, NdefFile, total, done).1 == Some(done)
  {
  }

  lemma SliceGrows(s: seq<byte>, a: nat, b: nat, c: nat)
    requires a <= b <= c <= |s|
    ensures s[a..b] + s[b..c] == s[a..c]
  {
  }

  /** Below 256 bytes every card serves. */
  lemma {:induction false} ServedBelow256(k: NdefCard, total: nat, done: nat)
    requires done <= total < 256 && 2 + total <= |k.file|
    ensures Served(k, total, done)
    decreases total - done
  {
    if done < total {
      ServedBelow256(k, total, done + PageSize(k, total, done));
    }
  }

  /** A card that gives all it is asked for is asked, sooner or later, for exactly 256 more bytes. */
  lemma {:induction false} NotServedFrom256(k: NdefCard, total: nat, done: nat)
    requires forall offset, asked :: k.serve(offset, asked) == asked
    requires done + 256 <= total && 2 + total <= |k.file|
    ensures !Served(k, total, done)
    decreases total - done
  {
    var n := Wants(total - done);
    assert PageSize(k, total, done) == n;
    if n != 256 {
      NotServedFrom256(k, total, done + n);
    }
  }

  /** The length the card's file announces, high byte first, cut to what the caller has room for. */
  function Wanted(k: NdefCard, maxSize: nat): nat
    requires |k.file| >= 2
  {
    var announced := 256 * k.file[0] as int + k.file[1] as int;
    if announced > maxSize then maxSize else announced
  }

  lemma SelectFrame(c: Cipher, p1: byte, data: seq<byte>)
    requires |data| <= 7
    ensures Frame(c, None, SelectCommand(p1, Data(data)), PLAIN, [])
         == [0x00, 0xA4, p1, 0x00] + [ToByte(|data|)] + data + [0x00]
  {
    var head := [0x00, 0xA4, p1, 0x00] + [ToByte(|data|)];
    assert head + [] + data + [] + [0x00] == head + data + [0x00];
  }

  lemma NdefSelected(c: Cipher, k: NdefCard)
    ensures SelectedNdef(c, NdefPeer(k), Nothing) == (NdefFile, true)
  {
    var name, number := [0xD2, 0x76, 0x00, 0x00, 0x85, 0x01, 0x01], [0xE1, 0x04];
    SelectFrame(c, 0x04, name);
    SelectFrame(c, 0x00, number);
    ToByteSmall(7);
    ToByteSmall(2);
    SelectsFrom(c, NdefPeer(k), Nothing, 0x04, name, Application);
    SelectsFrom(c, NdefPeer(k), Application, 0x00, number, NdefFile);
  }

  /** The length field comes back if the file has one and the card gives both bytes of it at once. */
  predicate GivesLength(k: NdefCard) {
    |k.file| >= 2 && k.serve(0, 2) >= 2
  }

  lemma LengthRead(k: NdefCard)
    requires GivesLength(k)
    ensures Answer(NdefPeer(k), NdefFile, ReadFrame(0, 2), 8) == (NdefFile, [k.file[0], k.file[1]] + [0x90, 0x00])
  {
    ReadFrameParses(0, 2);
    FirstTwo(k.file, [0x90, 0x00]);
  }

  lemma LengthNotRead(c: Cipher, k: NdefCard, maxSize: nat)
    requires !GivesLength(k)
    ensures NdefMessage(c, NdefPeer(k), Nothing, maxSize) == (NdefFile, None)
  {
    NdefSelected(c, k);
    ReadFrameParses(0, 2);
    EndsWithout(c, NdefPeer(k), Nothing, maxSize, NdefFile);
  }

  lemma EndsWithout<S>(c: Cipher, step: Peer<S>, state: S, maxSize: nat, state1: S)
    requires SelectedNdef(c, step, state) == (state1, true)
    requires |Answer(step, state1, ReadFrame(0, 2), 8).1| < 4
    ensures NdefMessage(c, step, state, maxSize) == (Answer(step, state1, ReadFrame(0, 2), 8).0, None)
  {
  }

  lemma StartsWith<S>(c: Cipher, step: Peer<S>, state: S, maxSize: nat, state1: S, a: byte, b: byte)
    requires SelectedNdef(c, step, state) == (state1, true)
    requires Answer(step, state1, ReadFrame(0, 2), 8) == (state1, [a, b] + [0x90, 0x00])
    ensures NdefMessage(c, step, state, maxSize)
         == ReadFrom(FetchOf(step), state1, if Nlen([a, b]) > maxSize then maxSize else Nlen([a, b]), [])
  {
  }

  lemma NdefStarts(c: Cipher, k: NdefCard, maxSize: nat)
    requires GivesLength(k)
    ensures NdefMessage(c, NdefPeer(k), Nothing, maxSize)
         == ReadFrom(FetchOf(NdefPeer(k)), NdefFile, Wanted(k, maxSize), [])
  {
    NdefSelected(c, k);
    LengthRead(k);
    StartsWith(c, NdefPeer(k), Nothing, maxSize, NdefFile, k.file[0], k.file[1]);
  }

  lemma FirstTwo(s: seq<byte>, t: seq<byte>)
    requires |s| >= 2
    ensures s[0..2] + t == [s[0], s[1]] + t
  {
  }

  /** The first `n` bytes of the message in the file. */
  function Message(k: NdefCard, n: nat): seq<byte>
    requires 2 + n <= |k.file|
  {
    k.file[2..2 + n]
  }

  /** What a read brings from any card and file, as far as offsets of 16 bits reach: exactly the bytes wanted,
      if the card gives the length at once and every page that is reached goes on; and nothing otherwise. */
  lemma ReadIff(c: Cipher, k: NdefCard, maxSize: nat)
    requires |k.file| >= 2 ==> 2 + Wanted(k, maxSize) <= 0x1_0000
    ensures GivesLength(k) && Served(k, Wanted(k, maxSize), 0) ==> 2 + Wanted(k, maxSize) <= |k.file|
    ensures NdefMessage(c, NdefPeer(k), Nothing, maxSize).1
         == if GivesLength(k) && Served(k, Wanted(k, maxSize), 0) then Some(Message(k, Wanted(k, maxSize))) else None
  {
    if GivesLength(k) {
      NdefStarts(c, k, maxSize);
      PeerReads(k, Wanted(k, maxSize));
    } else {
      LengthNotRead(c, k, maxSize);
    }
  }

  lemma PeerReads(k: NdefCard, total: nat)
    requires 2 <= |k.file| && 2 + total <= 0x1_0000
    ensures Served(k, total, 0) ==> 2 + total <= |k.file|
    ensures ReadFrom(FetchOf(NdefPeer(k)), NdefFile, total, []).1
         == if Served(k, total, 0) then Some(Message(k, total)) else None
  {
    NdefCardFetches(k);
    assert k.file[2..2] == [];
    ReadsIff(FetchOf(NdefPeer(k)), k, total, []);
  }

  /** For a message, or a room, of at most 255 bytes the read returns exactly the file's bytes, however few
      the card gives out at a time, provided that it gives both bytes of the length at once. */
  lemma ReadReturnsFile(c: Cipher, k: NdefCard, maxSize: nat)
    requires |k.file| >= 2 && 2 + Wanted(k, maxSize) <= |k.file| && Wanted(k, maxSize) < 256
    ensures NdefMessage(c, NdefPeer(k), Nothing, maxSize).1
         == if k.serve(0, 2) >= 2 then Some(Message(k, Wanted(k, maxSize))) else None
  {
    ReadIff(c, k, maxSize);
    ServedBelow256(k, Wanted(k, maxSize), 0);
  }

  /** With every card that has the file, however it gives it out. */
  ghost predicate EveryCardReads(c: Cipher, file: seq<byte>, maxSize: nat) {
    forall serve: (nat, nat) -> nat {:trigger NdefPeer(NdefCard(file, serve))} ::
      serve(0, 2) >= 2 ==> NdefMessage(c, NdefPeer(NdefCard(file, serve)), Nothing, maxSize).1.Some?
  }

  /** A file can be read from every card that gives its length at once, exactly if fewer than 256 bytes are
      wanted. */
  lemma EveryCardReadsIff(c: Cipher, k: NdefCard, maxSize: nat)
    requires |k.file| >= 2 && 2 + Wanted(k, maxSize) <= |k.file| && 2 + Wanted(k, maxSize) <= 0x1_0000
    ensures EveryCardReads(c, k.file, maxSize) <==> Wanted(k, maxSize) < 256
  {
    if Wanted(k, maxSize) < 256 {
      forall serve: (nat, nat) -> nat {:trigger NdefPeer(NdefCard(k.file, serve))} | serve(0, 2) >= 2
        ensures NdefMessage(c, NdefPeer(NdefCard(k.file, serve)), Nothing, maxSize).1.Some?
      {
        ReadReturnsFile(c, NdefCard(k.file, serve), maxSize);
      }
    } else {
      var generous := NdefCard(k.file, (offset: nat, asked: nat) => asked);
      ReadSucceedsIff(c, generous, maxSize);
      assert !NdefMessage(c, NdefPeer(generous), Nothing, maxSize).1.Some?;
    }
  }

  /** Against a card that gives all it is asked for, that bound is exact. */
  lemma ReadSucceedsIff(c: Cipher, k: NdefCard, maxSize: nat)
    requires forall offset, asked :: k.serve(offset, asked) == asked
    requires |k.file| >= 2 && 2 + Wanted(k, maxSize) <= |k.file| && 2 + Wanted(k, maxSize) <= 0x1_0000
    ensures NdefMessage(c, NdefPeer(k), Nothing, maxSize).1.Some? <==> Wanted(k, maxSize) < 256
  {
    ReadIff(c, k, maxSize);
    if Wanted(k, maxSize) < 256 {
      ServedBelow256(k, Wanted(k, maxSize), 0);
    } else {
      NotServedFrom256(k, Wanted(k, maxSize), 0);
    }
  }
}
