/** Formatting the NDEF file (ntag424_core.cpp:591-636): the loop's 8-bit offset wraps six times before it
    reaches the end, so the file is written in 38 pieces where six would do. */
module Format {
  import opened Octets
  import opened Bytes
  import opened CipherSuite
  import opened Apdu
  import opened Readers
  import opened Core
  import opened Files

  const MEMORY_SIZE := 248
  const FORMAT_CHUNK := 47
  const FORMAT_WRITES := 38

  function FormatCommand(offset: nat, length: nat): Command {
    Command(0x90, 0x8D, 0x00, 0x00, Data([2, ToByte(offset), 0, 0, ToByte(length), 0, 0]), Data(Zeros(length)), 0x00)
  }

  /** Writing zeros: the peer's new state, and whether it answered 91 00. */
  type Clear<!S> = (S, nat, nat) -> (S, bool)

  function ClearOf<S>(c: Cipher, step: Peer<S>): Clear<S> {
    (state: S, offset: nat, length: nat) =>
      var (state', v, out) := Sent(c, step, state, None, FormatCommand(offset, length), PLAIN, [], MAX_APDU);
      (state', HasStatus(out, 0x91, 0x00))
  }

  /** The offset of write number `k`, as the 8-bit loop variable counts it. */
  function OffsetAt(k: nat): nat {
    if k == 0 then 0 else NextOffset(OffsetAt(k - 1))
  }

  function NextOffset(offset: nat): nat {
    (offset + FORMAT_CHUNK) % 256
  }

  lemma {:induction false} OffsetIs(k: nat)
    ensures OffsetAt(k) == 47 * k % 256
  {
    if k > 0 {
      OffsetIs(k - 1);
      ModAdd(FORMAT_CHUNK * (k - 1), FORMAT_CHUNK);
    }
  }

  function LengthAt(offset: nat): (n: nat)
    requires offset < MEMORY_SIZE
    ensures 0 < n <= FORMAT_CHUNK && offset + n <= MEMORY_SIZE
  {
    if offset + FORMAT_CHUNK > MEMORY_SIZE then MEMORY_SIZE - offset else FORMAT_CHUNK
  }

  /** The offset reaches the end of the file at write number 38, and not before. */
  lemma EndsIff(k: nat)
    requires k <= 38
    ensures OffsetAt(k) >= 248 <==> k == 38
  {
    OffsetIs(k);
    EndsAfter(k, 47 * k / 256, 47 * k % 256);
  }

  lemma EndsAfter(k: nat, q: int, r: int)
    requires k <= 38 && 47 * k == 256 * q + r && 0 <= r < 256
    ensures r >= 248 <==> k == 38
  {
    if q <= 0 {
      assert k <= 5;
    } else if q == 1 {
      assert 6 <= k <= 10;
    } else if q == 2 {
      assert 11 <= k <= 16;
    } else if q == 3 {
      assert 17 <= k <= 21;
    } else if q == 4 {
      assert 22 <= k <= 27;
    } else if q == 5 {
      assert 28 <= k <= 32;
    } else {
      assert 33 <= k <= 38;
    }
  }

  /** The writes from number `k` on; a refused write does not end them. */
  function FormatFrom<S>(clear: Clear<S>, state: S, k: nat): (S, bool)
    requires k <= FORMAT_WRITES
    decreases FORMAT_WRITES - k
  {
    if k == FORMAT_WRITES then (state, true) else
      EndsIff(k);
      var (state', ok) := clear(state, OffsetAt(k), LengthAt(OffsetAt(k)));
      var (last, rest) := FormatFrom(clear, state', k + 1);
      (last, ok && rest)
  }

  function Both<S>(ok: bool, r: (S, bool)): (S, bool) {
    (r.0, ok && r.1)
  }

  lemma FormatStep<S>(clear: Clear<S>, state: S, k: nat, state': S, written: bool)
    requires k < FORMAT_WRITES && OffsetAt(k) < MEMORY_SIZE
    requires clear(state, OffsetAt(k), LengthAt(OffsetAt(k))) == (state', written)
    ensures FormatFrom(clear, state, k)
         == Both(written, FormatFrom(clear, state', k + 1))
  {
  }

  lemma NotYet(k: nat)
    requires k <= FORMAT_WRITES
    ensures OffsetAt(k) < MEMORY_SIZE ==> k < FORMAT_WRITES
  {
    EndsIff(k);
  }

  lemma NoMore<S>(clear: Clear<S>, state: S, k: nat)
    requires k <= FORMAT_WRITES
    ensures OffsetAt(k) >= MEMORY_SIZE ==> FormatFrom(clear, state, k) == (state, true)
  {
    EndsIff(k);
  }

  /** `ntag424_FormatNDEF`. */
  method FormatNdef<S>(c: Cipher, reader: Reader?<S>) returns (ok: bool)
    modifies if reader == null then {} else {reader}
    ensures reader == null ==> !ok
    ensures reader != null ==> (reader.state, ok) == FormatFrom(ClearOf(c, reader.step), old(reader.state), 0)
  {
    if reader == null {
      return false;
    }
    ok := FormatLoop(c, reader, 0, 0, ClearOf(c, reader.step));
  }

  method FormatLoop<S>(c: Cipher, reader: Reader<S>, start: nat, ghost first: nat, ghost clear: Clear<S>)
    returns (ok: bool)
    requires first <= FORMAT_WRITES && start == OffsetAt(first) && clear == ClearOf(c, reader.step)
    modifies reader
    ensures (reader.state, ok) == FormatFrom(clear, old(reader.state), first)
  {
    ghost var k := first;
    ghost var result := FormatFrom(clear, reader.state, first);
    ok := true;
    var offset := start;
    while offset < MEMORY_SIZE
      invariant k <= FORMAT_WRITES && offset == OffsetAt(k)
      invariant result == Both(ok, FormatFrom(clear, reader.state, k))
      decreases FORMAT_WRITES - k
    {
      NotYet(k);
      ok := ClearNext(c, reader, offset, k, ok, clear);
      offset := AddChunk(offset, k);
      k := k + 1;
    }
    NoMore(clear, reader.state, k);
  }

  /** `offset += chunk` in 8 bits. */
  method AddChunk(offset: nat, ghost k: nat) returns (next: nat)
    requires offset == OffsetAt(k)
    ensures next < 256 && next == OffsetAt(k + 1)
  {
    next := (offset + FORMAT_CHUNK) % 256;
  }

  method ClearNext<S>(c: Cipher, reader: Reader<S>, offset: nat, ghost k: nat, before: bool, ghost clear: Clear<S>)
    returns (ok: bool)
    requires clear == ClearOf(c, reader.step)
    requires k < FORMAT_WRITES && offset == OffsetAt(k) < MEMORY_SIZE
    modifies reader
    ensures Both(before, FormatFrom(clear, old(reader.state), k)) == Both(ok, FormatFrom(clear, reader.state, k + 1))
  {
    ghost var state := reader.state;
    var written := ClearPiece(c, reader, offset);
    FormatStep(clear, state, k, reader.state, written);
    ok := before;
    if !written {
      ok := false;
    }
  }

  method ClearPiece<S>(c: Cipher, reader: Reader<S>, offset: nat) returns (ok: bool)
    requires offset < MEMORY_SIZE
    modifies reader
    ensures (reader.state, ok) == ClearOf(c, reader.step)(old(reader.state), offset, LengthAt(offset))
  {
    var result := new byte[MAX_APDU](_ => 0);
    var cmd := FormatCommand(offset, LengthAt(offset));
    var n, mac := SendApdu(c, reader, null, cmd, PLAIN, result, MAX_APDU);
    NoMac(c, cmd, mac);
    ok := HasStatus(result[..n], 0x91, 0x00);
  }

  // ---- The card's file -------------------------------------------------------------------------------

  /** The card's WriteData on file 2: file number, offset and length with three bytes each, low byte first, and the
      data; Lc counts them all, and Le is 00. */
  function Store(file: seq<byte>, frame: seq<byte>): Option<seq<byte>> {
    if |frame| < 13 || frame[..4] != [0x90, 0x8D, 0x00, 0x00] || frame[5] != 2
       || frame[4] as int + 6 != |frame| || frame[|frame| - 1] != 0x00
       || frame[7..9] != [0, 0] || frame[10..12] != [0, 0]
       || |frame| != 13 + frame[9] as int || frame[6] as int + frame[9] as int > |file| then None
    else Some(Overwrite(file, frame[6] as int, frame[12..|frame| - 1]))
  }

  function StoreStep(k: FileCard, frame: seq<byte>): (FileCard, seq<byte>) {
    var fault := NextFault(k);
    var k' := k.(faults := if k.faults == [] then [] else k.faults[1..]);
    var stored := Store(k.file, frame);
    if fault.LoseCommand? then (k', [])
    else if fault.Refuse? then (k', [0x91, 0x9E])
    else if stored.None? then (k', [0x91, 0xBE])
    else (k'.(file := stored.value), if fault.LoseReply? then [] else [0x91, 0x00])
  }

  function StorePeer(): Peer<FileCard> {
    (k: FileCard, frame: seq<byte>, room: nat) => StoreStep(k, frame)
  }

  lemma FormatFrame(c: Cipher, offset: nat, length: nat)
    requires offset < 256 && length <= FORMAT_CHUNK
    ensures Buildable(None, FormatCommand(offset, length), PLAIN)
    ensures Frame(c, None, FormatCommand(offset, length), PLAIN, [])
         == [0x90, 0x8D, 0x00, 0x00, LcByte(FormatCommand(offset, length), PLAIN)]
            + [2, ToByte(offset), 0, 0, ToByte(length), 0, 0] + Zeros(length) + [0x00]
  {
    var cmd := FormatCommand(offset, length);
    var head := [0x90, 0x8D, 0x00, 0x00] + [LcByte(cmd, PLAIN)];
    assert head + cmd.header.Value() + Zeros(length) + [] + [0x00]
         == head + cmd.header.Value() + Zeros(length) + [0x00];
  }

  lemma StoreOfFrame(file: seq<byte>, lc: byte, offset: byte, length: byte, data: seq<byte>)
    requires |data| == length as int && lc as int == |data| + 7
    ensures Store(file, [0x90, 0x8D, 0x00, 0x00, lc] + [2, offset, 0, 0, length, 0, 0] + data + [0x00])
         == if offset as int + |data| <= |file| then Some(Overwrite(file, offset as int, data)) else None
  {
    var frame := [0x90, 0x8D, 0x00, 0x00, lc] + [2, offset, 0, 0, length, 0, 0] + data + [0x00];
    assert frame[..4] == [0x90, 0x8D, 0x00, 0x00] && frame[7..9] == [0, 0] && frame[10..12] == [0, 0];
    assert frame[12..|frame| - 1] == data;
  }

  /** What one write does: zeros or nothing, and zeros if it is acknowledged. */
  predicate Cleared(k: FileCard, offset: nat, length: nat, k': FileCard, ok: bool) {
    && |k'.file| == |k.file|
    && (k'.file == k.file || (offset + length <= |k.file| && k'.file == Overwrite(k.file, offset, Zeros(length))))
    && (ok <==> NextFault(k).Serve? && offset + length <= |k.file|)
    && (ok ==> k'.file == Overwrite(k.file, offset, Zeros(length)))
    && k'.faults == if k.faults == [] then [] else k.faults[1..]
  }

  lemma PlainStatus(c: Cipher, r: seq<byte>)
    requires |r| <= 2
    ensures Taken(Opened(c, None, PLAIN, r), MAX_APDU) == r
  {
  }

  lemma StoreClears(k: FileCard, frame: seq<byte>, offset: nat, length: nat)
    requires Store(k.file, frame)
         == if offset + length <= |k.file| then Some(Overwrite(k.file, offset, Zeros(length))) else None
    ensures var (k', r) := StoreStep(k, frame); Cleared(k, offset, length, k', HasStatus(r, 0x91, 0x00)) && |r| <= 2
  {
  }

  lemma PieceStored(c: Cipher, k: FileCard, offset: nat, length: nat)
    requires offset < 256 && length <= FORMAT_CHUNK
    ensures Store(k.file, Frame(c, None, FormatCommand(offset, length), PLAIN, []))
         == if offset + length <= |k.file| then Some(Overwrite(k.file, offset, Zeros(length))) else None
  {
    FormatFrame(c, offset, length);
    ToByteSmall(offset);
    ToByteSmall(length);
    ToByteSmall(length + 7);
    StoreOfFrame(k.file, LcByte(FormatCommand(offset, length), PLAIN), ToByte(offset), ToByte(length), Zeros(length));
  }

  lemma ClearIs(c: Cipher, k: FileCard, offset: nat, length: nat, k': FileCard, r: seq<byte>)
    requires Buildable(None, FormatCommand(offset, length), PLAIN) && |r| <= 2
    requires StoreStep(k, Frame(c, None, FormatCommand(offset, length), PLAIN, [])) == (k', r)
    ensures ClearOf(c, StorePeer())(k, offset, length) == (k', HasStatus(r, 0x91, 0x00))
  {
    PlainStatus(c, r);
  }

  lemma PieceCleared(c: Cipher, k: FileCard, offset: nat, length: nat)
    requires offset < 256 && length <= FORMAT_CHUNK
    ensures Cleared(k, offset, length,
                    ClearOf(c, StorePeer())(k, offset, length).0, ClearOf(c, StorePeer())(k, offset, length).1)
  {
    var frame := Frame(c, None, FormatCommand(offset, length), PLAIN, []);
    PieceStored(c, k, offset, length);
    StoreClears(k, frame, offset, length);
    FormatFrame(c, offset, length);
    ClearIs(c, k, offset, length, StoreStep(k, frame).0, StoreStep(k, frame).1);
  }

  ghost predicate Clears(clear: Clear<FileCard>) {
    forall k: FileCard, offset: nat, length: nat {:trigger clear(k, offset, length)} ::
      offset < 256 && length <= FORMAT_CHUNK ==>
        Cleared(k, offset, length, clear(k, offset, length).0, clear(k, offset, length).1)
  }

  /** The bytes that writes from number `k` on clear. */
  predicate Covered(k: nat, i: nat)
    requires k <= FORMAT_WRITES
    decreases FORMAT_WRITES - k
  {
    if k == FORMAT_WRITES then false else
      EndsIff(k);
      (OffsetAt(k) <= i < OffsetAt(k) + LengthAt(OffsetAt(k))) || Covered(k + 1, i)
  }

  /** What holds of every byte of the file after the writes from number `k` on. */
  predicate ClearedFrom(k: nat, before: seq<byte>, after: seq<byte>, ok: bool)
    requires k <= FORMAT_WRITES
  {
    && |after| == |before|
    && (forall i :: 0 <= i < |before| ==> after[i] == before[i] || (after[i] == 0 && i < MEMORY_SIZE))
    && (ok ==> forall i :: 0 <= i < |before| ==> before[i] == 0 || Covered(k, i) ==> after[i] == 0)
  }

  /** No fault among the next `n`. */
  predicate Clean(faults: seq<Fault>, n: nat) {
    forall i :: 0 <= i < n && i < |faults| ==> faults[i].Serve?
  }

  lemma CleanNext(faults: seq<Fault>, n: nat)
    requires n > 0
    ensures Clean(faults, n)
       <==> (faults == [] || faults[0].Serve?) && Clean(if faults == [] then [] else faults[1..], n - 1)
  {
    if faults != [] && faults[0].Serve? && Clean(faults[1..], n - 1) {
      forall i | 0 <= i < n && i < |faults| ensures faults[i].Serve? {
        assert i > 0 ==> faults[i] == faults[1..][i - 1];
      }
    }
  }

  /** The last write ends where the file does. */
  lemma LastWrite()
    ensures OffsetAt(FORMAT_WRITES - 1) == 203
  {
    OffsetIs(FORMAT_WRITES - 1);
  }

  lemma OneCleared(k: FileCard, n: nat, k': FileCard, ok: bool, after: seq<byte>, rest: bool)
    requires n < FORMAT_WRITES && OffsetAt(n) < MEMORY_SIZE
    requires Cleared(k, OffsetAt(n), LengthAt(OffsetAt(n)), k', ok)
    requires ClearedFrom(n + 1, k'.file, after, rest)
    ensures ClearedFrom(n, k.file, after, ok && rest)
  {
  }

  lemma {:induction false} WritesClear(clear: Clear<FileCard>, k: FileCard, n: nat)
    requires Clears(clear) && n <= FORMAT_WRITES
    ensures var (k', ok) := FormatFrom(clear, k, n);
            && ClearedFrom(n, k.file, k'.file, ok)
            && (n < FORMAT_WRITES ==> (ok <==> Clean(k.faults, FORMAT_WRITES - n) && MEMORY_SIZE <= |k.file|))
    decreases FORMAT_WRITES - n
  {
    if n < FORMAT_WRITES {
      EndsIff(n);
      var offset := OffsetAt(n);
      var (k', ok) := clear(k, offset, LengthAt(offset));
      assert Cleared(k, offset, LengthAt(offset), k', ok);
      var (last, rest) := FormatFrom(clear, k', n + 1);
      FormatStep(clear, k, n, k', ok);
      WritesClear(clear, k', n + 1);
      OneCleared(k, n, k', ok, last.file, rest);
      CleanNext(k.faults, FORMAT_WRITES - n);
      LastWrite();
    }
  }

  lemma {:induction false} CoversAt(k: nat, j: nat, i: nat)
    requires k <= j < FORMAT_WRITES && OffsetAt(j) < MEMORY_SIZE
    requires OffsetAt(j) <= i < OffsetAt(j) + LengthAt(OffsetAt(j))
    ensures Covered(k, i)
    decreases j - k
  {
    if k < j {
      CoversAt(k + 1, j, i);
    }
  }

  /** All writes together cover the file. */
  lemma AllCovered(i: nat)
    requires i < MEMORY_SIZE
    ensures Covered(0, i)
  {
    OffsetIs(i / FORMAT_CHUNK);
    CoversAt(0, i / FORMAT_CHUNK, i);
  }

  /** Whether write number `j` clears byte `i`. */
  predicate InWrite(j: nat, i: nat) {
    OffsetAt(j) < MEMORY_SIZE && OffsetAt(j) <= i < OffsetAt(j) + LengthAt(OffsetAt(j))
  }

  /** Every byte of the file is in one of the first `n` writes. */
  ghost predicate CoveredBy(n: nat) {
    forall i: nat {:trigger InAnyOf(n, i)} :: i < 248 ==> InAnyOf(n, i)
  }

  ghost predicate InAnyOf(n: nat, i: nat) {
    exists j: nat :: j < n && InWrite(j, i)
  }

  lemma LastByteMissed(n: nat, i: nat)
    requires n < 6 && i == MEMORY_SIZE - 1
    ensures !InAnyOf(n, i)
  {
    forall j: nat | j < n ensures !InWrite(j, i) {
      OffsetIs(j);
    }
  }

  /** The first six writes already cover the file, and no fewer do. */
  lemma SixCoverIff(n: nat)
    ensures CoveredBy(n) <==> n >= 6
  {
    if n >= 6 {
      forall i: nat | i < MEMORY_SIZE ensures InAnyOf(n, i) {
        OffsetIs(i / FORMAT_CHUNK);
        assert InWrite(i / FORMAT_CHUNK, i);
      }
    } else {
      LastByteMissed(n, MEMORY_SIZE - 1);
    }
  }

  /** For every schedule of faults: formatting touches nothing behind the first 248 bytes and writes nothing
      but zeros; it reports success exactly if the file has room and none of the 38 writes fails, and then all
      248 bytes are zero. */
  lemma FormatClearsIff(c: Cipher, k: FileCard)
    ensures var (k', ok) := FormatFrom(ClearOf(c, StorePeer()), k, 0);
            && |k'.file| == |k.file|
            && (forall i :: 0 <= i < |k.file| ==> k'.file[i] == k.file[i] || (k'.file[i] == 0 && i < 248))
            && (ok <==> Clean(k.faults, 38) && 248 <= |k.file|)
            && (ok ==> forall i :: 0 <= i < 248 ==> k'.file[i] == 0)
  {
    StoreClearsAll(c);
    FormattedFrom(ClearOf(c, StorePeer()), k, 0);
  }

  lemma StoreClearsAll(c: Cipher)
    ensures Clears(ClearOf(c, StorePeer()))
  {
    var clear := ClearOf(c, StorePeer());
    forall k: FileCard, offset: nat, length: nat | offset < 256 && length <= FORMAT_CHUNK
      ensures Cleared(k, offset, length, clear(k, offset, length).0, clear(k, offset, length).1)
    {
      PieceCleared(c, k, offset, length);
    }
  }

  lemma FormattedFrom(clear: Clear<FileCard>, k: FileCard, first: nat)
    requires Clears(clear) && first == 0
    ensures var (k', ok) := FormatFrom(clear, k, first);
            && |k'.file| == |k.file|
            && (forall i :: 0 <= i < |k.file| ==> k'.file[i] == k.file[i] || (k'.file[i] == 0 && i < 248))
            && (ok <==> Clean(k.faults, 38) && 248 <= |k.file|)
            && (ok ==> forall i :: 0 <= i < 248 ==> k'.file[i] == 0)
  {
    WritesClear(clear, k, first);
    forall i | 0 <= i < MEMORY_SIZE ensures Covered(first, i) {
      AllCovered(i);
    }
  }
}
