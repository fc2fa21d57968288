/** The NTAG2xx URI writer (Adafruit_PN532_NTAG424.cpp:1922-2066) against a reader of Type 2 tags: TLV blocks
    from page 4 on, and a short NDEF record of the well-known type U. */
module NdefUri {
  import opened Octets
  import opened Bytes

  type Page = s: seq<byte> | |s| == 4 witness Zeros(4)

  datatype Write = Write(page: nat, data: Page)

  // ---- What is to be written ----------------------------------------------------------------------

  /** `strlen` into 8 bits: what the writer takes for the length of the URL. */
  function Length(url: seq<byte>): (n: nat)
    ensures n <= |url| && n < 256
    ensures n == |url| <==> |url| <= 255
  {
    |url| % 256
  }

  /** What it takes for the URL. */
  function Text(url: seq<byte>): (text: seq<byte>)
    ensures |text| == Length(url)
    ensures text == url <==> |url| <= 255
  {
    url[..Length(url)]
  }

  predicate Accepted(url: seq<byte>, dataLen: nat) {
    Length(url) >= 1 && Length(url) + 13 <= dataLen
  }

  /** Accepted are exactly the URLs, cut as they are, that are not empty and leave room for header and terminator in
      the data area. */
  lemma AcceptedIff(url: seq<byte>, uri: byte, dataLen: nat)
    ensures Accepted(url, dataLen)
       <==> |url| % 256 >= 1 && |Header(Length(url), uri) + Text(url) + [0xFE]| <= dataLen
  {
  }

  type Head = s: seq<byte> | |s| == 12 witness Zeros(12)

  /** Lock control block, then the head of the message block with its record up to the URI prefix. */
  function Header(n: nat, uri: byte): Head {
    [0x01, 0x03, 0xA0, 0x10, 0x44, 0x03, ToByte(n + 5), 0xD1, 0x01, ToByte(n + 1), 0x55, uri]
  }

  /** Header, text, terminator, and zeros up to the end of the page. */
  function Layout(head: Head, text: seq<byte>): (s: seq<byte>)
    ensures |s| == 16 + |text| - |text| % 4
  {
    head + text + ([0xFE] + Zeros(3 - |text| % 4))
  }

  function PageAt(s: seq<byte>, k: nat): Page
    requires 4 * k + 4 <= |s|
  {
    s[4 * k..4 * k + 4]
  }

  /** Consecutive pages from page 4 on. */
  function Pages(s: seq<byte>): (w: seq<Write>)
    ensures |w| == |s| / 4
  {
    seq(|s| / 4, k requires 0 <= k < |s| / 4 => Write(4 + k, PageAt(s, k)))
  }

  function UriPages(head: Head, text: seq<byte>): seq<Write> {
    Pages(Layout(head, text))
  }

  lemma HeaderPages(head: Head, text: seq<byte>)
    ensures |UriPages(head, text)| == 4 + |text| / 4
    ensures UriPages(head, text)[..3] == [Write(4, head[..4]), Write(5, head[4..8]), Write(6, head[8..])]
  {
    var s := Layout(head, text);
    assert PageAt(s, 0) == head[..4];
    assert PageAt(s, 1) == head[4..8];
    assert PageAt(s, 2) == head[8..];
  }

  lemma TextPage(head: Head, text: seq<byte>, k: nat)
    requires 4 * k + 4 <= |text|
    ensures 3 + k < |UriPages(head, text)|
    ensures UriPages(head, text)[3 + k] == Write(7 + k, text[4 * k..4 * k + 4])
  {
    assert PageAt(Layout(head, text), 3 + k) == text[4 * k..4 * k + 4];
  }

  lemma LastPage(head: Head, text: seq<byte>, k: nat)
    requires 4 * k <= |text| < 4 * k + 4
    ensures |UriPages(head, text)| == 4 + k
    ensures UriPages(head, text)[3 + k] == Write(7 + k, text[4 * k..] + [0xFE] + Zeros(3 - (|text| - 4 * k)))
  {
    assert PageAt(Layout(head, text), 3 + k) == text[4 * k..] + [0xFE] + Zeros(3 - (|text| - 4 * k));
  }

  // ---- The writer -----------------------------------------------------------------------------------

  /** The pages that the 888 bytes of user memory of the largest tag, the NTAG216, fill from page 4 on. */
  predicate IsUserPage(page: nat) {
    16 <= 4 * page && 4 * page + 4 <= 16 + 888
  }

  /** How many of `n` commands are sent if the writer stops behind the first one not acknowledged. */
  function Tries(acks: nat -> bool, from: nat, n: nat): (k: nat)
    ensures k <= n
    decreases n
  {
    if n == 0 then 0 else if acks(from) then 1 + Tries(acks, from + 1, n - 1) else 1
  }

  predicate AllAcknowledged(acks: nat -> bool, from: nat, n: nat) {
    forall i :: from <= i < from + n ==> acks(i)
  }

  /** Everything before the last command sent was acknowledged, and if any was not, it is the last. */
  lemma {:induction false} TriesIff(acks: nat -> bool, from: nat, n: nat, k: nat)
    requires 0 < k <= n && AllAcknowledged(acks, from, k - 1)
    ensures Tries(acks, from, n) == k <==> k == n || !acks(from + k - 1)
    decreases n
  {
    if k > 1 {
      assert acks(from);
      TriesIff(acks, from + 1, n - 1, k - 1);
    } else if n > 1 && acks(from) {
      assert Tries(acks, from, n) == 1 + Tries(acks, from + 1, n - 1);
    }
  }

  /** The chip: which of the commands, counted from its start, it acknowledges, and all it was sent. */
  class Writer {
    const acks: nat -> bool
    var sent: seq<Write>

    constructor (acks: nat -> bool)
      ensures this.acks == acks && sent == []
    {
      this.acks := acks;
      sent := [];
    }

    /** `ntag2xx_WritePage`. */
    method WritePage(page: nat, data: array<byte>) returns (ok: bool)
      requires data.Length == 4
      modifies this`sent
      ensures IsUserPage(page) ==> sent == old(sent) + [Write(page, data[..])] && ok == acks(|old(sent)|)
      ensures !IsUserPage(page) ==> !ok && sent == old(sent)
    {
      if page < 4 || page > 225 {
        return false;
      }
      ok := acks(|sent|);
      sent := sent + [Write(page, data[..])];
    }

    /** The next of the pages that are to be written. */
    method WriteNext(ghost start: seq<Write>, ghost pages: seq<Write>, k: nat, data: array<byte>) returns (ok: bool)
      requires k < |pages| && k <= 221 && data.Length == 4 && pages[k] == Write(4 + k, data[..])
      requires sent == start + pages[..k] && AllAcknowledged(acks, |start|, k)
      modifies this`sent
      ensures sent == start + pages[..k + 1]
      ensures ok ==> AllAcknowledged(acks, |start|, k + 1)
      ensures !ok ==> Tries(acks, |start|, |pages|) == k + 1 && !AllAcknowledged(acks, |start|, |pages|)
    {
      ok := WritePage(4 + k, data);
      assert pages[..k + 1] == pages[..k] + [pages[k]];
      TriesIff(acks, |start|, |pages|, k + 1);
    }

    /** All of the pages were sent, or those up to the first that was not acknowledged. */
    predicate Done(start: seq<Write>, pages: seq<Write>, ok: bool)
      reads this
    {
      && sent == start + pages[..Tries(acks, |start|, |pages|)]
      && (ok <==> AllAcknowledged(acks, |start|, |pages|))
    }

    /** `ntag2xx_WriteNDEFURI`: accepted exactly if the URL and its terminator fit; then the pages of the
        layout in order, each once, until one is not acknowledged. */
    method WriteNdefUri(uri: byte, url: seq<byte>, dataLen: nat) returns (ok: bool)
      requires dataLen < 256
      modifies this`sent
      ensures !Accepted(url, dataLen) ==> !ok && sent == old(sent)
      ensures Accepted(url, dataLen) ==>
                Done(old(sent), UriPages(Header(Length(url), uri), Text(url)), ok)
    {
      var len := Length(url);
      if len < 1 || len + 1 > dataLen - 12 {
        return false;
      }
      ok := WritePages(Header(len, uri), url[..len]);
    }

    /** The three pages of the header, then the text. */
    method WritePages(pageHeader: Head, text: seq<byte>) returns (ok: bool)
      requires 1 <= |text| <= 242
      modifies this`sent
      ensures Done(old(sent), UriPages(pageHeader, text), ok)
    {
      ghost var start, pages := sent, UriPages(pageHeader, text);
      HeaderPages(pageHeader, text);
      var pageBuffer := new byte[4](_ => 0);
      Memcpy(pageBuffer, 0, pageHeader[..4]);
      assert pages[0] == pages[..3][0];
      ok := WriteNext(start, pages, 0, pageBuffer);
      if !ok {
        return;
      }
      Memcpy(pageBuffer, 0, pageHeader[4..8]);
      assert pages[1] == pages[..3][1];
      ok := WriteNext(start, pages, 1, pageBuffer);
      if !ok {
        return;
      }
      Memcpy(pageBuffer, 0, pageHeader[8..]);
      assert pages[2] == pages[..3][2];
      ok := WriteNext(start, pages, 2, pageBuffer);
      if !ok {
        return;
      }
      ok := WriteText(start, pageHeader, text, pageBuffer);
    }

    /** The loop over the text, from page 7 on. */
    method WriteText(ghost start: seq<Write>, ghost head: Head, text: seq<byte>, pageBuffer: array<byte>)
      returns (ok: bool)
      requires 1 <= |text| <= 242 && pageBuffer.Length == 4
      requires |UriPages(head, text)| == 4 + |text| / 4
      requires sent == start + UriPages(head, text)[..3] && AllAcknowledged(acks, |start|, 3)
      modifies this`sent, pageBuffer
      ensures Done(start, UriPages(head, text), ok)
    {
      var len, currentPage, copied := |text|, 7, 0;
      while len > 0
        invariant copied == 4 * (currentPage - 7) && copied + len == |text| && currentPage >= 7 && len >= 1
        invariant sent == start + UriPages(head, text)[..currentPage - 4]
        invariant AllAcknowledged(acks, |start|, currentPage - 4)
      {
        if len < 4 {
          ok := WriteEnd(start, head, text, pageBuffer, currentPage - 7);
          return;
        }
        ok := WriteFour(start, head, text, pageBuffer, currentPage - 7);
        if !ok {
          return;
        }
        currentPage := currentPage + 1;
        if len == 4 {
          ok := WriteEnd(start, head, text, pageBuffer, currentPage - 7);
          return;
        }
        copied, len := copied + 4, len - 4;
      }
    }

    /** A page of text. */
    method WriteFour(ghost start: seq<Write>, ghost head: Head, text: seq<byte>, pageBuffer: array<byte>, k: nat)
      returns (ok: bool)
      requires 4 * k + 4 <= |text| <= 242 && pageBuffer.Length == 4
      requires 3 + k < |UriPages(head, text)|
      requires sent == start + UriPages(head, text)[..3 + k] && AllAcknowledged(acks, |start|, 3 + k)
      modifies this`sent, pageBuffer
      ensures ok ==> sent == start + UriPages(head, text)[..4 + k] && AllAcknowledged(acks, |start|, 4 + k)
      ensures !ok ==> Done(start, UriPages(head, text), false)
    {
      TextPage(head, text, k);
      Memcpy(pageBuffer, 0, text[4 * k..4 * k + 4]);
      assert pageBuffer[..] == text[4 * k..4 * k + 4];
      ok := WriteNext(start, UriPages(head, text), 3 + k, pageBuffer);
    }

    /** The last page: what is left of the text, the terminator, and zeros. */
    method WriteEnd(ghost start: seq<Write>, ghost head: Head, text: seq<byte>, pageBuffer: array<byte>, k: nat)
      returns (ok: bool)
      requires 4 * k <= |text| < 4 * k + 4 && |text| <= 242 && pageBuffer.Length == 4
      requires 3 + k <= |UriPages(head, text)|
      requires sent == start + UriPages(head, text)[..3 + k] && AllAcknowledged(acks, |start|, 3 + k)
      modifies this`sent, pageBuffer
      ensures Done(start, UriPages(head, text), ok)
    {
      LastPage(head, text, k);
      FillLast(pageBuffer, text[4 * k..]);
      ok := WriteNext(start, UriPages(head, text), 3 + k, pageBuffer);
      TriesIff(acks, |start|, 4 + k, 4 + k);
    }
  }

  method FillLast(pageBuffer: array<byte>, rest: seq<byte>)
    requires pageBuffer.Length == 4 && |rest| < 4
    modifies pageBuffer
    ensures pageBuffer[..] == rest + [0xFE] + Zeros(3 - |rest|)
  {
    Memcpy(pageBuffer, 0, Zeros(4));
    assert forall i :: 0 <= i < 4 ==> pageBuffer[..4][i] == 0;
    Memcpy(pageBuffer, 0, rest);
    pageBuffer[|rest|] := 0xFE;
    assert pageBuffer[..|rest|] == rest;
  }

  // ---- The tag ------------------------------------------------------------------------------------------

  /** A tag that carries out the writes it is sent. */
  function Apply(memory: seq<byte>, writes: seq<Write>): (m: seq<byte>)
    requires forall w <- writes :: 4 * w.page + 4 <= |memory|
    ensures |m| == |memory|
  {
    if |writes| == 0 then memory else
      var before := Apply(memory, writes[..|writes| - 1]);
      var w := writes[|writes| - 1];
      before[..4 * w.page] + w.data + before[4 * w.page + 4..]
  }

  /** After `k` pages of a layout the memory from page 4 on holds that much of it, and nothing else has
      changed. */
  lemma {:induction false} PagesApplied(memory: seq<byte>, s: seq<byte>, k: nat)
    requires k <= |s| / 4 && 16 + |s| <= |memory|
    ensures forall w <- Pages(s)[..k] :: 4 * w.page + 4 <= |memory|
    ensures Apply(memory, Pages(s)[..k]) == memory[..16] + s[..4 * k] + memory[16 + 4 * k..]
  {
    if k == 0 {
      assert memory == memory[..16] + s[..0] + memory[16..];
    } else {
      PagesApplied(memory, s, k - 1);
      var writes := Pages(s)[..k];
      assert writes[..k - 1] == Pages(s)[..k - 1];
      OnePageMore(memory, s, k - 1);
    }
  }

  lemma OnePageMore(memory: seq<byte>, s: seq<byte>, k: nat)
    requires 4 * k + 4 <= |s| && 16 + |s| <= |memory|
    ensures var before := memory[..16] + s[..4 * k] + memory[16 + 4 * k..];
            before[..16 + 4 * k] + PageAt(s, k) + before[16 + 4 * k + 4..]
            == memory[..16] + s[..4 * k + 4] + memory[16 + 4 * k + 4..]
  {
    var before := memory[..16] + s[..4 * k] + memory[16 + 4 * k..];
    assert before[..16 + 4 * k] == memory[..16] + s[..4 * k];
    assert before[16 + 4 * k + 4..] == memory[16 + 4 * k + 4..];
    assert s[..4 * k + 4] == s[..4 * k] + PageAt(s, k);
  }

  // ---- The reader ---------------------------------------------------------------------------------------

  /** The first NDEF message among the TLV blocks of a Type 2 tag. */
  function FindMessage(s: seq<byte>): Option<seq<byte>> {
    if |s| == 0 || s[0] == 0xFE then None
    else if s[0] == 0x00 then FindMessage(s[1..])
    else if |s| < 2 || (s[1] == 0xFF && |s| < 4) then None
    else
      var from := if s[1] == 0xFF then 4 else 2;
      var length := if s[1] == 0xFF then s[2] as int * 256 + s[3] as int else s[1] as int;
      if |s| < from + length then None
      else if s[0] == 0x03 then Some(s[from..from + length])
      else FindMessage(s[from + length..])
  }

  /** A message that is one short record of the well-known type U: its prefix code and the rest of the URI. */
  function ParseUri(m: seq<byte>): Option<(byte, seq<byte>)> {
    if |m| < 5 || m[..2] != [0xD1, 0x01] || m[2] as int + 4 != |m| || m[3] != 0x55 then None
    else Some((m[4], m[5..]))
  }

  function ReadUri(memory: seq<byte>): Option<(byte, seq<byte>)>
    requires |memory| >= 16
  {
    var m := FindMessage(memory[16..]);
    if m.None? then None else ParseUri(m.value)
  }

  lemma FindHere(len: byte, m: seq<byte>, rest: seq<byte>)
    requires len as int == |m| && len != 0xFF
    ensures FindMessage([0x03, len] + m + rest) == Some(m)
  {
    var s := [0x03, len] + m + rest;
    assert s[2..2 + |m|] == m;
  }

  lemma FindBehindLockControl(s: seq<byte>)
    ensures FindMessage([0x01, 0x03, 0xA0, 0x10, 0x44] + s) == FindMessage(s)
  {
    assert ([0x01, 0x03, 0xA0, 0x10, 0x44] + s)[5..] == s;
  }

  lemma Regroup(lock: seq<byte>, tl: seq<byte>, record: seq<byte>, text: seq<byte>, rest: seq<byte>)
    ensures lock + tl + record + text + rest == lock + (tl + (record + text) + rest)
  {
  }

  lemma ParseRecord(payload: byte, uri: byte, text: seq<byte>)
    requires payload as int == |text| + 1
    ensures ParseUri([0xD1, 0x01, payload, 0x55, uri] + text) == Some((uri, text))
  {
    var m := [0xD1, 0x01, payload, 0x55, uri] + text;
    assert m[5..] == text && m[..2] == [0xD1, 0x01];
  }

  lemma FindInLayout(len: byte, payload: byte, uri: byte, text: seq<byte>, rest: seq<byte>)
    requires len as int == |text| + 5 && len != 0xFF
    ensures FindMessage([0x01, 0x03, 0xA0, 0x10, 0x44, 0x03, len, 0xD1, 0x01, payload, 0x55, uri] + text + rest)
         == Some([0xD1, 0x01, payload, 0x55, uri] + text)
  {
    var lock, tl, record := [0x01, 0x03, 0xA0, 0x10, 0x44], [0x03, len], [0xD1, 0x01, payload, 0x55, uri];
    assert [0x01, 0x03, 0xA0, 0x10, 0x44, 0x03, len, 0xD1, 0x01, payload, 0x55, uri] == lock + tl + record;
    Regroup(lock, tl, record, text, rest);
    FindBehindLockControl(tl + (record + text) + rest);
    FindHere(len, record + text, rest);
  }

  lemma HeaderRead(uri: byte, text: seq<byte>, rest: seq<byte>)
    requires |text| <= 242
    ensures var m := FindMessage(Header(|text|, uri) + text + rest);
            m.Some? && ParseUri(m.value) == Some((uri, text))
  {
    ToByteSmall(|text| + 5);
    FindInLayout(ToByte(|text| + 5), ToByte(|text| + 1), uri, text, rest);
    ParseRecord(ToByte(|text| + 1), uri, text) by {
      ToByteSmall(|text| + 1);
    }
  }

  /** What the tag holds after all pages of a layout. */
  function Written(memory: seq<byte>, head: Head, text: seq<byte>): seq<byte>
    requires 32 + |text| <= |memory|
  {
    var s := Layout(head, text);
    PagesApplied(memory, s, |s| / 4);
    assert UriPages(head, text)[..|s| / 4] == UriPages(head, text);
    Apply(memory, UriPages(head, text))
  }

  lemma WrittenIs(memory: seq<byte>, head: Head, text: seq<byte>)
    requires 32 + |text| <= |memory|
    ensures Written(memory, head, text)
         == memory[..16] + Layout(head, text) + memory[16 + |Layout(head, text)|..]
  {
    var s := Layout(head, text);
    PagesApplied(memory, s, |s| / 4);
    assert UriPages(head, text)[..|s| / 4] == UriPages(head, text);
    assert s[..4 * (|s| / 4)] == s;
  }

  /** What the tag holds after the first `k` pages of a layout, where a write may have stopped. */
  function WrittenTo(memory: seq<byte>, head: Head, text: seq<byte>, k: nat): seq<byte>
    requires 32 + |text| <= |memory| && k <= |UriPages(head, text)|
  {
    PagesApplied(memory, Layout(head, text), k);
    Apply(memory, UriPages(head, text)[..k])
  }

  /** Wherever it stops, a write stays inside the data area, rounded up to whole pages: there the tag has the
      layout up to the page it stopped at, and everything else is as it was. */
  lemma StaysInArea(memory: seq<byte>, head: Head, text: seq<byte>, dataLen: nat, k: nat)
    requires |text| + 13 <= dataLen && 32 + |text| <= |memory| && k <= |UriPages(head, text)|
    ensures var m := WrittenTo(memory, head, text, k);
            var end := 16 + (dataLen + 3) / 4 * 4;
            && |m| == |memory| && 16 + 4 * k <= end
            && m[..16] == memory[..16]
            && m[16..16 + 4 * k] == Layout(head, text)[..4 * k]
            && m[16 + 4 * k..] == memory[16 + 4 * k..]
            && (end <= |memory| ==> m[end..] == memory[end..])
  {
    var s := Layout(head, text);
    PagesApplied(memory, s, k);
    ThreeParts(memory, s[..4 * k]);
    WithinArea(|text|, k, dataLen);
    var end := 16 + (dataLen + 3) / 4 * 4;
    if end <= |memory| {
      assert memory[end..] == memory[16 + 4 * k..][end - 16 - 4 * k..];
    }
  }

  lemma WithinArea(n: nat, k: nat, dataLen: nat)
    requires n + 13 <= dataLen && k <= (13 + n + 3) / 4
    ensures 4 * k <= (dataLen + 3) / 4 * 4
  {
  }

  lemma ThreeParts(memory: seq<byte>, s: seq<byte>)
    requires 16 + |s| <= |memory|
    ensures var m := memory[..16] + s + memory[16 + |s|..];
            m[..16] == memory[..16] && m[16..16 + |s|] == s && m[16 + |s|..] == memory[16 + |s|..]
  {
  }

  lemma BehindFixedPages(fixed: seq<byte>, head: Head, text: seq<byte>, end: seq<byte>, rest: seq<byte>)
    requires |fixed| == 16
    ensures (fixed + (head + text + end) + rest)[16..] == head + text + (end + rest)
  {
  }

  lemma TextRead(memory: seq<byte>, uri: byte, text: seq<byte>)
    requires 32 + |text| <= |memory| && |text| <= 242
    ensures ReadUri(Written(memory, Header(|text|, uri), text)) == Some((uri, text))
  {
    var head := Header(|text|, uri);
    WrittenIs(memory, head, text);
    ghost var rest := [0xFE] + Zeros(3 - |text| % 4) + memory[16 + |Layout(head, text)|..];
    BehindFixedPages(memory[..16], head, text, [0xFE] + Zeros(3 - |text| % 4), memory[16 + |Layout(head, text)|..]);
    HeaderRead(uri, text, rest);
  }

  // ---- All of the TLV blocks ------------------------------------------------------------------------------

  /** All NDEF messages up to the terminator; without one, or with a block that is cut off, the memory is not well
      formed. */
  function Messages(s: seq<byte>): Option<seq<seq<byte>>> {
    if |s| == 0 then None
    else if s[0] == 0xFE then Some([])
    else if s[0] == 0x00 then Messages(s[1..])
    else if |s| < 2 || (s[1] == 0xFF && |s| < 4) then None
    else
      var from := if s[1] == 0xFF then 4 else 2;
      var length := if s[1] == 0xFF then s[2] as int * 256 + s[3] as int else s[1] as int;
      if |s| < from + length then None else
        var rest := Messages(s[from + length..]);
        if rest.None? || s[0] != 0x03 then rest else Some([s[from..from + length]] + rest.value)
  }

  /** What a lock control block says: the address of the lock bytes, how many lock bits there are, and how many bytes
      each of them locks (section 2.3.2 of the Type 2 Tag specification). */
  function LockControl(s: seq<byte>): Option<(nat, nat, nat)> {
    if |s| < 5 || s[0] != 0x01 || s[1] != 0x03 then None
    else Some(LockBytes(s[2] as nat, s[3] as nat, s[4] as nat))
  }

  function LockBytes(position: nat, size: nat, control: nat): (nat, nat, nat) {
    (position / 16 * PowerOfTwo(control % 16) + position % 16, size, PowerOfTwo(control / 16))
  }

  function PowerOfTwo(n: nat): nat {
    if n == 0 then 1 else 2 * PowerOfTwo(n - 1)
  }

  lemma MessageThenEnd(len: byte, m: seq<byte>, rest: seq<byte>)
    requires len as int == |m| && len != 0xFF
    ensures Messages([0x03, len] + m + ([0xFE] + rest)) == Some([m])
  {
    var s := [0x03, len] + m + ([0xFE] + rest);
    assert s[0] == 0x03 && s[1] == len && |s| >= 2 + |m|;
    assert s[2..2 + |m|] == m && s[2 + |m|..] == [0xFE] + rest;
    assert Messages(s[2 + |m|..]) == Some([]);
    assert [m] + [] == [m];
  }

  lemma MessagesBehindLockControl(s: seq<byte>)
    ensures Messages([0x01, 0x03, 0xA0, 0x10, 0x44] + s) == Messages(s)
    ensures LockControl([0x01, 0x03, 0xA0, 0x10, 0x44] + s) == Some((160, 16, 16))
  {
    assert ([0x01, 0x03, 0xA0, 0x10, 0x44] + s)[5..] == s;
    assert PowerOfTwo(4) == 16;
  }

  /** A lock control block for sixteen lock bits at address 160 of which each locks 16 bytes, and one message. */
  predicate Holds(s: seq<byte>, m: seq<byte>) {
    LockControl(s) == Some((160, 16, 16)) && Messages(s) == Some([m])
  }

  lemma OnlyInLayout(len: byte, payload: byte, uri: byte, text: seq<byte>, rest: seq<byte>)
    requires len as int == |text| + 5 && len != 0xFF
    ensures var head := [0x01, 0x03, 0xA0, 0x10, 0x44, 0x03, len, 0xD1, 0x01, payload, 0x55, uri];
            var s := head + text + ([0xFE] + rest);
            Holds(s, [0xD1, 0x01, payload, 0x55, uri] + text)
  {
    var lock, tl, record := [0x01, 0x03, 0xA0, 0x10, 0x44], [0x03, len], [0xD1, 0x01, payload, 0x55, uri];
    assert [0x01, 0x03, 0xA0, 0x10, 0x44, 0x03, len, 0xD1, 0x01, payload, 0x55, uri] == lock + tl + record;
    Regroup(lock, tl, record, text, [0xFE] + rest);
    MessagesBehindLockControl(tl + (record + text) + ([0xFE] + rest));
    MessageThenEnd(len, record + text, rest);
  }

  /** The memory after a write: its blocks, the terminator, and zeros up to the end of its page. */
  predicate WellFormed(memory: seq<byte>, m: seq<byte>) {
    |memory| >= 24 + |m| && Holds(memory[16..], m) && ZeroToPageEnd(memory, 24 + |m|)
  }

  predicate ZeroToPageEnd(memory: seq<byte>, from: nat) {
    forall i :: from <= i < |memory| && i / 4 == (from - 1) / 4 ==> memory[i] == 0
  }

  /** Every accepted URL leaves the tag well formed, with one record and nothing else. */
  lemma WrittenWellFormed(memory: seq<byte>, uri: byte, text: seq<byte>)
    requires 32 + |text| <= |memory| && |text| <= 242
    ensures WellFormed(Written(memory, Header(|text|, uri), text),
                       [0xD1, 0x01, ToByte(|text| + 1), 0x55, uri] + text)
  {
    var head := Header(|text|, uri);
    var zeros, rest := Zeros(3 - |text| % 4), memory[16 + |Layout(head, text)|..];
    WrittenIs(memory, head, text);
    ToByteSmall(|text| + 5);
    OnlyInLayout(ToByte(|text| + 5), ToByte(|text| + 1), uri, text, zeros + rest);
    PartsWellFormed(memory[..16], head, text, zeros, rest, Written(memory, head, text),
                    [0xD1, 0x01, ToByte(|text| + 1), 0x55, uri] + text);
  }

  lemma PartsWellFormed(fixed: seq<byte>, head: Head, text: seq<byte>, zeros: seq<byte>, rest: seq<byte>,
    memory: seq<byte>, m: seq<byte>)
    requires |fixed| == 16 && |m| == |text| + 5 && zeros == Zeros(3 - |text| % 4)
    requires memory == fixed + (head + text + ([0xFE] + zeros)) + rest
    requires Holds(head + text + ([0xFE] + (zeros + rest)), m)
    ensures WellFormed(memory, m)
  {
    Regrouped(fixed, head, text, zeros, rest, memory);
    ZerosBehind(fixed + head + text + [0xFE], zeros, rest, memory);
  }

  lemma Regrouped(fixed: seq<byte>, head: Head, text: seq<byte>, zeros: seq<byte>, rest: seq<byte>, m: seq<byte>)
    requires |fixed| == 16 && m == fixed + (head + text + ([0xFE] + zeros)) + rest
    ensures m[16..] == head + text + ([0xFE] + (zeros + rest))
    ensures m == (fixed + head + text + [0xFE]) + zeros + rest
  {
  }

  lemma ZerosBehind(front: seq<byte>, zeros: seq<byte>, rest: seq<byte>, m: seq<byte>)
    requires m == front + zeros + rest && |front| > 0 && |zeros| == (4 - |front| % 4) % 4
    requires forall i :: 0 <= i < |zeros| ==> zeros[i] == 0
    ensures ZeroToPageEnd(m, |front|)
  {
    forall i | |front| <= i < |m| && i / 4 == (|front| - 1) / 4 ensures m[i] == 0 {
      assert i < |front| + |zeros|;
      assert m[i] == zeros[i - |front|];
    }
  }

  /** What the reader finds after the pages for a URL. */
  function FoundAfter(memory: seq<byte>, uri: byte, text: seq<byte>): Option<(byte, seq<byte>)>
    requires 32 + |text| <= |memory|
  {
    ReadUri(Written(memory, Header(|text|, uri), text))
  }

  /** Of every accepted URL the reader finds the prefix code and the URL, cut to its length modulo 256; so it
      finds the URL that was given exactly if that has at most 255 bytes. */
  lemma UriRoundTripIff(memory: seq<byte>, uri: byte, url: seq<byte>, dataLen: nat)
    requires Accepted(url, dataLen) && dataLen < 256 && 32 + Length(url) <= |memory|
    ensures FoundAfter(memory, uri, Text(url)) == Some((uri, Text(url)))
    ensures FoundAfter(memory, uri, Text(url)) == Some((uri, url)) <==> |url| <= 255
  {
    TextRead(memory, uri, Text(url));
  }
}
