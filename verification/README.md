# Verified model of the NTAG 424 and NFC reader protocol code

The library talks to NFC tags through an MFRC522 or a PN532. This project models the parts of it that
hold protocol logic, each against a small functional model of the other end, and proves what they are for.

* **Secure messaging** (`Apdu`, `Card`, `Core`, `LossyRuns`, `Sessions`, `Authentication`, `Commands`,
  `Freshness`). The host builds APDUs in a byte array and keeps its session in an object; the card is a
  function. Commands and replies survive the trip in PLAIN, MAC and FULL mode, and host and card stay in step
  over whole runs, past the wrap of the host's signed 16-bit counter. With losses they stay in step exactly as
  long as no reply is missed. Whatever the counters are, a missed reply to a PLAIN command puts the card one
  further ahead, and a command that the card refuses puts it one less ahead. The EV2 handshake brings both
  sides to the same session. What is signed, and what encryption starts from, is told apart by everything it
  is made of.
* **Cryptographic layer** (`AesCmac`, `BlockCipher`, `CipherSuite`, `Padding`). The block cipher is a pair of
  functions of which one undoes the other; nothing else about AES is used. CBC, padding and AES-CMAC are
  built on it, the in-place loops proved against the definitions of RFC 4493.
* **Checksums and keys** (`ShiftRegisters`, `Crc32`, `CrcPolynomial`, `ChangeKey`). The CRC-32 loop is an instance
  of a linear, injective register, and computes a polynomial remainder; what it detects decides when a ChangeKey
  with a wrong old key must fail.
* **Chunked transfers** (`Files`, `Format`): writes, reads and formatting against a card file, with commands
  and answers refused or lost anywhere.
* **ISO-DEP** (`IsoDep`, `Picc`, `IsoDepRuns`). The reader's nested retry loops against a card that keeps the
  block handling rules, behind a field with an arbitrary schedule of losses.
* **Select** (`Select`, `SingleTag`). Cascade and anticollision loops for an arbitrary field, and against one
  tag.
* **PN532 and NTAG2xx** (`Pn532`, `NdefUri`): frame writers, frame decoder, and the URI writer against a
  reader of Type 2 tags.
* **Secure messaging over both** (`Transports`): runs over the PN532's frames, and over ISO-DEP calls with losses
  on the air.

`Octets`, `Bytes`, `Readers` and `Mfrc522` hold what these share. Code that works in place is modelled in
place: arrays, loops, classes whose methods change their fields. Every such method is proved equal to a
function of its inputs and the old state, and the properties are lemmas about those functions.

## How the outside is modelled

* Each other end is written from its own standard or data sheet: cards, tags and receivers have their own byte
  layouts, codes and polynomials, as literals, and share with the host only CBC and CMAC, which are given by
  their standards too, and the parts of an ISO-DEP prologue (`Picc.BlocksCoded`, `Picc.BlocksTold`).
* A reader, a chip or a field is any function from its state and a frame to a new state and an answer. Its
  methods keep that state; nothing is assumed of it except where a theorem names a card or a tag behind it.
* The random number of the handshake is a parameter. Delays, debug output and key-setup failures of the
  cipher library are not modelled.
* Buffers that the source only reads are sequences. An input that is null is a separate case with
  its length; a null output or reader is a null reference.
* Integers are unbounded, and every 8-, 16- and 32-bit truncation that can matter is written out.
* The CRC coprocessor of the MFRC522 either computes one fixed function or times out, throughout a call.

## Where the code is defined, and where it falls short

These are properties of the code as it stands; the lemmas state the exact conditions.

* The MAC over a command is built in 48 bytes and the result of that step is ignored. With more than 41 bytes
  of header and protected data the APDU carries whatever was in the buffer (`Sessions.MacIsWrittenIff`), so
  the round trips are stated below that.
* Three lengths are computed in 8 bits and wrap. `Apdu.GuardIsExactIff`, `Sessions.MacGuardIsExactIff` and
  `IsoDep.RoomIsExactIff` say for which inputs each check still tells whether these fit; beyond them the code
  writes past its buffer, for instance with 255 bytes in a plain I-block (`IsoDep.RoomOverruns`). The methods
  require no more than that the check is exact. FULL mode pads in 80 bytes, so its data has at most 79.
* A response of less than ten bytes is accepted in MAC and FULL mode without a MAC and is counted
  (`Apdu.AcceptedIff`); a bare 91 00 makes a ChangeKey succeed (`ChangeKey.BareStatusPasses`).
* In MAC mode, and in FULL mode with an empty reply, the eight MAC bytes stay in what the caller gets. A value
  read by `ntag424_read_simple_full_response` is right only for 1 to 15 bytes (`Commands.SimpleReadIff`).
* The handshake does not compare the random number that the card returns. A peer without the key gets a
  session opened (`Authentication.ImpostorSucceeds`); against a card that follows the protocol, with whatever
  key, the host opens one exactly if the card does (`Authentication.HandshakeOpensIff`). EV2NonFirst is sent
  like EV2First and never opens one (`Authentication.NonFirstFails`).
* A read of an NDEF message that still wants a multiple of 256 bytes asks with Le 0, and fails if the card then gives
  more than 54 bytes (`Files.PageIff`); so only messages below 256 bytes can be read from every card
  (`Files.EveryCardReadsIff`), and from one that gives all it is asked for (`Files.ReadSucceedsIff`). A card that gives
  the two length bytes one at a time cannot be read (`Files.ReadReturnsFile`). The read copies whatever a page brings,
  and a peer can make it run past the bytes wanted exactly if it ever gives more than an Le of 1 to 48 asks for
  (`Files.NeverOverrunsIff`, `Files.TalkativeOverruns`).
* Formatting takes 38 writes (`Format.EndsIff`), though the first six already cover the file
  (`Format.SixCoverIff`).
* An ISO-DEP call that fails after its I-block arrived leaves both sides with the same block number
  (`IsoDepRuns.NumbersStayApartIff`); a later lost I-block then brings a stale answer
  (`IsoDepRuns.StaleRun`, `IsoDepRuns.SoundIff`). Secure messaging over it does not notice: the MAC of a reply says
  nothing of its command (`Transports.StaleLink`).
* An ISO-DEP call whose I-block is lost ends in a success without data exactly if one of its R(NAK) arrives
  (`IsoDepRuns.LostBlockIff`). If the numbers were apart the caller can tell by the empty reply
  (`IsoDepRuns.SuccessRanIff`); if they were equal an empty success may hide a command that ran
  (`IsoDepRuns.EmptyThoughRun`).
* The counter of a host that missed a reply is behind, and a command that is refused with a bare 91 1E is counted by the
  host alone (`LossyRuns.PlainRunAhead`, `LossyRuns.RefusalCounted`). Over a PN532 replies of more than 54 bytes are
  missed (`Transports.Pn532InStepIff`).
* The reader answers a request for more time from a buffer that has gone out of scope. The model answers with
  the value that was received.
* A UID whose last level begins with 88 loses that byte (`SingleTag.SingleTagIff`). Bits of a byte that is known in
  part are cleared when the rest of it is received, so a select that begins with them fails
  (`SingleTag.KnownBitsIff`); and after some collisions the wrong bit is set (`SingleTag.ResolvedIff`).
* A URL of 256 bytes or more is taken modulo 256 (`NdefUri.UriRoundTripIff`), and a PN532 command of 255 bytes
  is sent without its data on SPI (`Pn532.WritersAgreeIff`, `Pn532.SpiOf255`).

## Model

| member | source | states |
|---|---|---|
| AesCmac.XorBlock | aescmac.cpp:6-12 | the output is the byte-wise exclusive or of the inputs as they were, also where it overwrites one of them |
| AesCmac.ShiftLeftLoop | aescmac.cpp:14-20 | the carry loop leaves the one-bit left shift of the input and nothing else |
| AesCmac.ShiftLeftDoubles | aescmac.cpp:14-20 | read as a big-endian number, the shifted string is the double modulo 2 to the number of bits, for every length; the top bit tells whether something was lost |
| AesCmac.DoubleInto | aescmac.cpp:32-39 | one subkey step leaves `Double` of the block, which `AesCmac.DoubleIs` gives by arithmetic |
| AesCmac.DoubleIs | aescmac.cpp:32-39 | for every block: the block of twice its number if that is below 2^128, and otherwise the block of twice the number less 2^128, with its last byte folded with 87 (section 2.3 of RFC 4493) |
| AesCmac.FillLastBlock | aescmac.cpp:42-58 | a whole last block is masked with K1, a partial or missing one is padded and masked with K2 |
| AesCmac.ChainBlocks | aescmac.cpp:60-66 | the block loop leaves in `buffer` the last block masked with the chaining value of the blocks before it |
| AesCmac.Aes128Cmac | aescmac.cpp:21-70 | for every length, 0 and multiples of 16 included, the output is the CMAC of section 2.4 of RFC 4493 |
| AesCmac.CmacIsLastCbcBlock | aescmac.cpp:60-67 | an independent reading: that CMAC is the last block of a plain CBC encryption of the message with its last block masked |
| AesCmac.CmacIsRfc4493 | aescmac.cpp:21-70 | the MAC is section 2.4 of RFC 4493 as written: subkeys by that arithmetic, last block whole under the first or marked and filled up under the second, last block of a CBC encryption |
| BlockCipher.Encrypt | ntag424_crypto.cpp:88-100 | CBC encryption of whole blocks; a partial block leaves the output alone, and success is reported all the same |
| BlockCipher.Decrypt | ntag424_crypto.cpp:109-123 | CBC decryption of whole blocks; a partial block is refused |
| BlockCipher.CbcInverse | ntag424_crypto.cpp:88-123 | decryption undoes encryption under the same key and vector, for any number of blocks |
| BlockCipher.CbcBlockAt | ntag424_crypto.cpp:88-100 | every block of ciphertext is the encryption of its plaintext and the block of ciphertext before it, or the vector |
| Padding.AddPadding | ntag424_crypto.cpp:71-79 | the buffer holds the input padded by method 2 of ISO/IEC 9797-1; the length comes back modulo 256 |
| Padding.StripPadding | ntag424_apdu.cpp:245-257 | the backward loop finds the length that the strip rule defines |
| Padding.StripIs | ntag424_apdu.cpp:245-257 | exactly what the strip rule takes off any string: zeros, or one 80 and zeros, and all of them |
| Padding.StripUndoesPad | ntag424_apdu.cpp:245-257 | the strip rule finds the original length of every padded string, also one that ends in 00 or 80 bytes itself |
| Padding.StripUndoesPadThroughCbc | ntag424_apdu.cpp:240-257 | the same through encryption and decryption of any number of blocks |
| CipherSuite.CmacShortLoop | ntag424_crypto.cpp:125-134 | the truncated MAC is the odd bytes of the CMAC, in order |
| Freshness.CounterBytesIff | ntag424_crypto.cpp:177-190 | the two counter bytes of a signed counter tell counters apart exactly modulo 2^16 |
| Freshness.MacMessageIff | ntag424_crypto.cpp:196-216 | two strings to be signed are the same exactly if command, identifier and header with data are, and the counters agree modulo 2^16 |
| Freshness.VectorsFreshIff | ntag424_apdu.cpp:123-131 | under one key, vectors of commands (and of responses) are the same exactly if identifier and counter modulo 2^16 are; a command vector is never a response vector |
| Freshness.NoVectorTwice | ntag424_apdu.cpp:123-131 | no two of the first 65536 commands of a session are encrypted under the same vector |
| Freshness.SessionVectorIff | ntag424_crypto.cpp:229-271 | with one random number fixed, the vector of a session key decides the other; the vectors of the two keys never meet |
| Sessions.Mac | ntag424_crypto.cpp:168-223 | wherever the 8-bit length tells whether the message fits 48 bytes: the signature over command, counter, identifier, header and data if it fits and there is a session, and otherwise the buffer as it was |
| Sessions.MacGuardIsExactIff | ntag424_crypto.cpp:196-203 | the 8-bit length tells whether the message fits exactly for header and data of up to 248 bytes together, or of 298 to 504 |
| Sessions.MacIsWrittenIff | ntag424_crypto.cpp:196-203 | a command carries its MAC, whatever was in the buffer, exactly if header and protected data have at most 41 bytes together |
| Sessions.DeriveSessionKeys | ntag424_crypto.cpp:225-288 | both session keys are the CMAC of the vectors laid out from the two random numbers |
| Sessions.Rotl | ntag424_crypto.cpp:302-328 | left rotation, refused for more than 16 places or more than the length |
| Apdu.GuardIsExactIff | ntag424_apdu.cpp:16-31 | the 8-bit guard tells whether an input fits exactly if its length is within the capacity or the offset is above the wrapped difference |
| Apdu.CopyInputIfPresent | ntag424_apdu.cpp:16-31 | wherever the guard is exact, or there is no input: appended or refused exactly as it fits, and nothing behind the capacity is written |
| Apdu.BuildApdu | ntag424_apdu.cpp:63-176 | for every call in which the source stays inside its buffers, the refused ones included: 0 or the whole APDU; which of the two is decided by mode, session and length alone; in a secured mode its MAC signs the command; nothing past byte 80 is written |
| Apdu.OtherModeFrame | ntag424_apdu.cpp:77-175 | in a mode that the source does not know the header travels alone, although Lc counts the data too |
| Apdu.ProcessResponse | ntag424_apdu.cpp:178-275 | returns 0 and leaves the session alone, or returns exactly the opened response and counts the command |
| Apdu.CountedIff | ntag424_apdu.cpp:265-273 | an accepted response moves the counter, by one and nothing else, exactly if the session is authenticated |
| Apdu.CheckResponseMac | ntag424_apdu.cpp:195-224 | accepts exactly the responses whose eight MAC bytes sign status byte, next counter, identifier and data |
| Apdu.AcceptedIff | ntag424_apdu.cpp:195-224 | in a secured mode, exactly these are accepted: responses of ten bytes or more that carry their MAC, with whole blocks of data in FULL mode, and any response of less than ten bytes, which is taken as it is and without a MAC |
| Card.FrameSplits | ntag424_apdu.cpp:77-175 | CLA, INS, P1 and P2 stand first, the length byte leads a parser to exactly header, protected data and MAC, and Le is last unless the command is D6 |
| Card.StripAgreesWithUnpad | ntag424_apdu.cpp:245-257 | where a strict receiver accepts the padding, the lenient loop cuts at the same place |
| Card.CommandRoundTrip | ntag424_apdu.cpp:111-176 | a card that lays out its own MAC input and vector byte by byte, and is in step, verifies the MAC and recovers exactly head, header and data, in every mode, for header and protected data of at most 41 bytes |
| Card.ReplyRoundTrip | ntag424_apdu.cpp:195-263 | of such a card the host opens every reply that has at most 80 bytes on the wire, to the reply and the status word, and refuses any longer one |
| Card.ReplyFitsIff | ntag424_apdu.cpp:191-193 | which replies these are, by mode and length: at most 63 bytes of plaintext in FULL mode |
| Core.SendApdu | ntag424_core.cpp:37-75 | what a command does to reader, session and result buffer, in terms of the frame sent and the response opened; a failed call leaves the buffer alone |
| Core.SentWithHostMac | ntag424_core.cpp:37-75 | within the domain in which a MAC is written, the MAC that `SendApdu` sends is the one the theorems about runs speak of |
| Core.CardAnswers | ntag424_core.cpp:37-75 | a card in step accepts the command sent, and the host opens its answer |
| Core.DroppedInStep | ntag424_core.cpp:37-75 | a reply that is opened and for which the caller has no room: the caller gets nothing, and both sides have counted the command |
| Core.RunAgrees | ntag424_apdu.cpp:265-273 | over every run of lossless commands in any mix of modes, past any wrap of the signed counter: every command arrives, every reply comes back, and both counters equal the length of the run modulo 2^16 |
| LossyRuns.SyncedAfterIff | ntag424_apdu.cpp:265-273 | after an exchange in which the command or the reply may be lost, host and card are in step exactly if the command was lost or the host opened the reply; otherwise the card is exactly one ahead |
| LossyRuns.InStepThroughoutIff | ntag424_apdu.cpp:265-273 | over every run, whatever is lost: host and card are in step before each exchange and at the end exactly if the reply to every command that arrives is opened |
| LossyRuns.LossyRunAgrees | ntag424_apdu.cpp:265-273 | over every run in which commands are lost but no reply is, host and card stay in step, and the card has exactly the commands that were not lost |
| LossyRuns.PlainRunAhead | ntag424_apdu.cpp:265-273 | over every run of PLAIN commands, from any counters and whatever is lost: the card has exactly the commands that arrived, in order, and is as many further ahead as replies were missed, modulo 2^16 |
| LossyRuns.RefusalCounted | ntag424_apdu.cpp:195-273 | a command that the card refuses with a bare 91 1E is counted by the host and not by the card |
| LossyRuns.RefusalMends | ntag424_apdu.cpp:195-273 | a missed reply and then a refused command leave host and card in step, with the first command on the card and the second not |
| Commands.ReadSimpleFullResponse | ntag424_apdu.cpp:277-306 | the FULL-mode read in terms of frame and opened response, with its 34-byte buffers; reader and session move the same way when there is no buffer to copy to |
| Commands.SimpleReadIff | ntag424_apdu.cpp:277-306 | against a card in step, behind a reader that refuses an answer longer than the room and behind one that cuts it, the caller gets the card's value exactly if it has 1 to 15 bytes; of an empty one it gets the eight MAC bytes, of a longer one nothing |
| Commands.SimpleReadDelivers | ntag424_apdu.cpp:277-306 | and the card has received 90, the instruction, 00 00 and nothing else, once |
| Commands.CopyResponseDataIfStatus | ntag424_apdu.cpp:48-61 | the data in front of the expected status word, or nothing |
| Commands.IsoSelectFile | ntag424_apdu.cpp:308-335 | the SELECT command and its status, in terms of the frame sent; without data nothing is sent |
| Commands.SelectedIff | ntag424_apdu.cpp:308-335 | for any peer: the select succeeds exactly if the answer ends in 90 00 with at most ten bytes in front of it |
| Authentication.Authenticate | ntag424_core.cpp:110-244 | the whole handshake in terms of what the reader answers; a call that fails leaves the session as it was, whatever the reader does |
| Authentication.AskForChallenge | ntag424_core.cpp:150-188 | the retry loop asks until it is challenged or refused, at most 51 times |
| Authentication.AskOutlasts | ntag424_core.cpp:158-188 | it outlasts exactly the delays that are fewer than its tries, and leaves the card with the rest; the card reads the key number from the frame and challenges under that key |
| Authentication.HandshakeOpensIff | ntag424_core.cpp:110-244 | for any keys on either side and all random values: the host opens a session exactly if the card does, and that is if the card has a key of the number asked for, answers the SELECT with at most 14 bytes of information, delays at most 50 times, and finds its own random number in the host's token under that key; otherwise the card keeps the session it had |
| Authentication.AuthenticationAgreesIff | ntag424_core.cpp:110-244 | for every key number that the card has, and all random values: a host with that key and the card end with the same identifier, counter 0 and the same session keys, and the host with the card's capabilities, exactly if the card delays at most 50 times and its answer to the SELECT can be read; otherwise the host opens none and the card keeps what it had |
| Authentication.NonFirstFails | ntag424_core.cpp:110-244 | the command EV2NonFirst never opens a session on the host, for any two keys; a card that has a session and is convinced takes the new keys all the same |
| Authentication.ImpostorSucceeds | ntag424_core.cpp:227-243 | a peer without any key, that answers 16 and then 32 bytes of any content, makes the handshake succeed: the random number that comes back is not looked at |
| Authentication.AuthenticatedRunAgrees | ntag424_core.cpp:232-243 | from the handshake on, host and card stay in step through every run of commands |
| Crc32.Calc | ntag424_crypto.cpp:43-53 | the loop computes the register machine's checksum, which `CrcPolynomial.RegisterIsRemainder` gives as a remainder |
| CrcPolynomial.RegisterIsRemainder | ntag424_crypto.cpp:43-53 | for every message: the register holds the remainder, by long division over the field of two elements, of 32 ones and the message modulo x^32+x^26+x^23+x^22+x^16+x^12+x^11+x^10+x^8+x^7+x^5+x^4+x^2+x+1, bits reflected |
| CrcPolynomial.CheckValue | ntag424_crypto.cpp:43-53 | the checksum of the digits 1 to 9 is CBF43926 |
| CrcPolynomial.DivisibleIff | ntag424_core.cpp:390-394 | a message is divisible by that polynomial exactly if it leaves the register at zero |
| Crc32.BitStepInjective | ntag424_crypto.cpp:47-50 | a bit step loses nothing: different registers stay different |
| Crc32.BitStepLinear | ntag424_crypto.cpp:47-50 | a bit step commutes with exclusive or |
| Crc32.BurstDetected | ntag424_crypto.cpp:43-53 | messages of the same length that differ only within four consecutive bytes have different checksums, for every length and surroundings |
| Crc32.ResidueZeroIff | ntag424_core.cpp:390-394 | behind any message, four bytes bring the register to zero exactly if they are the little-endian JamCRC of that message |
| Crc32.CheckValueIff | ntag424_core.cpp:390-394 | a receiver that runs the register over message and check value accepts exactly the true check value |
| ShiftRegisters.BurstsDiffer | ntag424_crypto.cpp:43-53 | the algebra behind it, for any linear, injective register of any width |
| ChangeKey.BuildPayload | ntag424_core.cpp:77-95 | 17 bytes for key 0, 21 for the others: the exclusive or of the keys, the version, the JamCRC |
| ChangeKey.Change | ntag424_core.cpp:379-403 | the command sent and the answer it counts as success |
| ChangeKey.BareStatusPasses | ntag424_core.cpp:379-403 | any peer that answers with the bare status word makes the call succeed and the host count it, whatever became of the key |
| ChangeKey.RecoverIff | ntag424_core.cpp:89-94 | a card that divides by the polynomial takes a change of key 1 to 4 exactly if the key it computes with its own old key has the checksum of the new key |
| ChangeKey.WrongOldKeyWindow | ntag424_core.cpp:89-94 | an old key that is wrong only within four consecutive bytes never passes that check |
| ChangeKey.ChangeAgrees | ntag424_core.cpp:379-403 | the caller is told the truth about what the card did, and the card's keys change only by that check |
| ChangeKey.ChangeSucceeds | ntag424_core.cpp:379-403 | with the right old key, and for key 0 with any, the card ends with the new key and version |
| ChangeKey.ChangeWithWrongKeyFails | ntag424_core.cpp:379-403 | with an old key wrong only within four bytes the call fails and the card's keys stay |
| Files.IsoUpdateBinary | ntag424_core.cpp:638-665 | the chunks that are sent and what becomes of them, up to the first that fails |
| Files.UpdateWrites | ntag424_core.cpp:638-665 | for every schedule of refusals and losses: on success the file begins with the data and is untouched behind it; on failure it begins with a prefix of whole chunks and nothing else has changed |
| Files.UpdateIff | ntag424_core.cpp:638-665 | the file after an update that it has room for, exactly: with `j` commands served before the first fault, success if 25 bytes for each carry all the data, and otherwise 25 j bytes are written, or one chunk more if only an answer was lost |
| Files.PutIff | ntag424_core.cpp:638-665 | for any peer: a chunk is taken to be written exactly if the answer ends in 90 00 with at most ten bytes in front of it |
| Files.ReadNdefMessage | ntag424_core.cpp:699-753 | for every peer with which the read ends with no more bytes than there is room for: the bytes put together from the pages read, or failure |
| Files.PagesStayIff | ntag424_core.cpp:734-750 | the copy of every page stays within the bytes wanted exactly if the read does not end with more than those |
| Files.NeverOverrunsIff | ntag424_core.cpp:734-750 | for every peer behind a 56-byte answer: no read, from whatever state and of whatever length, brings a page past the bytes wanted, exactly if each single page taken of it for an Le of 1 to 48 has at most that many bytes |
| Files.LeKeepsMessage | ntag424_core.cpp:699-753 | with such a peer the whole read stays within the room there is |
| Files.TalkativeOverruns | ntag424_core.cpp:734-750 | with a peer that answers 54 bytes to Le 1, a read of at most one byte ends with 54 |
| Files.ReadIff | ntag424_core.cpp:699-753 | for every card and file whose bytes 16-bit offsets reach: exactly the bytes wanted come back if the card gives both bytes of the length at once and every page that is reached goes on, and otherwise nothing |
| Files.PageIff | ntag424_core.cpp:726-749 | one page read fails exactly at the end of the file, or where a multiple of 256 bytes is still wanted and the card gives more than 54 of them; otherwise it brings what the file has next |
| Files.ReadReturnsFile | ntag424_core.cpp:699-753 | for at most 255 bytes wanted, exactly those bytes of the file come back, however few the card gives at a time, if it gives both bytes of the length at once, and otherwise nothing |
| Files.EveryCardReadsIff | ntag424_core.cpp:734-737 | of a file, every card that gives the length at once can be read, however it gives out the rest, exactly if fewer than 256 bytes are wanted |
| Files.ReadSucceedsIff | ntag424_core.cpp:734-737 | against a card that gives all it is asked for, a read succeeds exactly if fewer than 256 bytes are wanted |
| Format.FormatNdef | ntag424_core.cpp:591-636 | the 38 writes and their result; it ends although its 8-bit offset wraps |
| Format.EndsIff | ntag424_core.cpp:614-615 | the wrapping offset reaches the end at write 38 and not before |
| Format.SixCoverIff | ntag424_core.cpp:614-627 | the first n writes cover the file exactly if n is 6 or more |
| Format.FormatClearsIff | ntag424_core.cpp:591-636 | for every schedule of faults: nothing behind byte 248 changes and nothing but zeros is written; success exactly if there is room and none of the 38 writes fails, and then all 248 bytes are zero |
| IsoDep.Pcd.PutFrame | MFRC522_I2C_Extended.cpp:215-243 | for every block whose length does not wrap: its frame with the CRC in software, or why there is none |
| IsoDep.RoomIsExactIff | MFRC522_I2C_Extended.cpp:225-235 | for every prologue and every field that is not empty, the 8-bit length check tells whether the block fits 64 bytes exactly if prologue and field have at most 255 bytes |
| IsoDep.RoomOverruns | MFRC522_I2C_Extended.cpp:225-235 | 255 bytes behind a prologue of one pass the check and run past the buffer |
| IsoDep.Pcd.SendNaks | MFRC522_I2C_Extended.cpp:252-300 | up to two R(NAK), until one brings an answer that is not empty |
| IsoDep.Pcd.Examine | MFRC522_I2C_Extended.cpp:302-341 | CRC, block type and information field of what was received |
| IsoDep.Pcd.TclTransceive | MFRC522_I2C_Extended.cpp:207-364 | the six attempts of one exchange, its frames, and what reaches the caller's buffer |
| IsoDep.TagInfo.TclTransceive | MFRC522_I2C_Extended.cpp:366-399 | the same for data to a tag; a tag that is not selected is refused; the block number changes exactly if the call succeeds |
| IsoDep.BlockSentOnce | MFRC522_I2C_Extended.cpp:214-300 | whatever the field answers: the block is sent first, an I-block exactly once, and the at most 17 frames behind it are R(NAK) with the same number or S(WTX) answers |
| Picc.BlocksCoded | MFRC522_I2C_Extended.cpp:215-260 | the prologues of the reader's I-blocks and R(NAK), byte by byte |
| Picc.BlocksTold | MFRC522_I2C_Extended.cpp:302-341 | what the reader makes of every kind of block, by the coding of ISO/IEC 14443-4 with its fixed bits; an S(WTX) is granted what it asks for, under its CID |
| IsoDepRuns.CommandFrame | MFRC522_I2C_Extended.cpp:215-243 | a block without node address becomes a frame exactly if it has at most 64 bytes with its CRC |
| Picc.ExactlyOnce | MFRC522_I2C_Extended.cpp:207-364 | for every schedule of losses and a card that keeps rules 11 and 12: the command runs once if its frame arrives and not at all otherwise, and a reply that is not empty is the answer of that one run |
| IsoDepRuns.LostBlockIff | MFRC522_I2C_Extended.cpp:252-300 | an I-block that is lost: the call brings a reply all the same exactly if one of its two R(NAK) arrives, that reply is empty, and the card carries out nothing |
| IsoDepRuns.SuccessfulCall | MFRC522_I2C_Extended.cpp:366-399 | what a successful call says, if losses are noticed: the reply is the card's answer if the command ran, once, and empty if it did not run |
| IsoDepRuns.SuccessRanIff | MFRC522_I2C_Extended.cpp:366-399 | so for a command that has an answer, and from numbers that are apart, a successful call ran it, once, exactly if the reply is not empty |
| IsoDepRuns.EmptyThoughRun | MFRC522_I2C_Extended.cpp:252-300 | from equal numbers it is not so: if the answer to an I-block is lost, the command has run, and the call ends in an empty success exactly if an R(NAK) arrives |
| IsoDepRuns.AnsweredCall | MFRC522_I2C_Extended.cpp:366-399 | for every call and every schedule of losses, noticed or not: a success that shows something ran its command once, shows its answer, and keeps the numbers apart |
| IsoDepRuns.NumbersStayApartIff | MFRC522_I2C_Extended.cpp:366-399 | from any world: the card carries out the command, once, exactly if its I-block arrives; and the numbers are apart afterwards exactly if (they were apart) agrees with (success agrees with arrival) |
| IsoDepRuns.NumbersStayApartOverRunsIff | MFRC522_I2C_Extended.cpp:366-399 | over every run, whatever is lost: the numbers differ before each call and at the end exactly if every call succeeds when its I-block arrives and fails when it does not |
| IsoDepRuns.RunsTally | MFRC522_I2C_Extended.cpp:366-399 | over every run, from any numbers and whatever is lost: the card carries out exactly the commands whose I-blocks arrive, once each and in order; and apart and equal change places with every call whose success and arrival differ |
| IsoDepRuns.ArrivedRunsAgree | MFRC522_I2C_Extended.cpp:366-399 | over every run of successful calls whose I-blocks arrive, with replies that may be empty: the numbers differ before each call, and the card carries out exactly the commands, in order |
| IsoDepRuns.Activated | MFRC522_I2C_Extended.h:82 | where a run begins, at 0 against the card's 1, the numbers are apart |
| IsoDepRuns.RunsAgree | MFRC522_I2C_Extended.cpp:366-399 | over every run of calls that succeed with something to show for it, whatever is lost and whether or not it is noticed: the card ran exactly these commands in order, and every reply is its command's answer |
| IsoDepRuns.SoundIff | MFRC522_I2C_Extended.cpp:263-265 | a call is sound under every schedule of losses exactly if the card's number is not the reader's |
| IsoDepRuns.StaleAnswer | MFRC522_I2C_Extended.cpp:252-300 | with equal numbers, if only an R(NAK) of the first attempt arrives, the answer to an earlier command is passed off as this one's |
| IsoDepRuns.StaleRun | MFRC522_I2C_Extended.cpp:366-399 | a run that begins with numbers apart and gets there: a first call fails because its answers are lost, the I-block of a second is lost, and the second succeeds with the answer to the first, its own command never run |
| IsoDepRuns.RecoveryIff | MFRC522_I2C_Extended.cpp:214-341 | an I-block that arrives, and losses that are noticed: if a frame of every attempt arrives, the card's answer comes exactly if the reader hears at most five requests for more time, repetitions included, and a timeout exactly at the sixth; if an attempt loses all its frames, the call fails |
| IsoDepRuns.LosslessIff | MFRC522_I2C_Extended.cpp:334-341 | with nothing lost the answer comes exactly if the card asks for more time at most five times |
| Select.Pcd.PiccSelect | MFRC522_I2C.cpp:332-489 | select over the cascade levels for every field; ends, stays inside the 9-byte buffer and the 10-byte UID, and marks the tag selected only on success |
| Select.Pcd.SelectThisLevel | MFRC522_I2C.cpp:391-456 | every round of a level knows more bits than the last or is the SELECT |
| Select.Pcd.AnticollisionRound | MFRC522_I2C.cpp:410-455 | one anticollision frame, what it leaves in the buffer, and how many bits are known then |
| Select.Pcd.StartLevel | MFRC522_I2C.cpp:343-389 | the buffer and the known bits at the start of a level, from the bits the caller gives |
| Select.Pcd.CheckSak | MFRC522_I2C.cpp:464-483 | the SAK is taken with its own CRC only, and says whether there is another level |
| Select.SelectedUid | MFRC522_I2C.cpp:477-488 | whatever the field answers: a selected UID has 4, 7 or 10 bytes and a SAK without the cascade bit; a failure leaves size and SAK alone |
| SingleTag.SingleTagIff | MFRC522_I2C.cpp:332-489 | a tag alone in the field, which knows SELECT codes, cascade tag and check byte of its own, is selected with its size and SAK; its UID comes out as it is exactly if the last level does not begin with 88 (or is the one string that the shift maps to itself) |
| SingleTag.KnownBitsIff | MFRC522_I2C.cpp:332-489 | the same for a caller that knows the first `v` bits of the UID: selected exactly if `v` is a multiple of 8 or the known bits of the byte that is known in part are zero; otherwise the SELECT is not answered |
| SingleTag.ResolvedIff | MFRC522_I2C.cpp:428-448 | after a collision at bit `p` that bit is set exactly if `p` modulo 8 is neither 0 nor 1, or it was set already; for these the byte behind or in front is changed |
| SingleTag.CrcANeverZero | MFRC522_I2C.cpp:464-466 | no SAK has a CRC_A of zero, so the check for two zero bytes refuses none |
| NdefUri.Writer.WriteNdefUri | Adafruit_PN532_NTAG424.cpp:1984-2066 | refused without a write, or the pages of the layout in order, each once, until one is not acknowledged; success exactly if all are |
| NdefUri.AcceptedIff | Adafruit_PN532_NTAG424.cpp:1994-2000 | accepted are exactly the URLs, cut as they are, that are not empty and leave room for header and terminator |
| NdefUri.Writer.WritePage | Adafruit_PN532_NTAG424.cpp:1922-1967 | the pages of the NTAG216's 888 bytes of user memory are sent, others refused |
| NdefUri.StaysInArea | Adafruit_PN532_NTAG424.cpp:1994-2066 | wherever an accepted write stops, the tag has the layout up to that page, stays within the data length rounded up to whole pages, and is otherwise as it was |
| NdefUri.WrittenWellFormed | Adafruit_PN532_NTAG424.cpp:1984-2066 | a write leaves a lock control block for 16 bits at address 160, one message, the terminator, and zeros to the end of its page |
| NdefUri.UriRoundTripIff | Adafruit_PN532_NTAG424.cpp:1984-2066 | a reader of TLV blocks and short URI records finds the prefix code and the URL, cut to its length modulo 256: the given URL exactly if it has at most 255 bytes |
| Pn532.WriteSpi | Adafruit_PN532_NTAG424.cpp:2300-2348 | the frame the SPI branch writes, for every command of at most 255 bytes |
| Pn532.WriteI2c | Adafruit_PN532_NTAG424.cpp:2349-2383 | the frame the I2C and serial branch writes |
| Pn532.WritersAgreeIff | Adafruit_PN532_NTAG424.cpp:2299-2383 | the SPI frame is 01 and the other frame exactly for commands of at most 254 bytes, although the checksums are computed differently |
| Pn532.SpiOf255 | Adafruit_PN532_NTAG424.cpp:2300-2348 | of 255 bytes the SPI branch sends none: the eight bytes of the frame |
| Pn532.FrameRoundTrip | Adafruit_PN532_NTAG424.cpp:2349-2383 | a receiver that checks length and data checksums gets every command of at most 254 bytes back |
| Pn532.Adapter.Transceive | pn532_ntag424_adapter.cpp:14-57 | the payload of the response frame read, cut to the room there is, or 0 |
| Pn532.DecodesIff | pn532_ntag424_adapter.cpp:32-56 | a well-formed response comes back as its payload exactly if that has at most 54 bytes, and otherwise not at all |
| Pn532.DecodesOnly | pn532_ntag424_adapter.cpp:36-56 | bytes come back only of a response frame that was carried out, and they are its payload |
| Pn532.AdapterCarries | pn532_ntag424_adapter.cpp:14-57 | through both frames an APDU of at most 80 bytes reaches the card, and an answer of at most 54 comes back |
| Transports.Pn532InStepIff | pn532_ntag424_adapter.cpp:14-57 | secure messaging over the PN532: in step before each exchange of a run and at the end exactly if no reply has more than 54 bytes on the wire |
| Transports.Pn532RunAgrees | pn532_ntag424_adapter.cpp:14-57 | and then every command arrives, every reply comes back and both counters count the run, in any mix of modes |
| Transports.AnsweredLinkRun | mfrc522_ntag424_adapter.cpp:29-53 | secure messaging over ISO-DEP, for every run, any modes and every schedule of losses on the air: if each command brings its caller something, the card has carried out exactly these commands in order, each answer is its command's, and counters and block numbers are in step |
| Transports.IntendedReceives | mfrc522_ntag424_adapter.cpp:29-53 | the run that is meant has every header and all data on the card, in order |
| Transports.StaleLink | mfrc522_ntag424_adapter.cpp:29-53 | if the answers to a command are lost and then the I-block of the next command of the same mode, the host opens the answer to the first, MAC and all, as that to the second, and is back in step with a card that never received the second |
| Transports.RelayedReply | ntag424_apdu.cpp:195-273 | the reason: the reply to one command is opened as that to any command of the same mode |

## Left out

- AES itself, the contexts and key-setup errors of the cipher library, random sources: the cipher is a parameter.
- Drivers, registers, delays, debug output, firmware and SAM set-up, and all example sketches: I/O only.
- The poll loop inside a transceive of the MFRC522 (MFRC522_I2C.cpp:241-253): a transceive is an oracle with a status and the bytes received.
- The loop that fetches a chained ISO-DEP reply (MFRC522_I2C_Extended.cpp:401-454): it drops a block's header and reuses a stale count, so reassembly does not hold of it as written; replies are unchained, and `chained` reports the rest.
- Whole runs of anticollision with two or more tags: termination, bounds, the shape of the result and what one collision leaves in the buffer are proved, not which tag is found.
- `ntag424_ISOAuthenticate`: a second handshake under other instruction bytes, with looser length checks (at least 18 and 34 bytes where `Authentication` has exact ones).
- `ntag424_ISOReadFile`, `ntag424_ReadSig`, `ntag424_GetVersion`, file settings and key versions: field copying, stubs, or page arithmetic that misbehaves for small sizes.
- `mifareclassic_WriteNDEFURI`: a weaker version of the NTAG2xx writer, with a branch that does not copy the whole URL.
- Handlers and forwarding wrappers, and the second copy of the ChangeKey helpers in `ntag424_changekey_utils.h`.
- Calls that bypass the session (plain reads, updates, formatting) are not part of the runs of `Core.RunAgrees`: they do not move the host's counter.
- What a tag answers to a page write: the source reads the answer and does not look at it, so `NdefUri` counts a write as done when the chip acknowledges the command.
- MAC and FULL commands of a host out of step: whether the card refuses them depends on the MAC, of which nothing is assumed; `LossyRuns.RefusalCounted` and `LossyRuns.RefusalMends` say what follows if it does.
- Files.ReadIff: a message of 65535 bytes, whose last offset wraps to 0 (and whose length the method returns as -1), is left out.
- Sessions.Mac: promises nothing for lengths at which the 8-bit length wraps into range (`Sessions.MacGuardIsExactIff`), because the source then runs past its buffer; the same holds of Apdu.CopyInputIfPresent, Apdu.BuildApdu, Core.SendApdu and the block methods of `IsoDep` with theirs.
- Commands.IsoSelectFile: with a reader, data has at most 80 bytes, for the same reason.
- Files.ReadNdefMessage: promises nothing for a peer with which the read ends with more bytes than the buffer has (`Files.TalkativeOverruns`), because the copy then runs past it.
- ChangeKey.BuildPayload: the checksum is copied as a little-endian host lays it out.
- Pn532.AdapterCarries: the chip carries the command on as it is; timeouts and retries of the chip are not modelled.
