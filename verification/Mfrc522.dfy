/** What every layer of the MFRC522 driver shares: its status codes and its CRC coprocessor. */
module Mfrc522 {
  import opened Octets
  import opened Bytes

  datatype Status = Ok | Error | Collision | Timeout | NoRoom | InternalError | Invalid | CrcWrong | MifareNack

  type Crc = s: seq<byte> | |s| == 2 witness [0, 0]

  /** The coprocessor: what it computes, and whether it finishes in time. */
  datatype Coprocessor = Coprocessor(crc: seq<byte> -> Crc, works: bool) {
    function Checksum(s: seq<byte>): Option<Crc> {
      if works then Some(crc(s)) else None
    }
  }
}
