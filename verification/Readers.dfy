/** The reader behind `NTAG424_Reader`: anything that answers a frame with a state change and at most as
    many bytes as the caller has room for. */
module Readers {
  import opened Bytes
  import opened Octets

  /** A peer: its state, the frame, and the room for the answer give its new state and the answer. */
  type Peer<!S> = (S, seq<byte>, nat) -> (S, seq<byte>)

  /** An answer that does not fit is reported as a failed exchange, that is, as length 0. */
  function Answer<S>(step: Peer<S>, state: S, send: seq<byte>, room: nat): (r: (S, seq<byte>))
    ensures |r.1| <= room
  {
    var (state', answer) := step(state, send, room);
    (state', if |answer| <= room then answer else [])
  }

  function Cut(s: seq<byte>, room: nat): seq<byte> {
    if |s| <= room then s else s[..room]
  }

  /** A reader that hands over as much of an answer as there is room for (pn532_ntag424_adapter.cpp:53-55),
      instead of refusing it. */
  function Cuts<S>(step: Peer<S>): Peer<S> {
    (state: S, send: seq<byte>, room: nat) =>
      var (state', answer) := step(state, send, room);
      (state', Cut(answer, room))
  }

  class Reader<S> {
    const step: Peer<S>
    var state: S

    constructor (step: Peer<S>, state: S)
      ensures this.step == step && this.state == state
    {
      this.step := step;
      this.state := state;
    }

    /** `transceive`: the length of the answer, or 0. */
    method Transceive(send: seq<byte>, response: array<byte>, room: nat) returns (n: nat)
      requires room <= response.Length
      modifies this`state, response
      ensures n <= room
      ensures (state, response[..n]) == Answer(step, old(state), send, room)
      ensures response[n..] == old(response[n..])
    {
      var (state', answer) := Answer(step, state, send, room);
      state := state';
      Memcpy(response, 0, answer);
      n := |answer|;
      assert response[..n] == answer;
    }
  }
}
