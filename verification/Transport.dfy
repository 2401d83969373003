/** What both streams are built on: the size of their message buffer and the next layer, an
    ordered byte transport. */
module Transports {
  import opened Wire

  /** The size of `m_messageBuffer` in both streams. */
  const BUFFER_SIZE: nat := 320

  /** The next layer: the bytes handed to it, and the bytes it will still deliver. */
  class Transport {
    var outgoing: seq<byte>
    var incoming: seq<byte>

    constructor (incoming: seq<byte>)
      ensures this.incoming == incoming && outgoing == []
    {
      this.incoming, this.outgoing := incoming, [];
    }

    method Write(d: seq<byte>)
      modifies this`outgoing
      ensures outgoing == old(outgoing) + d
    {
      outgoing := outgoing + d;
    }

    /** Reads exactly `n` bytes, or all that is left and then fails. */
    method Read(n: nat) returns (ok: bool, d: seq<byte>)
      modifies this`incoming
      ensures ok == (n <= |old(incoming)|)
      ensures ok ==> d == old(incoming)[..n] && incoming == old(incoming)[n..]
      ensures !ok ==> d == [] && incoming == []
    {
      if n <= |incoming| {
        ok, d, incoming := true, incoming[..n], incoming[n..];
      } else {
        ok, d, incoming := false, [], [];
      }
    }
  }
}
