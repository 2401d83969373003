/** The byte buffer of include/mothbus/adu/buffer.h: a fixed array with a read cursor, the end of
    the received bytes and a write cursor. */
module Buffers {
  import opened Wire

  /** `a` with the bytes from `p` on overwritten by `d`. */
  function Splice(a: seq<byte>, p: nat, d: seq<byte>): (r: seq<byte>)
    requires p + |d| <= |a|
    ensures |r| == |a|
  {
    a[..p] + d + a[p + |d|..]
  }

  lemma SpliceTwice(a: seq<byte>, p: nat, d: seq<byte>, e: seq<byte>)
    requires p + |d| + |e| <= |a|
    ensures Splice(Splice(a, p, d), p + |d|, e) == Splice(a, p, d + e)
  {}

  lemma SpliceNothing(a: seq<byte>, p: nat)
    requires p <= |a|
    ensures Splice(a, p, []) == a
  {}

  class Buffer {
    const bytes: array<byte>
    var inputStart: nat
    var inputEnd: nat
    var outputStart: nat

    ghost predicate Valid()
      reads this
    {
      inputStart <= inputEnd <= bytes.Length
    }

    /** The received bytes that no read has passed yet. */
    ghost function Unread(): seq<byte>
      requires Valid()
      reads this, bytes
    {
      bytes[inputStart..inputEnd]
    }

    constructor (b: array<byte>)
      ensures Valid() && bytes == b
      ensures inputStart == inputEnd == outputStart == 0
    {
      bytes := b;
      inputStart, inputEnd, outputStart := 0, 0, 0;
    }

    /** Appends one byte at the write cursor. */
    method Put(v: byte)
      requires Valid() && outputStart < bytes.Length
      modifies this`outputStart, bytes
      ensures Valid() && outputStart == old(outputStart) + 1
      ensures bytes[..] == Splice(old(bytes[..]), old(outputStart), [v])
    {
      bytes[outputStart] := v;
      outputStart := outputStart + 1;
    }

    /** Reads one byte; at the end of the input the cursor and the target stay as they are. */
    method Get(prior: byte) returns (ec: ErrorCode, v: byte)
      requires Valid()
      modifies this`inputStart
      ensures Valid()
      ensures Unread() == TakeByte(old(Unread())).rest
      ensures ec == if old(Unread()) == [] then TOO_MANY_BYTES_RECEIVED else SUCCESS
      ensures v == if old(Unread()) == [] then prior else old(Unread())[0]
    {
      if inputStart >= inputEnd {
        return TOO_MANY_BYTES_RECEIVED, prior;
      }
      v := bytes[inputStart];
      inputStart := inputStart + 1;
      ec := SUCCESS;
    }

    /** `prepare(|d|)` filled by the transport with `d`, then `commit(|d|)`. */
    method Receive(d: seq<byte>)
      requires Valid() && outputStart == inputEnd && outputStart + |d| <= bytes.Length
      modifies this`inputEnd, this`outputStart, bytes
      ensures Valid() && outputStart == inputEnd == old(outputStart) + |d|
      ensures Unread() == old(Unread()) + d
      ensures bytes[..] == Splice(old(bytes[..]), old(outputStart), d)
    {
      forall i | 0 <= i < |d| {
        bytes[outputStart + i] := d[i];
      }
      inputEnd := inputEnd + |d|;
      outputStart := outputStart + |d|;
    }

    /** `commit(n)`. After a message has been written in place this pushes the write cursor past
        the message once more; nothing reads it then. */
    method Commit(n: nat)
      requires Valid() && inputEnd + n <= bytes.Length
      modifies this`inputEnd, this`outputStart
      ensures Valid() && inputEnd == old(inputEnd) + n && outputStart == old(outputStart) + n
    {
      inputEnd := inputEnd + n;
      outputStart := outputStart + n;
    }
  }
}
