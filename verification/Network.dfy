/** A stream socket whose peer has sent some bytes and then closes. */
module Network {
  import opened Bytes

  /**
   * How many bytes one receive delivers: as many as the network happened to
   * hand over, at least one while bytes remain, never more than fit.
   */
  function Delivered(pending: seq<byte>, sizes: seq<nat>, capacity: nat): (n: nat)
    ensures n <= |pending| && n <= capacity
    ensures n == 0 <==> pending == [] || capacity == 0
  {
    var most := if capacity < |pending| then capacity else |pending|;
    if sizes == [] || sizes[0] > most then most
    else if sizes[0] == 0 && most > 0 then 1
    else sizes[0]
  }

  function Later(sizes: seq<nat>): seq<nat> {
    if sizes == [] then [] else sizes[1..]
  }

  /** `sizes` is what the network decides; nothing may be concluded about it. */
  class Socket {
    var pending: seq<byte>
    var sizes: seq<nat>

    constructor (stream: seq<byte>, sizes: seq<nat>)
      ensures pending == stream && this.sizes == sizes
    {
      pending := stream;
      this.sizes := sizes;
    }

    /** An empty chunk means that the peer has closed. */
    method Recv(capacity: nat) returns (chunk: seq<byte>)
      modifies this
      ensures |chunk| == Delivered(old(pending), old(sizes), capacity)
      ensures chunk + pending == old(pending)
      ensures sizes == Later(old(sizes))
    {
      var n := Delivered(pending, sizes, capacity);
      chunk, pending, sizes := pending[..n], pending[n..], Later(sizes);
    }

    /** A short read the caller takes to be complete: all the bytes asked for, or all there are. */
    method RecvFull(n: nat) returns (chunk: seq<byte>)
      modifies this
      ensures |chunk| == if n < |old(pending)| then n else |old(pending)|
      ensures chunk + pending == old(pending)
      ensures sizes == old(sizes)
    {
      var m := if n < |pending| then n else |pending|;
      chunk, pending := pending[..m], pending[m..];
    }
  }
}
