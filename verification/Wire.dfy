/** Sockets: partial sends and receives, and the loops that complete them. */
module Wire {
  import opened Bytes
  import opened Bits
  import opened Protocol

  /** The sending end: everything handed to the socket so far, and how often it failed to take anything. */
  class Outbound {
    /** No send ever fails; how much one takes stays open. */
    const reliable: bool
    var sent: seq<byte>
    ghost var failures: nat
    /** The most that one call was asked to take. */
    ghost var longest: nat

    constructor (reliable: bool)
      ensures this.reliable == reliable && sent == [] && failures == 0 && longest == 0
    {
      this.reliable, sent, failures, longest := reliable, [], 0, 0;
    }

    /** `__send`: the socket takes some of the bytes, or fails. */
    method Send(data: seq<byte>) returns (res: int)
      modifies this
      ensures res <= |data|
      ensures sent == old(sent) + if res > 0 then data[..res] else []
      ensures failures == old(failures) + if res <= 0 && data != [] then 1 else 0
      ensures reliable && data != [] ==> res > 0
      ensures longest == if |data| > old(longest) then |data| else old(longest)
    {
      longest := if |data| > longest then |data| else longest;
      res :| -1 <= res <= |data| && (reliable && data != [] ==> res > 0);
      if res > 0 {
        sent := sent + data[..res];
      } else if data != [] {
        failures := failures + 1;
      }
    }
  }

  /**
   * The receiving end. `arrived` can be read now; `coming` is what the peer is still going to send, so
   * the two together are the stream, whatever the interleaving of both ends.
   */
  class Inbound {
    /** What is coming arrives before a receive or a wait gives up; in which pieces stays open. */
    const reliable: bool
    var arrived: seq<byte>
    var coming: seq<byte>
    ghost var failures: nat
    /** The most that one call asked for. */
    ghost var longest: nat

    constructor (stream: seq<byte>, reliable: bool)
      ensures this.reliable == reliable && Stream() == stream && failures == 0 && longest == 0
    {
      this.reliable, arrived, coming, failures, longest := reliable, [], stream, 0, 0;
    }

    function Stream(): seq<byte>
      reads this
    {
      arrived + coming
    }

    /** Between two calls some more of the stream arrives; a reliable port waits for `need` bytes of it. */
    method Arrive(need: nat)
      modifies this
      ensures Stream() == old(Stream()) && failures == old(failures) && longest == old(longest)
      ensures reliable && need <= |Stream()| ==> need <= |arrived|
    {
      var k: nat :| k <= |coming| && (reliable && need <= |Stream()| ==> need <= |arrived| + k);
      arrived, coming := arrived + coming[..k], coming[k..];
    }

    /** `__recv` of at most `len` bytes: some of what has arrived, or a failure that takes nothing. */
    method Recv(len: nat) returns (res: int, data: seq<byte>)
      requires len > 0
      modifies this
      ensures failures == old(failures) + if res <= 0 then 1 else 0
      ensures res <= len && |data| == (if res > 0 then res else 0)
      ensures data + Stream() == old(Stream())
      ensures reliable && old(Stream()) != [] ==> res > 0
      ensures longest == if len > old(longest) then len else old(longest)
    {
      longest := if len > longest then len else longest;
      Arrive(1);
      var limit := if len < |arrived| then len else |arrived|;
      res :| -9 <= res <= limit && (reliable && limit > 0 ==> res > 0);
      data := if res > 0 then arrived[..res] else [];
      arrived := arrived[|data|..];
      if res <= 0 {
        failures := failures + 1;
      }
    }
  }

  function Min(x: int, y: int): int { if x < y then x else y }

  /**
   * `send_binary`: hands over chunks of at most 4096 bytes until nothing is left or the socket fails. An
   * empty buffer is reported as a failure, because the body runs before the test.
   */
  method SendBinary(p: Outbound, data: seq<byte>) returns (ok: bool)
    modifies p
    ensures ok <==> data != [] && p.failures == old(p.failures)
    ensures p.reliable && data != [] ==> ok
    ensures p.longest <= 4096 || p.longest == old(p.longest)
    ensures ok ==> p.sent == old(p.sent) + data
    ensures old(p.sent) <= p.sent <= old(p.sent) + data && p.failures >= old(p.failures)
  {
    ghost var start := p.sent;
    var pdata, nSize := 0, |data|;
    while true
      invariant 0 <= pdata && pdata + nSize == |data| && 0 <= nSize
      invariant nSize == 0 ==> data == []
      invariant p.sent == start + data[..pdata] && p.failures == old(p.failures)
      invariant p.longest <= 4096 || p.longest == old(p.longest)
      decreases nSize
    {
      var chunk := Min(ASYNC_BUFSIZE, nSize);
      var res := p.Send(data[pdata..pdata + chunk]);
      if res <= 0 {
        return false;
      }
      assert data[..pdata] + data[pdata..pdata + chunk][..res] == data[..pdata + res];
      pdata := pdata + res;
      nSize := nSize - res;
      if nSize <= 0 {
        assert data[..pdata] == data;
        return true;
      }
    }
  }

  /** `recv_binary` of the server: asks for all that remains until nothing does. */
  method RecvBinary(p: Inbound, size: int) returns (ok: bool, data: seq<byte>)
    modifies p
    ensures data + p.Stream() == old(p.Stream())
    ensures if ok then |data| == Wanted(size) else |data| < Wanted(size)
    ensures p.failures == old(p.failures) + if ok then 0 else 1
    ensures p.reliable && Wanted(size) <= |old(p.Stream())| ==> ok
  {
    var remainbytes := Wrap32(size);
    data := [];
    while remainbytes > 0
      invariant |data| + (if remainbytes > 0 then remainbytes else 0) == Wanted(size)
      invariant data + p.Stream() == old(p.Stream()) && p.failures == old(p.failures)
      decreases remainbytes
    {
      var recvbytes, part := p.Recv(remainbytes);
      if recvbytes <= 0 {
        return false, data;
      }
      data := data + part;
      remainbytes := remainbytes - recvbytes;
    }
    return true, data;
  }

  /** `recv_binary` of the client: the same, in requests of at most 4096 bytes. */
  method RecvBinaryChunked(p: Inbound, size: int) returns (ok: bool, data: seq<byte>)
    modifies p
    ensures data + p.Stream() == old(p.Stream())
    ensures if ok then |data| == Wanted(size) else |data| < Wanted(size)
    ensures p.failures == old(p.failures) + if ok then 0 else 1
    ensures p.reliable && Wanted(size) <= |old(p.Stream())| ==> ok
    ensures p.longest <= 4096 || p.longest == old(p.longest)
  {
    var remainbytes := Wrap32(size);
    data := [];
    while remainbytes > 0
      invariant |data| + (if remainbytes > 0 then remainbytes else 0) == Wanted(size)
      invariant data + p.Stream() == old(p.Stream()) && p.failures == old(p.failures)
      invariant p.longest <= 4096 || p.longest == old(p.longest)
      decreases remainbytes
    {
      var recvbytes, part := p.Recv(Min(ASYNC_BUFSIZE, remainbytes));
      if recvbytes <= 0 {
        return false, data;
      }
      data := data + part;
      remainbytes := remainbytes - recvbytes;
    }
    return true, data;
  }
}
