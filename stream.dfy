/**
 * The connected socket each side talks through, and `_recv_all`, the loop both
 * server.py and client.py use to read an exact number of bytes from it.
 *
 * The operating system is abstracted: `incoming` is what the peer has sent and
 * the socket has not yet delivered, `ending` says what `recv` does once that is
 * used up (an orderly close, or a reset that raises), and `sent` is everything
 * `sendall` has written. `Recv` may hand back any non-empty prefix it likes of
 * what is pending, so a caller proved against it is proved for every chunking.
 */
module Stream {
  import opened Bytes

  /** What the peer does after its last byte. */
  datatype Ending = Eof | Reset

  /** One `recv` call: some bytes (none means the peer closed), or the error it raised. */
  datatype Chunk = Data(bytes: seq<Byte>) | Failure

  class Socket {
    var incoming: seq<Byte>
    const ending: Ending
    var sent: seq<Byte>
    var open: bool

    constructor (incoming: seq<Byte>, ending: Ending)
      ensures this.incoming == incoming && this.ending == ending
      ensures sent == [] && open
    {
      this.incoming := incoming;
      this.ending := ending;
      sent := [];
      open := true;
    }

    /** `recv(max)`: at most `max` of the pending bytes, at least one while any are pending. */
    method Recv(max: nat) returns (c: Chunk)
      requires open && max > 0
      modifies this
      ensures open && sent == old(sent)
      ensures old(incoming) == [] ==> incoming == [] && c == EndOfStream(ending)
      ensures old(incoming) != [] ==>
        c.Data? && 0 < |c.bytes| <= max && old(incoming) == c.bytes + incoming
    {
      if incoming == [] {
        c := EndOfStream(ending);
      } else {
        var k: nat :| 0 < k <= max && k <= |incoming|;
        c := Data(incoming[..k]);
        incoming := incoming[k..];
      }
    }

    /** `sendall(message)`: the whole message goes out. */
    method SendAll(message: seq<Byte>)
      requires open
      modifies this
      ensures open && incoming == old(incoming)
      ensures sent == old(sent) + message
    {
      sent := sent + message;
    }

    /** `close()`. */
    method Close()
      modifies this
      ensures !open && incoming == old(incoming) && sent == old(sent)
    {
      open := false;
    }
  }

  /** What `recv` gives once nothing is pending: `b""`, or a raised error after a reset. */
  function EndOfStream(ending: Ending): Chunk {
    match ending
    case Eof => Data([])
    case Reset => Failure
  }

  /** The outcome of `_recv_all(n)`: the bytes, `None` (peer closed first), or the error raised. */
  datatype Received = Complete(bytes: seq<Byte>) | Closed | Failed

  /**
   * What reading exactly `n` bytes from `input` yields, and what is left pending
   * afterwards: the first `n` bytes when there are that many, otherwise the close
   * or the reset, with everything consumed.
   */
  function ReadExactly(input: seq<Byte>, n: nat, ending: Ending): (r: (Received, seq<Byte>))
    ensures r.0.Complete? <==> n <= |input|
    ensures r.0.Complete? ==> |r.0.bytes| == n && input == r.0.bytes + r.1
    ensures !r.0.Complete? ==> r.1 == [] && (r.0.Closed? <==> ending == Eof)
  {
    if n <= |input| then
      assert input == input[..n] + input[n..];
      (Complete(input[..n]), input[n..])
    else (if ending == Eof then Closed else Failed, [])
  }

  /**
   * `_recv_all(sock, n)`: asks for the missing `n - len(data)` bytes until it has
   * `n`, so the buffer never holds more than `n`.
   */
  method RecvAll(sock: Socket, n: nat) returns (r: Received)
    requires sock.open
    modifies sock
    ensures sock.open && sock.sent == old(sock.sent)
    ensures (r, sock.incoming) == ReadExactly(old(sock.incoming), n, sock.ending)
  {
    var data: seq<Byte> := [];
    while |data| < n
      invariant |data| <= n
      invariant old(sock.incoming) == data + sock.incoming
      invariant sock.open && sock.sent == old(sock.sent)
      decreases n - |data|
    {
      var packet := sock.Recv(n - |data|);
      if packet.Failure? {
        return Failed;
      }
      if packet.bytes == [] {
        return Closed;
      }
      data := data + packet.bytes;
    }
    assert data == old(sock.incoming)[..n];
    r := Complete(data);
  }
}
