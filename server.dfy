/**
 * server.py: the per-connection handler `_handle_client`, the command processor
 * inside it, and `_send_message`. One connection is modelled; the accept loop and
 * the thread it starts per connection are not part of this model.
 */
module Server {
  import opened Bytes
  import opened Wrappers
  import Utf8
  import opened Protocol
  import opened Stream
  import opened Sequences

  /** `payload[::-1]`: the text with its characters (code points) in reverse order. */
  function Reverse(s: string): (r: string)
    ensures |r| == |s|
    ensures forall i :: 0 <= i < |s| ==> r[i] == s[|s| - 1 - i]
  {
    if s == [] then [] else Reverse(s[1..]) + [s[0]]
  }

  /** Reversing twice gives back the original text. */
  lemma ReverseReverse(s: string)
    ensures Reverse(Reverse(s)) == s
  {
    var r := Reverse(Reverse(s));
    assert forall i :: 0 <= i < |s| ==> r[i] == s[i];
  }

  /** Reversing the characters keeps the UTF-8 size: each character keeps its own bytes. */
  lemma {:induction false} EncodeReverseSize(s: string)
    ensures |Utf8.Encode(Reverse(s))| == |Utf8.Encode(s)|
  {
    if s != [] {
      EncodeReverseSize(s[1..]);
      Utf8.EncodeConcat(Reverse(s[1..]), [s[0]]);
      assert Utf8.Encode([s[0]]) == Utf8.EncodeChar(s[0]) + Utf8.Encode([]);
    }
  }

  /** What the processor decides for one request. */
  datatype Action = Respond(reply: string) | Close | Ignore

  /**
   * The dispatch at server.py:99-108: ECHO answers with the payload, REVERSE with the
   * payload reversed, QUIT ends the connection, and any other code is ignored.
   */
  function Process(command: Byte, payload: string): (a: Action)
    ensures a.Respond? <==> command == EchoCode || command == ReverseCode
    ensures a.Close? <==> command == QuitCode
    ensures command == EchoCode ==> a.reply == payload
    ensures command == ReverseCode ==>
      |a.reply| == |payload| && forall i :: 0 <= i < |payload| ==> a.reply[i] == payload[|payload| - 1 - i]
  {
    if command == EchoCode then Respond(payload)
    else if command == ReverseCode then Respond(Reverse(payload))
    else if command == QuitCode then Close
    else Ignore
  }

  /** A reply is never longer on the wire than the request it answers. */
  lemma ReplyFits(command: Byte, payload: string)
    requires |Utf8.Encode(payload)| < LengthLimit
    ensures Process(command, payload).Respond? ==> |Utf8.Encode(Process(command, payload).reply)| < LengthLimit
  {
    EncodeReverseSize(payload);
  }

  /** Why a connection's loop ended. */
  datatype Termination =
    | PeerClosed          // the stream ended before a whole header
    | PeerClosedMidFrame  // the stream ended inside a non-empty payload
    | ConnectionReset     // `recv` raised (ConnectionResetError or another socket error)
    | MalformedPayload    // the payload was not UTF-8, so `decode` raised
    | QuitReceived        // the client sent QUIT

  /** The reason the loop gives when `recv` ran out during a header. */
  function HeaderEnd(ending: Ending): Termination {
    match ending
    case Eof => PeerClosed
    case Reset => ConnectionReset
  }

  /** One turn of the loop up to the dispatch: a request and what follows it, or the end. */
  datatype Next = Parsed(command: Byte, payload: string, rest: seq<Byte>) | Stopped(why: Termination)

  /**
   * Reads one request from `input` as server.py:75-94 do: the header, then (only
   * when its length is not 0) exactly that many payload bytes, then decodes them.
   * A request is read exactly when `input` starts with that request's frame.
   */
  function NextRequest(input: seq<Byte>, ending: Ending): (r: Next)
    ensures r.Parsed? ==>
      && EncodeFrame(r.command, r.payload).Some?
      && input == EncodeFrame(r.command, r.payload).value + r.rest
    ensures r.Stopped? ==> r.why != QuitReceived
  {
    var (header, afterHeader) := ReadExactly(input, HeaderSize, ending);
    if !header.Complete? then Stopped(HeaderEnd(ending))
    else
      var h := UnpackHeader(header.bytes);
      PackUnpack(header.bytes);
      if h.length == 0 then
        assert Utf8.Encode("") == [];
        assert header.bytes + [] == header.bytes;
        Parsed(h.command, "", afterHeader)
      else
        var (body, rest) := ReadExactly(afterHeader, h.length, ending);
        if !body.Complete? then Stopped(if body.Closed? then PeerClosedMidFrame else ConnectionReset)
        else
          match Utf8.Decode(body.bytes)
          case None => Stopped(MalformedPayload)
          case Some(text) =>
            Utf8.EncodeDecode(body.bytes);
            assert input == header.bytes + body.bytes + rest;
            Parsed(h.command, text, rest)
  }

  /** A parsed request is consumed whole: what follows it is a strict suffix, at least a header shorter. */
  lemma NextRequestShrinks(input: seq<Byte>, ending: Ending)
    requires NextRequest(input, ending).Parsed?
    ensures |NextRequest(input, ending).rest| + HeaderSize <= |input|
  {
  }

  /** Fewer bytes than a header: no request, and the reason is how the stream ended. */
  lemma ShortInput(input: seq<Byte>, ending: Ending)
    requires |input| < HeaderSize
    ensures NextRequest(input, ending) == Stopped(if ending == Eof then PeerClosed else ConnectionReset)
  {
  }

  /** Reading exactly `|front|` bytes from `front + back` gives `front` and leaves `back`. */
  lemma ReadFront(front: seq<Byte>, back: seq<Byte>, ending: Ending)
    ensures ReadExactly(front + back, |front|, ending) == (Complete(front), back)
  {
    assert (front + back)[..|front|] == front;
    assert (front + back)[|front|..] == back;
  }

  /** The frame of any request is read back as that request, and the bytes after it are left alone. */
  lemma NextRequestOfFrame(command: Byte, text: string, rest: seq<Byte>, ending: Ending)
    requires |Utf8.Encode(text)| < LengthLimit
    ensures NextRequest(EncodeFrame(command, text).value + rest, ending) == Parsed(command, text, rest)
  {
    var f := EncodeFrame(command, text).value;
    var header := f[..HeaderSize];
    var payload := Utf8.Encode(text);
    assert f == header + payload;
    AppendAssoc(header, payload, rest);
    ReadFront(header, payload + rest, ending);
    if |payload| == 0 {
      assert text == "";
      assert payload + rest == rest;
    } else {
      ReadFront(payload, rest, ending);
    }
  }

  /** All that one connection sends, and why it stopped. */
  datatype Transcript = Transcript(sent: seq<Byte>, why: Termination)

  /** Bytes that are a run of whole response frames, each with command code ECHO and a UTF-8 payload. */
  ghost predicate IsResponseStream(b: seq<Byte>)
    decreases |b|
  {
    b == [] ||
    (|b| >= HeaderSize && b[0] == EchoCode &&
     var n := UnpackHeader(b[..HeaderSize]).length;
     HeaderSize + n <= |b| &&
     Utf8.Decode(b[HeaderSize..HeaderSize + n]).Some? &&
     IsResponseStream(b[HeaderSize + n..]))
  }

  /**
   * What `_handle_client` sends over a connection that delivers `input` and then
   * `ending`: the loop of server.py:73-111, turn by turn.
   */
  function Serve(input: seq<Byte>, ending: Ending): (t: Transcript)
    decreases |input|
  {
    match NextRequest(input, ending)
    case Stopped(why) => Transcript([], why)
    case Parsed(command, payload, rest) =>
      NextRequestShrinks(input, ending);
      match Process(command, payload)
      case Close => Transcript([], QuitReceived)
      case Ignore => Serve(rest, ending)
      case Respond(reply) =>
        ReplyFits(command, payload);
        var t := Serve(rest, ending);
        Transcript(EncodeFrame(EchoCode, reply).value + t.sent, t.why)
  }

  /** Everything the server sends is whole response frames, each with command code ECHO. */
  lemma {:induction false} ServeSendsResponses(input: seq<Byte>, ending: Ending)
    ensures IsResponseStream(Serve(input, ending).sent)
    decreases |input|
  {
    match NextRequest(input, ending)
    case Stopped(_) =>
    case Parsed(command, payload, rest) =>
      NextRequestShrinks(input, ending);
      ServeSendsResponses(rest, ending);
      match Process(command, payload)
      case Close =>
      case Ignore =>
      case Respond(reply) =>
        ReplyFits(command, payload);
        var t := Serve(rest, ending);
        var f := EncodeFrame(EchoCode, reply).value;
        var n := |Utf8.Encode(reply)|;
        assert (f + t.sent)[..HeaderSize] == f[..HeaderSize];
        assert (f + t.sent)[HeaderSize..HeaderSize + n] == f[HeaderSize..];
        assert (f + t.sent)[HeaderSize + n..] == t.sent;
  }

  /** A turn that reads no request ends the transcript with nothing sent. */
  lemma ServeStopped(input: seq<Byte>, ending: Ending)
    requires NextRequest(input, ending).Stopped?
    ensures Serve(input, ending) == Transcript([], NextRequest(input, ending).why)
  {
  }

  /** A request that gets no response leaves the rest of the transcript to the bytes after it. */
  lemma ServeSilent(input: seq<Byte>, ending: Ending, command: Byte, payload: string, rest: seq<Byte>)
    requires NextRequest(input, ending) == Parsed(command, payload, rest)
    ensures Process(command, payload).Close? ==> Serve(input, ending) == Transcript([], QuitReceived)
    ensures Process(command, payload).Ignore? ==> Serve(input, ending) == Serve(rest, ending)
  {
  }

  /** A request that gets a response puts that response first. */
  lemma ServeResponds(input: seq<Byte>, ending: Ending, command: Byte, payload: string, rest: seq<Byte>)
    requires NextRequest(input, ending) == Parsed(command, payload, rest)
    requires Process(command, payload).Respond?
    ensures |Utf8.Encode(Process(command, payload).reply)| < LengthLimit
    ensures Serve(input, ending).sent ==
      EncodeFrame(EchoCode, Process(command, payload).reply).value + Serve(rest, ending).sent
    ensures Serve(input, ending).why == Serve(rest, ending).why
  {
    ReplyFits(command, payload);
  }

  /** `_send_message(sock, command, payload)`: one frame out through `sendall`. */
  method SendMessage(sock: Socket, command: Byte, payload: string)
    requires sock.open && |Utf8.Encode(payload)| < LengthLimit
    modifies sock
    ensures sock.open && sock.incoming == old(sock.incoming)
    ensures sock.sent == old(sock.sent) + EncodeFrame(command, payload).value
  {
    var payloadBytes := Utf8.Encode(payload);
    var header := PackHeader(command, |payloadBytes|).value;
    sock.SendAll(header + payloadBytes);
  }

  /**
   * Lines 75-94 of `_handle_client`, one request read off the socket: the header,
   * then the payload when the header's length is not 0, then its decoding.
   */
  method ReceiveRequest(sock: Socket) returns (next: Next)
    requires sock.open
    modifies sock
    ensures sock.open && sock.sent == old(sock.sent)
    ensures next == NextRequest(old(sock.incoming), sock.ending)
    ensures next.Parsed? ==> sock.incoming == next.rest
  {
    var header := RecvAll(sock, HeaderSize);
    if !header.Complete? {
      return Stopped(HeaderEnd(sock.ending));
    }
    var h := UnpackHeader(header.bytes);
    var payload := "";
    if h.length > 0 {
      var body := RecvAll(sock, h.length);
      if !body.Complete? {
        return Stopped(if body.Closed? then PeerClosedMidFrame else ConnectionReset);
      }
      var text := Utf8.Decode(body.bytes);
      if text.None? {
        return Stopped(MalformedPayload);
      }
      payload := text.value;
    }
    next := Parsed(h.command, payload, sock.incoming);
  }

  /**
   * `_handle_client`: receive, dispatch and respond until the peer leaves, sends
   * QUIT or sends text that is not UTF-8; then close the socket (the `finally`).
   */
  method HandleClient(sock: Socket) returns (why: Termination)
    requires sock.open
    modifies sock
    ensures !sock.open
    ensures sock.sent == old(sock.sent) + Serve(old(sock.incoming), sock.ending).sent
    ensures why == Serve(old(sock.incoming), sock.ending).why
  {
    ghost var goal := Serve(sock.incoming, sock.ending);
    while true
      invariant sock.open
      invariant old(sock.sent) + goal.sent == sock.sent + Serve(sock.incoming, sock.ending).sent
      invariant goal.why == Serve(sock.incoming, sock.ending).why
      decreases |sock.incoming|
    {
      ghost var before := sock.incoming;
      ghost var sentBefore := sock.sent;
      var next := ReceiveRequest(sock);
      if next.Stopped? {
        ServeStopped(before, sock.ending);
        why := next.why;
        break;
      }
      NextRequestShrinks(before, sock.ending);
      match Process(next.command, next.payload)
      case Close =>
        ServeSilent(before, sock.ending, next.command, next.payload, next.rest);
        why := QuitReceived;
        break;
      case Ignore =>
        ServeSilent(before, sock.ending, next.command, next.payload, next.rest);
      case Respond(reply) =>
        ServeResponds(before, sock.ending, next.command, next.payload, next.rest);
        SendMessage(sock, EchoCode, reply);
        AppendAssoc(sentBefore, EncodeFrame(EchoCode, reply).value, Serve(next.rest, sock.ending).sent);
    }
    sock.Close();
  }

  /** ECHO: the reply is the same text, sent with command code ECHO, before anything later is answered. */
  lemma EchoReply(text: string, rest: seq<Byte>, ending: Ending)
    requires |Utf8.Encode(text)| < LengthLimit
    ensures Serve(EncodeFrame(EchoCode, text).value + rest, ending) ==
      Transcript(EncodeFrame(EchoCode, text).value + Serve(rest, ending).sent, Serve(rest, ending).why)
  {
    NextRequestOfFrame(EchoCode, text, rest, ending);
    ServeResponds(EncodeFrame(EchoCode, text).value + rest, ending, EchoCode, text, rest);
  }

  /** REVERSE: the reply is the text reversed by code point, sent with command code ECHO. */
  lemma ReverseReply(text: string, rest: seq<Byte>, ending: Ending)
    requires |Utf8.Encode(text)| < LengthLimit
    ensures EncodeFrame(EchoCode, Reverse(text)).Some?
    ensures Serve(EncodeFrame(ReverseCode, text).value + rest, ending) ==
      Transcript(EncodeFrame(EchoCode, Reverse(text)).value + Serve(rest, ending).sent, Serve(rest, ending).why)
  {
    NextRequestOfFrame(ReverseCode, text, rest, ending);
    ServeResponds(EncodeFrame(ReverseCode, text).value + rest, ending, ReverseCode, text, rest);
  }

  /** QUIT, whatever its payload: the loop ends, nothing is sent, and the bytes after it are never read. */
  lemma QuitNoReply(text: string, rest: seq<Byte>, ending: Ending)
    requires |Utf8.Encode(text)| < LengthLimit
    ensures Serve(EncodeFrame(QuitCode, text).value + rest, ending) == Transcript([], QuitReceived)
  {
    NextRequestOfFrame(QuitCode, text, rest, ending);
  }

  /**
   * An unknown command gets no reply, but its payload has been consumed: the
   * connection carries on exactly as if the frame had not been there.
   */
  lemma UnknownIgnored(command: Byte, text: string, rest: seq<Byte>, ending: Ending)
    requires command != EchoCode && command != ReverseCode && command != QuitCode
    requires |Utf8.Encode(text)| < LengthLimit
    ensures Serve(EncodeFrame(command, text).value + rest, ending) == Serve(rest, ending)
  {
    NextRequestOfFrame(command, text, rest, ending);
  }

  /** A header whose length is 0 is a request with the empty payload, not a disconnection. */
  lemma EmptyPayload(command: Byte, rest: seq<Byte>, ending: Ending)
    ensures NextRequest([command, 0, 0, 0, 0] + rest, ending) == Parsed(command, "", rest)
  {
    FrameLayout(command, "");
    assert Utf8.Encode("") == [];
    assert EncodeFrame(command, "").value == [command, 0, 0, 0, 0];
    NextRequestOfFrame(command, "", rest, ending);
  }

  /**
   * A stream that stops inside a frame ends the connection with nothing more sent:
   * inside the header it is a disconnection (or the reset), inside the payload a
   * disconnection mid-frame (or the reset).
   */
  lemma TruncatedFrame(command: Byte, text: string, k: nat, ending: Ending)
    requires |Utf8.Encode(text)| < LengthLimit
    requires k < |EncodeFrame(command, text).value|
    ensures Serve(EncodeFrame(command, text).value[..k], ending) == Transcript([],
      if k < HeaderSize then HeaderEnd(ending)
      else if ending == Eof then PeerClosedMidFrame
      else ConnectionReset)
  {
    TruncatedRequest(command, text, k, ending);
    ServeStopped(EncodeFrame(command, text).value[..k], ending);
  }

  /** The reader on a frame cut short: no request, for the reason where the cut falls. */
  lemma TruncatedRequest(command: Byte, text: string, k: nat, ending: Ending)
    requires |Utf8.Encode(text)| < LengthLimit
    requires k < |EncodeFrame(command, text).value|
    ensures NextRequest(EncodeFrame(command, text).value[..k], ending) == Stopped(
      if k < HeaderSize then HeaderEnd(ending)
      else if ending == Eof then PeerClosedMidFrame
      else ConnectionReset)
  {
    var f := EncodeFrame(command, text).value;
    var input := f[..k];
    if k >= HeaderSize {
      assert input[..HeaderSize] == f[..HeaderSize];
      var afterHeader := ReadExactly(input, HeaderSize, ending).1;
      assert |afterHeader| == k - HeaderSize;
    }
  }

  /**
   * A payload that is not UTF-8 ends the connection with nothing sent, whatever
   * the command code, QUIT and unknown codes included.
   */
  lemma MalformedCloses(command: Byte, body: seq<Byte>, rest: seq<Byte>, ending: Ending)
    requires 0 < |body| < LengthLimit
    requires Utf8.Decode(body).None?
    ensures Serve(PackHeader(command, |body|).value + body + rest, ending) == Transcript([], MalformedPayload)
  {
    var header := PackHeader(command, |body|).value;
    var input := header + body + rest;
    assert input[..HeaderSize] == header;
    assert input[HeaderSize..] == body + rest;
    assert (body + rest)[..|body|] == body;
    ServeStopped(input, ending);
  }

  /** One request as its fields. */
  datatype Request = Request(command: Byte, text: string)

  /** The requests' frames, one after the other. */
  function Frames(reqs: seq<Request>): seq<Byte>
    requires forall i :: 0 <= i < |reqs| ==> |Utf8.Encode(reqs[i].text)| < LengthLimit
  {
    if reqs == [] then [] else EncodeFrame(reqs[0].command, reqs[0].text).value + Frames(reqs[1..])
  }

  /**
   * The replies a run of requests calls for: one per ECHO or REVERSE request, in
   * request order, up to the first QUIT.
   */
  function Replies(reqs: seq<Request>): (r: seq<string>)
    requires forall i :: 0 <= i < |reqs| ==> |Utf8.Encode(reqs[i].text)| < LengthLimit
    ensures |r| <= |reqs|
    ensures forall i :: 0 <= i < |r| ==> |Utf8.Encode(r[i])| < LengthLimit
  {
    if reqs == [] then []
    else
      ReplyFits(reqs[0].command, reqs[0].text);
      match Process(reqs[0].command, reqs[0].text)
      case Close => []
      case Ignore => Replies(reqs[1..])
      case Respond(reply) => [reply] + Replies(reqs[1..])
  }

  /** The frames a list of replies goes out as, each with command code ECHO. */
  function ResponseFrames(replies: seq<string>): seq<Byte>
    requires forall i :: 0 <= i < |replies| ==> |Utf8.Encode(replies[i])| < LengthLimit
  {
    if replies == [] then [] else EncodeFrame(EchoCode, replies[0]).value + ResponseFrames(replies[1..])
  }

  /** The frames of a reply followed by more replies. */
  lemma ResponseFramesCons(reply: string, replies: seq<string>)
    requires |Utf8.Encode(reply)| < LengthLimit
    requires forall i :: 0 <= i < |replies| ==> |Utf8.Encode(replies[i])| < LengthLimit
    ensures ResponseFrames([reply] + replies) == EncodeFrame(EchoCode, reply).value + ResponseFrames(replies)
  {
    assert ([reply] + replies)[1..] == replies;
  }

  /** Some request among `reqs` is a QUIT. */
  predicate HasQuit(reqs: seq<Request>) {
    exists i :: 0 <= i < |reqs| && reqs[i].command == QuitCode
  }

  /** A run holds a QUIT when its first request is one or the rest holds one. */
  lemma HasQuitCons(reqs: seq<Request>)
    requires reqs != []
    ensures HasQuit(reqs) <==> reqs[0].command == QuitCode || HasQuit(reqs[1..])
  {
    if HasQuit(reqs[1..]) {
      var i :| 0 <= i < |reqs[1..]| && reqs[1..][i].command == QuitCode;
      assert reqs[i + 1].command == QuitCode;
    }
    if HasQuit(reqs) && reqs[0].command != QuitCode {
      var i :| 0 <= i < |reqs| && reqs[i].command == QuitCode;
      assert reqs[1..][i - 1].command == QuitCode;
    }
  }

  /**
   * Ordering: over a run of whole request frames the server sends exactly the
   * replies they call for, in order; after a QUIT it stops, and otherwise it goes
   * on with whatever follows the run.
   */
  lemma {:induction false} ServeRequests(reqs: seq<Request>, rest: seq<Byte>, ending: Ending)
    requires forall i :: 0 <= i < |reqs| ==> |Utf8.Encode(reqs[i].text)| < LengthLimit
    ensures HasQuit(reqs) ==>
      Serve(Frames(reqs) + rest, ending) == Transcript(ResponseFrames(Replies(reqs)), QuitReceived)
    ensures !HasQuit(reqs) ==>
      Serve(Frames(reqs) + rest, ending) ==
        Transcript(ResponseFrames(Replies(reqs)) + Serve(rest, ending).sent, Serve(rest, ending).why)
  {
    if reqs == [] {
      assert Frames(reqs) + rest == rest;
      assert ResponseFrames([]) + Serve(rest, ending).sent == Serve(rest, ending).sent;
    } else {
      var r := reqs[0];
      var f := EncodeFrame(r.command, r.text).value;
      var tail := Frames(reqs[1..]) + rest;
      assert Frames(reqs) + rest == f + tail;
      NextRequestOfFrame(r.command, r.text, tail, ending);
      ServeRequests(reqs[1..], rest, ending);
      HasQuitCons(reqs);
      match Process(r.command, r.text)
      case Close =>
      case Ignore =>
      case Respond(reply) =>
        ServeResponds(f + tail, ending, r.command, r.text, tail);
        var replies := Replies(reqs);
        assert replies == [reply] + Replies(reqs[1..]);
        assert replies[1..] == Replies(reqs[1..]);
        var t := Serve(rest, ending).sent;
        AppendAssoc(EncodeFrame(EchoCode, reply).value, ResponseFrames(Replies(reqs[1..])), t);
    }
  }
}
