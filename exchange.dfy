/**
 * The two programs against each other: the client's reader agrees with the
 * server's, and a session of request lines run against the server's answers
 * shows the user exactly the replies the server computed, in order.
 */
module Exchange {
  import opened Bytes
  import Utf8
  import opened Protocol
  import opened Stream
  import opened Sequences
  import opened Server
  import opened Client

  /**
   * Both ends read a frame the same way: where the server reads a request, the
   * client reads its payload as the reply (whatever the command byte) and leaves
   * the same bytes pending; where the server stops, the client has no reply, and
   * it is the decoding error exactly when the server stopped on one.
   */
  lemma ReadReplyAgrees(input: seq<Byte>, ending: Ending)
    ensures NextRequest(input, ending).Parsed? ==>
      ReadReply(input, ending) == (Message(NextRequest(input, ending).payload), NextRequest(input, ending).rest)
    ensures NextRequest(input, ending).Stopped? ==>
      ReadReply(input, ending).0 == if NextRequest(input, ending).why == MalformedPayload then Undecodable else Lost
  {
    var (header, afterHeader) := ReadExactly(input, HeaderSize, ending);
    if header.Complete? {
      var h := UnpackHeader(header.bytes);
      if h.length > 0 {
        var (body, rest) := ReadExactly(afterHeader, h.length, ending);
      }
    }
  }

  /** `_receive_message` ignores the command byte: any frame is read back as its text and nothing more. */
  lemma ReadReplyOfFrame(command: Byte, text: string, rest: seq<Byte>, ending: Ending)
    requires |Utf8.Encode(text)| < LengthLimit
    ensures ReadReply(EncodeFrame(command, text).value + rest, ending) == (Message(text), rest)
  {
    NextRequestOfFrame(command, text, rest, ending);
    ReadReplyAgrees(EncodeFrame(command, text).value + rest, ending);
  }

  /**
   * A reply cut short anywhere inside its frame, header or payload, is `None`:
   * the client finds no reply.
   */
  lemma TruncatedReply(command: Byte, text: string, k: nat, ending: Ending)
    requires |Utf8.Encode(text)| < LengthLimit
    requires k < |EncodeFrame(command, text).value|
    ensures ReadReply(EncodeFrame(command, text).value[..k], ending).0 == Lost
  {
    TruncatedRequest(command, text, k, ending);
    ReadReplyAgrees(EncodeFrame(command, text).value[..k], ending);
  }

  /**
   * `lines` are typed requests for `reqs`: each line asks for ECHO or REVERSE of
   * a non-empty payload that fits a frame.
   */
  predicate AreRequestLines(lines: seq<string>, reqs: seq<Request>) {
    && |lines| == |reqs|
    && forall i :: 0 <= i < |lines| ==>
      && ParseLine(lines[i]) == Send(reqs[i].command, reqs[i].text)
      && reqs[i].text != ""
      && |Utf8.Encode(reqs[i].text)| < LengthLimit
  }

  /** Request lines stand for requests of their own. */
  lemma RequestLinesTail(lines: seq<string>, reqs: seq<Request>)
    requires AreRequestLines(lines, reqs) && lines != []
    ensures AreRequestLines(lines[1..], reqs[1..])
    ensures reqs[0].command != QuitCode
  {
    assert forall i :: 0 <= i < |lines| - 1 ==> lines[1..][i] == lines[i + 1] && reqs[1..][i] == reqs[i + 1];
  }

  /**
   * Request lines answered by the server's replies: the client sends their
   * frames, shows each reply in turn, and then carries on with whatever lines
   * and bytes come after.
   */
  lemma {:induction false} ConversationPrefix(lines: seq<string>, reqs: seq<Request>, more: seq<string>, input: seq<Byte>, ending: Ending)
    requires AreRequestLines(lines, reqs)
    ensures var m := Interact(more, input, ending);
      Interact(lines + more, ResponseFrames(Replies(reqs)) + input, ending) ==
        Session(Frames(reqs) + m.sent, Replies(reqs) + m.responses, m.why)
  {
    if lines == [] {
      var m := Interact(more, input, ending);
      assert lines + more == more;
      assert ResponseFrames(Replies(reqs)) + input == input;
      assert Frames(reqs) + m.sent == m.sent;
      assert Replies(reqs) + m.responses == m.responses;
    } else {
      RequestLinesTail(lines, reqs);
      ConversationPrefix(lines[1..], reqs[1..], more, input, ending);
      ClientStep(lines, reqs, more, input, ending);
      var m := Interact(more, input, ending);
      var r := reqs[0];
      AppendAssoc(EncodeFrame(r.command, r.text).value, Frames(reqs[1..]), m.sent);
      AppendAssoc([Process(r.command, r.text).reply], Replies(reqs[1..]), m.responses);
    }
  }

  /** The first request line: its frame goes out and its reply, the first of the server's, is shown. */
  lemma ClientStep(lines: seq<string>, reqs: seq<Request>, more: seq<string>, input: seq<Byte>, ending: Ending)
    requires lines != [] && AreRequestLines(lines, reqs)
    ensures var r := reqs[0];
      var s := Interact(lines[1..] + more, ResponseFrames(Replies(reqs[1..])) + input, ending);
      && Replies(reqs) == [Process(r.command, r.text).reply] + Replies(reqs[1..])
      && Interact(lines + more, ResponseFrames(Replies(reqs)) + input, ending) ==
        Session(EncodeFrame(r.command, r.text).value + s.sent, [Process(r.command, r.text).reply] + s.responses, s.why)
  {
    RequestLinesTail(lines, reqs);
    var r := reqs[0];
    FirstReply(reqs, input, ending);
    ConsConcat(lines, more);
    InteractAnswered(lines + more, ResponseFrames(Replies(reqs)) + input, ending,
      Process(r.command, r.text).reply, ResponseFrames(Replies(reqs[1..])) + input);
  }

  /** The client reads the server's first reply, and the rest of the replies stay pending. */
  lemma FirstReply(reqs: seq<Request>, input: seq<Byte>, ending: Ending)
    requires reqs != [] && (reqs[0].command == EchoCode || reqs[0].command == ReverseCode) && reqs[0].text != ""
    requires forall i :: 0 <= i < |reqs| ==> |Utf8.Encode(reqs[i].text)| < LengthLimit
    ensures var reply := Process(reqs[0].command, reqs[0].text).reply;
      && reply != ""
      && Replies(reqs) == [reply] + Replies(reqs[1..])
      && ReadReply(ResponseFrames(Replies(reqs)) + input, ending) ==
        (Message(reply), ResponseFrames(Replies(reqs[1..])) + input)
  {
    var r := reqs[0];
    var reply := Process(r.command, r.text).reply;
    ReplyFits(r.command, r.text);
    assert Replies(reqs) == [reply] + Replies(reqs[1..]);
    ResponseFramesCons(reply, Replies(reqs[1..]));
    AppendAssoc(EncodeFrame(EchoCode, reply).value, ResponseFrames(Replies(reqs[1..])), input);
    ReadReplyOfFrame(EchoCode, reply, ResponseFrames(Replies(reqs[1..])) + input, ending);
  }

  /** No request typed as a request line is a QUIT. */
  lemma NoQuit(lines: seq<string>, reqs: seq<Request>)
    requires AreRequestLines(lines, reqs)
    ensures !HasQuit(reqs)
  {
    assert forall i :: 0 <= i < |reqs| ==> reqs[i].command == EchoCode || reqs[i].command == ReverseCode;
  }

  /**
   * A whole session of request lines against the server, after which the
   * user's input ends and the client closes the connection: the server answers
   * every request in order and then sees the close; the client shows exactly
   * those answers and stops because its input ended.
   */
  lemma Conversation(lines: seq<string>, reqs: seq<Request>, ending: Ending)
    requires AreRequestLines(lines, reqs)
    ensures Serve(Frames(reqs), Eof) == Transcript(ResponseFrames(Replies(reqs)), PeerClosed)
    ensures Interact(lines, Serve(Frames(reqs), Eof).sent, ending) == Session(Frames(reqs), Replies(reqs), InputEnded)
  {
    NoQuit(lines, reqs);
    ServeRequests(reqs, [], Eof);
    assert Frames(reqs) + [] == Frames(reqs);
    assert ResponseFrames(Replies(reqs)) + [] == ResponseFrames(Replies(reqs));
    ConversationPrefix(lines, reqs, [], [], ending);
    assert lines + [] == lines;
    assert Replies(reqs) + [] == Replies(reqs);
  }

  /**
   * The same session closed with a quit line: the server answers every request
   * and stops on the QUIT frame 3, 0, 0, 0, 0; the client shows every answer and
   * stops having sent it.
   */
  lemma ConversationThenQuit(lines: seq<string>, reqs: seq<Request>, quit: string, ending: Ending)
    requires AreRequestLines(lines, reqs)
    requires ParseLine(quit) == QuitLine
    ensures Serve(Frames(reqs) + [3, 0, 0, 0, 0], ending) == Transcript(ResponseFrames(Replies(reqs)), QuitReceived)
    ensures Interact(lines + [quit], ResponseFrames(Replies(reqs)), ending) ==
      Session(Frames(reqs) + [3, 0, 0, 0, 0], Replies(reqs), QuitSent)
  {
    NoQuit(lines, reqs);
    QuitFrame();
    ServeRequests(reqs, [3, 0, 0, 0, 0], ending);
    QuitNoReply("", [], ending);
    assert EncodeFrame(QuitCode, "").value + [] == [3, 0, 0, 0, 0];
    ConversationPrefix(lines, reqs, [quit], [], ending);
    InteractQuit([quit], [], ending);
    assert ResponseFrames(Replies(reqs)) + [] == ResponseFrames(Replies(reqs));
    assert Replies(reqs) + [] == Replies(reqs);
  }
}
