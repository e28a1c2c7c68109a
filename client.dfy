/**
 * client.py: the command-line parsing and the request/response loop of
 * `start_interactive_mode`, `_receive_message`, `_send_message`, `_recv_all` and
 * `close`. The lines the user types are given up front as a sequence; running
 * out of them is where `input()` would raise.
 */
module Client {
  import opened Bytes
  import opened Wrappers
  import Utf8
  import opened Protocol
  import opened Stream
  import opened Sequences

  /** Python's `str.isspace`, the characters `strip()` removes. */
  predicate IsSpace(c: char) {
    var x := c as int;
    (0x09 <= x <= 0x0D) || (0x1C <= x <= 0x20) || x == 0x85 || x == 0xA0 || x == 0x1680 ||
    (0x2000 <= x <= 0x200A) || x == 0x2028 || x == 0x2029 || x == 0x202F || x == 0x205F || x == 0x3000
  }

  /** Every character of `s` is white space (vacuously so for the empty text). */
  predicate AllSpace(s: string) {
    forall i :: 0 <= i < |s| ==> IsSpace(s[i])
  }

  /** How many white-space characters `s` starts with: the point where `lstrip` cuts. */
  function LeadingSpace(s: string): (k: nat)
    ensures k <= |s|
    ensures forall i :: 0 <= i < k ==> IsSpace(s[i])
    ensures k < |s| ==> !IsSpace(s[k])
  {
    if s != [] && IsSpace(s[0]) then 1 + LeadingSpace(s[1..]) else 0
  }

  /** How many white-space characters `s` ends with: the point where `rstrip` cuts. */
  function TrailingSpace(s: string): (k: nat)
    ensures k <= |s|
    ensures forall i :: |s| - k <= i < |s| ==> IsSpace(s[i])
    ensures k < |s| ==> !IsSpace(s[|s| - 1 - k])
  {
    if s != [] && IsSpace(s[|s| - 1]) then 1 + TrailingSpace(s[..|s| - 1]) else 0
  }

  /** `s.strip()`: the text without the white space at either end. */
  function Strip(s: string): (r: string)
    ensures r == [] <==> AllSpace(s)
    ensures r != [] ==> !IsSpace(r[0]) && !IsSpace(r[|r| - 1])
  {
    var t := s[LeadingSpace(s)..];
    t[..|t| - TrailingSpace(t)]
  }

  /** Stripping drops what the ends hold and nothing else: white space around a text with non-blank ends goes, the text stays. */
  lemma StripUnique(lead: string, middle: string, trail: string)
    requires AllSpace(lead) && AllSpace(trail)
    requires middle != [] ==> !IsSpace(middle[0]) && !IsSpace(middle[|middle| - 1])
    ensures Strip(lead + middle + trail) == middle
  {
    var s := lead + middle + trail;
    assert forall i :: 0 <= i < |lead| ==> s[i] == lead[i];
    assert forall i :: |lead| + |middle| <= i < |s| ==> s[i] == trail[i - |lead| - |middle|];
    if middle == [] {
      assert AllSpace(s);
    } else {
      assert s[|lead|] == middle[0];
      assert LeadingSpace(s) == |lead|;
      var t := s[|lead|..];
      assert t == middle + trail;
      assert t[|middle| - 1] == middle[|middle| - 1];
      assert TrailingSpace(t) == |trail|;
      assert t[..|middle|] == middle;
    }
  }

  /** Stripping twice is stripping once. */
  lemma StripIdempotent(s: string)
    ensures Strip(Strip(s)) == Strip(s)
  {
    StripUnique([], Strip(s), []);
    assert [] + Strip(s) + [] == Strip(s);
  }

  /**
   * `s.split(' ', 1)`: the text before the first space, and the text after it
   * when there is a space (`None` when `split` returns a single part).
   */
  function SplitOnce(s: string): (r: (string, Option<string>))
    ensures ' ' !in r.0
    ensures r.1.None? ==> r.0 == s
    ensures r.1.Some? ==> s == r.0 + " " + r.1.value
    ensures r.1.Some? <==> ' ' in s
  {
    if s == [] then ("", None)
    else if s[0] == ' ' then ("", Some(s[1..]))
    else
      var (head, tail) := SplitOnce(s[1..]);
      assert [s[0]] + head + " " == [s[0]] + (head + " ");
      ([s[0]] + head, tail)
  }

  /** The split is at the first space: a word without spaces followed by a space and anything splits into the two. */
  lemma {:induction false} SplitAtFirstSpace(word: string, tail: string)
    requires ' ' !in word
    ensures SplitOnce(word + " " + tail) == (word, Some(tail))
  {
    if word == [] {
      assert word + " " + tail == [' '] + tail;
    } else {
      assert (word + " " + tail)[1..] == word[1..] + " " + tail;
      SplitAtFirstSpace(word[1..], tail);
      assert [word[0]] + word[1..] == word;
    }
  }

  /** One character's ASCII lower case. */
  function LowerChar(c: char): char {
    if 'A' <= c <= 'Z' then (c as int + 32) as char else c
  }

  /** `s.lower()` for the ASCII letters, character by character. */
  function Lower(s: string): (r: string)
    ensures |r| == |s|
    ensures forall i :: 0 <= i < |s| ==> r[i] == LowerChar(s[i])
  {
    if s == [] then [] else [LowerChar(s[0])] + Lower(s[1..])
  }

  /** `w` spells the lower-case word `t`, each letter in either case. */
  predicate SameLetters(w: string, t: string) {
    |w| == |t| && forall i :: 0 <= i < |w| ==> w[i] == t[i] || w[i] as int + 32 == t[i] as int
  }

  /** Lowering gives a lower-case word exactly when the text spells it in any mix of cases. */
  lemma LowerMatches(w: string, t: string)
    requires forall i :: 0 <= i < |t| ==> 'a' <= t[i] <= 'z'
    ensures Lower(w) == t <==> SameLetters(w, t)
  {
    if SameLetters(w, t) {
      assert forall i :: 0 <= i < |w| ==> LowerChar(w[i]) == t[i];
      assert Lower(w) == t;
    }
  }

  /**
   * The command word is compared with `echo`, `rev` and `quit` whatever the case
   * of its letters; any other word is invalid.
   */
  lemma CommandWord(word: string, payload: string)
    ensures Command(Lower(word), payload) == Send(EchoCode, payload) <==> SameLetters(word, "echo")
    ensures Command(Lower(word), payload) == Send(ReverseCode, payload) <==> SameLetters(word, "rev")
    ensures Command(Lower(word), payload) == QuitLine <==> SameLetters(word, "quit")
    ensures Command(Lower(word), payload) == Invalid <==>
      !SameLetters(word, "echo") && !SameLetters(word, "rev") && !SameLetters(word, "quit")
  {
    LowerMatches(word, "echo");
    LowerMatches(word, "rev");
    LowerMatches(word, "quit");
  }

  /** What one line of input asks for. */
  datatype Line = Blank | Invalid | QuitLine | Send(command: Byte, payload: string)

  /** The command word, already lower-cased, mapped to what the loop does with it. */
  function Command(word: string, payload: string): Line {
    if word == "echo" then Send(EchoCode, payload)
    else if word == "rev" then Send(ReverseCode, payload)
    else if word == "quit" then QuitLine
    else Invalid
  }

  /**
   * The parsing at client.py:61-79: strip the line, skip it when nothing is left,
   * else split it at the first space, lower-case the first part and look it up;
   * the payload is what follows that space, or "" when there is none.
   */
  function ParseLine(line: string): (p: Line)
    ensures p == Blank <==> AllSpace(line)
    ensures p.Send? ==> p.command == EchoCode || p.command == ReverseCode
  {
    var input := Strip(line);
    if input == [] then Blank
    else
      var (head, tail) := SplitOnce(input);
      Command(Lower(head), if tail.Some? then tail.value else "")
  }

  /**
   * A line made of a command word, a space and a payload, with any white space
   * around it: the word is matched case-insensitively, and the payload is
   * everything after that first space, inner spaces and leading spaces included.
   */
  lemma ParseCommandLine(lead: string, word: string, payload: string, trail: string)
    requires AllSpace(lead) && AllSpace(trail)
    requires word != [] && forall i :: 0 <= i < |word| ==> !IsSpace(word[i])
    requires payload == [] || !IsSpace(payload[|payload| - 1])
    ensures ParseLine(lead + word + " " + payload + trail) == Command(Lower(word), payload)
  {
    if payload == [] {
      assert lead + word + " " + payload == lead + word + " ";
      ParseSpacedCommand(lead, word, trail);
    } else {
      ParseCommandWithPayload(lead, word, payload, trail);
    }
  }

  /** A command word followed by a space and nothing but white space has the empty payload. */
  lemma ParseSpacedCommand(lead: string, word: string, trail: string)
    requires AllSpace(lead) && AllSpace(trail)
    requires word != [] && forall i :: 0 <= i < |word| ==> !IsSpace(word[i])
    ensures ParseLine(lead + word + " " + trail) == Command(Lower(word), "")
  {
    var trail' := " " + trail;
    assert AllSpace(trail') by {
      assert forall i :: 1 <= i < |trail'| ==> trail'[i] == trail[i - 1];
    }
    AppendAssoc(lead + word, " ", trail);
    ParseBareCommand(lead, word, trail');
  }

  /** A command word with nothing but white space (or nothing at all) after it has the empty payload. */
  lemma ParseBareCommand(lead: string, word: string, trail: string)
    requires AllSpace(lead) && AllSpace(trail)
    requires word != [] && forall i :: 0 <= i < |word| ==> !IsSpace(word[i])
    ensures ParseLine(lead + word + trail) == Command(Lower(word), "")
  {
    StripUnique(lead, word, trail);
    assert ' ' !in word by {
      assert forall i :: 0 <= i < |word| ==> word[i] != ' ';
    }
    ParseWord(lead + word + trail, word);
  }

  /** A command word, a space and a payload that does not end in white space. */
  lemma ParseCommandWithPayload(lead: string, word: string, payload: string, trail: string)
    requires AllSpace(lead) && AllSpace(trail)
    requires word != [] && forall i :: 0 <= i < |word| ==> !IsSpace(word[i])
    requires payload != [] && !IsSpace(payload[|payload| - 1])
    ensures ParseLine(lead + word + " " + payload + trail) == Command(Lower(word), payload)
  {
    var middle := word + " " + payload;
    assert middle[0] == word[0] && middle[|middle| - 1] == payload[|payload| - 1];
    AppendAssoc(lead, word + " ", payload);
    AppendAssoc(lead, word, " ");
    StripUnique(lead, middle, trail);
    assert ' ' !in word by {
      assert forall i :: 0 <= i < |word| ==> word[i] != ' ';
    }
    SplitAtFirstSpace(word, payload);
    ParseWordAndPayload(lead + word + " " + payload + trail, word, payload);
  }

  /** A line that strips to a single word is that word's command with the empty payload. */
  lemma ParseWord(line: string, word: string)
    requires Strip(line) == word && word != [] && ' ' !in word
    ensures ParseLine(line) == Command(Lower(word), "")
  {
  }

  /** A line that strips to a word, a space and more is that word's command with the rest as its payload. */
  lemma ParseWordAndPayload(line: string, word: string, payload: string)
    requires Strip(line) == word + " " + payload
    requires SplitOnce(word + " " + payload) == (word, Some(payload))
    ensures ParseLine(line) == Command(Lower(word), payload)
  {
  }

  /** What `_receive_message` returns: the text (possibly ""), `None`, or the decoding error it lets through. */
  datatype Reply = Message(text: string) | Lost | Undecodable

  /**
   * `_receive_message` on a connection delivering `input`, then `ending`: the
   * header, then (when its length is not 0) the payload, decoded; the command
   * byte of the header is not looked at. Also returns what is left pending.
   */
  function ReadReply(input: seq<Byte>, ending: Ending): (r: (Reply, seq<Byte>))
    ensures r.0.Message? ==>
      && |input| >= HeaderSize
      && EncodeFrame(input[0], r.0.text).Some?
      && input == EncodeFrame(input[0], r.0.text).value + r.1
    ensures r.0.Undecodable? ==> HeaderSize < |input|
  {
    var (header, afterHeader) := ReadExactly(input, HeaderSize, ending);
    if !header.Complete? then (Lost, afterHeader)
    else
      var h := UnpackHeader(header.bytes);
      PackUnpack(header.bytes);
      if h.length == 0 then
        assert Utf8.Encode("") == [];
        assert header.bytes + [] == header.bytes;
        (Message(""), afterHeader)
      else
        var (body, rest) := ReadExactly(afterHeader, h.length, ending);
        if !body.Complete? then (Lost, rest)
        else
          match Utf8.Decode(body.bytes)
          case None => (Undecodable, rest)
          case Some(text) =>
            Utf8.EncodeDecode(body.bytes);
            assert input == header.bytes + body.bytes + rest;
            (Message(text), rest)
  }

  /** Why the interactive session ended. */
  datatype SessionEnd =
    | NotConnected     // there was no socket to talk through
    | QuitSent         // the user typed quit
    | ReplyMissing     // `_receive_message` gave None or "" (reported as a lost connection)
    | ReplyMalformed   // the reply was not UTF-8, so `decode` raised
    | PayloadTooLarge  // the payload's UTF-8 form does not fit the 32-bit length, so `struct.pack` raised
    | InputEnded       // `input()` had no more lines and raised

  /** All a session sends, the responses it shows, and why it ended. */
  datatype Session = Session(sent: seq<Byte>, responses: seq<string>, why: SessionEnd)

  /**
   * What `start_interactive_mode` does with the typed `lines` over a connection
   * that delivers `input`, then `ending`: the loop of client.py:60-88, line by line.
   */
  function Interact(lines: seq<string>, input: seq<Byte>, ending: Ending): (s: Session)
    ensures |s.responses| <= |lines|
    ensures s.why != NotConnected
    decreases |lines|
  {
    if lines == [] then Session([], [], InputEnded)
    else
      match ParseLine(lines[0])
      case Blank => Interact(lines[1..], input, ending)
      case Invalid => Interact(lines[1..], input, ending)
      case QuitLine => QuitFrame(); Session(EncodeFrame(QuitCode, "").value, [], QuitSent)
      case Send(command, payload) =>
        match EncodeFrame(command, payload)
        case None => Session([], [], PayloadTooLarge)
        case Some(frame) =>
          var (reply, rest) := ReadReply(input, ending);
          match reply
          case Lost => Session(frame, [], ReplyMissing)
          case Undecodable => Session(frame, [], ReplyMalformed)
          case Message(text) =>
            if text == "" then Session(frame, [], ReplyMissing)
            else
              var s := Interact(lines[1..], rest, ending);
              Session(frame + s.sent, [text] + s.responses, s.why)
  }

  /** A line that is blank or names no command sends nothing and the loop goes on with the next line. */
  lemma InteractSkip(lines: seq<string>, input: seq<Byte>, ending: Ending)
    requires lines != [] && (ParseLine(lines[0]) == Blank || ParseLine(lines[0]) == Invalid)
    ensures Interact(lines, input, ending) == Interact(lines[1..], input, ending)
  {
  }

  /** A request that gets a non-empty reply: its frame goes out, the reply is shown, and the session goes on. */
  lemma InteractAnswered(lines: seq<string>, input: seq<Byte>, ending: Ending, reply: string, rest: seq<Byte>)
    requires lines != [] && ParseLine(lines[0]).Send?
    requires EncodeFrame(ParseLine(lines[0]).command, ParseLine(lines[0]).payload).Some?
    requires ReadReply(input, ending) == (Message(reply), rest) && reply != ""
    ensures var p := ParseLine(lines[0]);
      var s := Interact(lines[1..], rest, ending);
      Interact(lines, input, ending) ==
        Session(EncodeFrame(p.command, p.payload).value + s.sent, [reply] + s.responses, s.why)
  {
  }

  /** A request that gets no usable reply: its frame goes out and the session ends. */
  lemma InteractUnanswered(lines: seq<string>, input: seq<Byte>, ending: Ending)
    requires lines != [] && ParseLine(lines[0]).Send?
    requires EncodeFrame(ParseLine(lines[0]).command, ParseLine(lines[0]).payload).Some?
    requires !(ReadReply(input, ending).0.Message? && ReadReply(input, ending).0.text != "")
    ensures var p := ParseLine(lines[0]);
      Interact(lines, input, ending) == Session(EncodeFrame(p.command, p.payload).value, [],
        if ReadReply(input, ending).0.Undecodable? then ReplyMalformed else ReplyMissing)
  {
  }

  /** quit sends exactly the bytes 3, 0, 0, 0, 0 and ends the session without waiting for a reply. */
  lemma InteractQuit(lines: seq<string>, input: seq<Byte>, ending: Ending)
    requires lines != [] && ParseLine(lines[0]) == QuitLine
    ensures Interact(lines, input, ending) == Session([3, 0, 0, 0, 0], [], QuitSent)
  {
    QuitFrame();
  }

  /** A request whose payload does not fit a frame sends nothing and ends the session. */
  lemma InteractTooLarge(lines: seq<string>, input: seq<Byte>, ending: Ending)
    requires lines != [] && ParseLine(lines[0]).Send?
    requires |Utf8.Encode(ParseLine(lines[0]).payload)| >= LengthLimit
    ensures Interact(lines, input, ending) == Session([], [], PayloadTooLarge)
  {
  }

  /**
   * A reply with an empty payload looks like a lost connection: the session
   * ends after the request, with nothing shown and nothing more sent.
   */
  lemma InteractEmptyReply(lines: seq<string>, header: Byte, rest: seq<Byte>, ending: Ending)
    requires lines != [] && ParseLine(lines[0]).Send?
    requires |Utf8.Encode(ParseLine(lines[0]).payload)| < LengthLimit
    ensures var p := ParseLine(lines[0]);
      Interact(lines, [header, 0, 0, 0, 0] + rest, ending) == Session(EncodeFrame(p.command, p.payload).value, [], ReplyMissing)
  {
    var input := [header, 0, 0, 0, 0] + rest;
    assert input[..HeaderSize] == [header, 0, 0, 0, 0];
    assert input[HeaderSize..] == rest;
    assert UnpackHeader([header, 0, 0, 0, 0]).length == 0;
  }

  /** The client as the class `TCPClient` has it: where it connects, and its socket while it has one. */
  class TCPClient {
    const host: string
    const port: int
    var socket: Socket?

    /** `__init__`: not connected yet. */
    constructor (host: string, port: int)
      ensures this.host == host && this.port == port && socket == null
    {
      this.host := host;
      this.port := port;
      socket := null;
    }

    /** A successful `connect`: from now on the client talks through `sock`. */
    method Connect(sock: Socket)
      modifies this
      ensures socket == sock
    {
      socket := sock;
    }

    /**
     * `_send_message`: the frame goes out whole, or, when `struct.pack` raises
     * because the payload is too large, nothing goes out and `ok` is false.
     */
    method SendMessage(command: Byte, payload: string) returns (ok: bool)
      requires socket != null && socket.open
      modifies socket
      ensures socket.open && socket.incoming == old(socket.incoming)
      ensures ok <==> EncodeFrame(command, payload).Some?
      ensures socket.sent == old(socket.sent) + (if ok then EncodeFrame(command, payload).value else [])
    {
      var payloadBytes := Utf8.Encode(payload);
      var header := PackHeader(command, |payloadBytes|);
      if header.None? {
        assert socket.sent == old(socket.sent) + [];
        return false;
      }
      socket.SendAll(header.value + payloadBytes);
      return true;
    }

    /** `_recv_all`: the same loop as the server's, on the client's socket. */
    method RecvAll(n: nat) returns (r: Received)
      requires socket != null && socket.open
      modifies socket
      ensures socket.open && socket.sent == old(socket.sent)
      ensures (r, socket.incoming) == ReadExactly(old(socket.incoming), n, socket.ending)
    {
      r := Stream.RecvAll(socket, n);
    }

    /**
     * `_receive_message`: the header, then the payload when its length is not 0;
     * a close or a socket error while reading gives `Lost`.
     */
    method ReceiveMessage() returns (reply: Reply)
      requires socket != null && socket.open
      modifies socket
      ensures socket.open && socket.sent == old(socket.sent)
      ensures (reply, socket.incoming) == ReadReply(old(socket.incoming), socket.ending)
    {
      var header := RecvAll(HeaderSize);
      if !header.Complete? {
        return Lost;
      }
      var h := UnpackHeader(header.bytes);
      if h.length > 0 {
        var body := RecvAll(h.length);
        if !body.Complete? {
          return Lost;
        }
        var text := Utf8.Decode(body.bytes);
        if text.None? {
          return Undecodable;
        }
        return Message(text.value);
      }
      return Message("");
    }

    /** `close`: closes the socket and forgets it; with no socket it does nothing. */
    method Close()
      modifies this, socket
      ensures socket == null
      ensures old(socket) != null ==>
        !old(socket).open && old(socket).incoming == old(socket.incoming) && old(socket).sent == old(socket.sent)
      ensures old(socket) == null ==> unchanged(this)
    {
      if socket != null {
        socket.Close();
        socket := null;
      }
    }

    /**
     * `start_interactive_mode` over the typed `lines`: refuses without a socket;
     * otherwise runs the loop and then closes the socket (the `finally`).
     */
    method StartInteractiveMode(lines: seq<string>) returns (responses: seq<string>, why: SessionEnd)
      requires socket != null ==> socket.open
      modifies this, socket
      ensures socket == null
      ensures old(socket) == null ==> why == NotConnected && responses == []
      ensures old(socket) != null ==>
        var s := Interact(lines, old(socket.incoming), old(socket).ending);
        && !old(socket).open
        && old(socket).sent == old(socket.sent) + s.sent
        && responses == s.responses && why == s.why
    {
      if socket == null {
        return [], NotConnected;
      }
      var sock := socket;
      ghost var goal := Interact(lines, sock.incoming, sock.ending);
      responses := [];
      var i := 0;
      while true
        invariant 0 <= i <= |lines|
        invariant socket == sock && sock.open
        invariant old(sock.sent) + goal.sent == sock.sent + Interact(lines[i..], sock.incoming, sock.ending).sent
        invariant goal.responses == responses + Interact(lines[i..], sock.incoming, sock.ending).responses
        invariant goal.why == Interact(lines[i..], sock.incoming, sock.ending).why
        decreases |lines| - i
      {
        if i == |lines| {
          why := InputEnded;
          break;
        }
        ghost var before := sock.incoming;
        ghost var sentBefore := sock.sent;
        var line := ParseLine(lines[i]);
        assert lines[i..][1..] == lines[i + 1..];
        i := i + 1;
        match line
        case Blank =>
          InteractSkip(lines[i - 1..], before, sock.ending);
        case Invalid =>
          InteractSkip(lines[i - 1..], before, sock.ending);
        case QuitLine =>
          InteractQuit(lines[i - 1..], before, sock.ending);
          QuitFrame();
          var _ := SendMessage(QuitCode, "");
          why := QuitSent;
          break;
        case Send(command, payload) =>
          var ok := SendMessage(command, payload);
          if !ok {
            InteractTooLarge(lines[i - 1..], before, sock.ending);
            why := PayloadTooLarge;
            break;
          }
          var reply := ReceiveMessage();
          if reply.Message? && reply.text != "" {
            InteractAnswered(lines[i - 1..], before, sock.ending, reply.text, sock.incoming);
            AppendAssoc(sentBefore, EncodeFrame(command, payload).value, Interact(lines[i..], sock.incoming, sock.ending).sent);
            AppendAssoc(responses, [reply.text], Interact(lines[i..], sock.incoming, sock.ending).responses);
            responses := responses + [reply.text];
          } else {
            InteractUnanswered(lines[i - 1..], before, sock.ending);
            why := if reply.Undecodable? then ReplyMalformed else ReplyMissing;
            break;
          }
      }
      Close();
    }
  }
}
