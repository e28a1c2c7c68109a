# A length-prefixed text protocol over TCP, in Dafny

This project models the two programs of a small request/response protocol: `server.py` (the
per-connection handler of `TCPServer`) and `client.py` (the interactive `TCPClient`). Every
message is a frame: a 5-byte header, then a payload. The header is `struct.pack('>BI', command,
length)`, so one command byte, then the payload length as a 32-bit big-endian number. The
payload is the UTF-8 form of a text. The command codes are ECHO (1), REVERSE (2) and QUIT (3).
The server answers ECHO with the same text and REVERSE with the text reversed, both with
command code 1. QUIT ends the connection. The server ignores any other code.

Layout, one module per file:

- `wrappers.dfy` holds `Option`. `bytes.dfy` holds `Byte`, an integer in 0..255.
- `sequences.dfy` holds two regrouping facts about concatenation.
- `utf8.dfy` is strict UTF-8 as in RFC 3629. Text is a Dafny `string`, whose characters are
  Unicode scalar values. The module proves round trips in both directions.
- `protocol.dfy` holds the header's pack/unpack and the frame encoding both programs share.
- `stream.dfy` holds the socket and `_recv_all`.
  - The socket is a class: the bytes the peer has sent and not yet delivered, how the stream
    ends once they run out (an orderly close or a reset), and everything sent.
  - `Recv` may return any non-empty prefix of the pending bytes, up to the amount asked for.
    So everything proved against it holds for every way the network splits the stream.
- `server.dfy` holds the server.
  - `_handle_client` is an imperative loop, `HandleClient`.
  - It is proved against the transcript function `Serve`: what a connection that delivers
    given bytes makes the server send, and why it stops.
  - The processor (`Process`) and the request reader (`NextRequest`) are pure functions.
- `client.dfy` holds the client.
  - Line parsing: `strip`, `split(' ', 1)`, `lower`.
  - `_receive_message` is given as the function `ReadReply`.
  - The interactive loop is given as the session function `Interact`.
  - The class `TCPClient` has its socket field, and its methods are proved against those
    functions.
- `exchange.dfy` puts the two sides together.
  - Replies:
    - The client's reply reader agrees with the server's request reader.
    - Run against the bytes the server sends back, a session of ECHO/REVERSE lines shows
      exactly the server's replies, in order.
  - How the session ends:
    - When the user's input ends, the client stops with "input ended".
    - When the user types quit, the server stops on the 3, 0, 0, 0, 0 frame.

Three behaviours of the code that a reader might not expect are modelled as written:
- A payload that is not UTF-8 ends the server's connection. `decode` raises inside the
  handler's `try`; `except Exception` (server.py:116) catches it and the `finally`
  (server.py:118-120) closes the socket.
- On the client, the same error escapes `_receive_message`, which only catches
  `socket.error`, and ends the session.
- A reply with an empty payload is the empty string `""`. The client's `if response:` treats
  it as a lost connection and ends the session, so an `echo` without a payload ends the
  session.

## Model

| member | source | states |
|---|---|---|
| Utf8.EncodeChar | server.py:147 | a character's UTF-8 form is 1 to 4 bytes; its first byte announces that length and the rest are continuation bytes |
| Utf8.Encode | server.py:147 | `str.encode('utf-8')`: between one and four bytes per character |
| Utf8.DecodeFirst | server.py:94 | a decoded character takes exactly the length its first byte announces, within the input |
| Utf8.Decode | server.py:94 | strict `bytes.decode('utf-8')`: `None` where Python raises; never more characters than bytes |
| Utf8.DecodeFirstEncodeChar | server.py:94 | decoding the front of an encoded character gives that character and its size |
| Utf8.EncodeCharDecodeFirst | server.py:94 | whatever the decoder accepts at the front is exactly the encoding of the character it returns |
| Utf8.EncodeConcat | server.py:147 | encoding distributes over concatenation |
| Utf8.DecodeEncode | server.py:147 | decoding undoes encoding for every text |
| Utf8.EncodeDecode | server.py:94 | encoding undoes decoding: text the decoder accepts has exactly one byte form |
| Protocol.UnpackHeader | server.py:83 | `struct.unpack('>BI', h)` accepts every 5-byte header; the command is the first byte and the length is below 2^32 |
| Protocol.PackHeader | server.py:148 | `struct.pack('>BI', c, n)` succeeds exactly when c fits a byte and n fits 32 bits, and then unpacks to (c, n) |
| Protocol.BigEndianDigits | server.py:148 | the four big-endian bytes of a 32-bit length put it back together |
| Protocol.PackUnpack | server.py:83 | packing the fields of any 5-byte header gives back the same bytes |
| Protocol.EncodeFrame | server.py:147-150 | the message exists exactly when the command fits a byte and the UTF-8 length fits 32 bits; it is 5 + L bytes, its header unpacks to (command, L), and its last L bytes are the payload's UTF-8 form, which decodes back to the text |
| Protocol.FrameLayout | server.py:147-149 | the frame is [command, L >> 24, (L >> 16) & 255, (L >> 8) & 255, L & 255] followed by the UTF-8 bytes |
| Protocol.QuitFrame | client.py:74 | the QUIT request the client sends is exactly the bytes 3, 0, 0, 0, 0 |
| Stream.Socket.Recv | server.py:133 | `recv(max)` hands over a non-empty prefix of at most `max` of the pending bytes; with none pending it gives `b""` after a close and raises after a reset |
| Stream.Socket.SendAll | server.py:150 | `sendall` appends the whole message to what has been sent |
| Stream.Socket.Close | server.py:120 | `close` shuts the socket, touching nothing else |
| Stream.ReadExactly | server.py:131-137 | reading n bytes completes exactly when n are there, gives the first n and leaves the rest; otherwise it ends with the close (`None`) or the reset, having consumed everything |
| Stream.RecvAll | server.py:131-137 | `_recv_all` with any chunking is exactly `ReadExactly`: the first n bytes with the rest pending, or `None` / the error; it never takes more than n, and it sends nothing |
| Server.Reverse | server.py:102 | `payload[::-1]`: same length, character i of the result is character n-1-i of the text |
| Server.ReverseReverse | server.py:102 | reversing twice restores the text |
| Server.EncodeReverseSize | server.py:102 | reversing keeps the UTF-8 size |
| Server.Process | server.py:99-108 | ECHO and REVERSE respond, with the payload and with the payload reversed; QUIT closes; every other code is ignored |
| Server.ReplyFits | server.py:111 | a reply fits a frame whenever the request did, so `_send_message` never raises in the handler |
| Server.ShortInput | server.py:75-78 | fewer bytes than a header give no request: a disconnection when the stream closed, the reset when it was reset |
| Server.TruncatedRequest | server.py:75-93 | the reader on a frame cut short finds no request: inside the header a disconnection (or the reset), inside the payload a disconnection mid-frame (or the reset) |
| Server.NextRequest | server.py:75-94 | a request read off the stream is exactly a frame at its front, with the rest left pending; reading never stops with "QUIT" |
| Server.NextRequestShrinks | server.py:75-94 | a request consumes at least its 5-byte header |
| Server.ReadFront | server.py:131-137 | reading as many bytes as `front` has from `front + back` gives `front` and leaves `back` |
| Server.NextRequestOfFrame | server.py:83-94 | the frame of any request is read back as exactly that command and text, leaving the bytes after it |
| Server.ServeSendsResponses | server.py:111 | everything the handler sends is whole frames with command code ECHO and UTF-8 payloads |
| Server.ServeStopped | server.py:76-93 | a turn that reads no request ends the connection with nothing sent |
| Server.ServeSilent | server.py:103-108 | after QUIT nothing more is sent; after an unknown code the connection continues from the next frame |
| Server.ServeResponds | server.py:110-111 | a responded request puts its reply frame first, before anything for later requests |
| Server.SendMessage | server.py:139-150 | `_send_message` sends exactly the encoded frame |
| Server.ReceiveRequest | server.py:75-94 | the handler's read of one request is `NextRequest` of the pending bytes, and leaves pending what follows the request |
| Server.HandleClient | server.py:65-120 | the handler sends exactly `Serve` of the bytes it receives, stops for the reason `Serve` gives, and closes the socket |
| Server.EchoReply | server.py:99-100 | ECHO of any text is answered with the same text under command code ECHO |
| Server.ReverseReply | server.py:101-102 | REVERSE of any text is answered with the reversed text under command code ECHO |
| Server.QuitNoReply | server.py:103-105 | QUIT ends the connection with nothing sent, whatever follows it |
| Server.UnknownIgnored | server.py:106-108 | an unknown code is answered with nothing, and the connection goes on exactly as if that frame had not been sent |
| Server.EmptyPayload | server.py:88-89 | a header with length 0 is a request with the empty payload, not a disconnection |
| Server.TruncatedFrame | server.py:75-93 | a stream that stops inside a frame ends the connection with nothing sent: a disconnection (or the reset) inside the header, a disconnection mid-frame (or the reset) inside the payload |
| Server.MalformedCloses | server.py:94 | a payload that is not UTF-8 ends the connection with nothing sent, whatever the command code |
| Server.Replies | server.py:99-111 | there are at most as many replies as requests, and each reply fits a frame |
| Server.ServeRequests | server.py:73-111 | over a run of request frames the server sends one reply frame per ECHO/REVERSE request, in request order, up to the first QUIT; without a QUIT it goes on with what follows |
| Client.LeadingSpace | client.py:61 | the white space at the front of a line, up to the first other character |
| Client.TrailingSpace | client.py:61 | the white space at the end of a line, back to the last other character |
| Client.Strip | client.py:61 | `strip()` leaves nothing exactly for an all-white-space line, otherwise a text that neither starts nor ends with white space |
| Client.StripUnique | client.py:61 | stripping white space from around a text whose ends are not white space gives exactly that text |
| Client.StripIdempotent | client.py:61 | stripping twice is stripping once |
| Client.SplitOnce | client.py:65 | `split(' ', 1)`: the part before the first space has no space; the parts with that space rebuild the line; there is a second part exactly when the line has a space |
| Client.SplitAtFirstSpace | client.py:65 | a word without spaces, a space and anything split into the word and that anything |
| Client.Lower | client.py:66 | the model's ASCII lowering: same length, and each character is lowered on its own |
| Client.LowerMatches | client.py:66 | lowering gives a lower-case word exactly when the text spells that word with each letter in either case |
| Client.CommandWord | client.py:66-79 | the command word is `echo`, `rev` or `quit` in any mix of cases, and every other word is invalid |
| Client.ParseLine | client.py:61-79 | a line is skipped exactly when it is all white space; a line that sends a request sends ECHO or REVERSE |
| Client.ParseCommandLine | client.py:61-79 | for a line made of a word, a space and a payload, with any white space around it, the word is matched case-insensitively and the payload is everything after the first space |
| Client.ParseBareCommand | client.py:65-67 | a word with nothing after it, or only white space, has the empty payload (so `quit` typed alone is QUIT) |
| Client.ParseSpacedCommand | client.py:65-67 | a word followed by a space and only white space has the empty payload |
| Client.ParseWord | client.py:61-67 | a line that strips to one word without spaces is that word's command with the empty payload |
| Client.ParseCommandWithPayload | client.py:65-67 | the payload is the text after the first space, inner and leading spaces included |
| Client.ReadReply | client.py:115-141 | a reply read is a whole frame at the front of the stream, under any command byte, with the rest pending |
| Client.Interact | client.py:60-96 | a session shows at most one response per line |
| Client.InteractSkip | client.py:62-79 | a blank line or an unknown command word sends nothing, and the loop goes on |
| Client.InteractAnswered | client.py:82-85 | a request's frame goes out, its non-empty reply is shown, and the loop goes on past it |
| Client.InteractUnanswered | client.py:83-88 | without a non-empty reply the session ends after the request; a reply that is not UTF-8 ends it as an error |
| Client.InteractQuit | client.py:73-76 | quit sends exactly 3, 0, 0, 0, 0 and ends the session without reading anything |
| Client.InteractTooLarge | client.py:108 | a payload too large for the 32-bit length sends nothing and ends the session |
| Client.InteractEmptyReply | client.py:83-88 | a reply with an empty payload ends the session as a lost connection |
| Client.TCPClient.constructor | client.py:15-24 | a new client remembers host and port and has no socket |
| Client.TCPClient.Connect | client.py:26-37 | after a successful connect the client talks through the new socket |
| Client.TCPClient.SendMessage | client.py:98-110 | `_send_message` sends exactly the frame, or nothing when `struct.pack` raises |
| Client.TCPClient.RecvAll | client.py:143-151 | the client's `_recv_all` meets the same contract as the server's |
| Client.TCPClient.ReceiveMessage | client.py:115-141 | `_receive_message` is `ReadReply` of the pending bytes, and leaves pending what follows the reply |
| Client.TCPClient.Close | client.py:153-158 | `close` closes and forgets the socket; without a socket it changes nothing, so a second call does nothing |
| Client.TCPClient.StartInteractiveMode | client.py:45-96 | without a socket it refuses; otherwise it sends exactly what `Interact` sends, returns the responses and the reason it gives, and closes the socket, leaving `client_socket` as `None` |
| Exchange.ReadReplyAgrees | client.py:115-138 | the client reads a reply wherever the server would read a request, with the same text and the same bytes left; it fails with the decoding error exactly where the server stops on one |
| Exchange.TruncatedReply | client.py:123-136 | a reply cut short anywhere inside its frame, header or payload, is `None`: no reply |
| Exchange.ReadReplyOfFrame | client.py:129-137 | `_receive_message` ignores the command byte: any frame is read back as its text |
| Exchange.ConversationPrefix | client.py:60-88 | request lines read against the server's replies send their frames, show each reply in order, and leave the session to the lines and bytes that follow |
| Exchange.Conversation | client.py:60-96 | a session of request lines against the server: the server answers each request in order and then sees the close; the client shows exactly those answers and ends when the input does |
| Exchange.ConversationThenQuit | client.py:73-76 | the same session ended by quit: the server stops on the QUIT frame and the client stops having sent it |

## Left out

- The listening side of `TCPServer` (`__init__`, `start`, `_accept_connections`): `bind`, `listen`, `accept`, `SO_REUSEADDR` and one thread per connection. These are operating-system I/O and concurrency. Handlers share no state, so one connection is modelled.
- Every `print` is left out. The client's responses are returned instead of printed.
- `KeyboardInterrupt` on either side (the client then sends QUIT and closes), and `sys.exit` on a failed bind. These are process control.
- `sendall` failures are not modelled; every send succeeds. So the `socket.error` handler of the client's `_send_message` (client.py:111-113) is not modelled.
- A reset is modelled only as the way the stream ends once the delivered bytes run out. A reset earlier in the stream is the same input cut short.
- Client.TCPClient.Connect: does not model `socket.socket()` or the operating system's `connect`, nor the `False` path when the connection fails; it stores a connected socket.
- The peer's behaviour as it happens: each socket delivers a fixed byte sequence. So the two programs are composed through their specification functions, and the messages of the two running methods do not interleave.
- Server.HandleClient: does not prove that reply k is sent before request k+1 is read (server.py:73-111); that is only the order of statements in its loop. What is proved is the content and order of what it sends: `Server.ServeRequests` holds for any bytes after a run of requests, so the replies to those requests never depend on anything that follows them. Only the interleaving of reads and sends in time goes unproved.
- Client.Lower: lower-cases ASCII letters only and keeps the length, where Python's `lower()` covers all of Unicode and can lengthen a text (U+0130 becomes two characters). The only characters outside ASCII whose lower case contains an ASCII letter are KELVIN SIGN (to `k`, which is in none of `echo`, `rev`, `quit`) and U+0130 (to `i` and a combining dot, which makes the word too long to match). So the three comparisons decide the same either way, but this equivalence is not proved here.
- Texts containing lone surrogates, for which Python's `str.encode` raises, cannot be written as a Dafny `string`.
- Server.SendMessage: requires the payload to fit a frame. The source has no such guard. The handler only sends replies that fit, because `Server.ReplyFits` proves they do.
