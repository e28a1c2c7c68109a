/**
 * The wire format shared by server.py and client.py. A frame is a 5-byte header,
 * `struct.pack('>BI', command, length)`: the command as one unsigned byte, then
 * the payload length as an unsigned 32-bit big-endian number; then `length` bytes
 * of UTF-8 payload.
 */
module Protocol {
  import opened Bytes
  import opened Wrappers
  import Utf8

  const HeaderSize: nat := 5
  const EchoCode: Byte := 1
  const ReverseCode: Byte := 2
  const QuitCode: Byte := 3

  /** One more than the largest length the 32-bit field holds. */
  const LengthLimit: nat := 0x1_0000_0000

  /** The two fields of a header. */
  datatype Header = Header(command: Byte, length: nat)

  /** `struct.unpack('>BI', h)`: every 5-byte string is a legal header. */
  function UnpackHeader(h: seq<Byte>): (r: Header)
    requires |h| == HeaderSize
    ensures r.command == h[0] && r.length < LengthLimit
  {
    Header(h[0], h[1] as int * 0x100_0000 + h[2] as int * 0x1_0000 + h[3] as int * 0x100 + h[4])
  }

  /**
   * `struct.pack('>BI', command, length)`, or `None` where `struct.pack` raises
   * because a value does not fit its field.
   */
  function PackHeader(command: int, length: int): (r: Option<seq<Byte>>)
    ensures r.Some? <==> 0 <= command < 256 && 0 <= length < LengthLimit
    ensures r.Some? ==> |r.value| == HeaderSize && UnpackHeader(r.value) == Header(command, length)
  {
    if 0 <= command < 256 && 0 <= length < LengthLimit then
      BigEndianDigits(length);
      Some([command, length / 0x100_0000, (length / 0x1_0000) % 0x100, (length / 0x100) % 0x100, length % 0x100])
    else None
  }

  /** The four base-256 digits of a 32-bit length put it back together. */
  lemma BigEndianDigits(n: int)
    requires 0 <= n < LengthLimit
    ensures 0 <= n / 0x100_0000 < 0x100
    ensures n / 0x100_0000 * 0x100_0000 + (n / 0x1_0000) % 0x100 * 0x1_0000 + (n / 0x100) % 0x100 * 0x100 + n % 0x100 == n
  {
    var a := n / 0x100;
    var b := a / 0x100;
    assert n == a * 0x100 + n % 0x100;
    assert a == b * 0x100 + a % 0x100;
    assert b == b / 0x100 * 0x100 + b % 0x100;
    assert n / 0x1_0000 == b;
  }

  /** Packing the fields of any header gives back the same five bytes. */
  lemma PackUnpack(h: seq<Byte>)
    requires |h| == HeaderSize
    ensures PackHeader(UnpackHeader(h).command, UnpackHeader(h).length) == Some(h)
  {
    var n := UnpackHeader(h).length;
    var h1, h2, h3: int := h[1], h[2], h[3];
    assert n / 0x100 == h1 * 0x1_0000 + h2 * 0x100 + h3 && n % 0x100 == h[4];
    assert n / 0x1_0000 == h1 * 0x100 + h2;
    assert n / 0x100_0000 == h1;
    assert PackHeader(h[0], n).value == h;
  }

  /**
   * The message that `_send_message` hands to `sendall`: the header, then the
   * UTF-8 bytes of the text; `None` where `struct.pack` raises.
   */
  function EncodeFrame(command: int, text: string): (r: Option<seq<Byte>>)
    ensures r.Some? <==> 0 <= command < 256 && |Utf8.Encode(text)| < LengthLimit
    ensures r.Some? ==>
      var f := r.value;
      && |f| == HeaderSize + |Utf8.Encode(text)|
      && UnpackHeader(f[..HeaderSize]) == Header(command, |Utf8.Encode(text)|)
      && f[HeaderSize..] == Utf8.Encode(text)
      && Utf8.Decode(f[HeaderSize..]) == Some(text)
  {
    var payload := Utf8.Encode(text);
    match PackHeader(command, |payload|)
    case None => None
    case Some(header) =>
      Utf8.DecodeEncode(text);
      assert (header + payload)[..HeaderSize] == header;
      assert (header + payload)[HeaderSize..] == payload;
      Some(header + payload)
  }

  /** The frame with the explicit byte layout: command, then the length's four bytes from the most significant down. */
  lemma FrameLayout(command: Byte, text: string)
    requires |Utf8.Encode(text)| < LengthLimit
    ensures var n := |Utf8.Encode(text)|;
      EncodeFrame(command, text) ==
        Some([command, n / 0x100_0000, (n / 0x1_0000) % 0x100, (n / 0x100) % 0x100, n % 0x100] + Utf8.Encode(text))
  {
  }

  /** The QUIT request the client sends is exactly the bytes 3, 0, 0, 0, 0. */
  lemma QuitFrame()
    ensures EncodeFrame(QuitCode, "") == Some([3, 0, 0, 0, 0])
  {
    assert Utf8.Encode("") == [];
    FrameLayout(QuitCode, "");
    assert [QuitCode, 0, 0, 0, 0] + [] == [3, 0, 0, 0, 0];
  }
}
