/**
 * UTF-8 as in RFC 3629: the codec behind Python's `str.encode('utf-8')` and the
 * strict `bytes.decode('utf-8')`. Text is a Dafny `string`, whose characters are
 * Unicode scalar values (code points outside the surrogate range U+D800..U+DFFF).
 */
module Utf8 {
  import opened Bytes
  import opened Wrappers

  /** A byte of the form 10xxxxxx, which only ever continues a multi-byte sequence. */
  predicate IsContinuation(b: Byte) {
    0x80 <= b < 0xC0
  }

  /**
   * How many bytes the sequence that starts with `lead` has (RFC 3629, section 4);
   * 0 for a byte that can start no well-formed sequence (80..C1 and F5..FF).
   */
  function SequenceLength(lead: Byte): nat {
    if lead < 0x80 then 1
    else if 0xC2 <= lead < 0xE0 then 2
    else if 0xE0 <= lead < 0xF0 then 3
    else if 0xF0 <= lead < 0xF5 then 4
    else 0
  }

  /** The shortest UTF-8 form of one scalar value. */
  function EncodeChar(c: char): (b: seq<Byte>)
    ensures 1 <= |b| <= 4 && SequenceLength(b[0]) == |b|
    ensures forall i :: 1 <= i < |b| ==> IsContinuation(b[i])
  {
    var x := c as int;
    if x < 0x80 then [x]
    else if x < 0x800 then [0xC0 + x / 0x40, 0x80 + x % 0x40]
    else if x < 0x1_0000 then [0xE0 + x / 0x1000, 0x80 + (x / 0x40) % 0x40, 0x80 + x % 0x40]
    else [0xF0 + x / 0x4_0000, 0x80 + (x / 0x1000) % 0x40, 0x80 + (x / 0x40) % 0x40, 0x80 + x % 0x40]
  }

  /** `s.encode('utf-8')`: the characters' encodings, one after the other. */
  function Encode(s: string): (b: seq<Byte>)
    ensures |s| <= |b| <= 4 * |s|
  {
    if s == [] then [] else EncodeChar(s[0]) + Encode(s[1..])
  }

  /** One decoded character and the number of bytes it took. */
  datatype Decoded = Decoded(c: char, size: nat)

  /**
   * Decodes the character at the front of `b`, or fails on what the strict decoder
   * rejects there: a byte that starts no sequence, a missing or wrong continuation
   * byte, an overlong form, a surrogate, or a value above U+10FFFF.
   */
  function DecodeFirst(b: seq<Byte>): (r: Option<Decoded>)
    requires |b| > 0
    ensures r.Some? ==> r.value.size == SequenceLength(b[0]) && 1 <= r.value.size <= |b|
  {
    var b0: int := b[0];
    if b0 < 0x80 then Some(Decoded(b0 as char, 1))
    else if 0xC2 <= b0 < 0xE0 then
      if |b| >= 2 && IsContinuation(b[1]) then
        Some(Decoded(((b0 - 0xC0) * 0x40 + (b[1] - 0x80)) as char, 2))
      else None
    else if 0xE0 <= b0 < 0xF0 then
      if |b| >= 3 && IsContinuation(b[1]) && IsContinuation(b[2]) then
        var x: int := (b0 - 0xE0) * 0x1000 + (b[1] as int - 0x80) * 0x40 + (b[2] - 0x80);
        if 0x800 <= x && !(0xD800 <= x < 0xE000) then Some(Decoded(x as char, 3)) else None
      else None
    else if 0xF0 <= b0 < 0xF5 then
      if |b| >= 4 && IsContinuation(b[1]) && IsContinuation(b[2]) && IsContinuation(b[3]) then
        var x: int := (b0 - 0xF0) * 0x4_0000 + (b[1] as int - 0x80) * 0x1000 + (b[2] as int - 0x80) * 0x40 + (b[3] - 0x80);
        if 0x1_0000 <= x < 0x11_0000 then Some(Decoded(x as char, 4)) else None
      else None
    else None
  }

  /** `b.decode('utf-8')` in strict mode: the text, or `None` where Python raises. */
  function Decode(b: seq<Byte>): (r: Option<string>)
    ensures r.Some? ==> |r.value| <= |b|
    decreases |b|
  {
    if b == [] then Some([])
    else
      match DecodeFirst(b)
      case None => None
      case Some(d) =>
        match Decode(b[d.size..])
        case None => None
        case Some(s) => Some([d.c] + s)
  }

  /** Division by 64 of a number written as q * 64 + r. */
  lemma DivMod64(x: int, q: int, r: int)
    requires x == q * 0x40 + r && 0 <= r < 0x40
    ensures x / 0x40 == q && x % 0x40 == r
  {
  }

  /** Decoding the front of an encoded character gives back the character and its length. */
  lemma DecodeFirstEncodeChar(c: char, rest: seq<Byte>)
    ensures DecodeFirst(EncodeChar(c) + rest) == Some(Decoded(c, |EncodeChar(c)|))
  {
    var x := c as int;
    var b := EncodeChar(c) + rest;
    if x < 0x80 {
    } else if x < 0x800 {
      assert x == (x / 0x40) * 0x40 + x % 0x40;
      assert b[0] == 0xC0 + x / 0x40 && b[1] == 0x80 + x % 0x40;
    } else if x < 0x1_0000 {
      var y := x / 0x40;
      assert x == y * 0x40 + x % 0x40;
      assert y == (y / 0x40) * 0x40 + y % 0x40;
      assert x / 0x1000 == y / 0x40;
      assert b[0] == 0xE0 + x / 0x1000 && b[1] == 0x80 + y % 0x40 && b[2] == 0x80 + x % 0x40;
    } else {
      var y := x / 0x40;
      var z := y / 0x40;
      assert x == y * 0x40 + x % 0x40;
      assert y == z * 0x40 + y % 0x40;
      assert z == (z / 0x40) * 0x40 + z % 0x40;
      assert x / 0x1000 == z;
      assert x / 0x4_0000 == z / 0x40;
      assert b[0] == 0xF0 + z / 0x40 && b[1] == 0x80 + z % 0x40;
      assert b[2] == 0x80 + y % 0x40 && b[3] == 0x80 + x % 0x40;
    }
  }

  /** Whatever the decoder accepts at the front is exactly the encoding of the character it returns. */
  lemma EncodeCharDecodeFirst(b: seq<Byte>)
    requires |b| > 0 && DecodeFirst(b).Some?
    ensures EncodeChar(DecodeFirst(b).value.c) == b[..DecodeFirst(b).value.size]
  {
    var d := DecodeFirst(b).value;
    var x := d.c as int;
    var b0: int := b[0];
    if b0 < 0x80 {
    } else if b0 < 0xE0 {
      DivMod64(x, b0 - 0xC0, b[1] - 0x80);
    } else if b0 < 0xF0 {
      var y: int := (b0 - 0xE0) * 0x40 + (b[1] - 0x80);
      DivMod64(x, y, b[2] - 0x80);
      DivMod64(y, b0 - 0xE0, b[1] - 0x80);
      assert x / 0x1000 == b0 - 0xE0;
    } else {
      var z: int := (b0 - 0xF0) * 0x40 + (b[1] - 0x80);
      var y: int := z * 0x40 + (b[2] - 0x80);
      DivMod64(x, y, b[3] - 0x80);
      DivMod64(y, z, b[2] - 0x80);
      DivMod64(z, b0 - 0xF0, b[1] - 0x80);
      assert x / 0x1000 == z;
      assert x / 0x4_0000 == b0 - 0xF0;
    }
  }

  /** Encoding distributes over concatenation. */
  lemma {:induction false} EncodeConcat(s: string, t: string)
    ensures Encode(s + t) == Encode(s) + Encode(t)
  {
    if s == [] {
      assert s + t == t;
    } else {
      assert (s + t)[1..] == s[1..] + t;
      EncodeConcat(s[1..], t);
    }
  }

  /** Decoding undoes encoding: every text survives the round trip. */
  lemma {:induction false} DecodeEncode(s: string)
    ensures Decode(Encode(s)) == Some(s)
  {
    if s != [] {
      var e := EncodeChar(s[0]);
      DecodeFirstEncodeChar(s[0], Encode(s[1..]));
      assert (e + Encode(s[1..]))[|e|..] == Encode(s[1..]);
      DecodeEncode(s[1..]);
      assert [s[0]] + s[1..] == s;
    }
  }

  /** Encoding undoes decoding: text the decoder accepts has exactly one byte form. */
  lemma {:induction false} EncodeDecode(b: seq<Byte>)
    requires Decode(b).Some?
    ensures Encode(Decode(b).value) == b
    decreases |b|
  {
    if b != [] {
      var d := DecodeFirst(b).value;
      EncodeCharDecodeFirst(b);
      EncodeDecode(b[d.size..]);
      var s := Decode(b).value;
      assert s == [d.c] + Decode(b[d.size..]).value;
      assert s[1..] == Decode(b[d.size..]).value;
      assert b == b[..d.size] + b[d.size..];
    }
  }
}
