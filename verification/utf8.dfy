/** UTF-8 as the Encoding Standard defines it: the encoder that turns a string
    into bytes before percent-encoding, and the decoder used by the
    application/x-www-form-urlencoded parser. Dafny's `char` is a Unicode scalar
    value, so every character has an encoding. */
module Utf8 {
  import opened Results

  type byte = x: int | 0 <= x < 256

  /** Continuation byte 10xxxxxx. */
  predicate IsContinuation(b: byte) {
    0x80 <= b < 0xC0
  }

  predicate IsAscii(s: string) {
    forall i :: 0 <= i < |s| ==> s[i] as int < 0x80
  }

  /** The one to four bytes that encode `c`. Each continuation byte carries six
      bits, taken from successive quotients by 64. */
  function EncodeChar(c: char): (bs: seq<byte>)
    ensures 1 <= |bs| <= 4
    ensures (c as int < 0x80) <==> |bs| == 1
    ensures |bs| == 1 ==> bs[0] == c as int
  {
    var v := c as int;
    var q1, r1 := v / 64, v % 64;
    var q2, r2 := q1 / 64, q1 % 64;
    var q3, r3 := q2 / 64, q2 % 64;
    if v < 0x80 then [v]
    else if v < 0x800 then [0xC0 + q1, 0x80 + r1]
    else if v < 0x10000 then [0xE0 + q2, 0x80 + r2, 0x80 + r1]
    else [0xF0 + q3, 0x80 + r3, 0x80 + r2, 0x80 + r1]
  }

  function Encode(s: string): (bs: seq<byte>)
    ensures |bs| >= |s|
  {
    if |s| == 0 then [] else EncodeChar(s[0]) + Encode(s[1..])
  }

  /** Decodes the character that starts `bs`, with the number of bytes it used;
      None for a byte sequence that is not well-formed UTF-8 (a stray
      continuation byte, a truncated sequence, an overlong form, a surrogate or a
      value above U+10FFFF). */
  function DecodeFirst(bs: seq<byte>): (r: Option<(char, nat)>)
    requires |bs| > 0
    ensures r.Some? ==> 1 <= r.value.1 <= |bs|
  {
    var b0: int := bs[0];
    var b1: int := if |bs| > 1 then bs[1] else 0;
    var b2: int := if |bs| > 2 then bs[2] else 0;
    var b3: int := if |bs| > 3 then bs[3] else 0;
    if b0 < 0x80 then Some((b0 as char, 1))
    else if 0xC2 <= b0 < 0xE0 then
      if |bs| < 2 || !IsContinuation(bs[1]) then None
      else Some((((b0 - 0xC0) * 64 + (b1 - 0x80)) as char, 2))
    else if 0xE0 <= b0 < 0xF0 then
      if |bs| < 3 || !IsContinuation(bs[1]) || !IsContinuation(bs[2]) then None
      else
        var v := ((b0 - 0xE0) * 64 + (b1 - 0x80)) * 64 + (b2 - 0x80);
        if v < 0x800 || (0xD800 <= v < 0xE000) then None else Some((v as char, 3))
    else if 0xF0 <= b0 < 0xF5 then
      if |bs| < 4 || !IsContinuation(bs[1]) || !IsContinuation(bs[2]) || !IsContinuation(bs[3]) then None
      else
        var v := (((b0 - 0xF0) * 64 + (b1 - 0x80)) * 64 + (b2 - 0x80)) * 64 + (b3 - 0x80);
        if v < 0x10000 || v >= 0x110000 then None else Some((v as char, 4))
    else None
  }

  /** Decodes a whole byte sequence, failing on the first malformed character. */
  function Decode(bs: seq<byte>): Option<string>
    decreases |bs|
  {
    if |bs| == 0 then Some([])
    else match DecodeFirst(bs)
      case None => None
      case Some((c, n)) =>
        match Decode(bs[n..])
        case None => None
        case Some(rest) => Some([c] + rest)
  }

  /** The decoder reads back exactly the character the encoder wrote, whatever follows it. */
  lemma DecodeEncodeChar(c: char, rest: seq<byte>)
    ensures DecodeFirst(EncodeChar(c) + rest) == Some((c, |EncodeChar(c)|))
  {
    var bs := EncodeChar(c) + rest;
    var v := c as int;
    if v < 0x80 {
    } else if v < 0x800 {
      assert bs[0] == 0xC0 + v / 64 && bs[1] == 0x80 + v % 64;
    } else if v < 0x10000 {
      assert bs[0] == 0xE0 + v / 64 / 64;
      assert bs[1] == 0x80 + v / 64 % 64 && bs[2] == 0x80 + v % 64;
    } else {
      assert bs[0] == 0xF0 + v / 64 / 64 / 64;
      assert bs[1] == 0x80 + v / 64 / 64 % 64;
      assert bs[2] == 0x80 + v / 64 % 64 && bs[3] == 0x80 + v % 64;
    }
  }

  /** Round trip: decoding the UTF-8 encoding of any string gives the string back. */
  lemma {:induction false} DecodeEncode(s: string)
    ensures Decode(Encode(s)) == Some(s)
  {
    if |s| > 0 {
      var e := EncodeChar(s[0]);
      DecodeEncodeChar(s[0], Encode(s[1..]));
      assert (e + Encode(s[1..]))[|e|..] == Encode(s[1..]);
      DecodeEncode(s[1..]);
      assert [s[0]] + s[1..] == s;
    }
  }

  /** The characters whose code points are the given bytes (an isomorphic decode). */
  function Isomorphic(bs: seq<byte>): (s: string)
    ensures |s| == |bs|
    ensures forall i :: 0 <= i < |bs| ==> s[i] as int == bs[i]
  {
    if |bs| == 0 then [] else [bs[0] as char] + Isomorphic(bs[1..])
  }

  /** The isomorphic decode works byte by byte, so it distributes over concatenation. */
  lemma IsomorphicAppend(a: seq<byte>, b: seq<byte>)
    ensures Isomorphic(a + b) == Isomorphic(a) + Isomorphic(b)
  {
  }

  /** Each ASCII character is encoded as the one byte of its code point. */
  lemma {:induction false} EncodeAsciiString(s: string)
    requires IsAscii(s)
    ensures |Encode(s)| == |s|
    ensures forall i :: 0 <= i < |s| ==> Encode(s)[i] == s[i] as int
  {
    if |s| > 0 {
      EncodeAsciiString(s[1..]);
    }
  }

  /** An ASCII string is its own UTF-8 encoding, byte for character. */
  lemma {:induction false} EncodeAscii(bs: seq<byte>)
    requires forall i :: 0 <= i < |bs| ==> bs[i] < 0x80
    ensures Encode(Isomorphic(bs)) == bs
  {
    if |bs| > 0 {
      var s := Isomorphic(bs);
      assert s[1..] == Isomorphic(bs[1..]);
      EncodeAscii(bs[1..]);
    }
  }
}
