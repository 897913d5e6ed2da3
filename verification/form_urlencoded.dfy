/** The application/x-www-form-urlencoded format of the WHATWG URL Standard:
    the serializer (section 5.2) that `URLSearchParams.toString()` runs, and the
    parser (section 5.1) that reads such a query back. */
module FormUrlEncoded {
  import opened Results
  import Utf8

  type byte = Utf8.byte

  const Ampersand: byte := 0x26
  const EqualsSign: byte := 0x3D
  const Plus: byte := 0x2B
  const Space: byte := 0x20
  const Percent: byte := 0x25

  /** Bytes left as they are: exactly those outside the
      application/x-www-form-urlencoded percent-encode set of section 1.3 (ASCII
      alphanumerics and `*`, `-`, `.`, `_`). Everything else is percent-encoded,
      except the space, which the serializer writes as `+`. */
  predicate IsKept(b: byte) {
    || 0x30 <= b <= 0x39  // 0-9
    || 0x41 <= b <= 0x5A  // A-Z
    || 0x61 <= b <= 0x7A  // a-z
    || b == 0x2A || b == 0x2D || b == 0x2E || b == 0x5F  // * - . _
  }

  /** Upper-case hexadecimal digit for a nibble. */
  function HexDigit(n: int): (b: byte)
    requires 0 <= n < 16
  {
    if n < 10 then 0x30 + n else 0x41 + (n - 10)
  }

  predicate IsHexDigit(b: byte) {
    0x30 <= b <= 0x39 || 0x41 <= b <= 0x46 || 0x61 <= b <= 0x66
  }

  /** The digits the serializer writes: 0-9 and A-F. */
  predicate IsUpperHexDigit(b: byte) {
    0x30 <= b <= 0x39 || 0x41 <= b <= 0x46
  }

  function HexValue(b: byte): (n: int)
    requires IsHexDigit(b)
    ensures 0 <= n < 16
  {
    if b <= 0x39 then b - 0x30 else if b <= 0x46 then b - 0x41 + 10 else b - 0x61 + 10
  }

  /** One byte of a name or value: `+` for a space, itself when kept, `%XX` otherwise. */
  function EncodeByte(b: byte): (e: seq<byte>)
    ensures b == Space ==> e == [Plus]
    ensures IsKept(b) ==> e == [b]
    ensures b != Space && !IsKept(b) ==>
              && |e| == 3 && e[0] == Percent
              && IsUpperHexDigit(e[1]) && IsUpperHexDigit(e[2])
              && HexValue(e[1]) * 16 + HexValue(e[2]) == b
    ensures Ampersand !in e && EqualsSign !in e
    ensures forall i :: 0 <= i < |e| ==> e[i] < 0x80
  {
    if b == Space then [Plus]
    else if IsKept(b) then [b]
    else [Percent, HexDigit(b / 16), HexDigit(b % 16)]
  }

  function EncodeBytes(bs: seq<byte>): (e: seq<byte>)
    ensures Ampersand !in e && EqualsSign !in e
    ensures forall i :: 0 <= i < |e| ==> e[i] < 0x80
  {
    if |bs| == 0 then [] else EncodeByte(bs[0]) + EncodeBytes(bs[1..])
  }

  /** Bytes that are all kept are written as they are. */
  lemma {:induction false} EncodeKeptBytes(bs: seq<byte>)
    requires forall i :: 0 <= i < |bs| ==> IsKept(bs[i])
    ensures EncodeBytes(bs) == bs
  {
    if |bs| > 0 {
      EncodeKeptBytes(bs[1..]);
      assert [bs[0]] + bs[1..] == bs;
    }
  }

  /** Percent-encode after encoding with UTF-8, with space as plus. */
  function EncodeComponent(s: string): (e: seq<byte>)
    ensures Ampersand !in e && EqualsSign !in e
    ensures forall i :: 0 <= i < |e| ==> e[i] < 0x80
  {
    EncodeBytes(Utf8.Encode(s))
  }

  /** A name or value made only of kept ASCII characters (letters, digits and
      `*-._`) is written as it is. */
  lemma EncodeKeptComponent(s: string)
    requires IsKeptAscii(s)
    ensures Utf8.Isomorphic(EncodeComponent(s)) == s
  {
    Utf8.EncodeAsciiString(s);
    EncodeKeptBytes(Utf8.Encode(s));
  }

  function SerializePair(p: (string, string)): (e: seq<byte>)
    ensures |e| > 0 && Ampersand !in e
    ensures forall i :: 0 <= i < |e| ==> e[i] < 0x80
  {
    EncodeComponent(p.0) + [EqualsSign] + EncodeComponent(p.1)
  }

  /** The serialized pairs joined by `&`, as bytes. */
  function SerializeBytes(pairs: seq<(string, string)>): (e: seq<byte>)
    ensures forall i :: 0 <= i < |e| ==> e[i] < 0x80
  {
    if |pairs| == 0 then []
    else if |pairs| == 1 then SerializePair(pairs[0])
    else SerializePair(pairs[0]) + [Ampersand] + SerializeBytes(pairs[1..])
  }

  lemma AppendAssoc<T>(a: seq<T>, b: seq<T>, c: seq<T>)
    ensures a + b + c == a + (b + c)
  {
  }

  lemma PrependRegroup<T>(x: seq<T>, a: seq<T>, b: seq<T>, c: seq<T>)
    ensures x + (a + b + c) == x + a + b + c
  {
  }

  lemma RegroupAppend<T>(a: seq<T>, sep: seq<T>, b: seq<T>, c: seq<T>)
    ensures a + sep + (b + (sep + c)) == (a + sep + b) + (sep + c)
  {
  }

  /** The last pair is serialized last, after an `&`. */
  lemma {:induction false} SerializeBytesLast(pairs: seq<(string, string)>)
    requires |pairs| >= 2
    ensures SerializeBytes(pairs) == SerializeBytes(pairs[..|pairs| - 1]) + ([Ampersand] + SerializePair(pairs[|pairs| - 1]))
  {
    var n := |pairs|;
    var first := SerializePair(pairs[0]);
    var last := SerializePair(pairs[n - 1]);
    if n > 2 {
      var rest := pairs[1..];
      var init := pairs[..n - 1];
      SerializeBytesLast(rest);
      assert rest[..n - 2] == init[1..];
      assert rest[n - 2] == pairs[n - 1];
      var middle := SerializeBytes(init[1..]);
      assert SerializeBytes(rest) == middle + ([Ampersand] + last);
      assert SerializeBytes(pairs) == first + [Ampersand] + SerializeBytes(rest);
      assert SerializeBytes(init) == first + [Ampersand] + middle;
      RegroupAppend(first, [Ampersand], middle, last);
    } else {
      assert pairs[1..] == [pairs[1]];
      assert pairs[..1] == [pairs[0]];
      AppendAssoc(first, [Ampersand], last);
    }
  }

  /** The application/x-www-form-urlencoded serializer: an ASCII string. */
  function Serialize(pairs: seq<(string, string)>): (s: string)
    ensures Utf8.IsAscii(s)
  {
    Utf8.Isomorphic(SerializeBytes(pairs))
  }

  predicate IsKeptAscii(s: string) {
    forall i :: 0 <= i < |s| ==> s[i] as int < 0x80 && IsKept(s[i] as int)
  }

  /** The isomorphic decode of `&name=value`, for any bytes. */
  lemma IsomorphicPair(name: seq<byte>, value: seq<byte>)
    ensures Utf8.Isomorphic([Ampersand] + name + [EqualsSign] + value)
            == "&" + Utf8.Isomorphic(name) + "=" + Utf8.Isomorphic(value)
  {
    assert Utf8.Isomorphic([Ampersand]) == "&";
    assert Utf8.Isomorphic([EqualsSign]) == "=";
    Utf8.IsomorphicAppend([Ampersand] + name + [EqualsSign], value);
    Utf8.IsomorphicAppend([Ampersand] + name, [EqualsSign]);
    Utf8.IsomorphicAppend([Ampersand], name);
  }

  /** A pair whose name and value are made of kept characters is written
      after its `&` as `&name=value`, unchanged. */
  lemma SerializeKeptPair(p: (string, string))
    requires IsKeptAscii(p.0) && IsKeptAscii(p.1)
    ensures Utf8.Isomorphic([Ampersand] + SerializePair(p)) == "&" + p.0 + "=" + p.1
  {
    var name := EncodeComponent(p.0);
    var value := EncodeComponent(p.1);
    EncodeKeptComponent(p.0);
    EncodeKeptComponent(p.1);
    assert SerializePair(p) == name + [EqualsSign] + value;
    PrependRegroup([Ampersand], name, [EqualsSign], value);
    IsomorphicPair(name, value);
  }

  /** The isomorphic decode of `x` followed by `y` ends with that of `y`. */
  lemma IsomorphicSuffix(whole: seq<byte>, x: seq<byte>, y: seq<byte>, t: string)
    requires whole == x + y && Utf8.Isomorphic(y) == t
    ensures var s := Utf8.Isomorphic(whole);
      |t| <= |s| && s[|s| - |t|..] == t
  {
    Utf8.IsomorphicAppend(x, y);
    var s := Utf8.Isomorphic(x + y);
    assert s[|s| - |y|..] == (Utf8.Isomorphic(x) + Utf8.Isomorphic(y))[|x|..];
  }

  /** When the last name and value are made of kept characters, the
      serialization ends with them as they are, joined by `=` after an `&`. */
  lemma SerializeEndsWithKeptPair(pairs: seq<(string, string)>)
    requires |pairs| >= 2
    requires IsKeptAscii(pairs[|pairs| - 1].0) && IsKeptAscii(pairs[|pairs| - 1].1)
    ensures var s := Serialize(pairs);
      var t := "&" + pairs[|pairs| - 1].0 + "=" + pairs[|pairs| - 1].1;
      |t| <= |s| && s[|s| - |t|..] == t
  {
    var p := pairs[|pairs| - 1];
    var init := SerializeBytes(pairs[..|pairs| - 1]);
    var tail := [Ampersand] + SerializePair(p);
    SerializeBytesLast(pairs);
    SerializeKeptPair(p);
    IsomorphicSuffix(SerializeBytes(pairs), init, tail, "&" + p.0 + "=" + p.1);
  }

  // ---------------------------------------------------------------------------
  // Parser (section 5.1)

  /** Strict split on `sep`: the pieces between separators, empty ones included. */
  function SplitOn(bs: seq<byte>, sep: byte): (parts: seq<seq<byte>>)
    ensures |parts| >= 1
    decreases |bs|
  {
    if |bs| == 0 then [[]]
    else if bs[0] == sep then [[]] + SplitOn(bs[1..], sep)
    else
      var rest := SplitOn(bs[1..], sep);
      [[bs[0]] + rest[0]] + rest[1..]
  }

  /** Splits at the first `sep`: the bytes before it and after it; without one,
      everything is the name and the value is empty. */
  function SplitAtFirst(bs: seq<byte>, sep: byte): (seq<byte>, seq<byte>)
    decreases |bs|
  {
    if |bs| == 0 then ([], [])
    else if bs[0] == sep then ([], bs[1..])
    else
      var (n, v) := SplitAtFirst(bs[1..], sep);
      ([bs[0]] + n, v)
  }

  function PlusToSpace(bs: seq<byte>): (r: seq<byte>)
    ensures |r| == |bs|
    ensures forall i :: 0 <= i < |bs| ==> r[i] == if bs[i] == Plus then Space else bs[i]
  {
    if |bs| == 0 then [] else [if bs[0] == Plus then Space else bs[0]] + PlusToSpace(bs[1..])
  }

  /** Percent-decode (section 1.3): `%` followed by two hex digits is the byte
      they spell; any other `%` stays as it is. */
  function PercentDecode(bs: seq<byte>): seq<byte>
    decreases |bs|
  {
    if |bs| == 0 then []
    else if bs[0] == Percent && |bs| >= 3 && IsHexDigit(bs[1]) && IsHexDigit(bs[2]) then
      [HexValue(bs[1]) * 16 + HexValue(bs[2])] + PercentDecode(bs[3..])
    else [bs[0]] + PercentDecode(bs[1..])
  }

  /** A name or value: `+` becomes space, then percent-decoding, then UTF-8
      decoding. The standard's decoder replaces malformed UTF-8 by U+FFFD; this
      model reports None instead. */
  function DecodeComponent(bs: seq<byte>): Option<string> {
    Utf8.Decode(PercentDecode(PlusToSpace(bs)))
  }

  function ParseSequences(seqs: seq<seq<byte>>): Option<seq<(string, string)>> {
    if |seqs| == 0 then Some([])
    else if |seqs[0]| == 0 then ParseSequences(seqs[1..])
    else
      var (name, value) := SplitAtFirst(seqs[0], EqualsSign);
      match (DecodeComponent(name), DecodeComponent(value), ParseSequences(seqs[1..]))
      case (Some(n), Some(v), Some(rest)) => Some([(n, v)] + rest)
      case _ => None
  }

  /** The application/x-www-form-urlencoded parser applied to a string: its
      UTF-8 bytes are split on `&`, empty pieces skipped, each piece split at its
      first `=`. */
  function Parse(input: string): Option<seq<(string, string)>> {
    ParseSequences(SplitOn(Utf8.Encode(input), Ampersand))
  }

  // ---------------------------------------------------------------------------
  // Round trip

  lemma HexRoundTrip(n: int)
    requires 0 <= n < 16
    ensures IsHexDigit(HexDigit(n)) && HexValue(HexDigit(n)) == n
  {
  }

  lemma {:induction false} PlusToSpaceAppend(a: seq<byte>, b: seq<byte>)
    ensures PlusToSpace(a + b) == PlusToSpace(a) + PlusToSpace(b)
  {
  }

  /** Undoing the encoding of one byte, whatever follows it. */
  lemma DecodeEncodedByte(b: byte, rest: seq<byte>)
    ensures PercentDecode(PlusToSpace(EncodeByte(b)) + rest) == [b] + PercentDecode(rest)
  {
    var e := PlusToSpace(EncodeByte(b));
    if b == Space {
      assert e == [Space];
      assert (e + rest)[1..] == rest;
    } else if IsKept(b) {
      assert e == [b];
      assert (e + rest)[1..] == rest;
    } else {
      HexRoundTrip(b / 16);
      HexRoundTrip(b % 16);
      assert e == [Percent, HexDigit(b / 16), HexDigit(b % 16)];
      assert (e + rest)[3..] == rest;
    }
  }

  lemma {:induction false} DecodeEncodedBytes(bs: seq<byte>)
    ensures PercentDecode(PlusToSpace(EncodeBytes(bs))) == bs
  {
    if |bs| > 0 {
      var head := EncodeByte(bs[0]);
      var tail := EncodeBytes(bs[1..]);
      assert PercentDecode(PlusToSpace(EncodeBytes(bs))) == [bs[0]] + PercentDecode(PlusToSpace(tail)) by {
        assert EncodeBytes(bs) == head + tail;
        PlusToSpaceAppend(head, tail);
        DecodeEncodedByte(bs[0], PlusToSpace(tail));
      }
      DecodeEncodedBytes(bs[1..]);
      assert [bs[0]] + bs[1..] == bs;
    }
  }

  /** Every name and value decodes back to itself. */
  lemma DecodeEncodedComponent(s: string)
    ensures DecodeComponent(EncodeComponent(s)) == Some(s)
  {
    DecodeEncodedBytes(Utf8.Encode(s));
    Utf8.DecodeEncode(s);
  }

  lemma {:induction false} SplitOnNoSep(a: seq<byte>, sep: byte)
    requires sep !in a
    ensures SplitOn(a, sep) == [a]
  {
    if |a| > 0 {
      assert a[0] != sep;
      SplitOnNoSep(a[1..], sep);
      assert [a[0]] + a[1..] == a;
    }
  }

  lemma {:induction false} SplitOnSep(a: seq<byte>, sep: byte, b: seq<byte>)
    requires sep !in a
    ensures SplitOn(a + [sep] + b, sep) == [a] + SplitOn(b, sep)
  {
    if |a| == 0 {
      assert (a + [sep] + b)[1..] == b;
    } else {
      assert a[0] != sep;
      assert (a + [sep] + b)[0] == a[0];
      assert (a + [sep] + b)[1..] == a[1..] + [sep] + b;
      SplitOnSep(a[1..], sep, b);
      assert [a[0]] + a[1..] == a;
    }
  }

  lemma {:induction false} SplitAtFirstSep(a: seq<byte>, sep: byte, b: seq<byte>)
    requires sep !in a
    ensures SplitAtFirst(a + [sep] + b, sep) == (a, b)
  {
    if |a| == 0 {
      assert (a + [sep] + b)[1..] == b;
    } else {
      assert a[0] != sep;
      assert (a + [sep] + b)[0] == a[0];
      assert (a + [sep] + b)[1..] == a[1..] + [sep] + b;
      SplitAtFirstSep(a[1..], sep, b);
      assert [a[0]] + a[1..] == a;
    }
  }

  /** Each pair serialized on its own, in order. */
  function SerializedPieces(pairs: seq<(string, string)>): (pieces: seq<seq<byte>>)
    ensures |pieces| == |pairs|
  {
    if |pairs| == 0 then [] else [SerializePair(pairs[0])] + SerializedPieces(pairs[1..])
  }

  /** The `&`-separated pieces of a serialization are the serialized pairs. */
  lemma {:induction false} SplitSerialized(pairs: seq<(string, string)>)
    requires |pairs| > 0
    ensures SplitOn(SerializeBytes(pairs), Ampersand) == SerializedPieces(pairs)
  {
    if |pairs| == 1 {
      SplitOnNoSep(SerializePair(pairs[0]), Ampersand);
    } else {
      SplitOnSep(SerializePair(pairs[0]), Ampersand, SerializeBytes(pairs[1..]));
      SplitSerialized(pairs[1..]);
    }
  }

  lemma {:induction false} ParseSerializedPieces(pairs: seq<(string, string)>)
    ensures ParseSequences(SerializedPieces(pairs)) == Some(pairs)
  {
    if |pairs| > 0 {
      var p := pairs[0];
      SplitAtFirstSep(EncodeComponent(p.0), EqualsSign, EncodeComponent(p.1));
      DecodeEncodedComponent(p.0);
      DecodeEncodedComponent(p.1);
      ParseSerializedPieces(pairs[1..]);
      assert [p] + pairs[1..] == pairs;
    }
  }

  /** Round trip: parsing a serialization gives back the same pairs, in order,
      for any names and values. */
  lemma ParseSerialize(pairs: seq<(string, string)>)
    ensures Parse(Serialize(pairs)) == Some(pairs)
  {
    Utf8.EncodeAscii(SerializeBytes(pairs));
    if |pairs| == 0 {
      assert Utf8.Encode(Serialize(pairs)) == [];
      assert SplitOn([], Ampersand) == [[]];
      assert ParseSequences([[]]) == ParseSequences([]);
    } else {
      SplitSerialized(pairs);
      ParseSerializedPieces(pairs);
    }
  }
}
