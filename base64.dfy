/**
 * Padded base64 with the URL- and filename-safe alphabet of section 5 of
 * RFC 4648 (`-` and `_` in place of the standard `+` and `/`), which is what
 * `GeneralPurpose::new(&alphabet::URL_SAFE, general_purpose::PAD)` encodes.
 *
 * `Decode` is not used by the service; it is the inverse against which the
 * encoder is proved injective.
 */
module Base64Url {
  import opened Bytes
  import opened Wrappers

  /** Padding character of section 3.2 of RFC 4648. */
  const Pad: char := '='

  /** The character that encodes the 6-bit value `i` (Table 2 of RFC 4648). */
  function Symbol(i: int): (c: char)
    requires 0 <= i < 64
    ensures IsSymbol(c) && IndexOf(c) == i
  {
    if i < 26 then ('A' as int + i) as char
    else if i < 52 then ('a' as int + (i - 26)) as char
    else if i < 62 then ('0' as int + (i - 52)) as char
    else if i == 62 then '-'
    else '_'
  }

  /** True for the 64 characters of the URL-safe alphabet. */
  predicate IsSymbol(c: char) {
    ('A' <= c <= 'Z') || ('a' <= c <= 'z') || ('0' <= c <= '9') || c == '-' || c == '_'
  }

  /** The 6-bit value a character of the alphabet encodes. */
  function IndexOf(c: char): (i: int)
    requires IsSymbol(c)
    ensures 0 <= i < 64
  {
    if 'A' <= c <= 'Z' then c as int - 'A' as int
    else if 'a' <= c <= 'z' then c as int - 'a' as int + 26
    else if '0' <= c <= '9' then c as int - '0' as int + 52
    else if c == '-' then 62
    else 63
  }

  /** Three bytes become four characters. */
  function EncodeThree(b0: byte, b1: byte, b2: byte): (s: string) {
    var x0, x1, x2 := b0 as int, b1 as int, b2 as int;
    [Symbol(x0 / 4), Symbol((x0 % 4) * 16 + x1 / 16), Symbol((x1 % 16) * 4 + x2 / 64), Symbol(x2 % 64)]
  }

  /** A final pair of bytes becomes three characters and one pad. */
  function EncodeTwo(b0: byte, b1: byte): (s: string) {
    var x0, x1 := b0 as int, b1 as int;
    [Symbol(x0 / 4), Symbol((x0 % 4) * 16 + x1 / 16), Symbol((x1 % 16) * 4), Pad]
  }

  /** A final single byte becomes two characters and two pads. */
  function EncodeOne(b0: byte): (s: string) {
    var x0 := b0 as int;
    [Symbol(x0 / 4), Symbol((x0 % 4) * 16), Pad, Pad]
  }

  /** Padded base64url encoding of a byte string. */
  function Encode(b: seq<byte>): (s: string)
    ensures |s| == 4 * ((|b| + 2) / 3)
    ensures forall i :: 0 <= i < |s| ==> IsSymbol(s[i]) || s[i] == Pad
    decreases |b|
  {
    if |b| == 0 then ""
    else if |b| == 1 then EncodeOne(b[0])
    else if |b| == 2 then EncodeTwo(b[0], b[1])
    else EncodeThree(b[0], b[1], b[2]) + Encode(b[3..])
  }

  /** Decodes one group of four characters; a pad may only end the group. */
  function DecodeQuad(c0: char, c1: char, c2: char, c3: char): (r: Option<seq<byte>>) {
    if !IsSymbol(c0) || !IsSymbol(c1) then None
    else
      var i0, i1 := IndexOf(c0), IndexOf(c1);
      var x0 := (i0 * 4 + i1 / 16) as byte;
      if c2 == Pad && c3 == Pad then Some([x0])
      else if !IsSymbol(c2) then None
      else
        var i2 := IndexOf(c2);
        var x1 := ((i1 % 16) * 16 + i2 / 4) as byte;
        if c3 == Pad then Some([x0, x1])
        else if !IsSymbol(c3) then None
        else Some([x0, x1, ((i2 % 4) * 64 + IndexOf(c3)) as byte])
  }

  /** Inverse of `Encode`: groups of four, padding allowed in the last group only. */
  function Decode(s: string): (r: Option<seq<byte>>)
    decreases |s|
  {
    if |s| == 0 then Some([])
    else if |s| < 4 then None
    else if |s| == 4 then DecodeQuad(s[0], s[1], s[2], s[3])
    else
      match DecodeQuad(s[0], s[1], s[2], s[3])
      case None => None
      case Some(head) =>
        if |head| != 3 then None
        else
          match Decode(s[4..])
          case None => None
          case Some(tail) => Some(head + tail)
  }

  lemma DecodeEncodeThree(b0: byte, b1: byte, b2: byte)
    ensures var s := EncodeThree(b0, b1, b2); DecodeQuad(s[0], s[1], s[2], s[3]) == Some([b0, b1, b2])
  {
    var x0, x1, x2 := b0 as int, b1 as int, b2 as int;
    var i1, i2 := (x0 % 4) * 16 + x1 / 16, (x1 % 16) * 4 + x2 / 64;
    assert i1 / 16 == x0 % 4 && i1 % 16 == x1 / 16;
    assert i2 / 4 == x1 % 16 && i2 % 4 == x2 / 64;
  }

  lemma DecodeEncodeTwo(b0: byte, b1: byte)
    ensures var s := EncodeTwo(b0, b1); DecodeQuad(s[0], s[1], s[2], s[3]) == Some([b0, b1])
  {
    var x0, x1 := b0 as int, b1 as int;
    var i1, i2 := (x0 % 4) * 16 + x1 / 16, (x1 % 16) * 4;
    assert i1 / 16 == x0 % 4 && i1 % 16 == x1 / 16;
    assert i2 / 4 == x1 % 16;
  }

  lemma DecodeEncodeOne(b0: byte)
    ensures var s := EncodeOne(b0); DecodeQuad(s[0], s[1], s[2], s[3]) == Some([b0])
  {
    var x0 := b0 as int;
    assert ((x0 % 4) * 16) / 16 == x0 % 4;
  }

  /** A full leading group decodes independently of the groups after it. */
  lemma DecodeAppend(head: string, tail: string, x: seq<byte>, y: seq<byte>)
    requires |head| == 4 && DecodeQuad(head[0], head[1], head[2], head[3]) == Some(x) && |x| == 3
    requires |tail| > 0 && Decode(tail) == Some(y)
    ensures Decode(head + tail) == Some(x + y)
  {
    var s := head + tail;
    assert s[0] == head[0] && s[1] == head[1] && s[2] == head[2] && s[3] == head[3];
    assert s[4..] == tail;
  }

  /** Round trip for inputs of at most one group. */
  lemma DecodeEncodeShort(b: seq<byte>)
    requires |b| <= 3
    ensures Decode(Encode(b)) == Some(b)
  {
    if |b| == 1 {
      DecodeEncodeOneByte(b);
    } else if |b| == 2 {
      DecodeEncodeTwoBytes(b);
    } else if |b| == 3 {
      DecodeEncodeThreeBytes(b);
    }
  }

  lemma DecodeEncodeOneByte(b: seq<byte>)
    requires |b| == 1
    ensures Decode(Encode(b)) == Some(b)
  {
    var s := EncodeOne(b[0]);
    assert Encode(b) == s;
    DecodeEncodeOne(b[0]);
    assert Decode(s) == DecodeQuad(s[0], s[1], s[2], s[3]);
    assert [b[0]] == b;
  }

  lemma DecodeEncodeTwoBytes(b: seq<byte>)
    requires |b| == 2
    ensures Decode(Encode(b)) == Some(b)
  {
    var s := EncodeTwo(b[0], b[1]);
    assert Encode(b) == s;
    DecodeEncodeTwo(b[0], b[1]);
    assert Decode(s) == DecodeQuad(s[0], s[1], s[2], s[3]);
    assert [b[0], b[1]] == b;
  }

  lemma DecodeEncodeThreeBytes(b: seq<byte>)
    requires |b| == 3
    ensures Decode(Encode(b)) == Some(b)
  {
    var s := EncodeThree(b[0], b[1], b[2]);
    assert b[3..] == [];
    assert Encode(b) == s + "";
    assert s + "" == s;
    DecodeEncodeThree(b[0], b[1], b[2]);
    assert Decode(s) == DecodeQuad(s[0], s[1], s[2], s[3]);
    assert [b[0], b[1], b[2]] == b;
  }

  /** Round trip: decoding the encoding gives back the bytes, so `Encode` is injective. */
  lemma {:induction false} DecodeEncode(b: seq<byte>)
    ensures Decode(Encode(b)) == Some(b)
    decreases |b|
  {
    if |b| <= 3 {
      DecodeEncodeShort(b);
    } else {
      var head, rest := b[..3], b[3..];
      assert head + rest == b;
      var headText := EncodeThree(b[0], b[1], b[2]);
      assert Encode(b) == headText + Encode(rest);
      DecodeEncodeThree(b[0], b[1], b[2]);
      assert head == [b[0], b[1], b[2]];
      DecodeEncode(rest);
      DecodeAppend(headText, Encode(rest), head, rest);
    }
  }

  /** A leading group of three bytes encodes on its own, ahead of the rest. */
  lemma EncodeCons(x: byte, y: byte, z: byte, rest: seq<byte>)
    ensures Encode([x, y, z] + rest) == EncodeThree(x, y, z) + Encode(rest)
  {
    assert ([x, y, z] + rest)[3..] == rest;
  }

  /** Encoding is injective: equal encodings come from equal bytes. */
  lemma EncodeInjective(a: seq<byte>, b: seq<byte>)
    requires Encode(a) == Encode(b)
    ensures a == b
  {
    DecodeEncode(a);
    DecodeEncode(b);
  }

  /** The output never uses `+` or `/`, the two symbols of the standard alphabet of section 4 of RFC 4648. */
  lemma EncodeIsUrlSafe(b: seq<byte>)
    ensures forall i :: 0 <= i < |Encode(b)| ==> Encode(b)[i] !in {'+', '/'}
  {
  }
}
