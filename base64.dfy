/**
 * `base64.b64encode`, the encoding of section 4 of RFC 4648: each three
 * bytes become four characters of a 64-letter alphabet, and a final one or
 * two bytes are padded with '='. The handshake uses it for the client's key,
 * the server's accept token and HTTP basic authentication. Decode is the
 * reverse, here to state what the encoding keeps.
 */
module Base64 {
  import opened Errors
  import opened Octets

  /** The letter for a 6-bit value. */
  function Letter(v: int): (c: char)
    requires 0 <= v < 64
    ensures c != '='
  {
    if v < 26 then ('A' as int + v) as char
    else if v < 52 then ('a' as int + v - 26) as char
    else if v < 62 then ('0' as int + v - 52) as char
    else if v == 62 then '+'
    else '/'
  }

  /** The 6-bit value of a letter of the alphabet. */
  function Value(c: char): (r: Option<int>)
    ensures r.Some? ==> 0 <= r.value < 64
  {
    if 'A' <= c <= 'Z' then Some(c as int - 'A' as int)
    else if 'a' <= c <= 'z' then Some(c as int - 'a' as int + 26)
    else if '0' <= c <= '9' then Some(c as int - '0' as int + 52)
    else if c == '+' then Some(62)
    else if c == '/' then Some(63)
    else None
  }

  /** Each letter stands for its own value. */
  lemma ValueOfLetter(v: int)
    requires 0 <= v < 64
    ensures Value(Letter(v)) == Some(v)
  {
  }

  /** Three bytes as four letters. */
  function Quad(b0: byte, b1: byte, b2: byte): (r: string)
    ensures |r| == 4
  {
    [Letter(b0 as int / 4), Letter(b0 as int % 4 * 16 + b1 as int / 16),
     Letter(b1 as int % 16 * 4 + b2 as int / 64), Letter(b2 as int % 64)]
  }

  /** `b64encode(data)`. */
  function Encode(data: seq<byte>): (r: string)
    ensures |r| == (|data| + 2) / 3 * 4
    decreases |data|
  {
    if |data| == 0 then ""
    else if |data| == 1 then
      [Letter(data[0] as int / 4), Letter(data[0] as int % 4 * 16), '=', '=']
    else if |data| == 2 then
      [Letter(data[0] as int / 4), Letter(data[0] as int % 4 * 16 + data[1] as int / 16),
       Letter(data[1] as int % 16 * 4), '=']
    else Quad(data[0], data[1], data[2]) + Encode(data[3..])
  }

  /** Four letters, the last one or two of which may be padding, as bytes. */
  function DecodeQuad(q: string, last: bool): (r: Option<seq<byte>>)
    requires |q| == 4
  {
    var v0, v1 := Value(q[0]), Value(q[1]);
    if v0.None? || v1.None? then None
    else
      var b0 := (v0.value * 4 + v1.value / 16) as byte;
      if last && q[2] == '=' && q[3] == '=' then Some([b0])
      else
        var v2 := Value(q[2]);
        if v2.None? then None
        else
          var b1 := (v1.value % 16 * 16 + v2.value / 4) as byte;
          if last && q[3] == '=' then Some([b0, b1])
          else
            var v3 := Value(q[3]);
            if v3.None? then None
            else Some([b0, b1, (v2.value % 4 * 64 + v3.value) as byte])
  }

  /** The bytes a base64 text stands for; None for text that is not base64. */
  function Decode(s: string): (r: Option<seq<byte>>)
    decreases |s|
  {
    if |s| == 0 then Some([])
    else if |s| < 4 then None
    else
      match DecodeQuad(s[..4], |s| == 4)
      case None => None
      case Some(b) =>
        if |b| < 3 then Some(b)
        else
          match Decode(s[4..])
          case None => None
          case Some(rest) => Some(b + rest)
  }

  lemma QuadRoundTrip(b0: byte, b1: byte, b2: byte, last: bool)
    ensures DecodeQuad(Quad(b0, b1, b2), last) == Some([b0, b1, b2])
  {
    var x, y, z := b0 as int, b1 as int, b2 as int;
    ValueOfLetter(x / 4);
    ValueOfLetter(x % 4 * 16 + y / 16);
    ValueOfLetter(y % 16 * 4 + z / 64);
    ValueOfLetter(z % 64);
    Recombine16(x % 4, y / 16);
    Recombine4(y % 16, z / 64);
  }

  /** The high and low parts of a 6-bit value whose low four bits came from another byte. */
  lemma Recombine16(h: int, r: int)
    requires 0 <= r < 16
    ensures (h * 16 + r) / 16 == h && (h * 16 + r) % 16 == r
  {
  }

  lemma Recombine4(h: int, r: int)
    requires 0 <= r < 4
    ensures (h * 4 + r) / 4 == h && (h * 4 + r) % 4 == r
  {
  }

  /** Decoding what Encode produced gives the bytes back. */
  lemma {:induction false} EncodeDecode(data: seq<byte>)
    ensures Decode(Encode(data)) == Some(data)
    decreases |data|
  {
    if |data| == 1 {
      SingleRoundTrip(data[0]);
      assert data == [data[0]];
    } else if |data| == 2 {
      PairRoundTrip(data[0], data[1]);
      assert data == [data[0], data[1]];
    } else if |data| >= 3 {
      EncodeDecode(data[3..]);
      GroupRoundTrip(data);
    }
  }

  /** A group of three bytes round-trips in front of a tail that does. */
  lemma GroupRoundTrip(data: seq<byte>)
    requires |data| >= 3 && Decode(Encode(data[3..])) == Some(data[3..])
    ensures Decode(Encode(data)) == Some(data)
  {
    var rest := Encode(data[3..]);
    var q := Quad(data[0], data[1], data[2]);
    assert Encode(data) == q + rest;
    QuadRoundTrip(data[0], data[1], data[2], |rest| == 0);
    DecodeGroup(q, rest, [data[0], data[1], data[2]]);
    FirstThree(data);
  }

  lemma FirstThree(data: seq<byte>)
    requires |data| >= 3
    ensures data == [data[0], data[1], data[2]] + data[3..]
  {
  }

  /** Decoding a full group followed by more text. */
  lemma DecodeGroup(q: string, rest: string, b: seq<byte>)
    requires |q| == 4 && DecodeQuad(q, |rest| == 0) == Some(b) && |b| == 3
    requires Decode(rest).Some?
    ensures Decode(q + rest) == Some(b + Decode(rest).value)
  {
    var s := q + rest;
    assert s[..4] == q && s[4..] == rest;
  }

  lemma SingleRoundTrip(b0: byte)
    ensures Decode(Encode([b0])) == Some([b0])
  {
    var x := b0 as int;
    ValueOfLetter(x / 4);
    ValueOfLetter(x % 4 * 16);
    Recombine16(x % 4, 0);
    var e := Encode([b0]);
    assert e[..4] == e;
  }

  lemma PairRoundTrip(b0: byte, b1: byte)
    ensures Decode(Encode([b0, b1])) == Some([b0, b1])
  {
    var x, y := b0 as int, b1 as int;
    ValueOfLetter(x / 4);
    ValueOfLetter(x % 4 * 16 + y / 16);
    ValueOfLetter(y % 16 * 4);
    Recombine16(x % 4, y / 16);
    Recombine4(y % 16, 0);
    var e := Encode([b0, b1]);
    assert e[..4] == e;
  }

  /** Encode is one-to-one: different byte strings never encode alike. */
  lemma EncodeInjective(a: seq<byte>, b: seq<byte>)
    requires Encode(a) == Encode(b)
    ensures a == b
  {
    EncodeDecode(a);
    EncodeDecode(b);
  }
}
