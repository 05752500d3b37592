/**
 * The frame codec of frame.py: the frame record, its packing into the base
 * framing of RFC 6455 section 5.2, the XOR masking of section 5.3,
 * fragmentation (section 5.4), and the decoder, which reads from a byte
 * buffer instead of blocking on the socket.
 */
module Frames {
  import opened Errors
  import opened Octets
  import opened Bytes

  /** The 4-bit opcode field. */
  type Opcode = x: nat | x < 16

  const CONTINUATION: Opcode := 0x0
  const TEXT: Opcode := 0x1
  const BINARY: Opcode := 0x2
  const CLOSE: Opcode := 0x8
  const PING: Opcode := 0x9
  const PONG: Opcode := 0xA

  /** Control frames are those with the high opcode bit set (RFC 6455 section 5.5). */
  predicate IsControl(op: Opcode) {
    op >= 8
  }

  /** 2^63: packed payload lengths must stay below it. */
  const MAX_PAYLOAD: nat := 0x8000_0000_0000_0000

  /** A four-byte masking key, as drawn from os.urandom(4). */
  type Key = k: seq<byte> | |k| == 4 witness [0, 0, 0, 0]

  /**
   * A frame. The payload is always held unmasked; `maskingKey` is empty
   * (no masking) or the key that packing applies.
   */
  datatype Frame = Frame(
    opcode: Opcode,
    payload: seq<byte>,
    maskingKey: seq<byte>,
    final: bool,
    rsv1: bool,
    rsv2: bool,
    rsv3: bool)

  predicate ValidKey(key: seq<byte>) {
    |key| == 0 || |key| == 4
  }

  /** Frame.__init__: refuses a masking key that is neither empty nor four bytes. */
  function NewFrame(opcode: Opcode, payload: seq<byte>, maskingKey: seq<byte>,
                    final: bool, rsv1: bool, rsv2: bool, rsv3: bool): (r: Result<Frame>)
    ensures r.Err? <==> !ValidKey(maskingKey)
    ensures r.Err? ==> r.error == InvalidMaskingKey
    ensures r.Ok? ==> r.value == Frame(opcode, payload, maskingKey, final, rsv1, rsv2, rsv3)
  {
    if !ValidKey(maskingKey) then Err(InvalidMaskingKey)
    else Ok(Frame(opcode, payload, maskingKey, final, rsv1, rsv2, rsv3))
  }

  /** A frame with the constructor's defaults: final, no RSV bit, unmasked. */
  function SimpleFrame(opcode: Opcode, payload: seq<byte>): Frame {
    Frame(opcode, payload, [], true, false, false, false)
  }

  // ---------------------------------------------------------------- masking

  /** The masking transform: byte i is XORed with key byte i mod 4. */
  function Masked(key: Key, data: seq<byte>): (r: seq<byte>)
  {
    seq(|data|, i requires 0 <= i < |data| => Xor(data[i], key[i % 4]))
  }

  lemma MaskedShape(key: Key, data: seq<byte>)
    ensures |Masked(key, data)| == |data|
    ensures forall i :: 0 <= i < |data| ==> Masked(key, data)[i] == Xor(data[i], key[i % 4])
  {
  }

  /** Masking twice with the same key gives back the data. */
  lemma MaskedInvolution(key: Key, data: seq<byte>)
    ensures Masked(key, Masked(key, data)) == data
  {
    var m := Masked(key, data);
    assert |Masked(key, m)| == |data|;
    forall i | 0 <= i < |data|
      ensures Masked(key, m)[i] == data[i]
    {
      XorInvolution(data[i], key[i % 4]);
    }
  }

  /** `mask(key, original)`: XOR into a fresh copy of the data, byte by byte. */
  method Mask(key: seq<byte>, original: seq<byte>) returns (r: Result<seq<byte>>)
    ensures |key| != 4 ==> r == Err(InvalidMaskingKey)
    ensures |key| == 4 ==> r == Ok(Masked(key, original))
  {
    if |key| != 4 {
      return Err(InvalidMaskingKey);
    }
    var masked := new byte[|original|](i requires 0 <= i < |original| => original[i]);
    for i := 0 to masked.Length
      invariant forall j :: 0 <= j < i ==> masked[j] == Xor(original[j], key[j % 4])
      invariant forall j :: i <= j < masked.Length ==> masked[j] == original[j]
    {
      masked[i] := Xor(masked[i], key[i % 4]);
    }
    assert masked[..] == Masked(key, original);
    return Ok(masked[..]);
  }

  // ---------------------------------------------------------------- packing

  /** FIN, RSV1-3 and the opcode in one byte. */
  function HeaderByte(f: Frame): (r: byte)
    ensures HasBit(r, 0x80) == f.final
    ensures HasBit(r, 0x40) == f.rsv1
    ensures HasBit(r, 0x20) == f.rsv2
    ensures HasBit(r, 0x10) == f.rsv3
    ensures LowBits(r, 0x10) == f.opcode
  {
    ((if f.final then 0x80 else 0) + (if f.rsv1 then 0x40 else 0)
     + (if f.rsv2 then 0x20 else 0) + (if f.rsv3 then 0x10 else 0) + f.opcode) as byte
  }

  /** Bytes spent on the extended payload length: none, two or eight. */
  function ExtendedLengthSize(n: nat): nat {
    if n <= 125 then 0 else if n < 0x1_0000 then 2 else 8
  }

  /** The mask bit and payload-length bytes, or none when n is 2^63 or more. */
  function LengthBytes(masked: bool, n: nat): (r: Option<seq<byte>>)
    ensures r.Some? <==> n < MAX_PAYLOAD
    ensures r.Some? ==> |r.value| == 1 + ExtendedLengthSize(n)
  {
    var m: nat := if masked then 0x80 else 0;
    if n <= 125 then Some([(m + n) as byte])
    else if n < 0x1_0000 then Some([(m + 126) as byte] + BigEndian(n, 2))
    else if n < MAX_PAYLOAD then Some([(m + 127) as byte] + BigEndian(n, 8))
    else None
  }

  /** The length of the packed form of f. */
  function PackedLength(f: Frame): nat {
    2 + ExtendedLengthSize(|f.payload|) + |f.maskingKey| + |f.payload|
  }

  /**
   * `Frame.pack`: the header byte, the mask bit with the 7/16/64-bit length,
   * then the key and the masked payload, or the payload as it is.
   */
  function Pack(f: Frame): (r: Result<seq<byte>>)
    ensures r.Ok? <==> |f.payload| < MAX_PAYLOAD && ValidKey(f.maskingKey)
    ensures |f.payload| >= MAX_PAYLOAD ==> r == Err(PayloadTooLong)
    ensures r.Ok? ==> |r.value| == PackedLength(f) && r.value[0] == HeaderByte(f)
  {
    var masked := |f.maskingKey| > 0;
    var lengthBytes := LengthBytes(masked, |f.payload|);
    if lengthBytes.None? then Err(PayloadTooLong)
    else if !masked then Ok([HeaderByte(f)] + lengthBytes.value + f.payload)
    else if |f.maskingKey| != 4 then Err(InvalidMaskingKey)
    else Ok([HeaderByte(f)] + lengthBytes.value + f.maskingKey + Masked(f.maskingKey, f.payload))
  }

  /** Pack as the source writes it: it reads `self.fin`, which no frame has. */
  function PackAsWritten(f: Frame): (r: Result<seq<byte>>)
    ensures r == Err(AttributeMissing("fin"))
  {
    Err(AttributeMissing("fin"))
  }

  // ---------------------------------------------------------------- decoding

  datatype Decoded = Incomplete | Decoded(frame: Frame, consumed: nat)

  /**
   * The payload length announced by the header and the offset where the key
   * (or the payload) starts, or None while the extended length is missing.
   */
  function ReadLength(buf: seq<byte>): (r: Option<(nat, nat)>)
    requires |buf| >= 2
    ensures r.Some? ==> r.value.1 == 2 + HeaderExtension(buf[1]) <= |buf|
  {
    var ext := HeaderExtension(buf[1]);
    if |buf| < 2 + ext then None
    else if ext == 0 then Some((LowBits(buf[1], 0x80), 2))
    else Some((FromBigEndian(buf[2..2 + ext]), 2 + ext))
  }

  /** Bytes of extended length announced by the second header byte. */
  function HeaderExtension(b2: byte): nat {
    if LowBits(b2, 0x80) == 126 then 2 else if LowBits(b2, 0x80) == 127 then 8 else 0
  }

  /** The frame whose first header byte is b1. */
  function FrameOf(b1: byte, key: seq<byte>, payload: seq<byte>): Frame {
    Frame(LowBits(b1, 0x10), payload, key,
          HasBit(b1, 0x80), HasBit(b1, 0x40), HasBit(b1, 0x20), HasBit(b1, 0x10))
  }

  /**
   * `receive_frame` on a buffer: the first frame the buffer holds and how
   * many bytes it takes, or Incomplete when the buffer ends first.
   */
  function Decode(buf: seq<byte>): (r: Decoded)
    ensures r.Decoded? ==> 2 <= r.consumed <= |buf|
    ensures r.Decoded? ==> ValidKey(r.frame.maskingKey)
  {
    if |buf| < 2 then Incomplete
    else match ReadLength(buf)
      case None => Incomplete
      case Some((n, start)) =>
        var keyLen := if HasBit(buf[1], 0x80) then 4 else 0;
        if |buf| < start + keyLen + n then Incomplete
        else
          var key := buf[start..start + keyLen];
          var data := buf[start + keyLen..start + keyLen + n];
          Decoded(FrameOf(buf[0], key, if keyLen == 4 then Masked(key, data) else data),
                  start + keyLen + n)
  }

  /** A short length shares its byte with the mask bit. */
  lemma ShortLengthByte(masked: bool, n: nat)
    requires n <= 127
    ensures var b := ((if masked then 0x80 else 0) + n) as byte;
      HasBit(b, 0x80) == masked && LowBits(b, 0x80) == n
  {
  }

  /** The length bytes of pack are read back by ReadLength. */
  lemma ReadLengthPacked(masked: bool, n: nat, h: byte, tail: seq<byte>)
    requires n < MAX_PAYLOAD
    ensures var buf := [h] + LengthBytes(masked, n).value + tail;
      && (HasBit(buf[1], 0x80)) == masked
      && ReadLength(buf) == Some((n, 2 + ExtendedLengthSize(n)))
  {
    if n <= 125 {
      ShortLengthByte(masked, n);
    } else if n < 0x1_0000 {
      ExtendedLengthRead(masked, n, 126, 2, h, tail);
    } else {
      ExtendedLengthRead(masked, n, 127, 8, h, tail);
    }
  }

  /** An extended length: the marker 126 or 127 in the second byte, then k big-endian bytes. */
  lemma ExtendedLengthRead(masked: bool, n: nat, marker: byte, k: nat, h: byte, tail: seq<byte>)
    requires (marker == 126 && k == 2) || (marker == 127 && k == 8)
    requires n < Pow256(k)
    ensures var buf := [h] + ([((if masked then 0x80 else 0) + marker as int) as byte] + BigEndian(n, k)) + tail;
      && (HasBit(buf[1], 0x80)) == masked
      && ReadLength(buf) == Some((n, 2 + k))
  {
    var b := ((if masked then 0x80 else 0) + marker as int) as byte;
    var buf := [h] + ([b] + BigEndian(n, k)) + tail;
    assert buf[1] == b;
    ShortLengthByte(masked, marker as int);
    assert buf[2..2 + k] == BigEndian(n, k);
    BigEndianRoundTrip(n, k);
  }

  lemma FrameOfHeaderByte(f: Frame)
    ensures FrameOf(HeaderByte(f), f.maskingKey, f.payload) == f
  {
  }

  /** The parts of a buffer made of a header, a key, a body and trailing bytes. */
  lemma PartsOf(buf: seq<byte>, header: seq<byte>, key: seq<byte>, body: seq<byte>, rest: seq<byte>)
    requires buf == header + key + body + rest
    ensures buf[|header|..|header| + |key|] == key
    ensures buf[|header| + |key|..|header| + |key| + |body|] == body
  {
  }

  /** The bytes packing writes, as header, key and body. */
  lemma PackParts(f: Frame)
    requires Pack(f).Ok?
    ensures var masked := |f.maskingKey| > 0;
      Pack(f).value == [HeaderByte(f)] + LengthBytes(masked, |f.payload|).value + f.maskingKey
        + (if masked then Masked(f.maskingKey, f.payload) else f.payload)
  {
    if |f.maskingKey| == 0 {
      assert f.maskingKey == [];
    }
  }

  /** Decoding a packed frame gives the frame back and consumes exactly its packed length. */
  lemma {:induction false} DecodePack(f: Frame, rest: seq<byte>)
    requires Pack(f).Ok?
    ensures Decode(Pack(f).value + rest) == Decoded(f, |Pack(f).value|)
  {
    var masked := |f.maskingKey| > 0;
    var n := |f.payload|;
    var body := if masked then Masked(f.maskingKey, f.payload) else f.payload;
    PackedLayout(f, rest);
    DecodeOfParts(Pack(f).value + rest, n, 2 + ExtendedLengthSize(n), f.maskingKey, body);
    if masked {
      MaskedInvolution(f.maskingKey, f.payload);
    }
    FrameOfHeaderByte(f);
  }

  /** Where the length, the key and the payload of a packed frame sit. */
  lemma PackedLayout(f: Frame, rest: seq<byte>)
    requires Pack(f).Ok?
    ensures var masked := |f.maskingKey| > 0;
      var n := |f.payload|;
      var body := if masked then Masked(f.maskingKey, f.payload) else f.payload;
      var buf := Pack(f).value + rest;
      var start := 2 + ExtendedLengthSize(n);
      var keyLen := |f.maskingKey|;
      && |buf| >= 2 && ReadLength(buf) == Some((n, start)) && buf[0] == HeaderByte(f)
      && (HasBit(buf[1], 0x80)) == masked && start + keyLen + n == |Pack(f).value|
      && buf[start..start + keyLen] == f.maskingKey && buf[start + keyLen..start + keyLen + n] == body
  {
    var masked := |f.maskingKey| > 0;
    var n := |f.payload|;
    var body := if masked then Masked(f.maskingKey, f.payload) else f.payload;
    var buf := Pack(f).value + rest;
    var header := [HeaderByte(f)] + LengthBytes(masked, n).value;
    PackParts(f);
    assert buf == header + f.maskingKey + body + rest;
    assert buf == [HeaderByte(f)] + LengthBytes(masked, n).value + (f.maskingKey + body + rest);
    ReadLengthPacked(masked, n, HeaderByte(f), f.maskingKey + body + rest);
    PartsOf(buf, header, f.maskingKey, body, rest);
  }

  /** Decode, once the length, the key and the payload bytes are known. */
  lemma DecodeOfParts(buf: seq<byte>, n: nat, start: nat, key: seq<byte>, data: seq<byte>)
    requires |buf| >= 2 && ReadLength(buf) == Some((n, start))
    requires ValidKey(key) && (HasBit(buf[1], 0x80)) == (|key| == 4) && |data| == n
    requires start + |key| + n <= |buf|
    requires buf[start..start + |key|] == key && buf[start + |key|..start + |key| + n] == data
    ensures Decode(buf) == Decoded(FrameOf(buf[0], key, if |key| == 4 then Masked(key, data) else data),
                                   start + |key| + n)
  {
  }

  /** Decoding reads nothing past the bytes it consumes. */
  lemma SliceOfPrefix(a: seq<byte>, b: seq<byte>, c: nat, i: nat, j: nat)
    requires i <= j <= c <= |a| && c <= |b| && a[..c] == b[..c]
    ensures a[i..j] == b[i..j]
  {
    assert a[i..j] == a[..c][i..j];
    assert b[i..j] == b[..c][i..j];
  }

  /** The length a header announces depends only on the header's bytes. */
  lemma ReadLengthPrefix(buf: seq<byte>, other: seq<byte>, k: nat)
    requires 2 <= k <= |buf| && k <= |other| && other[..k] == buf[..k]
    requires ReadLength(buf).Some? && ReadLength(buf).value.1 <= k
    ensures other[0] == buf[0] && other[1] == buf[1]
    ensures ReadLength(other) == ReadLength(buf)
  {
    var start := ReadLength(buf).value.1;
    assert other[0] == other[..k][0] && other[1] == other[..k][1];
    SliceOfPrefix(buf, other, k, 2, start);
  }

  lemma DecodePrefixStable(buf: seq<byte>, other: seq<byte>)
    requires Decode(buf).Decoded?
    requires Decode(buf).consumed <= |other| && other[..Decode(buf).consumed] == buf[..Decode(buf).consumed]
    ensures Decode(other) == Decode(buf)
  {
    var c := Decode(buf).consumed;
    var (n, start) := ReadLength(buf).value;
    var keyLen := if HasBit(buf[1], 0x80) then 4 else 0;
    assert c == start + keyLen + n && c <= |buf|;
    var key := buf[start..start + keyLen];
    var data := buf[start + keyLen..c];
    ReadLengthPrefix(buf, other, c);
    SliceOfPrefix(buf, other, c, start, start + keyLen);
    SliceOfPrefix(buf, other, c, start + keyLen, c);
    DecodeOfParts(buf, n, start, key, data);
    DecodeOfParts(other, n, start, key, data);
  }

  /** A decoded frame stays decoded the same way whatever follows it in the buffer. */
  lemma DecodeResumable(buf: seq<byte>, more: seq<byte>)
    requires Decode(buf).Decoded?
    ensures Decode(buf + more) == Decode(buf)
    ensures Decode(buf[..Decode(buf).consumed]) == Decode(buf)
  {
    var c := Decode(buf).consumed;
    assert (buf + more)[..c] == buf[..c];
    DecodePrefixStable(buf, buf + more);
    assert buf[..c][..c] == buf[..c];
    DecodePrefixStable(buf, buf[..c]);
  }

  /**
   * receive_frame as the source writes it: struct.unpack yields a tuple for
   * an extended length, and the local flag `mask` hides the function mask(),
   * so both paths end in a TypeError once their bytes have arrived.
   */
  function DecodeAsWritten(buf: seq<byte>): (r: Result<Decoded>)
    ensures r.Err? ==> |buf| >= 2 && r.error.TypeError? && (HeaderExtension(buf[1]) != 0 || HasBit(buf[1], 0x80))
    ensures |buf| >= 2 && HeaderExtension(buf[1]) == 0 && !HasBit(buf[1], 0x80) ==> r == Ok(Decode(buf))
    ensures |buf| < 2 ==> r == Ok(Incomplete)
  {
    if |buf| < 2 then Ok(Incomplete)
    else
      var b2 := buf[1];
      var ext := HeaderExtension(b2);
      var keyLen := if HasBit(b2, 0x80) then 4 else 0;
      if ext != 0 then
        if |buf| < 2 + ext + keyLen then Ok(Incomplete)
        else Err(TypeError("tuple length passed to recvn"))
      else if keyLen == 4 then
        if |buf| < 2 + keyLen + LowBits(b2, 0x80) then Ok(Incomplete)
        else Err(TypeError("'bool' object is not callable"))
      else Ok(Decode(buf))
  }

  /** As written, no packed frame with an extended length or a key decodes. */
  lemma DecodeAsWrittenFails(f: Frame)
    requires Pack(f).Ok?
    requires |f.payload| > 125 || |f.maskingKey| == 4
    ensures DecodeAsWritten(Pack(f).value).Err?
    ensures Decode(Pack(f).value) == Decoded(f, |Pack(f).value|)
  {
    var p := Pack(f).value;
    DecodePack(f, []);
    assert p + [] == p;
    var masked := |f.maskingKey| > 0;
    var lb := LengthBytes(masked, |f.payload|).value;
    var tail := p[|lb| + 1..];
    assert p == [HeaderByte(f)] + lb + tail;
    ReadLengthPacked(masked, |f.payload|, HeaderByte(f), tail);
  }

  // ---------------------------------------------------------------- fragments

  /**
   * Reads one frame off the front of a buffer. receive_fragments reads with
   * receive_frame, that is with Decode; the loop below is stated for any
   * reader that consumes what it decodes.
   */
  type Reader = seq<byte> -> Decoded

  /** A reader that, when it yields a frame, takes at least one byte and no more than it has. */
  ghost predicate Advances(read: Reader) {
    forall b :: read(b).Decoded? ==> 1 <= read(b).consumed <= |b|
  }

  lemma DecodeAdvances()
    ensures Advances(Decode)
  {
  }

  /** The frames, one after another, that a buffer starts with, and the bytes they take. */
  ghost predicate DecodesAs(read: Reader, buf: seq<byte>, frames: seq<Frame>, consumed: nat)
    requires Advances(read)
    decreases |frames|
  {
    if frames == [] then consumed == 0
    else
      var d := read(buf);
      && d.Decoded? && d.frame == frames[0] && d.consumed <= consumed
      && DecodesAs(read, buf[d.consumed..], frames[1..], consumed - d.consumed)
  }

  datatype Fragments = MoreBytesNeeded | Chain(frames: seq<Frame>, consumed: nat)

  /** `receive_fragments` on a buffer: frames up to and including the first final one. */
  function ReceivedFragments(read: Reader, buf: seq<byte>): Fragments
    requires Advances(read)
    decreases |buf|
  {
    match read(buf)
    case Incomplete => MoreBytesNeeded
    case Decoded(f, c) =>
      if f.final then Chain([f], c)
      else Join([f], c, ReceivedFragments(read, buf[c..]))
  }

  /**
   * What receive_fragments promises: at least one frame, the last one final
   * and no other, read one after another from the front of the buffer.
   */
  lemma {:induction false} ReceivedFragmentsChain(read: Reader, buf: seq<byte>)
    requires Advances(read)
    ensures var r := ReceivedFragments(read, buf);
      r.Chain? ==>
        && |r.frames| >= 1 && r.frames[|r.frames| - 1].final
        && (forall i :: 0 <= i < |r.frames| - 1 ==> !r.frames[i].final)
        && r.consumed <= |buf| && DecodesAs(read, buf, r.frames, r.consumed)
    decreases |buf|
  {
    match read(buf)
    case Incomplete =>
    case Decoded(f, c) =>
      if f.final {
        assert DecodesAs(read, buf[c..], [], 0);
      } else {
        ReceivedFragmentsChain(read, buf[c..]);
        match ReceivedFragments(read, buf[c..])
        case MoreBytesNeeded =>
        case Chain(fs, c') =>
          var frames := [f] + fs;
          assert frames[1..] == fs;
          forall i | 0 <= i < |frames| - 1
            ensures !frames[i].final
          {
            if i > 0 {
              assert frames[i] == fs[i - 1];
            }
          }
      }
  }

  /** The loop of receive_fragments: read frames until one is final. */
  method ReceiveFragments(read: Reader, buf: seq<byte>) returns (r: Fragments)
    requires Advances(read)
    ensures r == ReceivedFragments(read, buf)
  {
    var d := read(buf);
    if d.Incomplete? {
      return MoreBytesNeeded;
    }
    var fragments := [d.frame];
    var offset := d.consumed;
    assert fragments[|fragments| - 1] == d.frame;
    while !fragments[|fragments| - 1].final
      invariant |fragments| >= 1 && offset <= |buf|
      invariant ReceivedFragments(read, buf) ==
        if fragments[|fragments| - 1].final then Chain(fragments, offset)
        else Join(fragments, offset, ReceivedFragments(read, buf[offset..]))
      decreases |buf| - offset
    {
      var next := read(buf[offset..]);
      if next.Incomplete? {
        return MoreBytesNeeded;
      }
      ReceivedStep(read, buf, fragments, offset);
      fragments := fragments + [next.frame];
      offset := offset + next.consumed;
    }
    return Chain(fragments, offset);
  }

  /** One more frame read at `offset` moves from what the rest gives to what has been read. */
  lemma ReceivedStep(read: Reader, buf: seq<byte>, fragments: seq<Frame>, offset: nat)
    requires Advances(read) && offset <= |buf| && read(buf[offset..]).Decoded?
    requires ReceivedFragments(read, buf) == Join(fragments, offset, ReceivedFragments(read, buf[offset..]))
    ensures var d := read(buf[offset..]);
      var fs := fragments + [d.frame];
      var o := offset + d.consumed;
      && |fs| >= 1 && o <= |buf|
      && ReceivedFragments(read, buf) ==
        if fs[|fs| - 1].final then Chain(fs, o) else Join(fs, o, ReceivedFragments(read, buf[o..]))
  {
    var d := read(buf[offset..]);
    var fs := fragments + [d.frame];
    assert fs[|fs| - 1] == d.frame;
    assert buf[offset..][d.consumed..] == buf[offset + d.consumed..];
    JoinAssoc(fragments, offset, d.frame, d.consumed, ReceivedFragments(read, buf[offset + d.consumed..]));
  }

  lemma JoinAssoc(read: seq<Frame>, used: nat, f: Frame, c: nat, rest: Fragments)
    ensures Join(read, used, Join([f], c, rest)) == Join(read + [f], used + c, rest)
  {
    if rest.Chain? {
      assert read + ([f] + rest.frames) == (read + [f]) + rest.frames;
    }
  }

  /** Puts frames already read in front of what the rest of the buffer gives. */
  function Join(read: seq<Frame>, used: nat, rest: Fragments): Fragments {
    match rest
    case MoreBytesNeeded => MoreBytesNeeded
    case Chain(fs, c) => Chain(read + fs, used + c)
  }

  // ---------------------------------------------------------------- fragmenting

  /** The payload split into consecutive pieces of n bytes, the last one shorter. */
  function Chunks(p: seq<byte>, n: nat): seq<seq<byte>>
    requires n > 0
    decreases |p|
  {
    if |p| == 0 then []
    else
      var k := if |p| < n then |p| else n;
      [p[..k]] + Chunks(p[k..], n)
  }

  /** The chunks are non-empty, at most n bytes each, and concatenate to the payload. */
  lemma {:induction false} ChunksProperties(p: seq<byte>, n: nat)
    requires n > 0
    ensures var cs := Chunks(p, n);
      && (forall i :: 0 <= i < |cs| ==> 0 < |cs[i]| <= n)
      && Concat(cs) == p
    decreases |p|
  {
    if |p| > 0 {
      var k := if |p| < n then |p| else n;
      var rest := Chunks(p[k..], n);
      ChunksProperties(p[k..], n);
      var cs := Chunks(p, n);
      assert cs[1..] == rest;
      assert p == p[..k] + p[k..];
      forall i | 0 <= i < |cs|
        ensures 0 < |cs[i]| <= n
      {
        if i > 0 {
          assert cs[i] == rest[i - 1];
        }
      }
    }
  }

  /** A fragment before the opcode and FIN fix-up: CONTINUATION, not final. */
  function RawFragment(payload: seq<byte>, mask: bool, key: Key): Frame {
    Frame(CONTINUATION, payload, if mask then key else [], false, false, false, false)
  }

  /** One raw fragment per chunk, fragment i masked with keys(i). */
  function RawFragments(cs: seq<seq<byte>>, mask: bool, keys: nat -> Key): (r: seq<Frame>)
    ensures |r| == |cs|
  {
    seq(|cs|, i requires 0 <= i < |cs| => RawFragment(cs[i], mask, keys(i)))
  }

  /** What `Frame.fragment` returns, the random key of fragment i being keys(i). */
  function FragmentFrames(f: Frame, n: nat, mask: bool, keys: nat -> Key): (r: seq<Frame>)
    requires n > 0
  {
    var cs := Chunks(f.payload, n);
    seq(|cs|, i requires 0 <= i < |cs| =>
      Frame(if i == 0 then f.opcode else CONTINUATION, cs[i], if mask then keys(i) else [],
            i == |cs| - 1, false, false, false))
  }

  /** `Frame.fragment`, with the error that range() and frames[0] raise. */
  function Fragment(f: Frame, size: int, mask: bool, keys: nat -> Key): (r: Result<seq<Frame>>)
    ensures r.Ok? <==> size > 0 && |f.payload| > 0
    ensures size == 0 ==> r == Err(ZeroFragmentSize)
    ensures size != 0 && r.Err? ==> r == Err(NoFragments)
  {
    if size == 0 then Err(ZeroFragmentSize)
    else if size < 0 || |f.payload| == 0 then Err(NoFragments)
    else Ok(FragmentFrames(f, size, mask, keys))
  }

  /** One step of the fragment loop: the next piece is the first chunk of what is left. */
  lemma ChunksStep(p: seq<byte>, start: nat, n: nat)
    requires n > 0 && start < |p|
    ensures var end := if start + n < |p| then start + n else |p|;
      Chunks(p[start..], n) == [p[start..end]] + Chunks(p[end..], n)
  {
    var end := if start + n < |p| then start + n else |p|;
    assert p[start..][end - start..] == p[end..];
    assert p[start..][..end - start] == p[start..end];
  }

  /** The chunk cut at `start` is chunk k of the whole payload, and what follows are the next ones. */
  lemma SplitStep(p: seq<byte>, start: nat, n: nat, cs: seq<seq<byte>>, k: nat)
    requires n > 0 && start < |p| && cs == Chunks(p, n)
    requires k <= |cs| && Chunks(p[start..], n) == cs[k..]
    ensures var end := if start + n < |p| then start + n else |p|;
      && k < |cs| && cs[k] == p[start..end] && Chunks(p[end..], n) == cs[k + 1..]
  {
    ChunksStep(p, start, n);
    assert cs[k..][1..] == cs[k + 1..];
  }

  /** The raw fragments of one more chunk extend those of the chunks before it. */
  lemma RawFragmentsStep(cs: seq<seq<byte>>, k: nat, mask: bool, keys: nat -> Key)
    requires k < |cs|
    ensures RawFragments(cs[..k + 1], mask, keys) == RawFragments(cs[..k], mask, keys) + [RawFragment(cs[k], mask, keys(k))]
  {
  }

  /** Fixing the first opcode and the last FIN of the raw pieces gives FragmentFrames. */
  lemma FixUpFragments(f: Frame, n: nat, mask: bool, keys: nat -> Key)
    requires n > 0 && |Chunks(f.payload, n)| > 0
    ensures var frames := RawFragments(Chunks(f.payload, n), mask, keys);
      var first := frames[0 := frames[0].(opcode := f.opcode)];
      first[|first| - 1 := first[|first| - 1].(final := true)] == FragmentFrames(f, n, mask, keys)
  {
    var frames := RawFragments(Chunks(f.payload, n), mask, keys);
    var first := frames[0 := frames[0].(opcode := f.opcode)];
    var fixed := first[|first| - 1 := first[|first| - 1].(final := true)];
    var expected := FragmentFrames(f, n, mask, keys);
    var cs := Chunks(f.payload, n);
    assert |fixed| == |expected|;
    forall i | 0 <= i < |fixed|
      ensures fixed[i] == expected[i]
    {
      assert frames[i] == RawFragment(cs[i], mask, keys(i));
    }
  }

  /** The loop of `Frame.fragment`: one CONTINUATION, non-final piece per chunk. */
  method SplitPayload(p: seq<byte>, size: nat, mask: bool, keys: nat -> Key) returns (frames: seq<Frame>)
    requires size > 0
    ensures frames == RawFragments(Chunks(p, size), mask, keys)
  {
    ghost var cs := Chunks(p, size);
    frames := [];
    var start := 0;
    while start < |p|
      invariant 0 <= start <= |p| && |frames| <= |cs|
      invariant Chunks(p[start..], size) == cs[|frames|..]
      invariant frames == RawFragments(cs[..|frames|], mask, keys)
      decreases |p| - start
    {
      var end := if start + size < |p| then start + size else |p|;
      SplitStep(p, start, size, cs, |frames|);
      RawFragmentsStep(cs, |frames|, mask, keys);
      frames := frames + [RawFragment(p[start..end], mask, keys(|frames|))];
      start := end;
    }
    assert p[start..] == [];
    assert cs[..|frames|] == cs;
  }

  /** `Frame.fragment`: split, then give the first piece the opcode and the last one FIN. */
  method FragmentLoop(f: Frame, size: int, mask: bool, keys: nat -> Key) returns (r: Result<seq<Frame>>)
    ensures r == Fragment(f, size, mask, keys)
  {
    if size == 0 {
      return Err(ZeroFragmentSize);
    }
    var frames: seq<Frame> := [];
    if size > 0 {
      frames := SplitPayload(f.payload, size, mask, keys);
      if |frames| > 0 {
        FixUpFragments(f, size, mask, keys);
      }
    }
    if |frames| == 0 {
      return Err(NoFragments);
    }
    frames := frames[0 := frames[0].(opcode := f.opcode)];
    frames := frames[|frames| - 1 := frames[|frames| - 1].(final := true)];
    return Ok(frames);
  }

  /** The pieces rebuild the payload; each is at most `size` bytes; only the first keeps the opcode; only the last is final. */
  lemma FragmentProperties(f: Frame, size: int, mask: bool, keys: nat -> Key)
    requires size > 0 && |f.payload| > 0
    ensures var r := Fragment(f, size, mask, keys);
      && r.Ok? && |r.value| >= 1
      && Concat(seq(|r.value|, i requires 0 <= i < |r.value| => r.value[i].payload)) == f.payload
      && (forall i :: 0 <= i < |r.value| ==> |r.value[i].payload| <= size)
      && r.value[0].opcode == f.opcode
      && (forall i :: 1 <= i < |r.value| ==> r.value[i].opcode == CONTINUATION)
      && (forall i :: 0 <= i < |r.value| ==> (r.value[i].final <==> i == |r.value| - 1))
  {
    var r := FragmentFrames(f, size, mask, keys);
    var ps := seq(|r|, i requires 0 <= i < |r| => r[i].payload);
    assert ps == Chunks(f.payload, size);
    ChunksProperties(f.payload, size);
  }
}
